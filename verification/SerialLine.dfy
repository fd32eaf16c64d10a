/**
  Line reassembly of `TeAmanagement/sersock.c`: `getserdata` collects the bytes of a serial
  device in a static buffer and hands them out line by line.
*/
module Framing {

  datatype Option<T> = None | Some(value: T)

  const BUFLEN := 1024

  /** strchr for a newline in the C string that starts with s and ends behind it. */
  function FindNewline(s: seq<char>): (r: Option<nat>)
    ensures r.Some? ==> r.value < |s| && s[r.value] == '\n' && '\n' !in s[..r.value] && '\0' !in s[..r.value]
  {
    if s == [] || s[0] == '\0' then None
    else if s[0] == '\n' then Some(0)
    else
      var r := FindNewline(s[1..]);
      if r.None? then None
      else
        assert s[..r.value + 1] == [s[0]] + s[1..][..r.value];
        Some(r.value + 1)
  }

  /** strlen of the C string that starts with s and ends behind it. */
  function StrLen(s: seq<char>): (n: nat)
    ensures n <= |s| && '\0' !in s[..n] && (n < |s| ==> s[n] == '\0')
  {
    if s == [] || s[0] == '\0' then 0
    else
      assert s[..StrLen(s[1..]) + 1] == [s[0]] + s[1..][..StrLen(s[1..])];
      1 + StrLen(s[1..])
  }

  ghost predicate NulFree(s: seq<char>) { '\0' !in s }

  lemma FindStep(s: seq<char>)
    ensures s == [] || s[0] == '\0' ==> FindNewline(s).None?
    ensures s != [] && s[0] == '\n' ==> FindNewline(s) == Some(0)
    ensures s != [] && s[0] != '\0' && s[0] != '\n' ==>
      var r := FindNewline(s[1..]); FindNewline(s) == if r.None? then None else Some(r.value + 1)
  {
  }

  /** Where the newline is found depends only on the bytes up to it. */
  lemma {:induction false} FoundInPrefix(s: seq<char>, j: nat)
    requires j <= |s|
    ensures FindNewline(s[..j]).Some? ==> FindNewline(s) == FindNewline(s[..j])
    ensures FindNewline(s).Some? && FindNewline(s).value < j ==> FindNewline(s[..j]) == FindNewline(s)
  {
    if j > 0 && s[0] != '\0' && s[0] != '\n' {
      FoundInPrefix(s[1..], j - 1);
      assert s[..j][1..] == s[1..][..j - 1];
    }
  }

  /** The bytes of all items one after the other. */
  ghost function Flat(items: seq<seq<char>>): seq<char> {
    if items == [] then [] else Flat(items[..|items| - 1]) + items[|items| - 1]
  }

  /** A complete frame: the bytes up to the first newline, found as a C string, or a full buffer without one. */
  ghost predicate IsFrame(f: seq<char>) {
    && 0 < |f| <= BUFLEN - 1
    && (FindNewline(f) == Some(|f| - 1) || (FindNewline(f).None? && |f| == BUFLEN - 1))
  }

  /** What is handed out for a frame: all of it, or a full buffer as far as the C string goes. */
  ghost function ItemOf(f: seq<char>): (item: seq<char>)
    ensures item <= f
  {
    if FindNewline(f).Some? then f else f[..StrLen(f)]
  }

  ghost function Items(frames: seq<seq<char>>): (items: seq<seq<char>>)
    ensures |items| == |frames| && forall i :: 0 <= i < |items| ==> items[i] == ItemOf(frames[i])
  {
    seq(|frames|, i requires 0 <= i < |frames| => ItemOf(frames[i]))
  }

  /** What is lost of the frames. */
  ghost function Lost(frames: seq<seq<char>>): seq<char> {
    if frames == [] then []
    else
      var f := frames[|frames| - 1];
      Lost(frames[..|frames| - 1]) + f[|ItemOf(f)|..]
  }

  lemma ItemsConcat(a: seq<seq<char>>, b: seq<seq<char>>)
    ensures Items(a + b) == Items(a) + Items(b)
  {
  }

  /** Bytes of the frames are handed out or lost, and none is lost without a zero byte. */
  lemma {:induction false} ItemsAndLost(frames: seq<seq<char>>)
    ensures |Flat(frames)| == |Flat(Items(frames))| + |Lost(frames)|
    ensures Lost(frames) == [] <==> Items(frames) == frames
    ensures NulFree(Flat(frames)) ==> Lost(frames) == []
  {
    hide ItemOf, Items;
    if frames != [] {
      var n := |frames| - 1;
      var f := frames[n];
      ItemsAndLost(frames[..n]);
      assert frames == frames[..n] + [f];
      ItemsConcat(frames[..n], [f]);
      assert Items([f]) == [ItemOf(f)];
      FlatSnoc(Items(frames[..n]), ItemOf(f));
      ItemWhole(f);
      if NulFree(Flat(frames)) {
        assert forall x :: x in f ==> x in Flat(frames);
        assert forall x :: x in Flat(frames[..n]) ==> x in Flat(frames);
      }
    }
  }

  lemma FlatSnoc(items: seq<seq<char>>, item: seq<char>)
    ensures Flat(items + [item]) == Flat(items) + item
  {
    assert (items + [item])[..|items|] == items;
  }

  lemma LostSnoc(frames: seq<seq<char>>, f: seq<char>)
    ensures Lost(frames + [f]) == Lost(frames) + f[|ItemOf(f)|..]
    ensures Items(frames + [f]) == Items(frames) + [ItemOf(f)]
  {
    hide ItemOf;
    assert (frames + [f])[..|frames|] == frames;
  }

  lemma ItemWhole(f: seq<char>)
    ensures f[|ItemOf(f)|..] == [] <==> ItemOf(f) == f
    ensures NulFree(f) ==> ItemOf(f) == f
  {
    hide FindNewline;
    assert f[..|f|] == f;
  }

  /** The frames and the rest that a stream of bytes splits into, however it was chunked. */
  ghost function Frames(s: seq<char>): (r: (seq<seq<char>>, seq<char>))
    decreases |s|
  {
    var n := FirstFrame(s);
    if n == 0 then ([], s)
    else
      var (items, rest) := Frames(s[n..]);
      ([s[..n]] + items, rest)
  }

  /** The length of the first complete frame of a stream, or 0 if there is none yet. */
  ghost function FirstFrame(s: seq<char>): (n: nat)
    ensures n <= |s|
    ensures n > 0 ==> IsFrame(s[..n])
    ensures forall j: nat :: j <= |s| && IsFrame(s[..j]) ==> j == n
  {
    if exists k :: 0 < k <= |s| && IsFrame(s[..k]) then
      var k :| 0 < k <= |s| && IsFrame(s[..k]);
      FrameUnique(s, k);
      k
    else 0
  }

  lemma FrameUnique(s: seq<char>, k: nat)
    requires k <= |s| && IsFrame(s[..k])
    ensures forall j: nat :: j <= |s| && IsFrame(s[..j]) ==> j == k
  {
    hide IsFrame;
    forall j: nat | j <= |s| && IsFrame(s[..j]) ensures j == k {
      if j < k { NoFrameWithin(s, j, k); }
      if k < j { NoFrameWithin(s, k, j); }
    }
  }

  /** No frame begins another, so where a frame ends does not depend on what follows. */
  lemma NoFrameWithin(s: seq<char>, i: nat, j: nat)
    requires i < j <= |s| && IsFrame(s[..i])
    ensures !IsFrame(s[..j])
  {
    hide FindNewline;
    assert s[..j][..i] == s[..i];
    FoundInPrefix(s[..j], i);
  }

  /** Without a newline to be found and with room in the buffer there is no frame yet. */
  lemma NoFrameYet(s: seq<char>)
    requires FindNewline(s).None? && |s| < BUFLEN - 1
    ensures Frames(s) == ([], s)
  {
    hide FindNewline;
    var n := FirstFrame(s);
    if n > 0 { FoundInPrefix(s, n); }
  }

  lemma FramesCons(item: seq<char>, s: seq<char>)
    requires IsFrame(item)
    ensures Frames(item + s) == ([item] + Frames(s).0, Frames(s).1)
  {
    var t := item + s;
    assert t[..|item|] == item;
    assert t[|item|..] == s;
  }

  /** Frames taken in front of the pending bytes are the first frames of the whole stream. */
  lemma {:induction false} FramesAfter(items: seq<seq<char>>, s: seq<char>)
    requires forall i :: 0 <= i < |items| ==> IsFrame(items[i])
    ensures Frames(Flat(items) + s) == (items + Frames(s).0, Frames(s).1)
    decreases |items|
  {
    hide Frames, IsFrame, FindNewline;
    if items == [] {
      assert Flat(items) + s == s && items + Frames(s).0 == Frames(s).0;
    } else {
      var n := |items| - 1;
      FlatMore(items, s);
      FramesAfter(items[..n], items[n] + s);
      FramesCons(items[n], s);
      assert items + Frames(s).0 == items[..n] + ([items[n]] + Frames(s).0);
    }
  }

  lemma FlatMore(items: seq<seq<char>>, s: seq<char>)
    requires items != []
    ensures var n := |items| - 1; Flat(items) + s == Flat(items[..n]) + (items[n] + s)
  {
  }

}

/** How much one call reads, and why it stops. */
module Readings {
  import opened Framing

  /** One answer of the device: nothing to read, an error of the wait, or up to n bytes at hand. */
  datatype Poll = Quiet | Failure | Ready(n: nat)

  datatype Reason = Silent | NewLine | BufferFull | Interrupted | Disconnected

  /** The bytes that are read, the number of polls that takes, and why no more is read. */
  datatype Session = Session(data: seq<char>, used: nat, why: Reason)

  function Least(a: nat, b: nat): nat { if a < b then a else b }

  /** Chunk after chunk, until there is a newline, no space or nothing to read; no poll at all is a quiet one. */
  ghost function Taken(space: nat, polls: seq<Poll>, stream: seq<char>): (s: Session)
    requires 0 < space
    ensures s.used <= |polls| && |s.data| <= space && s.data <= stream
    decreases |polls|
  {
    if polls == [] then Session([], 0, Silent)
    else
      match polls[0]
      case Quiet => Session([], 1, Silent)
      case Failure => Session([], 1, Interrupted)
      case Ready(n) =>
        var l := Least(Least(n, space), |stream|);
        var chunk := stream[..l];
        if l == 0 then Session([], 1, Disconnected)
        else if FindNewline(chunk).Some? then Session(chunk, 1, NewLine)
        else if l == space then Session(chunk, 1, BufferFull)
        else
          var s := Taken(space - l, polls[1..], stream[l..]);
          Session(chunk + s.data, 1 + s.used, s.why)
  }

  /** The bytes that the polls announce. */
  ghost function AtHand(polls: seq<Poll>): nat {
    if polls == [] then 0 else (if polls[0].Ready? then polls[0].n else 0) + AtHand(polls[1..])
  }

  /** What the last poll of a session was, for each reason to stop. */
  ghost predicate Justified(s: Session, space: nat, polls: seq<Poll>, stream: seq<char>)
    requires s.used <= |polls| && s.data <= stream
  {
    match s.why
    case Silent => (s.used > 0 && polls[s.used - 1].Quiet?) || (s.used == |polls| && (s.used > 0 ==> polls[s.used - 1].Ready?))
    case Interrupted => s.used > 0 && polls[s.used - 1].Failure?
    case Disconnected => s.used > 0 && polls[s.used - 1].Ready? && (polls[s.used - 1].n == 0 || s.data == stream)
    case NewLine => s.used > 0 && polls[s.used - 1].Ready? && '\n' in s.data
    case BufferFull => s.used > 0 && polls[s.used - 1].Ready? && |s.data| == space
  }

  /** The polls before the last one announced bytes. */
  ghost predicate OnlyReady(polls: seq<Poll>, k: int) {
    forall i :: 0 <= i < k && i < |polls| ==> polls[i].Ready? && polls[i].n > 0
  }

  /** The first poll announces bytes, and neither the buffer nor the chunk ends the session. */
  ghost predicate GoesOn(space: nat, polls: seq<Poll>, stream: seq<char>) {
    && polls != [] && polls[0].Ready?
    && var l := Least(Least(polls[0].n, space), |stream|);
       0 < l < space && FindNewline(stream[..l]).None?
  }

  /** A session that goes on, in terms of the rest of it. */
  lemma TakenGoesOn(space: nat, polls: seq<Poll>, stream: seq<char>)
    requires 0 < space && GoesOn(space, polls, stream)
    ensures var l := Least(Least(polls[0].n, space), |stream|);
            var s, rest := Taken(space, polls, stream), Taken(space - l, polls[1..], stream[l..]);
            && s == Session(stream[..l] + rest.data, 1 + rest.used, rest.why)
            && polls[..s.used] == [polls[0]] + polls[1..][..rest.used]
            && stream == stream[..l] + stream[l..]
  {
    hide FindNewline;
  }

  lemma AtHandCons(p: Poll, polls: seq<Poll>)
    ensures AtHand([p] + polls) == (if p.Ready? then p.n else 0) + AtHand(polls)
  {
    assert ([p] + polls)[1..] == polls;
  }

  /** A session reads all that its polls announce, as far as there are bytes and space. */
  lemma {:induction false} TakenAmount(space: nat, polls: seq<Poll>, stream: seq<char>)
    requires 0 < space
    ensures var s := Taken(space, polls, stream);
            |s.data| == Least(Least(AtHand(polls[..s.used]), space), |stream|)
    decreases |polls|
  {
    hide FindNewline, AtHand;
    var s := Taken(space, polls, stream);
    if GoesOn(space, polls, stream) {
      var l := Least(Least(polls[0].n, space), |stream|);
      TakenGoesOn(space, polls, stream);
      TakenAmount(space - l, polls[1..], stream[l..]);
      AtHandCons(polls[0], polls[1..][..s.used - 1]);
    } else {
      AtHandNone();
      if polls != [] {
        AtHandCons(polls[0], []);
        assert polls[..1] == [polls[0]] + [];
      } else {
        assert polls[..0] == [];
      }
    }
  }

  lemma AtHandNone()
    ensures AtHand([]) == 0
  {
  }

  /** Each poll of it but the last announced bytes. */
  lemma {:induction false} TakenPolls(space: nat, polls: seq<Poll>, stream: seq<char>)
    requires 0 < space
    ensures OnlyReady(polls, Taken(space, polls, stream).used - 1)
    decreases |polls|
  {
    hide FindNewline;
    if GoesOn(space, polls, stream) {
      var l := Least(Least(polls[0].n, space), |stream|);
      TakenGoesOn(space, polls, stream);
      TakenPolls(space - l, polls[1..], stream[l..]);
      var k := Taken(space, polls, stream).used - 1;
      forall i | 0 <= i < k && i < |polls| ensures polls[i].Ready? && polls[i].n > 0 {
        if i > 0 { assert polls[i] == polls[1..][i - 1]; }
      }
    }
  }

  /** It ends for the reason it gives. */
  lemma {:induction false} TakenReason(space: nat, polls: seq<Poll>, stream: seq<char>)
    requires 0 < space
    ensures Justified(Taken(space, polls, stream), space, polls, stream)
    ensures var s := Taken(space, polls, stream); s.why != BufferFull && s.why != NewLine ==> |s.data| < space
    decreases |polls|
  {
    hide FindNewline;
    if GoesOn(space, polls, stream) {
      var l := Least(Least(polls[0].n, space), |stream|);
      TakenGoesOn(space, polls, stream);
      TakenReason(space - l, polls[1..], stream[l..]);
      var s, rest := Taken(space, polls, stream), Taken(space - l, polls[1..], stream[l..]);
      assert rest.used > 0 ==> polls[s.used - 1] == polls[1..][rest.used - 1];
    } else if polls != [] && polls[0].Ready? {
      NewlineIn(stream[..Least(Least(polls[0].n, space), |stream|)]);
    }
  }

  /** Without zero bytes it ends with a newline just when it has read one. */
  lemma {:induction false} TakenNewline(space: nat, polls: seq<Poll>, stream: seq<char>)
    requires 0 < space
    ensures var s := Taken(space, polls, stream); NulFree(s.data) ==> ('\n' in s.data <==> s.why == NewLine)
    decreases |polls|
  {
    hide FindNewline;
    if polls != [] && polls[0].Ready? {
      var l := Least(Least(polls[0].n, space), |stream|);
      NewlineIn(stream[..l]);
      if GoesOn(space, polls, stream) {
        TakenGoesOn(space, polls, stream);
        TakenNewline(space - l, polls[1..], stream[l..]);
      }
    }
  }

  lemma {:induction false} NewlineIn(c: seq<char>)
    ensures FindNewline(c).Some? ==> '\n' in c
    ensures NulFree(c) ==> (FindNewline(c).Some? <==> '\n' in c)
  {
    if c != [] && c[0] != '\0' && c[0] != '\n' {
      NewlineIn(c[1..]);
      assert c == [c[0]] + c[1..];
    }
  }

  /** The first poll of a session, and the session from there. */
  lemma TakenNext(space: nat, polls: seq<Poll>, stream: seq<char>, l: nat)
    requires 0 < space && polls != [] && polls[0].Ready? && l == Least(Least(polls[0].n, space), |stream|)
    ensures l == 0 ==> Taken(space, polls, stream) == Session([], 1, Disconnected)
    ensures l > 0 && FindNewline(stream[..l]).Some? ==> Taken(space, polls, stream) == Session(stream[..l], 1, NewLine)
    ensures l > 0 && FindNewline(stream[..l]).None? && l == space ==> Taken(space, polls, stream) == Session(stream[..l], 1, BufferFull)
    ensures l > 0 && FindNewline(stream[..l]).None? && l < space ==>
      var s := Taken(space - l, polls[1..], stream[l..]);
      Taken(space, polls, stream) == Session(stream[..l] + s.data, 1 + s.used, s.why)
  {
    hide FindNewline;
  }

  lemma TakenStops(space: nat, polls: seq<Poll>, stream: seq<char>)
    requires 0 < space
    ensures polls == [] ==> Taken(space, polls, stream) == Session([], 0, Silent)
    ensures polls != [] && polls[0].Quiet? ==> Taken(space, polls, stream) == Session([], 1, Silent)
    ensures polls != [] && polls[0].Failure? ==> Taken(space, polls, stream) == Session([], 1, Interrupted)
  {
  }
}

module SerialLine {
  import opened Framing
  import opened Readings

  /** The device: the answers it will give and the bytes it will deliver. */
  class Port {
    var polls: seq<Poll>
    var stream: seq<char>

    constructor (polls: seq<Poll>, stream: seq<char>)
      ensures this.polls == polls && this.stream == stream
    {
      this.polls, this.stream := polls, stream;
    }

    method CanBeRead() returns (p: Poll)
      modifies this`polls
      ensures p == if old(polls) == [] then Quiet else old(polls)[0]
      ensures polls == if old(polls) == [] then [] else old(polls)[1..]
    {
      if polls == [] { return Quiet; }
      p := polls[0];
      polls := polls[1..];
    }

    /** At most max bytes, and no more than are at hand. */
    method Read(n: nat, max: nat) returns (data: seq<char>)
      modifies this`stream
      ensures |data| == Least(Least(n, max), |old(stream)|) && old(stream) == data + stream
    {
      var l := if n < max then n else max;
      if |stream| < l { l := |stream|; }
      data := stream[..l];
      stream := stream[l..];
    }
  }

  class LineReader {
    const serbuf: array<char>
    var ptr: nat   // where the next byte goes
    var blen: nat  // free space, less the terminating zero
    ghost var received: seq<char>       // every byte read so far
    ghost var taken: seq<seq<char>>     // every frame taken out of the buffer so far
    ghost var returned: seq<seq<char>>  // every item handed out so far
    ghost var dropped: seq<char>        // bytes that were neither handed out nor kept

    /** The bytes waiting in the buffer. */
    ghost function Pending(): seq<char>
      requires ptr <= serbuf.Length
      reads this, serbuf
    {
      serbuf[..ptr]
    }

    ghost predicate Terminated()
      reads this, serbuf
    {
      serbuf.Length == BUFLEN && ptr + blen == BUFLEN - 1 && serbuf[ptr] == '\0'
    }

    /**
      Between calls there is free space, and every byte received is in a complete frame taken or
      still pending; the frames determine what was handed out and what was dropped.
     */
    ghost predicate Valid()
      reads this, serbuf
    {
      && Terminated() && 0 < blen
      && Accounted(received, taken, returned, dropped, Pending())
    }

    constructor ()
      ensures Valid() && fresh(serbuf)
      ensures received == [] && returned == [] && dropped == [] && Pending() == []
    {
      serbuf := new char[BUFLEN](_ => '\0');
      ptr, blen := 0, BUFLEN - 1;
      received, taken, returned, dropped := [], [], [], [];
    }

    /** The place of the first newline of the C string at from, or -1. */
    method StrChr(from: nat) returns (k: int)
      requires Terminated() && from <= ptr
      ensures var r := FindNewline(serbuf[from..ptr]);
              k == if r.Some? then from + r.value else -1
    {
      hide FindNewline;
      k := from;
      while serbuf[k] != '\0' && serbuf[k] != '\n'
        invariant from <= k <= ptr
        invariant var r, q := FindNewline(serbuf[from..ptr]), FindNewline(serbuf[k..ptr]);
                  && (r.Some? <==> q.Some?)
                  && (r.Some? ==> from + r.value == k + q.value)
        decreases ptr - k
      {
        FindStep(serbuf[k..ptr]);
        assert serbuf[k..ptr][1..] == serbuf[k + 1..ptr];
        k := k + 1;
      }
      FindStep(serbuf[k..ptr]);
      if serbuf[k] == '\0' { k := -1; }
    }

    method StringLength() returns (n: nat)
      requires Terminated()
      ensures n == StrLen(Pending())
    {
      n := 0;
      while serbuf[n] != '\0'
        invariant n <= ptr && StrLen(serbuf[..ptr]) == n + StrLen(serbuf[n..ptr])
        decreases ptr - n
      {
        assert serbuf[n..ptr][1..] == serbuf[n + 1..ptr];
        n := n + 1;
      }
    }

    /** Puts the bytes just read behind the pending ones. */
    method Store(data: seq<char>)
      requires Terminated() && |data| <= blen
      modifies this`ptr, this`blen, serbuf
      ensures Terminated() && Pending() == old(Pending()) + data
    {
      forall i | 0 <= i < |data| { serbuf[ptr + i] := data[i]; }
      serbuf[ptr + |data|] := '\0';
      assert serbuf[..ptr + |data|] == old(serbuf[..ptr]) + data;
      ptr := ptr + |data|;
      blen := blen - |data|;
    }

    /**
      Reads chunk after chunk until there is a newline, no space or nothing more to read;
      stopped tells that the wait or the device failed, and len is then what the caller gets.
     */
    method Collect(port: Port) returns (stopped: bool, len: int, ghost session: Session)
      requires Terminated() && 0 < blen
      modifies this`ptr, this`blen, this`received, serbuf, port
      ensures session == Taken(old(blen), old(port.polls), old(port.stream))
      ensures Terminated() && (stopped ==> 0 < blen)
      ensures Pending() == old(Pending()) + session.data && received == old(received) + session.data
      ensures old(port.stream) == session.data + port.stream && port.polls == old(port.polls)[session.used..]
      ensures stopped <==> session.why == Interrupted || session.why == Disconnected
      ensures len == if session.why == Disconnected then -1 else 0
    {
      hide FindNewline, Taken;
      ghost var held, got, first := Pending(), received, port.stream;
      ghost var data: seq<char>, used: nat := [], 0;
      session := Taken(blen, port.polls, port.stream);
      var go, why := true, Silent;
      while go
        invariant Terminated() && (go ==> 0 < blen) && (why == Interrupted || why == Disconnected ==> 0 < blen)
        invariant Pending() == held + data && received == got + data && first == data + port.stream
        invariant used <= |old(port.polls)| && port.polls == old(port.polls)[used..]
        invariant if go then Continues(session, data, used, Taken(blen, port.polls, port.stream)) else session == Session(data, used, why)
        decreases blen, go
      {
        ghost var chunk, u;
        go, why, chunk, u := Round(port);
        Joined(held, data, chunk);
        Joined(got, data, chunk);
        Joined(data, chunk, port.stream);
        if go { Joined(data, chunk, Taken(blen, port.polls, port.stream).data); }
        data, used := data + chunk, used + u;
      }
      stopped := why == Interrupted || why == Disconnected;
      len := if why == Disconnected then -1 else 0;
    }

    /** One poll, and the read that may follow; go tells whether to go on, and why says why not. */
    method Round(port: Port) returns (go: bool, why: Reason, ghost chunk: seq<char>, ghost used: nat)
      requires Terminated() && 0 < blen
      modifies this`ptr, this`blen, this`received, serbuf, port
      ensures Terminated() && blen <= old(blen) && (go ==> 0 < blen < old(blen))
      ensures why == Interrupted || why == Disconnected ==> 0 < blen && !go
      ensures Pending() == old(Pending()) + chunk && received == old(received) + chunk
      ensures old(port.stream) == chunk + port.stream
      ensures used <= |old(port.polls)| && port.polls == old(port.polls)[used..]
      ensures var whole := Taken(old(blen), old(port.polls), old(port.stream));
              if go then Continues(whole, chunk, used, Taken(blen, port.polls, port.stream)) else whole == Session(chunk, used, why)
    {
      hide FindNewline, Taken;
      ghost var polls, stream := port.polls, port.stream;
      TakenStops(blen, polls, stream);
      go, why, chunk, used := false, Silent, [], if polls == [] then 0 else 1;
      var p := port.CanBeRead();
      match p
      case Quiet =>
      case Failure => why := Interrupted;
      case Ready(n) =>
        var data := port.Read(n, blen);
        chunk := data;
        assert stream[..|data|] == data && stream[|data|..] == port.stream;
        TakenNext(blen, polls, stream, |data|);
        if |data| < 1 {
          why := Disconnected;
        } else {
          var from := ptr;
          Store(data);
          received := received + data;
          assert serbuf[from..ptr] == data;
          var nl := StrChr(from);
          go := nl < 0 && 0 < blen;
          why := if nl >= 0 then NewLine else BufferFull;
        }
    }

    /** Moves the bytes from place k on to the front of the buffer. */
    method Shift(k: nat)
      requires Terminated() && k <= ptr
      modifies this`ptr, this`blen, serbuf
      ensures Terminated() && Pending() == old(Pending())[k..]
    {
      ghost var was := serbuf[..ptr];
      forall i | 0 <= i < ptr - k { serbuf[i] := serbuf[k + i]; }
      ptr := ptr - k;
      blen := BUFLEN - 1 - ptr;
      assert serbuf[..ptr] == was[k..];
      serbuf[ptr] := '\0';
      assert serbuf[..ptr] == was[k..];
    }

    /** One call of getserdata. The ghost results are the bytes it read and whether reading failed. */
    method GetSerData(port: Port?) returns (line: Option<seq<char>>, len: Option<int>, ghost data: seq<char>, ghost stopped: bool)
      requires Valid()
      modifies this, serbuf, port
      ensures Valid() && received == old(received) + data
      ensures port == null ==> line == None && len == None && data == []
      ensures port != null ==>
        && data == Taken(BUFLEN - 1 - |old(Pending())|, old(port.polls), old(port.stream)).data
        && ReadCall(line, len, Pending(), port.polls, port.stream) == Call(old(Pending()), old(port.polls), old(port.stream))
        && stopped == CallFails(old(Pending()), old(port.polls), old(port.stream))
      ensures port != null ==> old(port.stream) == data + port.stream
      ensures Outcome(old(Pending()) + data, line, Pending(), stopped || port == null)
      ensures line.None? ==> taken == old(taken) && returned == old(returned) && dropped == old(dropped)
      ensures line.Some? ==> returned == old(returned) + [line.value] && len == Some(|line.value|)
      ensures line.Some? ==> dropped == old(dropped) + Excess(old(Pending()) + data)
    {
      hide Accounted, Outcome, Excess, FindNewline, StrLen, Call, CallFails, Taken, ItemOf, FrameLength, Frames;
      line, len, data, stopped := None, None, [], false;
      if port == null {
        assert Pending() + data == Pending();
        NoOutcome(Pending(), true);
        return;
      }
      ghost var before := Pending();
      ghost var got := received;
      ghost var polls, stream := port.polls, port.stream;
      var failed, l, session := Collect(port);
      stopped, data := failed, session.data;
      AccountedRead(got, taken, returned, dropped, before, data);
      ghost var c := Pending();
      assert stream[|data|..] == port.stream;
      FailsFor(before, polls, stream, session);
      if failed {
        len := Some(l);
        CallWithout(before, polls, stream, session, l);
        NoOutcome(c, true);
        return;
      }
      var nl := StrChr(0);
      assert serbuf[0..ptr] == c;
      if blen > 0 && nl < 0 {
        len := Some(0);
        CallWithout(before, polls, stream, session, 0);
        NoOutcome(c, false);
        return;
      }
      var item := Deliver(nl);
      OutcomeItem(c, item, Pending());
      CallWith(before, polls, stream, session, item, Pending());
      line, len := Some(item), Some(|item|);
    }

    /** The line up to the newline at nl, or the whole of a full buffer, taken out of the buffer. */
    method Deliver(nl: int) returns (item: seq<char>)
      requires Terminated() && Accounted(received, taken, returned, dropped, Pending())
      requires nl == (if FindNewline(Pending()).Some? then FindNewline(Pending()).value else -1)
      requires nl >= 0 || blen == 0
      modifies this, serbuf
      ensures Valid() && received == old(received) && returned == old(returned) + [item]
      ensures dropped == old(dropped) + Excess(old(Pending()))
      ensures Outcome(old(Pending()), Some(item), Pending(), false)
    {
      hide Accounted, Outcome, Excess, FindNewline, StrLen;
      ghost var c := Pending();
      var n: nat;
      if nl >= 0 { n := nl + 1; } else { n := StringLength(); }
      AccountedLine(received, taken, returned, dropped, c);
      taken := taken + [c[..FrameLength(c)]];
      item := serbuf[..n];
      assert item == c[..n];
      dropped := dropped + Excess(c);
      returned := returned + [item];
      if nl >= 0 { Shift(n); } else { Shift(ptr); }
    }

    /** Several calls, one after the other. */
    method Drain(port: Port, calls: nat) returns (lines: seq<seq<char>>)
      requires Valid()
      modifies this, serbuf, port
      ensures Valid()
      ensures Drained(lines, Pending(), port.polls, port.stream) ==
        Calls(old(Pending()), old(port.polls), old(port.stream), calls)
    {
      hide Calls, Call, Accounted, Outcome, Excess, Taken;
      lines := [];
      ghost var pending, polls, stream := Pending(), port.polls, port.stream;
      NoCalls(pending, polls, stream);
      for i := 0 to calls
        invariant Valid()
        invariant Drained(lines, Pending(), port.polls, port.stream) == Calls(pending, polls, stream, i)
      {
        MoreCalls(pending, polls, stream, i);
        var line, _, _, _ := GetSerData(port);
        if line.Some? { lines := lines + [line.value]; }
      }
    }

    /** The frames taken are the first ones of all that was received, and the rest is pending. */
    lemma ReturnedItems()
      requires Valid()
      ensures Frames(received) == (taken + Frames(Pending()).0, Frames(Pending()).1)
      ensures Items(Frames(received).0) == returned + Items(Frames(Pending()).0)
      ensures FindNewline(Pending()).None? ==> returned == Items(Frames(received).0) && Pending() == Frames(received).1
    {
      hide FindNewline, Frames;
      FramesAfter(taken, Pending());
      ItemsConcat(taken, Frames(Pending()).0);
      if FindNewline(Pending()).None? { NoFrameYet(Pending()); }
    }

    /** Every byte received was handed out, was dropped or is pending; without zero bytes none is dropped. */
    lemma NothingAstray()
      requires Valid()
      ensures |received| == |Flat(returned)| + |dropped| + |Pending()|
      ensures dropped == [] ==> received == Flat(returned) + Pending()
      ensures NulFree(received) ==> dropped == []
    {
      ItemsAndLost(taken);
      if NulFree(received) { assert forall x :: x in Flat(taken) ==> x in received; }
    }
  }

  /** The session of data read so far, and the one still to come, make up the whole. */
  ghost predicate Continues(whole: Session, data: seq<char>, used: nat, rest: Session) {
    whole == Session(data + rest.data, used + rest.used, rest.why)
  }

  /** What one call gives and leaves: the line, the length, the pending bytes, the polls and the stream. */
  datatype Called = ReadCall(line: Option<seq<char>>, len: Option<int>, pending: seq<char>, polls: seq<Poll>, stream: seq<char>)

  ghost predicate CallFails(pending: seq<char>, polls: seq<Poll>, stream: seq<char>)
    requires |pending| < BUFLEN - 1
  {
    var why := Taken(BUFLEN - 1 - |pending|, polls, stream).why;
    why == Interrupted || why == Disconnected
  }

  /** What a call does with the bytes pending, the polls and the stream. */
  ghost function Call(pending: seq<char>, polls: seq<Poll>, stream: seq<char>): (r: Called)
    requires |pending| < BUFLEN - 1
    ensures |r.pending| < BUFLEN - 1
  {
    var s := Taken(BUFLEN - 1 - |pending|, polls, stream);
    var c, polls', stream' := pending + s.data, polls[s.used..], stream[|s.data|..];
    if CallFails(pending, polls, stream) then
      TakenReason(BUFLEN - 1 - |pending|, polls, stream);
      ReadCall(None, Some(if s.why == Disconnected then -1 else 0), c, polls', stream')
    else if FindNewline(c).None? && |c| < BUFLEN - 1 then ReadCall(None, Some(0), c, polls', stream')
    else
      var frame := c[..FrameLength(c)];
      ReadCall(Some(ItemOf(frame)), Some(|ItemOf(frame)|), c[FrameLength(c)..], polls', stream')
  }

  lemma FailsFor(pending: seq<char>, polls: seq<Poll>, stream: seq<char>, s: Session)
    requires |pending| < BUFLEN - 1 && s == Taken(BUFLEN - 1 - |pending|, polls, stream)
    ensures CallFails(pending, polls, stream) <==> s.why == Interrupted || s.why == Disconnected
  {
  }

  lemma CallWithout(pending: seq<char>, polls: seq<Poll>, stream: seq<char>, s: Session, len: int)
    requires |pending| < BUFLEN - 1 && s == Taken(BUFLEN - 1 - |pending|, polls, stream)
    requires var c := pending + s.data;
             s.why == Interrupted || s.why == Disconnected || (FindNewline(c).None? && |c| < BUFLEN - 1)
    requires len == if s.why == Disconnected then -1 else 0
    ensures Call(pending, polls, stream) == ReadCall(None, Some(len), pending + s.data, polls[s.used..], stream[|s.data|..])
  {
    hide FindNewline, Taken;
  }

  lemma CallWith(pending: seq<char>, polls: seq<Poll>, stream: seq<char>, s: Session, item: seq<char>, rest: seq<char>)
    requires |pending| < BUFLEN - 1 && s == Taken(BUFLEN - 1 - |pending|, polls, stream)
    requires s.why != Interrupted && s.why != Disconnected
    requires var c := pending + s.data;
             && (FindNewline(c).Some? || |c| == BUFLEN - 1)
             && item == ItemOf(c[..FrameLength(c)]) && rest == c[FrameLength(c)..]
    ensures Call(pending, polls, stream) == ReadCall(Some(item), Some(|item|), rest, polls[s.used..], stream[|s.data|..])
  {
    hide FindNewline, Taken, ItemOf, FrameLength;
  }

  lemma OutcomeItem(c: seq<char>, item: seq<char>, pending: seq<char>)
    requires |c| <= BUFLEN - 1 && Outcome(c, Some(item), pending, false)
    ensures item == ItemOf(c[..FrameLength(c)]) && pending == c[FrameLength(c)..]
    ensures FindNewline(c).Some? || |c| == BUFLEN - 1
  {
    hide FindNewline, StrLen;
    FrameTaken(c);
  }

  /** How the bytes c in the buffer, old and new, were divided by one call. */
  ghost predicate Outcome(c: seq<char>, line: Option<seq<char>>, pending: seq<char>, stopped: bool) {
    match line
    case None => pending == c && (!stopped ==> FindNewline(c).None? && |c| < BUFLEN - 1)
    case Some(item) =>
      match FindNewline(c)
      case Some(k) => item == c[..k + 1] && pending == c[k + 1..]
      case None => |c| == BUFLEN - 1 && item == c[..StrLen(c)] && pending == []
  }

  /** What an overflowing buffer loses: the bytes from its first zero byte on, if no newline comes before. */
  ghost function Excess(c: seq<char>): seq<char> {
    if FindNewline(c).Some? then [] else c[StrLen(c)..]
  }

  /** Nothing is lost just when a newline comes before any zero byte, or there is no zero byte. */
  lemma ExcessEmpty(c: seq<char>)
    ensures Excess(c) == [] <==> FindNewline(c).Some? || NulFree(c)
  {
    if FindNewline(c).None? && NulFree(c) {
      assert StrLen(c) == |c|;
    }
    if FindNewline(c).None? && StrLen(c) == |c| {
      assert c[..|c|] == c;
    }
  }

  lemma Joined(a: seq<char>, b: seq<char>, c: seq<char>)
    ensures a + (b + c) == (a + b) + c
  {
  }

  lemma NoOutcome(c: seq<char>, stopped: bool)
    requires !stopped ==> FindNewline(c).None? && |c| < BUFLEN - 1
    ensures Outcome(c, None, c, stopped)
  {
  }

  lemma AccountedRead(received: seq<char>, taken: seq<seq<char>>, returned: seq<seq<char>>, dropped: seq<char>,
                      pending: seq<char>, data: seq<char>)
    requires Accounted(received, taken, returned, dropped, pending)
    ensures Accounted(received + data, taken, returned, dropped, pending + data)
  {
    Joined(Flat(taken), pending, data);
  }

  /** How much of a buffer that is handed out from goes. */
  ghost function FrameLength(c: seq<char>): (n: nat)
    ensures n <= |c|
  {
    if FindNewline(c).Some? then FindNewline(c).value + 1 else |c|
  }

  lemma AccountedLine(received: seq<char>, taken: seq<seq<char>>, returned: seq<seq<char>>, dropped: seq<char>, c: seq<char>)
    requires Accounted(received, taken, returned, dropped, c) && |c| <= BUFLEN - 1
    requires FindNewline(c).Some? || |c| == BUFLEN - 1
    ensures var n := if FindNewline(c).Some? then FindNewline(c).value + 1 else StrLen(c);
            var rest := if FindNewline(c).Some? then c[n..] else [];
            && Accounted(received, taken + [c[..FrameLength(c)]], returned + [c[..n]], dropped + Excess(c), rest)
            && Outcome(c, Some(c[..n]), rest, false)
            && |rest| < BUFLEN - 1
  {
    hide FindNewline, StrLen, Flat, Lost, Items, ItemOf, IsFrame, Excess;
    var m := FrameLength(c);
    var f, rest := c[..m], c[m..];
    FrameTaken(c);
    FlatSnoc(taken, f);
    LostSnoc(taken, f);
    Joined(Flat(taken), f, rest);
    assert f + rest == c;
  }

  /** The bytes taken out of the buffer are a frame, handed out as its item. */
  lemma FrameTaken(c: seq<char>)
    requires |c| <= BUFLEN - 1 && (FindNewline(c).Some? || |c| == BUFLEN - 1)
    ensures var f := c[..FrameLength(c)];
            && IsFrame(f) && f[|ItemOf(f)|..] == Excess(c)
            && ItemOf(f) == c[..if FindNewline(c).Some? then FindNewline(c).value + 1 else StrLen(c)]
  {
    hide FindNewline, StrLen;
    if FindNewline(c).Some? {
      FoundInPrefix(c, FrameLength(c));
    } else {
      assert c[..FrameLength(c)] == c;
    }
  }

  /** Where a zero byte costs data: a full buffer that begins with one gives an empty item. */
  lemma ZeroBytesLose(c: seq<char>)
    requires |c| == BUFLEN - 1 && c[0] == '\0'
    ensures FindNewline(c) == None && Excess(c) == c && Outcome(c, Some([]), [], false)
  {
  }

  /** How a stream of any bytes is cut into reads makes no difference to the items. */
  lemma ChunkingIrrelevant(a: LineReader, b: LineReader)
    requires a.Valid() && b.Valid() && a.received == b.received
    ensures a.returned + Items(Frames(a.Pending()).0) == b.returned + Items(Frames(b.Pending()).0)
    ensures Frames(a.Pending()).1 == Frames(b.Pending()).1
    ensures FindNewline(a.Pending()).None? && FindNewline(b.Pending()).None? ==>
      a.returned == b.returned && a.Pending() == b.Pending()
  {
    hide FindNewline, Frames;
    a.ReturnedItems();
    b.ReturnedItems();
  }

  /** Where the bytes received have gone. */
  ghost predicate Accounted(received: seq<char>, taken: seq<seq<char>>, returned: seq<seq<char>>, dropped: seq<char>, pending: seq<char>) {
    && received == Flat(taken) + pending
    && (forall i :: 0 <= i < |taken| ==> IsFrame(taken[i]))
    && returned == Items(taken) && dropped == Lost(taken)
  }

  /*
   Runs of calls.
   */

  /** The lines that some calls have returned, and what they left. */
  datatype Drained = Drained(lines: seq<seq<char>>, pending: seq<char>, polls: seq<Poll>, stream: seq<char>)

  ghost function Calls(pending: seq<char>, polls: seq<Poll>, stream: seq<char>, k: nat): (r: Drained)
    requires |pending| < BUFLEN - 1
    ensures |r.pending| < BUFLEN - 1
  {
    if k == 0 then Drained([], pending, polls, stream)
    else
      var r := Calls(pending, polls, stream, k - 1);
      var c := Call(r.pending, r.polls, r.stream);
      Drained(r.lines + (if c.line.Some? then [c.line.value] else []), c.pending, c.polls, c.stream)
  }

  lemma NoCalls(pending: seq<char>, polls: seq<Poll>, stream: seq<char>)
    requires |pending| < BUFLEN - 1
    ensures Calls(pending, polls, stream, 0) == Drained([], pending, polls, stream)
  {
  }

  lemma MoreCalls(pending: seq<char>, polls: seq<Poll>, stream: seq<char>, k: nat)
    requires |pending| < BUFLEN - 1
    ensures var r := Calls(pending, polls, stream, k);
            var c := Call(r.pending, r.polls, r.stream);
            Calls(pending, polls, stream, k + 1) ==
              Drained(r.lines + (if c.line.Some? then [c.line.value] else []), c.pending, c.polls, c.stream)
  {
  }

  /** The frame that a call takes out, if it takes one. */
  ghost function TakenOut(pending: seq<char>, polls: seq<Poll>, stream: seq<char>): (frames: seq<seq<char>>)
    requires |pending| < BUFLEN - 1
  {
    var c := pending + Taken(BUFLEN - 1 - |pending|, polls, stream).data;
    if Call(pending, polls, stream).line.Some? then [c[..FrameLength(c)]] else []
  }

  /** A call takes a frame from the front of all bytes pending and to come, or none. */
  lemma CallTakes(pending: seq<char>, polls: seq<Poll>, stream: seq<char>)
    requires |pending| < BUFLEN - 1
    ensures var r := Call(pending, polls, stream);
            SplitUp(pending + stream, TakenOut(pending, polls, stream), if r.line.Some? then [r.line.value] else [], r.pending + r.stream)
  {
    hide FindNewline, Taken, StrLen, IsFrame, ItemOf, SplitUp;
    var space := BUFLEN - 1 - |pending|;
    var s, r := Taken(space, polls, stream), Call(pending, polls, stream);
    var c := pending + s.data;
    assert stream == s.data + stream[|s.data|..];
    Joined(pending, s.data, stream[|s.data|..]);
    if r.line.Some? {
      FrameTaken(c);
      var f := c[..FrameLength(c)];
      assert c == f + c[FrameLength(c)..];
      Joined(f, c[FrameLength(c)..], r.stream);
      OneSplit(pending + stream, f, r.pending + r.stream);
    } else {
      NothingSplit(pending + stream);
    }
  }

  lemma OneSplit(bytes: seq<char>, f: seq<char>, rest: seq<char>)
    requires bytes == f + rest && IsFrame(f)
    ensures SplitUp(bytes, [f], [ItemOf(f)], rest)
  {
    hide FindNewline, StrLen;
    assert [f][..0] == [] && Flat([]) == [] && [] + f == f;
    assert Flat([f]) == f;
    assert Items([f]) == [ItemOf(f)];
  }

  /** The frames that some calls take out. */
  ghost function FramesOut(pending: seq<char>, polls: seq<Poll>, stream: seq<char>, k: nat): (frames: seq<seq<char>>)
    requires |pending| < BUFLEN - 1
  {
    if k == 0 then []
    else
      var r := Calls(pending, polls, stream, k - 1);
      FramesOut(pending, polls, stream, k - 1) + TakenOut(r.pending, r.polls, r.stream)
  }

  /** Over any polls, the lines returned are the items of the first frames of all the bytes, in order. */
  lemma {:induction false} LinesAreFrames(pending: seq<char>, polls: seq<Poll>, stream: seq<char>, k: nat)
    requires |pending| < BUFLEN - 1
    ensures var r := Calls(pending, polls, stream, k);
            SplitUp(pending + stream, FramesOut(pending, polls, stream, k), r.lines, r.pending + r.stream)
    decreases k
  {
    hide Call, Calls, TakenOut, SplitUp, FramesOut;
    FramesOutNext(pending, polls, stream, k);
    if k == 0 {
      NoCalls(pending, polls, stream);
      NothingSplit(pending + stream);
    } else {
      LinesAreFrames(pending, polls, stream, k - 1);
      MoreCalls(pending, polls, stream, k - 1);
      var r := Calls(pending, polls, stream, k - 1);
      CallTakes(r.pending, r.polls, r.stream);
      var c := Call(r.pending, r.polls, r.stream);
      SplitMore(pending + stream, FramesOut(pending, polls, stream, k - 1), r.lines, r.pending + r.stream,
                TakenOut(r.pending, r.polls, r.stream), if c.line.Some? then [c.line.value] else [], c.pending + c.stream);
    }
  }

  /** The bytes are the frames and the rest, and the lines are the items of the frames. */
  ghost predicate SplitUp(bytes: seq<char>, frames: seq<seq<char>>, lines: seq<seq<char>>, rest: seq<char>) {
    && bytes == Flat(frames) + rest
    && (forall i :: 0 <= i < |frames| ==> IsFrame(frames[i]))
    && lines == Items(frames)
  }

  lemma NothingSplit(bytes: seq<char>)
    ensures SplitUp(bytes, [], [], bytes)
  {
    NoItems();
    assert Flat([]) == [] && [] + bytes == bytes;
  }

  lemma SplitMore(bytes: seq<char>, frames: seq<seq<char>>, lines: seq<seq<char>>, rest: seq<char>,
                  frames': seq<seq<char>>, lines': seq<seq<char>>, rest': seq<char>)
    requires SplitUp(bytes, frames, lines, rest) && SplitUp(rest, frames', lines', rest')
    ensures SplitUp(bytes, frames + frames', lines + lines', rest')
  {
    hide IsFrame, Items, Flat;
    ItemsConcat(frames, frames');
    FlatConcat(frames, frames');
    Joined(Flat(frames), Flat(frames'), rest');
  }

  lemma FramesOutNext(pending: seq<char>, polls: seq<Poll>, stream: seq<char>, k: nat)
    requires |pending| < BUFLEN - 1
    ensures k == 0 ==> FramesOut(pending, polls, stream, k) == []
    ensures k > 0 ==>
      var r := Calls(pending, polls, stream, k - 1);
      FramesOut(pending, polls, stream, k) == FramesOut(pending, polls, stream, k - 1) + TakenOut(r.pending, r.polls, r.stream)
  {
    hide Calls, TakenOut;
  }

  lemma NoItems()
    ensures Items([]) == []
  {
  }

  lemma {:induction false} FlatConcat(a: seq<seq<char>>, b: seq<seq<char>>)
    ensures Flat(a + b) == Flat(a) + Flat(b)
    decreases |b|
  {
    if b == [] {
      assert a + b == a && Flat(a) + [] == Flat(a);
    } else {
      var n := |b| - 1;
      FlatConcat(a, b[..n]);
      assert (a + b)[..|a + b| - 1] == a + b[..n];
      Joined(Flat(a), Flat(b[..n]), b[n]);
    }
  }

  /** No poll fails, and each announces bytes that the stream still has. */
  ghost predicate Honest(polls: seq<Poll>, stream: seq<char>) {
    && (forall i :: 0 <= i < |polls| ==> polls[i].Quiet? || (polls[i].Ready? && polls[i].n > 0))
    && AtHand(polls) <= |stream|
  }

  /** With honest polls a session ends without failure, and what it leaves is honest. */
  lemma {:induction false} HonestSession(space: nat, polls: seq<Poll>, stream: seq<char>)
    requires 0 < space && Honest(polls, stream)
    ensures var s := Taken(space, polls, stream);
            && s.why != Interrupted && s.why != Disconnected
            && Honest(polls[s.used..], stream[|s.data|..])
            && (polls != [] ==> s.used > 0)
            && (polls == [] ==> s == Session([], 0, Silent))
    decreases |polls|
  {
    hide FindNewline, Honest;
    if polls == [] {
      assert polls[0..] == [] && stream[0..] == stream;
    } else {
      var l := if polls[0].Ready? then Least(Least(polls[0].n, space), |stream|) else 0;
      HonestRest(polls, stream, l);
      if GoesOn(space, polls, stream) {
        TakenGoesOn(space, polls, stream);
        HonestSession(space - l, polls[1..], stream[l..]);
        var s, rest := Taken(space, polls, stream), Taken(space - l, polls[1..], stream[l..]);
        assert polls[s.used..] == polls[1..][rest.used..];
        assert stream[|s.data|..] == stream[l..][|rest.data|..];
      } else {
        assert stream[0..] == stream;
      }
    }
  }

  lemma HonestRest(polls: seq<Poll>, stream: seq<char>, l: nat)
    requires Honest(polls, stream) && polls != [] && l <= |stream|
    requires l <= if polls[0].Ready? then polls[0].n else 0
    ensures Honest(polls[1..], stream[l..]) && !polls[0].Failure?
    ensures polls[0].Ready? ==> 0 < polls[0].n <= |stream|
  {
    assert forall i :: 0 <= i < |polls[1..]| ==> polls[1..][i] == polls[i + 1];
  }

  lemma HonestCall(pending: seq<char>, polls: seq<Poll>, stream: seq<char>)
    requires |pending| < BUFLEN - 1 && Honest(polls, stream)
    ensures var r := Call(pending, polls, stream);
            && Honest(r.polls, r.stream)
            && (polls != [] || FindNewline(pending).Some? ==>
                  |r.polls| + |r.pending| + |r.stream| < |polls| + |pending| + |stream|)
            && (polls == [] && FindNewline(pending).None? ==> r == ReadCall(None, Some(0), pending, polls, stream))
  {
    hide FindNewline, Taken, StrLen, ItemOf, Honest;
    HonestSession(BUFLEN - 1 - |pending|, polls, stream);
    assert polls == [] ==> pending + [] == pending && polls[0..] == [] && stream[0..] == stream;
  }

  /** With honest polls enough calls come to an end: all polls are used, and no frame is pending. */
  lemma {:induction false} CallsSettle(pending: seq<char>, polls: seq<Poll>, stream: seq<char>, k: nat, i: nat)
    requires |pending| < BUFLEN - 1 && Honest(polls, stream) && i <= k
    ensures var r := Calls(pending, polls, stream, i);
            && Honest(r.polls, r.stream)
            && (|r.polls| + |r.pending| + |r.stream| + i <= |polls| + |pending| + |stream|
                || (r.polls == [] && FindNewline(r.pending).None?))
    decreases i
  {
    hide FindNewline, Call, Calls, Honest;
    if i == 0 {
      NoCalls(pending, polls, stream);
    } else {
      CallsSettle(pending, polls, stream, k, i - 1);
      MoreCalls(pending, polls, stream, i - 1);
      var r := Calls(pending, polls, stream, i - 1);
      HonestCall(r.pending, r.polls, r.stream);
    }
  }

  /**
    With honest polls and enough calls the lines returned are the items of all frames read, and
    what is still pending is no frame; the frames read are those of the whole stream if it was read.
   */
  lemma Delivered(pending: seq<char>, polls: seq<Poll>, stream: seq<char>, k: nat)
    requires |pending| < BUFLEN - 1 && Honest(polls, stream) && k > |polls| + |pending| + |stream|
    ensures var r := Calls(pending, polls, stream, k);
            && r.polls == [] && |r.stream| <= |stream| && r.stream == stream[|stream| - |r.stream|..]
            && var read := pending + stream[..|stream| - |r.stream|];
               r.lines == Items(Frames(read).0) && r.pending == Frames(read).1
  {
    hide FindNewline, Calls, Honest, Items, Frames, IsFrame, FramesOut, Flat;
    CallsSettle(pending, polls, stream, k, k);
    var r := Calls(pending, polls, stream, k);
    LinesAreFrames(pending, polls, stream, k);
    var frames := FramesOut(pending, polls, stream, k);
    StreamLeft(pending, polls, stream, k);
    var read := pending + stream[..|stream| - |r.stream|];
    assert read + r.stream == pending + stream by { Joined(pending, stream[..|stream| - |r.stream|], r.stream); }
    Joined(Flat(frames), r.pending, r.stream);
    SameFront(read, Flat(frames) + r.pending, r.stream);
    FramesAfter(frames, r.pending);
    NoFrameYet(r.pending);
    assert frames + [] == frames;
  }

  lemma SameFront(a: seq<char>, b: seq<char>, c: seq<char>)
    requires a + c == b + c
    ensures a == b
  {
    assert |a| == |b|;
    assert a == (a + c)[..|a|] == (b + c)[..|b|] == b;
  }

  lemma {:induction false} StreamLeft(pending: seq<char>, polls: seq<Poll>, stream: seq<char>, k: nat)
    requires |pending| < BUFLEN - 1
    ensures var r := Calls(pending, polls, stream, k);
            |r.stream| <= |stream| && r.stream == stream[|stream| - |r.stream|..]
    decreases k
  {
    hide Call;
    if k > 0 {
      StreamLeft(pending, polls, stream, k - 1);
      var r := Calls(pending, polls, stream, k - 1);
      CallStream(r.pending, r.polls, r.stream);
      var c := Call(r.pending, r.polls, r.stream);
      assert c.stream == stream[|stream| - |r.stream|..][|r.stream| - |c.stream|..];
    }
  }

  lemma CallStream(pending: seq<char>, polls: seq<Poll>, stream: seq<char>)
    requires |pending| < BUFLEN - 1
    ensures var c := Call(pending, polls, stream);
            |c.stream| <= |stream| && c.stream == stream[|stream| - |c.stream|..]
  {
    hide Taken, FindNewline;
  }

  /** A poll of one byte for each byte of the stream. */
  ghost predicate ByteByByte(polls: seq<Poll>, stream: seq<char>) {
    |polls| == |stream| && forall i :: 0 <= i < |polls| ==> polls[i] == Ready(1)
  }

  lemma {:induction false} BytesAtHand(polls: seq<Poll>)
    requires forall i :: 0 <= i < |polls| ==> polls[i] == Ready(1)
    ensures AtHand(polls) == |polls|
  {
    if polls != [] { BytesAtHand(polls[1..]); }
  }

  lemma {:induction false} ByteSession(space: nat, polls: seq<Poll>, stream: seq<char>)
    requires 0 < space && ByteByByte(polls, stream)
    ensures var s := Taken(space, polls, stream);
            |s.data| == s.used && ByteByByte(polls[s.used..], stream[|s.data|..])
    decreases |polls|
  {
    hide FindNewline;
    if polls != [] && GoesOn(space, polls, stream) {
      TakenGoesOn(space, polls, stream);
      ByteSession(space - 1, polls[1..], stream[1..]);
    }
  }

  lemma {:induction false} ByteCalls(pending: seq<char>, polls: seq<Poll>, stream: seq<char>, k: nat)
    requires |pending| < BUFLEN - 1 && ByteByByte(polls, stream)
    ensures var r := Calls(pending, polls, stream, k); ByteByByte(r.polls, r.stream)
    decreases k
  {
    hide Call, ByteByByte;
    if k > 0 {
      ByteCalls(pending, polls, stream, k - 1);
      var r := Calls(pending, polls, stream, k - 1);
      ByteCall(r.pending, r.polls, r.stream);
    }
  }

  lemma ByteCall(pending: seq<char>, polls: seq<Poll>, stream: seq<char>)
    requires |pending| < BUFLEN - 1 && ByteByByte(polls, stream)
    ensures var r := Call(pending, polls, stream); ByteByByte(r.polls, r.stream)
  {
    hide FindNewline, Taken, ByteByByte, ItemOf;
    ByteSession(BUFLEN - 1 - |pending|, polls, stream);
  }

  /** With a poll for each byte, and then quiet, the whole stream is returned as the items of its frames. */
  lemma WholeStream(pending: seq<char>, polls: seq<Poll>, stream: seq<char>, k: nat)
    requires |pending| < BUFLEN - 1 && ByteByByte(polls, stream) && k > 2 * |stream| + |pending|
    ensures Calls(pending, polls, stream, k) ==
      Drained(Items(Frames(pending + stream).0), Frames(pending + stream).1, [], [])
  {
    hide Calls, Items, Frames;
    BytesAtHand(polls);
    ByteCalls(pending, polls, stream, k);
    Delivered(pending, polls, stream, k);
    var r := Calls(pending, polls, stream, k);
    assert r.stream == [] && stream[..|stream|] == stream;
  }

  /** An interrupted wait gives length 0, and nothing to read gives 0 as well, if no frame is pending. */
  lemma NothingRead(pending: seq<char>, polls: seq<Poll>, stream: seq<char>)
    requires |pending| < BUFLEN - 1 && polls != []
    ensures polls[0].Failure? ==> Call(pending, polls, stream) == ReadCall(None, Some(0), pending, polls[1..], stream)
    ensures polls[0].Quiet? && FindNewline(pending).None? ==>
      Call(pending, polls, stream) == ReadCall(None, Some(0), pending, polls[1..], stream)
  {
    assert pending + [] == pending && stream[0..] == stream;
  }

  /** When the device reports an end of file, a whole line can stay in the buffer. */
  lemma DisconnectKeepsLine(pending: seq<char>, polls: seq<Poll>)
    requires |pending| < BUFLEN - 1 && polls != [] && polls[0].Ready?
    ensures Call(pending, polls, []) == ReadCall(None, Some(-1), pending, polls[1..], [])
  {
    assert pending + [] == pending;
  }
}
