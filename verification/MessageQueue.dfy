/**
  The message queues of `thread_array_management/test.c` as values: two lines of texts, one for
  each direction, each behind its own mutex. A section from lock to unlock is one step, and the
  read of the first text that follows an add after its unlock is another; so a run of several
  threads is a sequence of such steps, in whatever order they come.
*/
module Mailbox {

  /**
    An Add also says whether the copy of its text could be allocated. A Peek is the read with
    which an add that went well ends, outside the lock.
   */
  datatype Call = Add(idx: int, txt: string, copied: bool) | Get(idx: int) | Peek(idx: int)

  /**
    Null is returned for a refused call or an empty line; Waiting is a call that never gets the
    lock, Done a push that went well, Fault a read through the head of an empty list.
   */
  datatype Reply = Null | Text(txt: string) | Waiting | Done | Fault

  datatype Line = Line(texts: seq<string>, locked: bool)

  /** A push that fails returns without giving the lock back. */
  function Answer(line: Line, call: Call): (Line, Reply) {
    if call.Add? && call.txt == "" then (line, Null)
    else if call.Peek? then (line, if line.texts == [] then Fault else Text(line.texts[0]))
    else if line.locked then (line, Waiting)
    else match call
      case Add(_, txt, copied) =>
        if copied then (Line(line.texts + [txt], false), Done)
        else (line.(locked := true), Null)
      case Get(_) =>
        if line.texts == [] then (line, Null) else (Line(line.texts[1..], false), Text(line.texts[0]))
  }

  datatype Message = Message(mosi: Line, miso: Line)

  function LineOf(m: Message, idx: int): Line { if idx == 0 then m.mosi else m.miso }

  function Step(m: Message, call: Call): (Message, Reply) {
    if call.idx == 0 then
      var (line, reply) := Answer(m.mosi, call);
      (m.(mosi := line), reply)
    else if call.idx == 1 then
      var (line, reply) := Answer(m.miso, call);
      (m.(miso := line), reply)
    else (m, Null)
  }

  function Run(m: Message, calls: seq<Call>): (r: (Message, seq<Reply>))
    ensures |r.1| == |calls|
  {
    if calls == [] then (m, [])
    else
      var (before, replies) := Run(m, calls[..|calls| - 1]);
      var (after, reply) := Step(before, calls[|calls| - 1]);
      (after, replies + [reply])
  }

  lemma RunNone(m: Message)
    ensures Run(m, []) == (m, [])
  {
  }

  lemma RunMore(m: Message, calls: seq<Call>, call: Call)
    ensures Run(m, calls + [call]) ==
      (Step(Run(m, calls).0, call).0, Run(m, calls).1 + [Step(Run(m, calls).0, call).1])
  {
    assert (calls + [call])[..|calls|] == calls;
  }

  /** The texts that calls in direction idx got accepted, and those that were handed out there. */
  function Pushed(calls: seq<Call>, replies: seq<Reply>, idx: int): seq<string>
    requires |calls| == |replies|
  {
    if calls == [] then []
    else
      var k := |calls| - 1;
      Pushed(calls[..k], replies[..k], idx) +
      (if calls[k].Add? && calls[k].idx == idx && replies[k].Done? then [calls[k].txt] else [])
  }

  function Popped(calls: seq<Call>, replies: seq<Reply>, idx: int): seq<string>
    requires |calls| == |replies|
  {
    if calls == [] then []
    else
      var k := |calls| - 1;
      Popped(calls[..k], replies[..k], idx) +
      (if calls[k].Get? && calls[k].idx == idx && replies[k].Text? then [replies[k].txt] else [])
  }

  predicate Direction(idx: int) { 0 <= idx <= 1 }

  /** What was waiting and what was pushed is, in order, what was popped and what is waiting. */
  lemma {:induction false} FirstInFirstOut(m: Message, calls: seq<Call>, idx: int)
    requires Direction(idx)
    ensures var (after, replies) := Run(m, calls);
            LineOf(m, idx).texts + Pushed(calls, replies, idx) == Popped(calls, replies, idx) + LineOf(after, idx).texts
    decreases |calls|
  {
    hide Run, Pushed, Popped, Step;
    if calls == [] {
      RunNone(m);
      NoTexts(idx);
    } else {
      var k := |calls| - 1;
      FirstInFirstOut(m, calls[..k], idx);
      var before, replies := Run(m, calls[..k]).0, Run(m, calls[..k]).1;
      var after, reply := Step(before, calls[k]).0, Step(before, calls[k]).1;
      assert calls[..k] + [calls[k]] == calls;
      RunMore(m, calls[..k], calls[k]);
      OneCall(before, calls[k], idx);
      MoreTexts(calls[..k], replies, calls[k], reply, idx);
      Regroup(LineOf(m, idx).texts, Pushed(calls[..k], replies, idx), PushedBy(calls[k], reply, idx),
              Popped(calls[..k], replies, idx), LineOf(before, idx).texts, PoppedBy(calls[k], reply, idx),
              LineOf(after, idx).texts);
    }
  }

  function PushedBy(call: Call, reply: Reply, idx: int): seq<string> {
    if call.Add? && call.idx == idx && reply.Done? then [call.txt] else []
  }

  function PoppedBy(call: Call, reply: Reply, idx: int): seq<string> {
    if call.Get? && call.idx == idx && reply.Text? then [reply.txt] else []
  }

  lemma NoTexts(idx: int)
    ensures Pushed([], [], idx) == [] && Popped([], [], idx) == []
  {
  }

  lemma MoreTexts(calls: seq<Call>, replies: seq<Reply>, call: Call, reply: Reply, idx: int)
    requires |calls| == |replies|
    ensures Pushed(calls + [call], replies + [reply], idx) == Pushed(calls, replies, idx) + PushedBy(call, reply, idx)
    ensures Popped(calls + [call], replies + [reply], idx) == Popped(calls, replies, idx) + PoppedBy(call, reply, idx)
  {
    assert (calls + [call])[..|calls|] == calls && (replies + [reply])[..|calls|] == replies;
  }

  lemma OneCall(m: Message, call: Call, idx: int)
    requires Direction(idx)
    ensures var r := Step(m, call);
            LineOf(m, idx).texts + PushedBy(call, r.1, idx) == PoppedBy(call, r.1, idx) + LineOf(r.0, idx).texts
  {
  }

  lemma Regroup(a: seq<string>, p: seq<string>, p': seq<string>, q: seq<string>, b: seq<string>, q': seq<string>, c: seq<string>)
    requires a + p == q + b && b + p' == q' + c
    ensures a + (p + p') == (q + q') + c
  {
    assert a + (p + p') == (a + p) + p';
    assert (q + b) + p' == q + (b + p');
    assert q + (q' + c) == (q + q') + c;
  }

  /** So from empty lines the texts popped are always the first ones pushed. */
  lemma PoppedIsPrefix(calls: seq<Call>, idx: int)
    requires Direction(idx)
    ensures var empty := Line([], false);
            var replies := Run(Message(empty, empty), calls).1;
            Popped(calls, replies, idx) <= Pushed(calls, replies, idx)
  {
    var empty := Line([], false);
    FirstInFirstOut(Message(empty, empty), calls, idx);
    var replies := Run(Message(empty, empty), calls).1;
    assert LineOf(Message(empty, empty), idx).texts + Pushed(calls, replies, idx) == Pushed(calls, replies, idx);
  }

  /**
    The read after the unlock finds a node just when fewer texts were popped than there were,
    and then it finds the oldest one left, whoever pushed it.
   */
  lemma PeekExactly(m: Message, calls: seq<Call>, idx: int)
    requires Direction(idx)
    ensures var (after, replies) := Run(m, calls);
            var all, gone := LineOf(m, idx).texts + Pushed(calls, replies, idx), |Popped(calls, replies, idx)|;
            && gone <= |all|
            && Step(after, Peek(idx)) == (after, if gone < |all| then Text(all[gone]) else Fault)
  {
    hide Pushed, Popped, Run;
    FirstInFirstOut(m, calls, idx);
  }

  /**
    As long as no push failed, a get hands out the oldest text left if there is one, and a push
    of a text that could be copied is accepted and puts it behind the others.
   */
  lemma OpenLine(m: Message, calls: seq<Call>, idx: int, txt: string)
    requires Direction(idx) && !LineOf(Run(m, calls).0, idx).locked
    ensures var (after, replies) := Run(m, calls);
            var all, gone := LineOf(m, idx).texts + Pushed(calls, replies, idx), |Popped(calls, replies, idx)|;
            && gone <= |all|
            && Step(after, Get(idx)).1 == (if gone < |all| then Text(all[gone]) else Null)
            && LineOf(Step(after, Get(idx)).0, idx).texts == (if gone < |all| then all[gone + 1..] else [])
            && (txt != "" ==>
                  && Step(after, Add(idx, txt, true)).1 == Done
                  && LineOf(Step(after, Add(idx, txt, true)).0, idx).texts == all[gone..] + [txt])
  {
    hide Pushed, Popped, Run;
    FirstInFirstOut(m, calls, idx);
    var after, replies := Run(m, calls).0, Run(m, calls).1;
    var all, gone := LineOf(m, idx).texts + Pushed(calls, replies, idx), |Popped(calls, replies, idx)|;
    assert all[gone..] == LineOf(after, idx).texts;
  }

  /** With no get of this direction in between, the read that follows a push finds a node. */
  lemma {:induction false} PeekAfterPush(m: Message, calls: seq<Call>, idx: int)
    requires Direction(idx) && LineOf(m, idx).texts != []
    requires forall i :: 0 <= i < |calls| ==> calls[i].idx != idx || !calls[i].Get?
    ensures LineOf(m, idx).texts <= LineOf(Run(m, calls).0, idx).texts
    ensures Step(Run(m, calls).0, Peek(idx)).1 == Text(LineOf(m, idx).texts[0])
    decreases |calls|
  {
    if calls != [] { PeekAfterPush(m, calls[..|calls| - 1], idx); }
  }

  /** Right after a push that went well the line is not empty, and the read finds its first text. */
  lemma PushedFirst(m: Message, idx: int, txt: string, copied: bool)
    ensures var (after, pushed) := Step(m, Add(idx, txt, copied));
            pushed == Done ==>
              && LineOf(after, idx).texts != []
              && Step(after, Peek(idx)) == (after, Text(LineOf(after, idx).texts[0]))
  {
  }

  /** One get in between is enough for the read to fail. */
  lemma PeekFails(txt: string)
    requires txt != ""
    ensures var empty := Line([], false);
            Run(Message(empty, empty), [Add(0, txt, true), Get(0), Peek(0)]).1 == [Done, Text(txt), Fault]
  {
    var m := Message(Line([], false), Line([], false));
    RunMore(m, [], Add(0, txt, true));
    RunMore(m, [Add(0, txt, true)], Get(0));
    RunMore(m, [Add(0, txt, true), Get(0)], Peek(0));
    assert [] + [Add(0, txt, true)] == [Add(0, txt, true)];
    assert [Add(0, txt, true)] + [Get(0)] == [Add(0, txt, true), Get(0)];
    assert [Add(0, txt, true), Get(0)] + [Peek(0)] == [Add(0, txt, true), Get(0), Peek(0)];
  }

  /** The calls of one direction. */
  function Only(calls: seq<Call>, idx: int): seq<Call> {
    if calls == [] then []
    else
      var k := |calls| - 1;
      Only(calls[..k], idx) + (if calls[k].idx == idx then [calls[k]] else [])
  }

  /** What one direction holds does not depend on the calls of the other, or on refused ones. */
  lemma {:induction false} Independent(m: Message, calls: seq<Call>, idx: int)
    requires Direction(idx)
    ensures LineOf(Run(m, calls).0, idx) == LineOf(Run(m, Only(calls, idx)).0, idx)
    decreases |calls|
  {
    if calls != [] {
      var k := |calls| - 1;
      Independent(m, calls[..k], idx);
      var few := Only(calls[..k], idx);
      if calls[k].idx == idx {
        RunMore(m, few, calls[k]);
        assert Only(calls, idx) == few + [calls[k]];
      } else {
        assert Only(calls, idx) == few;
      }
    }
  }

  /** A text that could not be copied. */
  predicate Fails(call: Call, idx: int) { call.Add? && call.idx == idx && call.txt != "" && !call.copied }

  /** A direction is locked for good just when one of its pushes failed. */
  lemma {:induction false} LockedExactly(m: Message, calls: seq<Call>, idx: int)
    requires Direction(idx)
    ensures LineOf(Run(m, calls).0, idx).locked <==>
      LineOf(m, idx).locked || exists i :: 0 <= i < |calls| && Fails(calls[i], idx)
    decreases |calls|
  {
    if calls != [] {
      var k := |calls| - 1;
      LockedExactly(m, calls[..k], idx);
      assert forall i :: 0 <= i < k ==> calls[..k][i] == calls[i];
    }
  }
}

/** The linked lists behind the lines. */
module MessageQueue {
  import opened Mailbox

  class Node {
    const data: string
    var next: Node?
    var last: Node?

    constructor (data: string)
      ensures this.data == data && next == null && last == null
    {
      this.data := data;
      next, last := null, null;
    }
  }

  /** The node behind node i of the list. */
  ghost function After(nodes: seq<Node>, i: nat): Node? { if i + 1 < |nodes| then nodes[i + 1] else null }

  ghost predicate LinkedAt(nodes: seq<Node>, i: nat)
    requires i < |nodes|
    reads nodes[i]
  {
    nodes[i].next == After(nodes, i)
  }

  ghost function Texts(nodes: seq<Node>): (t: seq<string>)
    ensures |t| == |nodes| && forall i :: 0 <= i < |t| ==> t[i] == nodes[i].data
  {
    seq(|nodes|, i requires 0 <= i < |nodes| => nodes[i].data)
  }

  lemma TextsMore(nodes: seq<Node>, node: Node)
    ensures Texts(nodes + [node]) == Texts(nodes) + [node.data]
  {
  }

  lemma TextsLess(nodes: seq<Node>)
    requires nodes != []
    ensures Texts(nodes[1..]) == Texts(nodes)[1..] && Texts(nodes)[0] == nodes[0].data
  {
  }

  /** One direction: the head of its list and its mutex. The head knows the last node. */
  class Channel {
    var head: Node?
    var locked: bool
    ghost var nodes: seq<Node>
    ghost var repr: set<Node>

    /** The list runs through the nodes once each and ends; the head's last is the final one. */
    ghost predicate Valid()
      reads this, repr
    {
      && (forall n :: n in nodes ==> n in repr)
      && (forall i, j :: 0 <= i < j < |nodes| ==> nodes[i] != nodes[j])
      && (forall i: nat :: i < |nodes| ==> LinkedAt(nodes, i))
      && head == (if nodes == [] then null else nodes[0])
      && (nodes != [] ==> nodes[0].last == nodes[|nodes| - 1])
    }

    ghost function Now(): Line
      reads this
    {
      Line(Texts(nodes), locked)
    }

    constructor ()
      ensures Valid() && repr == {} && Now() == Line([], false)
    {
      head, locked, nodes, repr := null, false, [], {};
    }

    /** A node with the text behind the last one; none if the text could not be copied. */
    method PushMessage(v: string, copied: bool) returns (node: Node?)
      requires Valid()
      modifies this`head, this`nodes, this`repr, repr
      ensures Valid() && fresh(repr - old(repr))
      ensures node == null <==> !copied
      ensures copied ==> fresh(node) && nodes == old(nodes) + [node] && node.data == v
      ensures !copied ==> nodes == old(nodes)
    {
      if !copied { return null; }
      node := new Node(v);
      if head == null {
        head := node;
        head.last := node;
      } else {
        head.last.next := node;
        head.last := node;
      }
      ghost var was := nodes;
      nodes, repr := nodes + [node], repr + {node};
      forall i: nat | i < |nodes| ensures LinkedAt(nodes, i) {
        if i < |was| { assert old(LinkedAt(was, i)); }
      }
    }

    /** The text of the first node, which leaves the list. */
    method PopMessage() returns (ret: Reply)
      requires Valid()
      modifies this`head, this`nodes, repr
      ensures Valid()
      ensures old(nodes) == [] ==> ret == Null && nodes == []
      ensures old(nodes) != [] ==> ret == Text(old(nodes)[0].data) && nodes == old(nodes)[1..]
    {
      if head == null { return Null; }
      var node := head;
      assert LinkedAt(nodes, 0);
      if node.next != null { node.next.last := node.last; }
      ret := Text(node.data);
      head := node.next;
      ghost var was := nodes;
      nodes := nodes[1..];
      forall i: nat | i < |nodes| ensures LinkedAt(nodes, i) { assert old(LinkedAt(was, i + 1)); }
    }

    /** From lock to unlock; the mutex stays locked if the push failed. */
    method Add(txt: string, copied: bool) returns (reply: Reply)
      requires Valid() && txt != ""
      modifies this, repr
      ensures Valid()
      ensures forall idx: int :: (Now(), reply) == Answer(old(Now()), Call.Add(idx, txt, copied))
      ensures fresh(repr - old(repr))
    {
      if locked { return Waiting; }
      locked := true;
      var node := PushMessage(txt, copied);
      if node == null { return Null; }
      TextsMore(old(nodes), node);
      locked := false;
      return Done;
    }

    /** The text of the first node, read without the lock. */
    method Peek() returns (reply: Reply)
      requires Valid()
      ensures forall idx: int :: (Now(), reply) == Answer(Now(), Call.Peek(idx))
    {
      if head == null { return Fault; }
      reply := Text(head.data);
    }

    method Get() returns (reply: Reply)
      requires Valid()
      modifies this, repr
      ensures Valid()
      ensures forall idx: int :: (Now(), reply) == Answer(old(Now()), Call.Get(idx))
      ensures repr == old(repr)
    {
      if locked { return Waiting; }
      locked := true;
      if nodes != [] { TextsLess(nodes); }
      reply := PopMessage();
      locked := false;
    }
  }

  /** The messages of one thread, a channel for each direction. */
  class Mesg {
    const mosi: Channel
    const miso: Channel

    ghost predicate Valid()
      reads this, mosi, miso, mosi.repr, miso.repr
    {
      && mosi != miso && mosi.Valid() && miso.Valid()
      && mosi.repr !! miso.repr
    }

    ghost function Now(): Message
      reads this, mosi, miso
    {
      Message(mosi.Now(), miso.Now())
    }

    constructor ()
      ensures Valid() && Now() == Message(Line([], false), Line([], false))
      ensures fresh(mosi) && fresh(miso) && mosi.repr == {} && miso.repr == {}
    {
      mosi := new Channel();
      miso := new Channel();
    }

    /** The part of an add up to its unlock. */
    method Push(idx: int, txt: string, copied: bool) returns (reply: Reply)
      requires Valid()
      modifies mosi, miso, mosi.repr, miso.repr
      ensures Valid()
      ensures (Now(), reply) == Step(old(Now()), Call.Add(idx, txt, copied))
      ensures fresh(mosi.repr - old(mosi.repr)) && fresh(miso.repr - old(miso.repr))
    {
      if idx < 0 || idx > 1 { return Null; }
      if |txt| < 1 { return Null; }
      if idx == 0 { reply := mosi.Add(txt, copied); } else { reply := miso.Add(txt, copied); }
    }

    /** The part after it. */
    method ReadBack(idx: int) returns (reply: Reply)
      requires Valid()
      ensures (Now(), reply) == Step(Now(), Call.Peek(idx))
    {
      if idx < 0 || idx > 1 { return Null; }
      if idx == 0 { reply := mosi.Peek(); } else { reply := miso.Peek(); }
    }

    /** An add that no other thread interrupts. */
    method AddText(idx: int, txt: string, copied: bool) returns (reply: Reply)
      requires Valid()
      modifies mosi, miso, mosi.repr, miso.repr
      ensures Valid()
      ensures var (after, pushed) := Step(old(Now()), Call.Add(idx, txt, copied));
              Now() == after && reply == if pushed == Done then Text(LineOf(after, idx).texts[0]) else pushed
      ensures fresh(mosi.repr - old(mosi.repr)) && fresh(miso.repr - old(miso.repr))
    {
      hide Step;
      PushedFirst(Now(), idx, txt, copied);
      reply := Push(idx, txt, copied);
      if reply == Done { reply := ReadBack(idx); }
    }

    method GetText(idx: int) returns (reply: Reply)
      requires Valid()
      modifies mosi, miso, mosi.repr, miso.repr
      ensures Valid()
      ensures (Now(), reply) == Step(old(Now()), Call.Get(idx))
      ensures mosi.repr == old(mosi.repr) && miso.repr == old(miso.repr)
    {
      if idx < 0 || idx > 1 { return Null; }
      if idx == 0 { reply := mosi.Get(); } else { reply := miso.Get(); }
    }

    method Handle(call: Call) returns (reply: Reply)
      requires Valid()
      modifies mosi, miso, mosi.repr, miso.repr
      ensures Valid()
      ensures (Now(), reply) == Step(old(Now()), call)
      ensures fresh(mosi.repr - old(mosi.repr)) && fresh(miso.repr - old(miso.repr))
    {
      hide Step;
      match call
      case Add(idx, txt, copied) => reply := Push(idx, txt, copied);
      case Get(idx) => reply := GetText(idx);
      case Peek(idx) => reply := ReadBack(idx);
    }

    /** Calls of any threads in the order in which they come to the locks. */
    method Serve(calls: seq<Call>) returns (replies: seq<Reply>)
      requires Valid()
      modifies mosi, miso, mosi.repr, miso.repr
      ensures Valid()
      ensures (Now(), replies) == Run(old(Now()), calls)
    {
      hide Run, Step, Answer;
      ghost var start := Now();
      replies := [];
      RunNone(start);
      for i := 0 to |calls|
        invariant Valid()
        invariant Run(start, calls[..i]).0 == Now() && Run(start, calls[..i]).1 == replies
        invariant fresh(mosi.repr - old(mosi.repr)) && fresh(miso.repr - old(miso.repr))
      {
        assert calls[..i + 1] == calls[..i] + [calls[i]];
        RunMore(start, calls[..i], calls[i]);
        var reply := Handle(calls[i]);
        replies := replies + [reply];
      }
      assert calls[..|calls|] == calls;
    }
  }
}
