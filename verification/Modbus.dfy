/**
  The register dictionary and the request handler of `modbus_params`: two sorted indexes over one
  table (`dictionary.c`), recursive aliases and requests (`server.c`), guarded writes (`modbus.c`).
*/
module Lookup {

  datatype Option<T> = None | Some(value: T)

  /** strcmp: the sign says which string comes first. */
  function StrCmp(a: string, b: string): int {
    if a == [] && b == [] then 0
    else if a == [] then -1
    else if b == [] then 1
    else if a[0] != b[0] then a[0] as int - b[0] as int
    else StrCmp(a[1..], b[1..])
  }

  lemma {:induction false} StrCmpZero(a: string, b: string)
    ensures StrCmp(a, b) == 0 <==> a == b
  {
    if a != [] && b != [] {
      StrCmpZero(a[1..], b[1..]);
      assert a == [a[0]] + a[1..] && b == [b[0]] + b[1..];
    }
  }

  lemma {:induction false} StrCmpOpposite(a: string, b: string)
    ensures StrCmp(a, b) < 0 <==> StrCmp(b, a) > 0
  {
    if a != [] && b != [] { StrCmpOpposite(a[1..], b[1..]); }
  }

  /** A string not after b, and b not after c, is not after c; strictly so if one of the steps is. */
  lemma {:induction false} StrCmpTransitive(a: string, b: string, c: string)
    requires StrCmp(a, b) <= 0 && StrCmp(b, c) <= 0
    ensures StrCmp(a, c) <= 0
    ensures StrCmp(a, b) < 0 || StrCmp(b, c) < 0 ==> StrCmp(a, c) < 0
  {
    if a != [] && b != [] && c != [] && a[0] == b[0] == c[0] {
      StrCmpTransitive(a[1..], b[1..], c[1..]);
    }
  }

  /**
    The answers of comparing one key with the places 0..n-1 of a sorted table:
    first places before the key, then equal ones, then places after it.
   */
  ghost predicate Ascending(answers: seq<int>) {
    && (forall i, j :: 0 <= i <= j < |answers| && answers[i] < 0 ==> answers[j] < 0)
    && (forall i, j :: 0 <= i <= j < |answers| && answers[j] > 0 ==> answers[i] > 0)
  }

  /** The place that halving finds between low and high. */
  function Halve(answers: seq<int>, low: nat, high: nat): (r: Option<nat>)
    requires low <= high <= |answers|
    ensures r.Some? ==> r.value < |answers| && answers[r.value] == 0
    decreases high - low
  {
    if low == high then None
    else
      var mid := (high + low) / 2;
      if answers[mid] < 0 then Halve(answers, low, mid)
      else if answers[mid] > 0 then Halve(answers, mid + 1, high)
      else Some(mid)
  }

  /** Halving a sorted table overlooks nothing. */
  lemma {:induction false} HalveFinds(answers: seq<int>, low: nat, high: nat, i: nat)
    requires Ascending(answers) && low <= i < high <= |answers| && answers[i] == 0
    ensures Halve(answers, low, high).Some?
    decreases high - low
  {
    var mid := (high + low) / 2;
    if answers[mid] < 0 {
      HalveFinds(answers, low, mid, i);
    } else if answers[mid] > 0 {
      HalveFinds(answers, mid + 1, high, i);
    }
  }

  /** Binary search, as all the lookups do it; compar gives the answer for one place. */
  method BinSearch(n: nat, compar: nat --> int, ghost answers: seq<int>) returns (r: Option<nat>)
    requires |answers| == n
    requires forall i: nat :: i < n ==> compar.requires(i) && compar(i) == answers[i]
    ensures r == Halve(answers, 0, n)
  {
    var low, high := 0, n;
    while low < high
      invariant 0 <= low <= high <= n
      invariant Halve(answers, low, high) == Halve(answers, 0, n)
    {
      var mid := (high + low) / 2;
      var cmp := compar(mid);
      if cmp < 0 {
        high := mid;
      } else if cmp > 0 {
        low := mid + 1;
      } else {
        return Some(mid);
      }
    }
    r := None;
  }
}

/** Index arrays: permutations of the places of a table, sorted by some key of the entries. */
module Indexes {

  ghost predicate TotalPreorder(le: (nat, nat) -> bool, n: nat) {
    && (forall i: nat, j: nat :: i < n && j < n ==> le(i, j) || le(j, i))
    && (forall i: nat, j: nat, k: nat :: i < n && j < n && k < n && le(i, j) && le(j, k) ==> le(i, k))
  }

  ghost predicate Within(s: seq<nat>, n: nat) { forall i :: 0 <= i < |s| ==> s[i] < n }

  ghost predicate IsSortedBy(s: seq<nat>, le: (nat, nat) -> bool) {
    forall i, j :: 0 <= i < j < |s| ==> le(s[i], s[j])
  }

  function Insert(x: nat, s: seq<nat>, le: (nat, nat) -> bool): (r: seq<nat>)
    ensures multiset(r) == multiset(s) + multiset{x}
  {
    if s == [] then [x]
    else if le(x, s[0]) then [x] + s
    else
      assert s == [s[0]] + s[1..];
      [s[0]] + Insert(x, s[1..], le)
  }

  lemma InsertMembers(x: nat, s: seq<nat>, le: (nat, nat) -> bool, y: nat)
    ensures y in Insert(x, s, le) <==> y == x || y in s
  {
    assert y in Insert(x, s, le) <==> y in multiset(Insert(x, s, le));
    assert y in s <==> y in multiset(s);
  }

  lemma {:induction false} InsertSorted(x: nat, s: seq<nat>, le: (nat, nat) -> bool, n: nat)
    requires TotalPreorder(le, n) && x < n && Within(s, n) && IsSortedBy(s, le)
    ensures IsSortedBy(Insert(x, s, le), le) && Within(Insert(x, s, le), n)
  {
    forall i | 0 <= i < |Insert(x, s, le)| ensures Insert(x, s, le)[i] < n {
      InsertMembers(x, s, le, Insert(x, s, le)[i]);
    }
    if s != [] {
      if le(x, s[0]) {
        forall y | y in s ensures le(x, y) {
          var i :| 0 <= i < |s| && s[i] == y;
          assert i > 0 ==> le(s[0], s[i]);
        }
      } else {
        InsertSorted(x, s[1..], le, n);
        forall y | y in Insert(x, s[1..], le) ensures le(s[0], y) {
          InsertMembers(x, s[1..], le, y);
          if y in s[1..] {
            var i :| 0 <= i < |s[1..]| && s[1..][i] == y;
            assert le(s[0], s[i + 1]);
          }
        }
      }
    }
  }

  /** The places below n in sorted order; stands for what qsort leaves in an index array. */
  function SortedIndex(n: nat, le: (nat, nat) -> bool): seq<nat> {
    if n == 0 then [] else Insert(n - 1, SortedIndex(n - 1, le), le)
  }

  lemma {:induction false} SortedIndexSorted(n: nat, le: (nat, nat) -> bool, m: nat)
    requires TotalPreorder(le, m) && n <= m
    ensures IsSortedBy(SortedIndex(n, le), le) && Within(SortedIndex(n, le), m)
    decreases n
  {
    hide IsSortedBy, TotalPreorder, Insert, Within;
    if n == 0 {
      EmptySorted(le, m);
    } else {
      SortedIndexSorted(n - 1, le, m);
      InsertSorted(n - 1, SortedIndex(n - 1, le), le, m);
    }
  }

  lemma {:induction false} SortedIndexComplete(n: nat, le: (nat, nat) -> bool)
    ensures |SortedIndex(n, le)| == n
    ensures forall i: nat :: i < n ==> i in SortedIndex(n, le)
    decreases n
  {
    hide Insert;
    if n > 0 {
      var s := SortedIndex(n - 1, le);
      SortedIndexComplete(n - 1, le);
      forall i: nat | i < n ensures i in SortedIndex(n, le) { InsertMembers(n - 1, s, le, i); }
    }
  }

  lemma EmptySorted(le: (nat, nat) -> bool, m: nat)
    ensures IsSortedBy([], le) && Within([], m)
  {
  }

}

module Dictionary {
  import opened Lookup
  import opened Indexes

  datatype Entry = Entry(code: string, reg: nat, readonly: bool)

  /** The comparisons that the two index arrays are sorted by. */
  function CodeOrder(table: seq<Entry>): (nat, nat) -> bool {
    (i: nat, j: nat) => i < |table| && j < |table| ==> StrCmp(table[i].code, table[j].code) <= 0
  }

  function RegOrder(table: seq<Entry>): (nat, nat) -> bool {
    (i: nat, j: nat) => i < |table| && j < |table| ==> table[i].reg <= table[j].reg
  }

  lemma CodeOrderTotal(table: seq<Entry>)
    ensures TotalPreorder(CodeOrder(table), |table|)
  {
    var le := CodeOrder(table);
    forall i: nat, j: nat | i < |table| && j < |table| ensures le(i, j) || le(j, i) {
      StrCmpOpposite(table[i].code, table[j].code);
      StrCmpOpposite(table[j].code, table[i].code);
    }
    forall i: nat, j: nat, k: nat | i < |table| && j < |table| && k < |table| && le(i, j) && le(j, k)
      ensures le(i, k)
    {
      StrCmpTransitive(table[i].code, table[j].code, table[k].code);
    }
  }

  lemma RegOrderTotal(table: seq<Entry>)
    ensures TotalPreorder(RegOrder(table), |table|)
  {
  }

  /** An index array over the table: all its places, sorted. */
  ghost predicate IsIndex(index: seq<nat>, n: nat, le: (nat, nat) -> bool) {
    |index| == n && Within(index, n) && IsSortedBy(index, le) && forall i: nat :: i < n ==> i in index
  }

  ghost function CodeAnswers(table: seq<Entry>, index: seq<nat>, code: string): (a: seq<int>)
    requires Within(index, |table|)
    ensures |a| == |index| && forall p :: 0 <= p < |a| ==> a[p] == StrCmp(code, table[index[p]].code)
  {
    seq(|index|, p requires 0 <= p < |index| => StrCmp(code, table[index[p]].code))
  }

  ghost function RegAnswers(table: seq<Entry>, index: seq<nat>, reg: nat): (a: seq<int>)
    requires Within(index, |table|)
    ensures |a| == |index| && forall p :: 0 <= p < |a| ==> a[p] == reg - table[index[p]].reg
  {
    seq(|index|, p requires 0 <= p < |index| => reg - table[index[p]].reg)
  }

  lemma CodeAnswersAscend(table: seq<Entry>, index: seq<nat>, code: string)
    requires IsIndex(index, |table|, CodeOrder(table))
    ensures Ascending(CodeAnswers(table, index, code))
  {
    var a := CodeAnswers(table, index, code);
    forall i, j | 0 <= i <= j < |a| ensures (a[i] < 0 ==> a[j] < 0) && (a[j] > 0 ==> a[i] > 0) {
      var x, y := table[index[i]].code, table[index[j]].code;
      if i < j {
        assert CodeOrder(table)(index[i], index[j]);
        if a[i] < 0 { StrCmpTransitive(code, x, y); }
        if a[j] > 0 {
          StrCmpOpposite(y, code);
          StrCmpTransitive(x, y, code);
          StrCmpOpposite(x, code);
        }
      }
    }
  }

  lemma RegAnswersAscend(table: seq<Entry>, index: seq<nat>, reg: nat)
    requires IsIndex(index, |table|, RegOrder(table))
    ensures Ascending(RegAnswers(table, index, reg))
  {
    var a := RegAnswers(table, index, reg);
    forall i, j | 0 <= i < j < |a| ensures a[j] <= a[i] { assert RegOrder(table)(index[i], index[j]); }
  }

  /** The entry that a lookup through an index array ends at. */
  ghost function ByCode(table: seq<Entry>, index: seq<nat>, code: string): (r: Option<nat>)
    requires Within(index, |table|)
  {
    match Halve(CodeAnswers(table, index, code), 0, |index|)
    case None => None
    case Some(p) => Some(index[p])
  }

  ghost function ByReg(table: seq<Entry>, index: seq<nat>, reg: nat): (r: Option<nat>)
    requires Within(index, |table|)
  {
    match Halve(RegAnswers(table, index, reg), 0, |index|)
    case None => None
    case Some(p) => Some(index[p])
  }

  /** A lookup finds an entry with the code just when a scan of the table would. */
  lemma ByCodeIsScan(table: seq<Entry>, index: seq<nat>, code: string)
    requires IsIndex(index, |table|, CodeOrder(table))
    ensures match ByCode(table, index, code)
            case Some(e) => e < |table| && table[e].code == code
            case None => forall i :: 0 <= i < |table| ==> table[i].code != code
  {
    var a := CodeAnswers(table, index, code);
    var r := Halve(a, 0, |index|);
    if r.Some? {
      StrCmpZero(code, table[index[r.value]].code);
    } else {
      CodeAnswersAscend(table, index, code);
      forall i: nat | i < |table| ensures table[i].code != code {
        assert i in index;
        var p :| 0 <= p < |index| && index[p] == i;
        StrCmpZero(code, table[i].code);
        if a[p] == 0 { HalveFinds(a, 0, |index|, p); }
      }
    }
  }

  lemma ByRegIsScan(table: seq<Entry>, index: seq<nat>, reg: nat)
    requires IsIndex(index, |table|, RegOrder(table))
    ensures match ByReg(table, index, reg)
            case Some(e) => e < |table| && table[e].reg == reg
            case None => forall i :: 0 <= i < |table| ==> table[i].reg != reg
  {
    var a := RegAnswers(table, index, reg);
    var r := Halve(a, 0, |index|);
    if r.None? {
      RegAnswersAscend(table, index, reg);
      forall i: nat | i < |table| ensures table[i].reg != reg {
        assert i in index;
        var p :| 0 <= p < |index| && index[p] == i;
        if a[p] == 0 { HalveFinds(a, 0, |index|, p); }
      }
    }
  }
}

/** Requests, aliases and guarded writes. */
module Requests {
  import opened Lookup
  import opened Indexes
  import opened Dictionary

  datatype Alias = Alias(name: string, expr: string)

  /** What the key-value parser makes of a request. */
  datatype Parsed = Unparsed | Key(key: string) | KeyVal(key: string, val: string)

  /** The opened dictionary and alias list, and the two library functions that take text apart. */
  datatype Config = Config(
    table: seq<Entry>, byCode: seq<nat>, byReg: seq<nat>, aliases: seq<Alias>,
    keyval: string -> Parsed, str2i: string -> Option<int>)

  /** What requests change: the cached values of the entries and the registers of the device. */
  datatype World = World(values: seq<nat>, device: map<nat, nat>)

  datatype Answer = BadKey | BadVal | Fail | Ok | Reply(key: string, value: nat)

  const UINT16 := 65536

  ghost function AliasAnswers(aliases: seq<Alias>, name: string): (a: seq<int>)
    ensures |a| == |aliases| && forall p :: 0 <= p < |a| ==> a[p] == StrCmp(name, aliases[p].name)
  {
    seq(|aliases|, p requires 0 <= p < |aliases| => StrCmp(name, aliases[p].name))
  }

  ghost predicate AliasesSorted(aliases: seq<Alias>) {
    forall i, j :: 0 <= i < j < |aliases| ==> StrCmp(aliases[i].name, aliases[j].name) <= 0
  }

  ghost predicate Sound(cfg: Config) {
    && IsIndex(cfg.byCode, |cfg.table|, CodeOrder(cfg.table))
    && IsIndex(cfg.byReg, |cfg.table|, RegOrder(cfg.table))
    && AliasesSorted(cfg.aliases)
  }

  /** The entry a key stands for: a number is a register, anything else a code. */
  ghost function EntryFor(cfg: Config, key: string): (r: Option<nat>)
    requires Sound(cfg)
    ensures r.Some? ==> r.value < |cfg.table|
  {
    match cfg.str2i(key)
    case Some(n) => ByReg(cfg.table, cfg.byReg, n % UINT16)
    case None => ByCode(cfg.table, cfg.byCode, key)
  }

  ghost function AliasFor(cfg: Config, name: string): (r: Option<nat>)
    ensures r.Some? ==> r.value < |cfg.aliases| && cfg.aliases[r.value].name == name
  {
    var r := Halve(AliasAnswers(cfg.aliases, name), 0, |cfg.aliases|);
    if r.Some? then StrCmpZero(name, cfg.aliases[r.value].name); r else r
  }

  /** An alias is found just when there is one of that name. */
  lemma AliasForIsScan(cfg: Config, name: string)
    requires Sound(cfg)
    ensures AliasFor(cfg, name).None? ==> forall i :: 0 <= i < |cfg.aliases| ==> cfg.aliases[i].name != name
  {
    var a := AliasAnswers(cfg.aliases, name);
    AliasAnswersAscend(cfg, name);
    if AliasFor(cfg, name).None? {
      forall i: nat | i < |cfg.aliases| ensures cfg.aliases[i].name != name {
        StrCmpZero(name, cfg.aliases[i].name);
        if a[i] == 0 { HalveFinds(a, 0, |a|, i); }
      }
    }
  }

  lemma AliasAnswersAscend(cfg: Config, name: string)
    requires Sound(cfg)
    ensures Ascending(AliasAnswers(cfg.aliases, name))
  {
    var a := AliasAnswers(cfg.aliases, name);
    forall i, j | 0 <= i <= j < |a| ensures (a[i] < 0 ==> a[j] < 0) && (a[j] > 0 ==> a[i] > 0) {
      var x, y := cfg.aliases[i].name, cfg.aliases[j].name;
      if i < j {
        if a[i] < 0 { StrCmpTransitive(name, x, y); }
        if a[j] > 0 {
          StrCmpOpposite(y, name);
          StrCmpTransitive(x, y, name);
          StrCmpOpposite(x, name);
        }
      }
    }
  }

  /** The request that an alias request stands for; only a bare key that names no entry can be one. */
  ghost function Next(cfg: Config, req: string): Option<string>
    requires Sound(cfg)
  {
    match cfg.keyval(req)
    case Key(key) =>
      if EntryFor(cfg, key).Some? then None
      else
        (match AliasFor(cfg, key)
         case Some(a) => Some(cfg.aliases[a].expr)
         case None => None)
    case _ => None
  }

  /** After k expansions the request is no alias any more. */
  ghost predicate EndsIn(cfg: Config, req: string, k: nat)
    requires Sound(cfg)
    decreases k
  {
    match Next(cfg, req)
    case None => k == 0
    case Some(expr) => k > 0 && EndsIn(cfg, expr, k - 1)
  }

  ghost predicate Ends(cfg: Config, req: string)
    requires Sound(cfg)
  {
    exists k: nat :: EndsIn(cfg, req, k)
  }

  lemma {:induction false} DepthUnique(cfg: Config, req: string, k: nat, l: nat)
    requires Sound(cfg) && EndsIn(cfg, req, k) && EndsIn(cfg, req, l)
    ensures k == l
    decreases k
  {
    if k > 0 { DepthUnique(cfg, Next(cfg, req).value, k - 1, l - 1); }
  }

  /** How many expansions a request takes. */
  ghost function Depth(cfg: Config, req: string): (k: nat)
    requires Sound(cfg) && Ends(cfg, req)
    ensures EndsIn(cfg, req, k)
  {
    var k: nat :| EndsIn(cfg, req, k); k
  }

  lemma DepthStep(cfg: Config, req: string)
    requires Sound(cfg) && Ends(cfg, req) && Next(cfg, req).Some?
    ensures Ends(cfg, Next(cfg, req).value) && Depth(cfg, req) == Depth(cfg, Next(cfg, req).value) + 1
  {
    var k := Depth(cfg, req);
    assert EndsIn(cfg, Next(cfg, req).value, k - 1);
    DepthUnique(cfg, Next(cfg, req).value, k - 1, Depth(cfg, Next(cfg, req).value));
  }

  /** The request with all aliases expanded. */
  ghost function Expanded(cfg: Config, req: string): (r: string)
    requires Sound(cfg) && Ends(cfg, req)
    ensures Next(cfg, r).None?
    decreases Depth(cfg, req)
  {
    if Next(cfg, req).None? then req
    else
      DepthStep(cfg, req);
      Expanded(cfg, Next(cfg, req).value)
  }

  /** The effect of a request whose key is not an alias; ok tells whether the device answers. */
  ghost function Direct(cfg: Config, w: World, req: string, ok: bool): (Answer, World)
    requires Sound(cfg) && |w.values| == |cfg.table|
  {
    match cfg.keyval(req)
    case Unparsed => (BadKey, w)
    case Key(key) =>
      (match EntryFor(cfg, key)
       case None => (BadKey, w)
       case Some(e) =>
         var reg := cfg.table[e].reg;
         if !ok || reg !in w.device then (Fail, w)
         else (Reply(key, w.device[reg]), w.(values := w.values[e := w.device[reg]])))
    case KeyVal(key, val) =>
      (match EntryFor(cfg, key)
       case None => (BadKey, w)
       case Some(e) =>
         (match cfg.str2i(val)
          case None => (BadVal, w)
          case Some(n) =>
            var v, reg := n % UINT16, cfg.table[e].reg;
            var w' := w.(values := w.values[e := v]);
            if cfg.table[e].readonly || !ok || reg !in w.device then (Fail, w')
            else (Ok, w'.(device := w.device[reg := v]))))
  }

  ghost function Handle(cfg: Config, w: World, req: string, ok: bool): (Answer, World)
    requires Sound(cfg) && |w.values| == |cfg.table| && Ends(cfg, req)
  {
    Direct(cfg, w, Expanded(cfg, req), ok)
  }

  /*
   Termination. The strings met while expanding are the texts of aliases. If the expansion ends
   they are all different, and if it does not end two of them coincide.
   */

  ghost function Met(cfg: Config, req: string, k: nat): set<string>
    requires Sound(cfg) && EndsIn(cfg, req, k)
    decreases k
  {
    if k == 0 then {} else {Next(cfg, req).value} + Met(cfg, Next(cfg, req).value, k - 1)
  }

  lemma {:induction false} MetDepth(cfg: Config, req: string, k: nat, x: string)
    requires Sound(cfg) && EndsIn(cfg, req, k) && x in Met(cfg, req, k)
    ensures exists l: nat :: l < k && EndsIn(cfg, x, l)
    decreases k
  {
    var r := Next(cfg, req).value;
    if x == r {
      assert EndsIn(cfg, x, k - 1);
    } else {
      MetDepth(cfg, r, k - 1, x);
    }
  }

  ghost function Texts(aliases: seq<Alias>): set<string> { set i | 0 <= i < |aliases| :: aliases[i].expr }

  lemma {:induction false} TextsFew(aliases: seq<Alias>)
    ensures |Texts(aliases)| <= |aliases|
  {
    if aliases != [] {
      var n := |aliases| - 1;
      TextsFew(aliases[..n]);
      assert Texts(aliases) == Texts(aliases[..n]) + {aliases[n].expr};
    }
  }

  lemma NotMetAgain(cfg: Config, r: string, k: nat)
    requires Sound(cfg) && EndsIn(cfg, r, k)
    ensures r !in Met(cfg, r, k)
  {
    if r in Met(cfg, r, k) {
      MetDepth(cfg, r, k, r);
      var l: nat :| l < k && EndsIn(cfg, r, l);
      DepthUnique(cfg, r, l, k);
    }
  }

  lemma NextIsText(cfg: Config, req: string)
    requires Sound(cfg) && Next(cfg, req).Some?
    ensures Next(cfg, req).value in Texts(cfg.aliases)
  {
  }

  lemma {:induction false} MetCount(cfg: Config, req: string, k: nat)
    requires Sound(cfg) && EndsIn(cfg, req, k)
    ensures |Met(cfg, req, k)| == k && Met(cfg, req, k) <= Texts(cfg.aliases)
    decreases k
  {
    hide Next, Texts, Sound;
    if k > 0 {
      var r := Next(cfg, req).value;
      MetCount(cfg, r, k - 1);
      NotMetAgain(cfg, r, k - 1);
      NextIsText(cfg, req);
    }
  }

  /** A request that ends does so within as many expansions as there are aliases. */
  lemma EndsWithinAliases(cfg: Config, req: string)
    requires Sound(cfg) && Ends(cfg, req)
    ensures Depth(cfg, req) <= |cfg.aliases|
  {
    var k := Depth(cfg, req);
    MetCount(cfg, req, k);
    TextsFew(cfg.aliases);
    SubsetSize(Met(cfg, req, k), Texts(cfg.aliases));
  }

  lemma {:induction false} SubsetSize(a: set<string>, b: set<string>)
    requires a <= b
    ensures |a| <= |b|
    decreases a
  {
    if a != {} {
      var x :| x in a;
      SubsetSize(a - {x}, b - {x});
    }
  }

  /** The request after k expansions, as long as there is an alias to expand. */
  ghost function Nth(cfg: Config, req: string, k: nat): Option<string>
    requires Sound(cfg)
  {
    if k == 0 then Some(req)
    else
      (match Nth(cfg, req, k - 1)
       case None => None
       case Some(r) => Next(cfg, r))
  }

  /** Two of the first expansions are the same request; as many are looked at as there are aliases, and one more. */
  ghost predicate Loops(cfg: Config, req: string)
    requires Sound(cfg)
  {
    exists i: nat, j: nat :: i < j <= |cfg.aliases| + 1 && Nth(cfg, req, j).Some? && Nth(cfg, req, i) == Nth(cfg, req, j)
  }

  lemma {:induction false} NthOfEnding(cfg: Config, req: string, k: nat, i: nat)
    requires Sound(cfg) && EndsIn(cfg, req, k)
    ensures Nth(cfg, req, i).Some? <==> i <= k
    ensures i <= k ==> EndsIn(cfg, Nth(cfg, req, i).value, k - i)
    decreases i
  {
    hide Next, Sound;
    if i > 0 { NthOfEnding(cfg, req, k, i - 1); }
  }

  lemma {:induction false} NthStops(cfg: Config, req: string, i: nat)
    requires Sound(cfg) && Nth(cfg, req, i).None?
    ensures Ends(cfg, req)
    decreases i
  {
    hide Next, Sound;
    if Nth(cfg, req, i - 1).Some? {
      EndsBackwards(cfg, req, i - 1, 0);
    } else {
      NthStops(cfg, req, i - 1);
    }
  }

  lemma {:induction false} EndsBackwards(cfg: Config, req: string, i: nat, k: nat)
    requires Sound(cfg) && Nth(cfg, req, i).Some? && EndsIn(cfg, Nth(cfg, req, i).value, k)
    ensures Ends(cfg, req)
    decreases i
  {
    hide Next, Sound;
    if i > 0 { EndsBackwards(cfg, req, i - 1, k + 1); }
  }

  /** The requests after one up to k expansions. */
  ghost function Reached(cfg: Config, req: string, k: nat): set<string>
    requires Sound(cfg)
  {
    if k == 0 then {}
    else Reached(cfg, req, k - 1) + (if Nth(cfg, req, k).Some? then {Nth(cfg, req, k).value} else {})
  }

  lemma {:induction false} ReachedBefore(cfg: Config, req: string, k: nat, x: string)
    requires Sound(cfg) && x in Reached(cfg, req, k)
    ensures exists i: nat :: 1 <= i <= k && Nth(cfg, req, i) == Some(x)
  {
    hide Next, Sound;
    if x in Reached(cfg, req, k - 1) { ReachedBefore(cfg, req, k - 1, x); }
  }

  lemma {:induction false} ReachedCount(cfg: Config, req: string, k: nat)
    requires Sound(cfg) && !Ends(cfg, req) && !Loops(cfg, req) && k <= |cfg.aliases| + 1
    ensures |Reached(cfg, req, k)| == k && Reached(cfg, req, k) <= Texts(cfg.aliases)
  {
    hide Next, Sound, Texts, Ends, Loops, Nth;
    if k > 0 {
      ReachedCount(cfg, req, k - 1);
      StillExpands(cfg, req, k);
      NotReachedYet(cfg, req, k);
      assert Reached(cfg, req, k) == Reached(cfg, req, k - 1) + {Nth(cfg, req, k).value};
    }
  }

  lemma NotReachedYet(cfg: Config, req: string, k: nat)
    requires Sound(cfg) && !Loops(cfg, req) && 0 < k <= |cfg.aliases| + 1 && Nth(cfg, req, k).Some?
    ensures Nth(cfg, req, k).value !in Reached(cfg, req, k - 1)
  {
    hide Next, Sound, Nth;
    var x := Nth(cfg, req, k).value;
    if x in Reached(cfg, req, k - 1) { ReachedBefore(cfg, req, k - 1, x); }
  }

  lemma StillExpands(cfg: Config, req: string, k: nat)
    requires Sound(cfg) && !Ends(cfg, req) && k > 0
    ensures Nth(cfg, req, k).Some? && Nth(cfg, req, k).value in Texts(cfg.aliases)
  {
    hide Next, Sound, Texts, Ends;
    if Nth(cfg, req, k).None? { NthStops(cfg, req, k); }
    NextIsText(cfg, Nth(cfg, req, k - 1).value);
  }

  /** Expansion ends just when no request comes up twice, which shows within the first few. */
  lemma EndsExactly(cfg: Config, req: string)
    requires Sound(cfg)
    ensures Ends(cfg, req) <==> !Loops(cfg, req)
  {
    hide Next, Sound, Texts;
    if Ends(cfg, req) {
      var k := Depth(cfg, req);
      forall i: nat, j: nat | i < j && Nth(cfg, req, j).Some? ensures Nth(cfg, req, i) != Nth(cfg, req, j) {
        NthOfEnding(cfg, req, k, i);
        NthOfEnding(cfg, req, k, j);
        if Nth(cfg, req, i) == Nth(cfg, req, j) { DepthUnique(cfg, Nth(cfg, req, i).value, k - i, k - j); }
      }
    } else if !Loops(cfg, req) {
      var n := |cfg.aliases| + 1;
      ReachedCount(cfg, req, n);
      TextsFew(cfg.aliases);
      SubsetSize(Reached(cfg, req, n), Texts(cfg.aliases));
    }
  }

  /** Expanding x leads back to x. */
  ghost predicate Returns(cfg: Config, x: string)
    requires Sound(cfg)
  {
    exists k: nat :: 1 <= k <= |cfg.aliases| + 1 && Nth(cfg, x, k) == Some(x)
  }

  /** No alias text leads back to itself, over however many other aliases. */
  ghost predicate Acyclic(cfg: Config)
    requires Sound(cfg)
  {
    forall x :: x in Texts(cfg.aliases) ==> !Returns(cfg, x)
  }

  lemma {:induction false} NthOfNth(cfg: Config, req: string, i: nat, k: nat)
    requires Sound(cfg) && Nth(cfg, req, i).Some?
    ensures Nth(cfg, Nth(cfg, req, i).value, k) == Nth(cfg, req, i + k)
    decreases k
  {
    hide Next, Sound;
    if k > 0 { NthOfNth(cfg, req, i, k - 1); }
  }

  /** The alias tables over which every request ends are the acyclic ones. */
  lemma AcyclicExactly(cfg: Config)
    requires Sound(cfg)
    ensures Acyclic(cfg) <==> forall req :: Ends(cfg, req)
  {
    hide Next, Sound, Texts, Ends;
    if Acyclic(cfg) {
      forall req ensures Ends(cfg, req) {
        EndsExactly(cfg, req);
        if Loops(cfg, req) {
          var i: nat, j: nat :| i < j <= |cfg.aliases| + 1 && Nth(cfg, req, j).Some? && Nth(cfg, req, i) == Nth(cfg, req, j);
          NthOfNth(cfg, req, i, j - i);
          if !Ends(cfg, req) { StillExpands(cfg, req, j); }
        }
      }
    } else {
      var x :| x in Texts(cfg.aliases) && Returns(cfg, x);
      CycleNeverEnds(cfg, x);
    }
  }

  /** A cycle of aliases, of any length, is never left. */
  lemma CycleNeverEnds(cfg: Config, x: string)
    requires Sound(cfg) && Returns(cfg, x)
    ensures !Ends(cfg, x)
  {
    hide Next, Sound, Ends;
    var k: nat :| 1 <= k <= |cfg.aliases| + 1 && Nth(cfg, x, k) == Some(x);
    assert Nth(cfg, x, 0) == Nth(cfg, x, k);
    EndsExactly(cfg, x);
  }

  /** Two aliases that stand for each other, over an empty table. */
  ghost function TwoAliases(): Config {
    Config([], [], [], [Alias("a", "b"), Alias("b", "a")], s => Key(s), _ => None)
  }

  /** Neither of the two requests is ever done. */
  lemma TwoAliasesLoop()
    ensures var cfg := TwoAliases();
            Sound(cfg) && Loops(cfg, "a") && !Ends(cfg, "a") && !Ends(cfg, "b") && !Acyclic(cfg)
  {
    hide Ends, Loops, Acyclic, Texts;
    var cfg := TwoAliases();
    TwoAliasesSound();
    TwoAliasesNext("a");
    TwoAliasesNext("b");
    assert Nth(cfg, "a", 1) == Next(cfg, "a") && Nth(cfg, "a", 2) == Some("a") && Returns(cfg, "a");
    assert Nth(cfg, "b", 1) == Next(cfg, "b") && Nth(cfg, "b", 2) == Some("b") && Returns(cfg, "b");
    CycleNeverEnds(cfg, "a");
    CycleNeverEnds(cfg, "b");
    EndsExactly(cfg, "a");
    AcyclicExactly(cfg);
  }

  lemma TwoAliasesSound()
    ensures Sound(TwoAliases())
  {
    assert StrCmp("a", "b") < 0;
  }

  lemma TwoAliasesNext(req: string)
    requires req == "a" || req == "b"
    ensures Sound(TwoAliases()) && Next(TwoAliases(), req) == Some(if req == "a" then "b" else "a")
  {
    var cfg := TwoAliases();
    TwoAliasesSound();
    ByCodeIsScan(cfg.table, cfg.byCode, req);
    AliasForIsScan(cfg, req);
    assert cfg.aliases[0].name == "a" && cfg.aliases[1].name == "b";
  }

  /** With a frame for each alias and one more, the requests that end are the ones that get an answer. */
  lemma EnoughFrames(cfg: Config, req: string)
    requires Sound(cfg)
    ensures Ends(cfg, req) <==> !Loops(cfg, req)
    ensures Ends(cfg, req) ==> Depth(cfg, req) <= |cfg.aliases|
    ensures Acyclic(cfg) ==> Ends(cfg, req)
  {
    hide Loops, Ends, Acyclic, Sound, Next;
    EndsExactly(cfg, req);
    AcyclicExactly(cfg);
    if Ends(cfg, req) { EndsWithinAliases(cfg, req); }
  }

  /** An alias request ends with its text, one step later, and does the same. */
  lemma AliasStep(cfg: Config, req: string)
    requires Sound(cfg) && Next(cfg, req).Some?
    ensures var r := Next(cfg, req).value;
            && (Ends(cfg, req) <==> Ends(cfg, r))
            && (Ends(cfg, r) ==> Depth(cfg, req) == Depth(cfg, r) + 1 && Expanded(cfg, req) == Expanded(cfg, r))
  {
    hide Next, Sound;
    var r := Next(cfg, req).value;
    if Ends(cfg, r) {
      assert EndsIn(cfg, req, Depth(cfg, r) + 1);
    }
    if Ends(cfg, req) { DepthStep(cfg, req); }
  }

  lemma NotAnAlias(cfg: Config, req: string)
    requires Sound(cfg)
    ensures Next(cfg, req).None? ==> Ends(cfg, req) && Depth(cfg, req) == 0 && Expanded(cfg, req) == req
  {
    hide Next, Sound;
    if Next(cfg, req).None? { assert EndsIn(cfg, req, 0); }
  }

  /*
   Read-only registers.
   */

  /** No entry allows writing the register. */
  ghost predicate Guarded(cfg: Config, reg: nat) {
    forall i :: 0 <= i < |cfg.table| && cfg.table[i].reg == reg ==> cfg.table[i].readonly
  }

  /** With distinct registers, a read-only entry guards its register. */
  lemma ReadonlyGuards(cfg: Config, e: nat)
    requires e < |cfg.table| && cfg.table[e].readonly
    requires forall i, j :: 0 <= i < j < |cfg.table| ==> cfg.table[i].reg != cfg.table[j].reg
    ensures Guarded(cfg, cfg.table[e].reg)
  {
    assert forall i :: 0 <= i < |cfg.table| && i != e ==> cfg.table[i].reg != cfg.table[e].reg;
  }

  /** A request the server gets, and whether the device answers then. */
  datatype Request = Request(text: string, ok: bool)

  /** What a request does to the world; one that never comes to an end does nothing on the way. */
  ghost function Effect(cfg: Config, w: World, req: string, ok: bool): (w': World)
    requires Sound(cfg) && |w.values| == |cfg.table|
    ensures |w'.values| == |w.values|
  {
    if Loops(cfg, req) then w
    else
      EndsExactly(cfg, req);
      Handle(cfg, w, req, ok).1
  }

  /** The state after a run of requests. */
  ghost function After(cfg: Config, w: World, run: seq<Request>): (w': World)
    requires Sound(cfg) && |w.values| == |cfg.table|
    ensures |w'.values| == |w.values|
  {
    if run == [] then w
    else
      var r := run[|run| - 1];
      Effect(cfg, After(cfg, w, run[..|run| - 1]), r.text, r.ok)
  }

  /** A request touches no register but one that some entry allows to write. */
  lemma EffectGuarded(cfg: Config, w: World, req: string, ok: bool, reg: nat)
    requires Sound(cfg) && |w.values| == |cfg.table| && Guarded(cfg, reg)
    ensures var d := Effect(cfg, w, req, ok).device;
            d.Keys == w.device.Keys && (reg in d ==> d[reg] == w.device[reg])
  {
    hide Loops, Expanded, IsIndex;
  }

  /** No run of requests changes a guarded register, nor which registers there are. */
  lemma {:induction false} GuardedUnchanged(cfg: Config, w: World, run: seq<Request>, reg: nat)
    requires Sound(cfg) && |w.values| == |cfg.table| && Guarded(cfg, reg)
    ensures var d := After(cfg, w, run).device;
            d.Keys == w.device.Keys && (reg in d ==> d[reg] == w.device[reg])
    decreases |run|
  {
    hide Effect, Sound, Guarded;
    if run != [] {
      GuardedUnchanged(cfg, w, run[..|run| - 1], reg);
      var r := run[|run| - 1];
      EffectGuarded(cfg, After(cfg, w, run[..|run| - 1]), r.text, r.ok, reg);
    }
  }

  /** The parser reads some text as setting the entry, by its own code, to the number n. */
  ghost predicate Sets(cfg: Config, req: string, e: nat, n: int)
    requires e < |cfg.table|
  {
    && cfg.keyval(req).KeyVal? && cfg.keyval(req).key == cfg.table[e].code
    && cfg.str2i(cfg.table[e].code).None? && cfg.str2i(cfg.keyval(req).val) == Some(n)
  }

  ghost predicate Settable(cfg: Config, e: nat)
    requires e < |cfg.table|
  {
    exists req :: Sets(cfg, req, e, 1)
  }

  ghost predicate DistinctCodes(cfg: Config) {
    forall i, j :: 0 <= i < j < |cfg.table| ==> cfg.table[i].code != cfg.table[j].code
  }

  /** Some run, in some state of the world, leaves the register with another value. */
  ghost predicate Alterable(cfg: Config, reg: nat)
    requires Sound(cfg)
  {
    exists w: World, run ::
      |w.values| == |cfg.table| && reg in w.device && reg in After(cfg, w, run).device
      && After(cfg, w, run).device[reg] != w.device[reg]
  }

  /** The registers that requests can alter are exactly those not guarded. */
  lemma AlterableExactly(cfg: Config, reg: nat)
    requires Sound(cfg) && DistinctCodes(cfg)
    requires forall e: nat :: e < |cfg.table| ==> Settable(cfg, e)
    ensures Alterable(cfg, reg) <==> !Guarded(cfg, reg)
  {
    hide After, Sound;
    if Guarded(cfg, reg) {
      if Alterable(cfg, reg) {
        var w: World, run :| |w.values| == |cfg.table| && reg in w.device && reg in After(cfg, w, run).device
          && After(cfg, w, run).device[reg] != w.device[reg];
        GuardedUnchanged(cfg, w, run, reg);
      }
    } else {
      var e: nat :| e < |cfg.table| && cfg.table[e].reg == reg && !cfg.table[e].readonly;
      assert Settable(cfg, e);
      var req :| Sets(cfg, req, e, 1);
      var w := World(seq(|cfg.table|, _ => 0), map[reg := 0]);
      SetterWrites(cfg, w, req, e, 1);
      OneRequest(cfg, w, req);
      assert After(cfg, w, [Request(req, true)]).device[reg] == 1;
    }
  }

  lemma OneRequest(cfg: Config, w: World, req: string)
    requires Sound(cfg) && |w.values| == |cfg.table|
    ensures After(cfg, w, [Request(req, true)]) == Effect(cfg, w, req, true)
  {
    assert [Request(req, true)][..0] == [];
    assert After(cfg, w, []) == w;
  }

  /** A setter for an entry that may be written stores the number modulo 2^16 in its register. */
  lemma SetterWrites(cfg: Config, w: World, req: string, e: nat, n: int)
    requires Sound(cfg) && |w.values| == |cfg.table| && e < |cfg.table| && DistinctCodes(cfg)
    requires Sets(cfg, req, e, n) && !cfg.table[e].readonly && cfg.table[e].reg in w.device
    ensures Effect(cfg, w, req, true).device == w.device[cfg.table[e].reg := n % UINT16]
  {
    hide Loops, IsIndex;
    assert Next(cfg, req).None? && EndsIn(cfg, req, 0);
    EndsExactly(cfg, req);
    ByCodeIsScan(cfg.table, cfg.byCode, cfg.table[e].code);
  }

  /*
   What is answered, said by the names of entries.
   */

  /** The key is the number of the entry's register, or no number and the entry's code. */
  ghost predicate Names(cfg: Config, key: string, e: nat)
    requires e < |cfg.table|
  {
    match cfg.str2i(key)
    case Some(m) => m % UINT16 == cfg.table[e].reg
    case None => key == cfg.table[e].code
  }

  lemma EntryNamed(cfg: Config, key: string)
    requires Sound(cfg)
    ensures match EntryFor(cfg, key)
            case Some(e) => Names(cfg, key, e)
            case None => forall e: nat :: e < |cfg.table| ==> !Names(cfg, key, e)
  {
    match cfg.str2i(key)
    case Some(m) => ByRegIsScan(cfg.table, cfg.byReg, m % UINT16);
    case None => ByCodeIsScan(cfg.table, cfg.byCode, key);
  }

  ghost predicate Known(cfg: Config, key: string) { exists e: nat :: e < |cfg.table| && Names(cfg, key, e) }

  /** The kind of answer that the expanded request r gets. */
  lemma AnswerKinds(cfg: Config, w: World, req: string, ok: bool)
    requires Sound(cfg) && |w.values| == |cfg.table| && Ends(cfg, req)
    ensures var r, a := cfg.keyval(Expanded(cfg, req)), Handle(cfg, w, req, ok).0;
            && (a == BadKey <==> r.Unparsed? || !Known(cfg, r.key))
            && (a == BadVal <==> r.KeyVal? && Known(cfg, r.key) && cfg.str2i(r.val).None?)
            && (a.Reply? ==> r.Key? && ok) && (a == Ok ==> r.KeyVal? && ok)
    ensures !ok ==> Handle(cfg, w, req, ok).0 in {BadKey, BadVal, Fail}
    ensures !ok ==> Handle(cfg, w, req, ok).1.device == w.device
  {
    hide Sound, Expanded, EntryFor, Names, Ends;
    var r := cfg.keyval(Expanded(cfg, req));
    if !r.Unparsed? { EntryNamed(cfg, r.key); }
  }

  /** An entry comes before an alias of the same name, and a setter or a text that cannot be parsed is no alias. */
  lemma NoAliasNeeded(cfg: Config, req: string)
    requires Sound(cfg) && (!cfg.keyval(req).Key? || Known(cfg, cfg.keyval(req).key))
    ensures Ends(cfg, req) && Expanded(cfg, req) == req
  {
    hide Sound, Ends, Names;
    if cfg.keyval(req).Key? { EntryNamed(cfg, cfg.keyval(req).key); }
    NotAnAlias(cfg, req);
  }

  /** The name of an alias, if it names no entry, does what the alias's text does. */
  lemma AliasMeans(cfg: Config, w: World, req: string, a: nat, ok: bool)
    requires Sound(cfg) && |w.values| == |cfg.table| && a < |cfg.aliases|
    requires forall i, j :: 0 <= i < j < |cfg.aliases| ==> cfg.aliases[i].name != cfg.aliases[j].name
    requires cfg.keyval(req) == Key(cfg.aliases[a].name) && !Known(cfg, cfg.aliases[a].name)
    ensures Ends(cfg, req) <==> Ends(cfg, cfg.aliases[a].expr)
    ensures Ends(cfg, req) ==> Handle(cfg, w, req, ok) == Handle(cfg, w, cfg.aliases[a].expr, ok)
  {
    hide Sound, Ends, Names, Expanded, Direct;
    EntryNamed(cfg, cfg.aliases[a].name);
    AliasForIsScan(cfg, cfg.aliases[a].name);
    AliasStep(cfg, req);
  }

  /** The request ends as a setter of an entry with this register. */
  ghost predicate Writes(cfg: Config, req: string, reg: nat)
    requires Sound(cfg)
  {
    && !Loops(cfg, req) && EndsNow(cfg, req)
    && var r := cfg.keyval(Expanded(cfg, req));
       r.KeyVal? && exists e: nat :: e < |cfg.table| && cfg.table[e].reg == reg && Names(cfg, r.key, e)
  }

  ghost predicate EndsNow(cfg: Config, req: string)
    requires Sound(cfg)
    ensures EndsNow(cfg, req) ==> Ends(cfg, req)
    ensures EndsNow(cfg, req) <==> !Loops(cfg, req)
  {
    EndsExactly(cfg, req);
    Ends(cfg, req)
  }

  /** A request that is no setter for the register leaves it alone. */
  lemma OtherRegister(cfg: Config, w: World, req: string, ok: bool, reg: nat)
    requires Sound(cfg) && |w.values| == |cfg.table| && !Writes(cfg, req, reg) && reg in w.device
    ensures reg in Effect(cfg, w, req, ok).device && Effect(cfg, w, req, ok).device[reg] == w.device[reg]
  {
    hide Sound, Expanded, EntryFor, Names, Ends, Loops;
    if !Loops(cfg, req) {
      EndsExactly(cfg, req);
      var r := cfg.keyval(Expanded(cfg, req));
      if r.KeyVal? { EntryNamed(cfg, r.key); }
    }
  }

  lemma {:induction false} OtherRegisterRun(cfg: Config, w: World, run: seq<Request>, reg: nat)
    requires Sound(cfg) && |w.values| == |cfg.table| && reg in w.device
    requires forall i :: 0 <= i < |run| ==> !Writes(cfg, run[i].text, reg)
    ensures reg in After(cfg, w, run).device && After(cfg, w, run).device[reg] == w.device[reg]
    decreases |run|
  {
    hide Sound, Effect, Writes;
    if run != [] {
      var rest, r := run[..|run| - 1], run[|run| - 1];
      OtherRegisterRun(cfg, w, rest, reg);
      OtherRegister(cfg, After(cfg, w, rest), r.text, r.ok, reg);
    }
  }

  lemma {:induction false} AfterConcat(cfg: Config, w: World, a: seq<Request>, b: seq<Request>)
    requires Sound(cfg) && |w.values| == |cfg.table|
    ensures After(cfg, w, a + b) == After(cfg, After(cfg, w, a), b)
    decreases |b|
  {
    hide Sound, Effect;
    if b == [] {
      assert a + b == a;
    } else {
      AfterConcat(cfg, w, a, b[..|b| - 1]);
      assert (a + b)[..|a + b| - 1] == a + b[..|b| - 1];
    }
  }

  /** A getter, by number, by code or through aliases, answers what the register holds. */
  lemma GetterAnswers(cfg: Config, w: World, req: string, e: nat)
    requires Sound(cfg) && |w.values| == |cfg.table| && DistinctCodes(cfg) && e < |cfg.table|
    requires Ends(cfg, req) && cfg.keyval(Expanded(cfg, req)).Key? && Names(cfg, cfg.keyval(Expanded(cfg, req)).key, e)
    requires cfg.table[e].reg in w.device
    ensures Handle(cfg, w, req, true).0 == Reply(cfg.keyval(Expanded(cfg, req)).key, w.device[cfg.table[e].reg])
    ensures Handle(cfg, w, req, true).1.device == w.device
  {
    hide Sound, Expanded, EntryFor, Ends;
    EntryNamed(cfg, cfg.keyval(Expanded(cfg, req)).key);
  }

  /** A setter of a read-only entry fails; the device stays, but the cached value of the entry does not. */
  lemma RefusedSetter(cfg: Config, w: World, req: string, e: nat, n: int, ok: bool)
    requires Sound(cfg) && |w.values| == |cfg.table| && e < |cfg.table| && DistinctCodes(cfg)
    requires Sets(cfg, req, e, n) && cfg.table[e].readonly
    ensures Ends(cfg, req) && Handle(cfg, w, req, ok) == (Fail, w.(values := w.values[e := n % 0x1_0000]))
  {
    hide IsIndex;
    assert Next(cfg, req).None? && EndsIn(cfg, req, 0);
    NotAnAlias(cfg, req);
    ByCodeIsScan(cfg.table, cfg.byCode, cfg.table[e].code);
  }

  /** What was set is read back, after any requests that set no entry of the same register. */
  lemma SetIsReadBack(cfg: Config, w: World, setter: string, run: seq<Request>, getter: string, e: nat, n: int)
    requires Sound(cfg) && |w.values| == |cfg.table| && DistinctCodes(cfg) && e < |cfg.table|
    requires Sets(cfg, setter, e, n) && !cfg.table[e].readonly && cfg.table[e].reg in w.device
    requires forall i :: 0 <= i < |run| ==> !Writes(cfg, run[i].text, cfg.table[e].reg)
    requires Ends(cfg, getter) && cfg.keyval(Expanded(cfg, getter)).Key?
    requires Names(cfg, cfg.keyval(Expanded(cfg, getter)).key, e)
    ensures var w' := After(cfg, w, [Request(setter, true)] + run);
            Handle(cfg, w', getter, true).0 == Reply(cfg.keyval(Expanded(cfg, getter)).key, n % 0x1_0000)
  {
    hide Sound, Effect, Expanded, Writes, Handle, Names, After, Ends;
    SetterWrites(cfg, w, setter, e, n);
    OneRequest(cfg, w, setter);
    var w1 := After(cfg, w, [Request(setter, true)]);
    OtherRegisterRun(cfg, w1, run, cfg.table[e].reg);
    AfterConcat(cfg, w, [Request(setter, true)], run);
    GetterAnswers(cfg, After(cfg, w1, run), getter, e);
  }

  class Server {
    const table: seq<Entry>
    const aliases: seq<Alias>
    const keyval: string -> Parsed
    const str2i: string -> Option<int>
    const byCode: seq<nat>
    const byReg: seq<nat>
    var values: seq<nat>
    var device: map<nat, nat>

    ghost function Cfg(): Config { Config(table, byCode, byReg, aliases, keyval, str2i) }

    ghost function State(): World
      reads this
    {
      World(values, device)
    }

    ghost predicate Valid()
      reads this
    {
      Sound(Cfg()) && |values| == |table|
    }

    /** Opens a dictionary and an alias list: builds and sorts the index arrays. */
    constructor (entries: seq<Entry>, initial: seq<nat>, names: seq<Alias>, device: map<nat, nat>,
                 keyval: string -> Parsed, str2i: string -> Option<int>)
      requires |initial| == |entries|
      ensures Valid() && State() == World(initial, device)
      ensures table == entries && this.keyval == keyval && this.str2i == str2i
      ensures |aliases| == |names| && forall a :: a in names ==> a in aliases
    {
      table, values := entries, initial;
      byCode := SortedIndex(|entries|, CodeOrder(entries));
      byReg := SortedIndex(|entries|, RegOrder(entries));
      CodeOrderTotal(entries);
      RegOrderTotal(entries);
      SortedIndexSorted(|entries|, CodeOrder(entries), |entries|);
      SortedIndexSorted(|entries|, RegOrder(entries), |entries|);
      SortedIndexComplete(|entries|, CodeOrder(entries));
      SortedIndexComplete(|entries|, RegOrder(entries));
      AliasesByName(names);
      aliases := SortedAliases(names);
      this.device, this.keyval, this.str2i := device, keyval, str2i;
    }

    method FindByCode(code: string) returns (r: Option<nat>)
      requires Valid()
      ensures r == ByCode(table, byCode, code)
      ensures match r
              case Some(e) => e < |table| && table[e].code == code
              case None => forall i :: 0 <= i < |table| ==> table[i].code != code
    {
      ByCodeIsScan(table, byCode, code);
      if |table| < 1 { return None; }
      var p := BinSearch(|table|, (i: nat) requires i < |byCode| && byCode[i] < |table| => StrCmp(code, table[byCode[i]].code),
                         CodeAnswers(table, byCode, code));
      r := if p.Some? then Some(byCode[p.value]) else None;
    }

    method FindByReg(reg: nat) returns (r: Option<nat>)
      requires Valid()
      ensures r == ByReg(table, byReg, reg)
      ensures match r
              case Some(e) => e < |table| && table[e].reg == reg
              case None => forall i :: 0 <= i < |table| ==> table[i].reg != reg
    {
      ByRegIsScan(table, byReg, reg);
      if |table| < 1 { return None; }
      var p := BinSearch(|table|, (i: nat) requires i < |byReg| && byReg[i] < |table| => reg - table[byReg[i]].reg,
                         RegAnswers(table, byReg, reg));
      r := if p.Some? then Some(byReg[p.value]) else None;
    }

    method FindAlias(name: string) returns (r: Option<nat>)
      requires Valid()
      ensures r == AliasFor(Cfg(), name)
      ensures match r
              case Some(a) => a < |aliases| && aliases[a].name == name
              case None => forall i :: 0 <= i < |aliases| ==> aliases[i].name != name
    {
      AliasForIsScan(Cfg(), name);
      if |aliases| < 1 { return None; }
      r := BinSearch(|aliases|, (i: nat) requires i < |aliases| => StrCmp(name, aliases[i].name), AliasAnswers(aliases, name));
    }

    /** Reads the entry's register into its cached value. */
    method ReadEntry(e: nat, ok: bool) returns (done: bool)
      requires Valid() && e < |table|
      modifies this`values
      ensures done == (ok && table[e].reg in device)
      ensures values == if done then old(values)[e := device[table[e].reg]] else old(values)
    {
      if !ok || table[e].reg !in device { return false; }
      values := values[e := device[table[e].reg]];
      return true;
    }

    /** Writes the entry's cached value to its register, unless the entry is read-only. */
    method WriteEntry(e: nat, ok: bool) returns (done: bool)
      requires Valid() && e < |table|
      modifies this`device
      ensures done == (!table[e].readonly && ok && table[e].reg in old(device))
      ensures device == if done then old(device)[table[e].reg := values[e]] else old(device)
    {
      if table[e].readonly { return false; }
      if !ok || table[e].reg !in device { return false; }
      device := device[table[e].reg := values[e]];
      return true;
    }

    /**
      Handles one request; an alias is handled by handling its text. frames is the number of
      nested calls there is stack for, and None the end of the stack.
     */
    method DefHandler(req: string, ok: bool, frames: nat) returns (answer: Option<Answer>)
      requires Valid()
      modifies this
      ensures Valid()
      ensures answer.Some? <==> Ends(Cfg(), req) && Depth(Cfg(), req) < frames
      ensures answer.Some? ==> (answer.value, State()) == Handle(Cfg(), old(State()), req, ok)
      ensures answer.None? ==> State() == old(State())
      ensures |aliases| < frames ==> (answer.Some? <==> !Loops(Cfg(), req))
      ensures |aliases| < frames && Acyclic(Cfg()) ==> answer.Some?
      decreases frames
    {
      hide Sound, EndsIn, IsIndex, Ends, Loops, Acyclic;
      EnoughFrames(Cfg(), req);
      if frames == 0 { return None; }
      var parsed := keyval(req);
      NotAnAlias(Cfg(), req);
      if parsed.Unparsed? { return Some(BadKey); }
      var key := parsed.key;
      var number := str2i(key);
      var entry: Option<nat>;
      if number.Some? { entry := FindByReg(number.value % UINT16); } else { entry := FindByCode(key); }
      assert entry == EntryFor(Cfg(), key);
      if entry.None? {
        if parsed.Key? {
          var alias := FindAlias(key);
          if alias.Some? {
            AliasStep(Cfg(), req);
            answer := DefHandler(aliases[alias.value].expr, ok, frames - 1);
            return;
          }
        }
        return Some(BadKey);
      }
      if parsed.Key? {
        var done := ReadEntry(entry.value, ok);
        if !done { return Some(Fail); }
        return Some(Reply(key, values[entry.value]));
      }
      var n := str2i(parsed.val);
      if n.None? { return Some(BadVal); }
      values := values[entry.value := n.value % UINT16];
      var done := WriteEntry(entry.value, ok);
      if !done { return Some(Fail); }
      return Some(Ok);
    }
  }

  /** The alias list sorted by name. */
  function SortedAliases(names: seq<Alias>): (r: seq<Alias>)
    requires Within(SortedIndex(|names|, AliasOrder(names)), |names|)
  {
    var index := SortedIndex(|names|, AliasOrder(names));
    seq(|index|, p requires 0 <= p < |index| => names[index[p]])
  }

  function AliasOrder(names: seq<Alias>): (nat, nat) -> bool {
    (i: nat, j: nat) => i < |names| && j < |names| ==> StrCmp(names[i].name, names[j].name) <= 0
  }

  lemma AliasesByName(names: seq<Alias>)
    ensures Within(SortedIndex(|names|, AliasOrder(names)), |names|)
    ensures var r := SortedAliases(names);
            AliasesSorted(r) && |r| == |names| && forall a :: a in names ==> a in r
  {
    var le, n := AliasOrder(names), |names|;
    forall i: nat, j: nat | i < n && j < n ensures le(i, j) || le(j, i) {
      StrCmpOpposite(names[i].name, names[j].name);
      StrCmpOpposite(names[j].name, names[i].name);
    }
    forall i: nat, j: nat, k: nat | i < n && j < n && k < n && le(i, j) && le(j, k) ensures le(i, k) {
      StrCmpTransitive(names[i].name, names[j].name, names[k].name);
    }
    SortedIndexSorted(n, le, n);
    SortedIndexComplete(n, le);
    var index, r := SortedIndex(n, le), SortedAliases(names);
    forall i, j | 0 <= i < j < |r| ensures StrCmp(r[i].name, r[j].name) <= 0 {
      assert le(index[i], index[j]);
    }
    forall a | a in names ensures a in r {
      var i: nat :| i < n && names[i] == a;
      assert i in index;
      var p :| 0 <= p < |index| && index[p] == i;
      assert r[p] == a;
    }
  }
}
