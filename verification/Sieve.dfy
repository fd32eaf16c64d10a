/**
  The sieve of `_snippets/simple_Eratosfen_sieve.c`: a bit table cleared first by one loop, for
  the numbers below 64, and then by eight threads at once.
*/
module Primes {

  predicate Divides(d: nat, n: nat) { d != 0 && n % d == 0 }

  ghost predicate IsPrime(n: nat) {
    2 <= n && forall d :: 2 <= d < n ==> !Divides(d, n)
  }

  lemma ProductDivides(a: nat, b: nat)
    requires 0 < a
    ensures Divides(a, a * b)
  {
    ModOfMultiple(a, b);
  }

  lemma {:induction false} ModOfMultiple(a: nat, b: nat)
    requires 0 < a
    ensures (a * b) % a == 0 && (a * b) / a == b
  {
    if b > 0 {
      ModOfMultiple(a, b - 1);
      assert a * b == a * (b - 1) + a;
      AddDivisor(a * (b - 1), a);
    }
  }

  lemma AddDivisor(x: nat, d: nat)
    requires 0 < d
    ensures (x + d) / d == x / d + 1 && (x + d) % d == x % d
  {
    var q, r := x / d, x % d;
    assert x == q * d + r;
    assert x + d == (q + 1) * d + r;
    QuotientUnique(x + d, d, q + 1, r);
  }

  lemma MulMonotone(a: nat, b: nat, d: nat)
    requires a <= b
    ensures a * d <= b * d
  {
  }

  lemma QuotientUnique(x: nat, d: nat, q: nat, r: nat)
    requires 0 < d && x == q * d + r && r < d
    ensures x / d == q && x % d == r
  {
    var q', r' := x / d, x % d;
    assert x == q' * d + r' && r' < d;
    if q < q' { MulMonotone(q + 1, q', d); }
    if q' < q { MulMonotone(q' + 1, q, d); }
  }

  /** A product of two numbers from 2 up is not prime. */
  lemma ProductNotPrime(a: nat, b: nat)
    requires 2 <= a && 2 <= b
    ensures !IsPrime(a * b)
  {
    ProductDivides(a, b);
    assert 2 * a <= a * b;
  }

  /** Every number from 2 up is a prime times something. */
  lemma {:induction false} PrimeFactor(n: nat) returns (q: nat, k: nat)
    requires 2 <= n
    ensures IsPrime(q) && q * k == n && 1 <= k
    ensures !IsPrime(n) ==> 2 <= k && q < n
    decreases n
  {
    hide IsPrime;
    if IsPrime(n) {
      q, k := n, 1;
    } else {
      var d := ProperDivisor(n);
      var e := n / d;
      Cofactor(d, e, n);
      var j;
      q, j := PrimeFactor(d);
      k := j * e;
      AtLeastTwo(q);
      Regroup(q, j, e, d);
    }
  }

  lemma ProperDivisor(n: nat) returns (d: nat)
    requires 2 <= n && !IsPrime(n)
    ensures 2 <= d < n && n % d == 0
  {
    var e: nat :| 2 <= e < n && Divides(e, n);
    d := e;
  }

  lemma AtLeastTwo(q: nat)
    requires IsPrime(q)
    ensures 2 <= q
  {
  }

  lemma Regroup(q: nat, j: nat, e: nat, d: nat)
    requires q * j == d && 1 <= j && 2 <= e && 2 <= q
    ensures q * (j * e) == d * e && 2 <= j * e && q <= d
  {
    MulMonotone(1, j, e);
    MulMonotone(1, j, q);
    assert q * (j * e) == (q * j) * e;
  }

  /** No number from d up to r divides n. */
  predicate NoneDivides(n: nat, d: nat, r: nat)
    requires 2 <= d
  {
    r < d || (n % r != 0 && NoneDivides(n, d, r - 1))
  }

  lemma {:induction false} NoneDividesAt(n: nat, d: nat, r: nat, e: nat)
    requires 2 <= d <= e <= r && NoneDivides(n, d, r)
    ensures n % e != 0
  {
    if e < r { NoneDividesAt(n, d, r - 1, e); }
  }

  /** Trial division up to the square root is enough. */
  lemma PrimeByTrial(n: nat, r: nat)
    requires 2 <= n && NoneDivides(n, 2, r) && n < (r + 1) * (r + 1)
    ensures IsPrime(n)
  {
    forall d | 2 <= d < n ensures !Divides(d, n) {
      if n % d == 0 {
        var e := n / d;
        Cofactor(d, e, n);
        if r < d && r < e { SquareTooSmall(d, e, r); }
        if d <= r { NoneDividesAt(n, 2, r, d); } else { NoneDividesAt(n, 2, r, e); }
      }
    }
  }

  lemma Cofactor(d: nat, e: nat, n: nat)
    requires 2 <= d < n && n % d == 0 && e == n / d
    ensures d * e == n && 2 <= e && n % e == 0
  {
    ModOfMultiple(e, d);
  }

  lemma SquareTooSmall(d: nat, e: nat, r: nat)
    requires r < d && r < e
    ensures (r + 1) * (r + 1) <= d * e
  {
    MulMonotone(r + 1, d, r + 1);
    MulMonotone(r + 1, e, d);
  }

  lemma OddPrime(q: nat)
    requires IsPrime(q) && 2 < q
    ensures q % 2 == 1
  {
    assert !Divides(2, q);
  }
}

module BitTable {

  /** 1 << j in a byte. */
  function Mask(j: nat): bv8
    requires j < 8
  {
    if j == 0 then 1 else if j == 1 then 2 else if j == 2 then 4 else if j == 3 then 8
    else if j == 4 then 16 else if j == 5 then 32 else if j == 6 then 64 else 128
  }

  predicate HasBit(b: bv8, j: nat)
    requires j < 8
  {
    b & Mask(j) != 0
  }

  function WithoutBit(b: bv8, j: nat): bv8
    requires j < 8
  {
    b & !Mask(j)
  }

  /** Whether number i is still marked in the table. */
  predicate Bit(t: seq<bv8>, i: nat)
    requires i < 8 * |t|
  {
    HasBit(t[i / 8], i % 8)
  }

  function Cleared(t: seq<bv8>, i: nat): (r: seq<bv8>)
    requires i < 8 * |t|
    ensures |r| == |t|
  {
    t[i / 8 := WithoutBit(t[i / 8], i % 8)]
  }

  lemma ByteCleared(b: bv8, j: nat, k: nat)
    requires j < 8 && k < 8
    ensures HasBit(WithoutBit(b, j), k) <==> j != k && HasBit(b, k)
  {
    if j == k {
      assert (b & !Mask(j)) & Mask(j) == 0;
    } else {
    }
  }

  lemma BitIs(t: seq<bv8>, i: nat)
    requires i < 8 * |t|
    ensures Bit(t, i) <==> t[i / 8] & Mask(i % 8) != 0
  {
    hide Mask;
  }

  /** Clearing one number touches no other. */
  lemma ClearedBits(t: seq<bv8>, i: nat, k: nat)
    requires i < 8 * |t| && k < 8 * |t|
    ensures Bit(Cleared(t, i), k) <==> k != i && Bit(t, k)
  {
    hide HasBit, WithoutBit;
    if i / 8 == k / 8 { ByteCleared(t[i / 8], i % 8, k % 8); }
  }

}

module Sieve {
  import opened Primes
  import opened BitTable

  ghost predicate KeepsPrimes(t: seq<bv8>) {
    forall p: nat :: IsPrime(p) && p < 8 * |t| ==> Bit(t, p)
  }

  /** The k-th multiple of q, if it is in the table, is not marked. */
  ghost predicate Gone(t: seq<bv8>, q: nat, k: nat) {
    q * k < 8 * |t| ==> !Bit(t, q * k)
  }

  /** None of the multiples 2q, 3q, ... is marked. */
  ghost predicate AllGone(t: seq<bv8>, q: nat) {
    forall k :: 2 <= k ==> Gone(t, q, k)
  }

  /** Table t' marks no more than t does. */
  ghost predicate Fewer(t: seq<bv8>, t': seq<bv8>) {
    |t| == |t'| && forall i :: 0 <= i < 8 * |t| && Bit(t', i) ==> Bit(t, i)
  }

  lemma FewerGone(t: seq<bv8>, t': seq<bv8>, q: nat, k: nat)
    requires Fewer(t, t') && Gone(t, q, k)
    ensures Gone(t', q, k)
  {
  }

  /** Clearing a multiple of a number from 2 up keeps all primes. */
  lemma ClearedKeepsPrimes(t: seq<bv8>, q: nat, k: nat)
    requires KeepsPrimes(t) && 2 <= q && 2 <= k && q * k < 8 * |t|
    ensures KeepsPrimes(Cleared(t, q * k)) && Gone(Cleared(t, q * k), q, k)
  {
    ProductNotPrime(q, k);
    forall p: nat | IsPrime(p) && p < 8 * |t| ensures Bit(Cleared(t, q * k), p) { ClearedBits(t, q * k, p); }
    ClearedBits(t, q * k, q * k);
  }

  /** Multiples q*2 .. q*(k-1) are gone. */
  ghost predicate GoneBelow(t: seq<bv8>, q: nat, k: nat) {
    forall i :: 2 <= i < k ==> Gone(t, q, i)
  }

  lemma ClearNext(t: seq<bv8>, q: nat, k: nat)
    requires KeepsPrimes(t) && 2 <= q && 2 <= k && q * k < 8 * |t| && GoneBelow(t, q, k)
    ensures var t' := Cleared(t, q * k);
            KeepsPrimes(t') && GoneBelow(t', q, k + 1) && Fewer(t, t')
  {
    ClearedKeepsPrimes(t, q, k);
    forall i | 2 <= i < k + 1 ensures Gone(Cleared(t, q * k), q, i) {
      if i < k { FewerGone(t, Cleared(t, q * k), q, i); }
    }
  }

  /** Once the multiples have run past the table, all of them are gone. */
  lemma GoneToTheEnd(t: seq<bv8>, q: nat, k: nat)
    requires GoneBelow(t, q, k) && q * k >= 8 * |t|
    ensures AllGone(t, q)
  {
    forall i | 2 <= i ensures Gone(t, q, i) {
      if k <= i { MulMonotone(k, i, q); }
    }
  }

  lemma FewerAllGone(t: seq<bv8>, t': seq<bv8>, q: nat)
    requires Fewer(t, t') && AllGone(t, q)
    ensures AllGone(t', q)
  {
    forall k | 2 <= k ensures Gone(t', q, k) { FewerGone(t, t', q, k); }
  }

  /** What the sequential phase leaves: primes marked, multiples of the primes below 64 not. */
  ghost predicate Prepared(t: seq<bv8>) {
    && 8 <= |t|
    && KeepsPrimes(t) && !Bit(t, 0) && !Bit(t, 1)
    && forall q: nat :: IsPrime(q) && q < 64 ==> AllGone(t, q)
  }

  /** A number that has no divisor below 64. */
  ghost predicate Rough(i: nat) { 65 <= i && forall d :: 2 <= d < 64 ==> !Divides(d, i) }

  ghost predicate KeepsRough(t: seq<bv8>) {
    forall i: nat :: Rough(i) && i < 8 * |t| ==> Bit(t, i)
  }

  lemma ClearedKeepsRough(t: seq<bv8>, q: nat, k: nat)
    requires KeepsRough(t) && 2 <= q < 64 && q * k < 8 * |t|
    ensures KeepsRough(Cleared(t, q * k))
  {
    ProductDivides(q, k);
    forall i: nat | Rough(i) && i < 8 * |t| ensures Bit(Cleared(t, q * k), i) { ClearedBits(t, q * k, i); }
  }

  lemma InitialRough(t: seq<bv8>)
    requires IsInitial(t)
    ensures KeepsRough(t)
  {
    forall i: nat | Rough(i) && i < 8 * |t| ensures Bit(t, i) {
      assert !Divides(2, i);
      InitialBit(t, i);
    }
  }

  /** The table before any marking: 2 and the odd numbers from 3 up. */
  ghost predicate IsInitial(t: seq<bv8>) {
    8 <= |t| && t[0] == 0xAC && forall i :: 1 <= i < |t| ==> t[i] == 0xAA
  }

  lemma InitialBit(t: seq<bv8>, i: nat)
    requires IsInitial(t) && i < 8 * |t|
    ensures Bit(t, i) <==> i == 2 || (i % 2 == 1 && i != 1)
  {
    assert t[i / 8] == if i / 8 == 0 then 0xAC else 0xAA;
  }

  lemma InitialTable(t: seq<bv8>)
    requires IsInitial(t)
    ensures KeepsPrimes(t) && !Bit(t, 0) && !Bit(t, 1) && AllGone(t, 2)
  {
    InitialBit(t, 0);
    InitialBit(t, 1);
    forall p: nat | IsPrime(p) && p < 8 * |t| ensures Bit(t, p) {
      InitialBit(t, p);
      if p != 2 { OddPrime(p); }
    }
    forall k | 2 <= k ensures Gone(t, 2, k) {
      if 2 * k < 8 * |t| { InitialBit(t, 2 * k); }
    }
  }

  /** Clears 2q, 3q, ... up to the end of the table. */
  method MarkMultiples(masks: array<bv8>, q: nat)
    requires 2 <= q && KeepsPrimes(masks[..])
    modifies masks
    ensures KeepsPrimes(masks[..]) && AllGone(masks[..], q) && Fewer(old(masks[..]), masks[..])
    ensures Spared(old(masks[..]), masks[..], q)
  {
    hide *;
    ghost var start := masks[..];
    var j := q * 2;
    ghost var k := 2;
    MarkStarts(start, q);
    while j < 8 * masks.Length
      invariant 2 <= k && j == q * k
      invariant Marked(start, masks[..], q, k)
      decreases 8 * masks.Length - j
    {
      ghost var t := masks[..];
      MarkRound(start, t, q, k);
      masks[j / 8] := masks[j / 8] & !Mask(j % 8);
      assert masks[..] == t[j / 8 := t[j / 8] & !Mask(j % 8)];
      j := j + q;
      k := k + 1;
    }
    MarkEnds(start, masks[..], q, k);
  }

  /** Multiples of a number below 64 are not rough, so no rough number is cleared with them. */
  ghost predicate Spared(t: seq<bv8>, t': seq<bv8>, q: nat) { q < 64 && KeepsRough(t) ==> KeepsRough(t') }

  /** The multiples of q below q * k are cleared, and nothing that should stay. */
  ghost predicate Marked(start: seq<bv8>, t: seq<bv8>, q: nat, k: nat) {
    KeepsPrimes(t) && GoneBelow(t, q, k) && Fewer(start, t) && Spared(start, t, q)
  }

  lemma MarkRound(start: seq<bv8>, t: seq<bv8>, q: nat, k: nat)
    requires Marked(start, t, q, k) && 2 <= q && 2 <= k && q * k < 8 * |t|
    ensures var j := q * k; j % 8 < 8 && Marked(start, t[j / 8 := t[j / 8] & !Mask(j % 8)], q, k + 1)
    ensures q * (k + 1) == q * k + q
  {
    hide KeepsPrimes, GoneBelow, Fewer, KeepsRough;
    ClearNext(t, q, k);
    if q < 64 && KeepsRough(t) { ClearedKeepsRough(t, q, k); }
    FewerTrans(start, t, Cleared(t, q * k));
  }

  lemma MarkEnds(start: seq<bv8>, t: seq<bv8>, q: nat, k: nat)
    requires Marked(start, t, q, k) && q * k >= 8 * |t|
    ensures KeepsPrimes(t) && AllGone(t, q) && Fewer(start, t) && Spared(start, t, q)
  {
    GoneToTheEnd(t, q, k);
  }

  lemma MarkStarts(t: seq<bv8>, q: nat)
    ensures GoneBelow(t, q, 2) && Fewer(t, t)
    ensures KeepsPrimes(t) ==> Marked(t, t, q, 2)
  {
  }

  lemma FewerTrans(a: seq<bv8>, b: seq<bv8>, c: seq<bv8>)
    requires Fewer(a, b) && Fewer(b, c)
    ensures Fewer(a, c)
  {
  }

  /** The multiples of all primes below i are gone. */
  ghost predicate DoneBelow(t: seq<bv8>, i: nat) {
    8 <= |t| && !Bit(t, 0) && !Bit(t, 1) && forall q: nat :: IsPrime(q) && q < i ==> AllGone(t, q)
  }

  lemma DoneNext(t: seq<bv8>, t': seq<bv8>, i: nat)
    requires DoneBelow(t, i) && Fewer(t, t') && i % 2 == 1 && 3 <= i
    requires IsPrime(i) ==> AllGone(t', i)
    ensures DoneBelow(t', i + 2)
  {
    forall q: nat | IsPrime(q) && q < i + 2 ensures AllGone(t', q) {
      if 2 < q { OddPrime(q); }
      if q != i { FewerAllGone(t, t', q); }
    }
  }

  lemma DoneStarts(t: seq<bv8>)
    requires IsInitial(t)
    ensures KeepsPrimes(t) && DoneBelow(t, 3)
  {
    InitialTable(t);
    forall q: nat | IsPrime(q) && q < 3 ensures AllGone(t, q) { assert q == 2; }
  }

  /** The sequential phase, for a table of any number of bytes from 8 up. */
  method SieveSmall(size: nat) returns (masks: array<bv8>)
    requires 8 <= size
    ensures fresh(masks) && masks.Length == size && Prepared(masks[..]) && KeepsRough(masks[..])
  {
    hide KeepsPrimes, AllGone, Fewer, DoneBelow, KeepsRough;
    masks := new bv8[size];
    forall i | 0 <= i < size { masks[i] := 0xAA; }
    masks[0] := 0xAC;
    assert masks[..][0] == 0xAC;
    DoneStarts(masks[..]);
    InitialRough(masks[..]);
    var i := 3;
    while i < 64
      invariant 3 <= i <= 65 && i % 2 == 1
      invariant KeepsPrimes(masks[..]) && DoneBelow(masks[..], i) && KeepsRough(masks[..])
    {
      ghost var t := masks[..];
      if masks[i / 8] & Mask(i % 8) != 0 {
        MarkMultiples(masks, i);
      } else {
        NotPrime(t, i);
        MarkStarts(t, i);
      }
      DoneNext(t, masks[..], i);
      i := i + 2;
    }
    DonePrepared(masks[..]);
  }

  lemma NotPrime(t: seq<bv8>, i: nat)
    requires KeepsPrimes(t) && i < 8 * |t| && !Bit(t, i)
    ensures !IsPrime(i)
  {
  }

  lemma DonePrepared(t: seq<bv8>)
    requires KeepsPrimes(t) && DoneBelow(t, 65)
    ensures Prepared(t)
  {
  }
}

/**
  The parallel phase as a system of steps. A step is one look at the table or one reset by one
  thread; a schedule names the thread that makes each step, so that the schedules are the
  interleavings.
*/
module ParallelSieve {
  import opened Primes
  import opened BitTable
  import opened Sieve

  const THREADNO := 8

  /** Thread t looks at number idx, or is clearing the multiples of idx and comes to j. */
  datatype Thread = Scan(idx: nat) | Mark(idx: nat, j: nat)

  datatype State = State(table: seq<bv8>, threads: seq<Thread>)

  function Start(table: seq<bv8>): State {
    State(table, seq(THREADNO, (t: nat) => Scan(65 + 2 * t)))
  }

  predicate Finished(th: Thread, bound: nat) { th.Scan? && th.idx >= bound }

  /** The next step of thread t; none once it has run through the table. */
  function Step(s: State, t: nat): (s': State)
    requires t < |s.threads|
    ensures |s'.threads| == |s.threads| && |s'.table| == |s.table|
  {
    match s.threads[t]
    case Scan(idx) =>
      if idx >= 8 * |s.table| then s
      else if Bit(s.table, idx) then s.(threads := s.threads[t := Mark(idx, idx * 2)])
      else s.(threads := s.threads[t := Scan(idx + 2 * THREADNO)])
    case Mark(idx, j) =>
      if j < 8 * |s.table| then State(Cleared(s.table, j), s.threads[t := Mark(idx, j + idx)])
      else s.(threads := s.threads[t := Scan(idx + 2 * THREADNO)])
  }

  ghost predicate IsSchedule(schedule: seq<nat>) { forall i :: 0 <= i < |schedule| ==> schedule[i] < THREADNO }

  /** The state after the steps of a schedule, taken from its end. */
  ghost function Run(s: State, schedule: seq<nat>): (s': State)
    requires |s.threads| == THREADNO && IsSchedule(schedule)
    ensures |s'.threads| == THREADNO && |s'.table| == |s.table|
  {
    if schedule == [] then s
    else Step(Run(s, schedule[..|schedule| - 1]), schedule[|schedule| - 1])
  }

  /** The number is one that thread t looks at. */
  ghost predicate InClass(t: nat, idx: nat) { 65 + 2 * t <= idx && idx % 16 == 2 * t + 1 }

  /** Everything thread t has been through is done. */
  ghost predicate Through(table: seq<bv8>, t: nat, idx: nat) {
    forall q: nat :: IsPrime(q) && InClass(t, q) && q < idx ==> AllGone(table, q)
  }

  ghost predicate ThreadOk(table: seq<bv8>, t: nat, th: Thread) {
    && InClass(t, th.idx) && Through(table, t, th.idx)
    && (th.Mark? ==> Marking(table, th.idx, th.j))
  }

  ghost predicate Marking(table: seq<bv8>, idx: nat, j: nat) {
    && 0 < idx && 2 <= j / idx && j == idx * (j / idx)
    && GoneBelow(table, idx, j / idx)
  }

  ghost predicate Inv(s: State) {
    && |s.threads| == THREADNO && Prepared(s.table)
    && forall t: nat :: t < THREADNO ==> ThreadOk(s.table, t, s.threads[t])
  }

  /** Less marked is no worse for a thread. */
  lemma ThreadOkFewer(table: seq<bv8>, table': seq<bv8>, t: nat, th: Thread)
    requires ThreadOk(table, t, th) && Fewer(table, table')
    ensures ThreadOk(table', t, th)
  {
    hide IsPrime, AllGone, Fewer, Gone;
    forall q: nat | IsPrime(q) && InClass(t, q) && q < th.idx ensures AllGone(table', q) {
      FewerAllGone(table, table', q);
    }
    if th.Mark? {
      forall k | 2 <= k < th.j / th.idx ensures Gone(table', th.idx, k) { FewerGone(table, table', th.idx, k); }
    }
  }

  lemma PreparedFewer(table: seq<bv8>, table': seq<bv8>)
    requires Prepared(table) && Fewer(table, table') && KeepsPrimes(table')
    ensures Prepared(table')
  {
    hide IsPrime, AllGone, KeepsPrimes;
    forall q: nat | IsPrime(q) && q < 64 ensures AllGone(table', q) { FewerAllGone(table, table', q); }
  }

  /** Moving on by 16 passes just one number of the class. */
  lemma ThroughNext(table: seq<bv8>, t: nat, idx: nat)
    requires InClass(t, idx) && Through(table, t, idx) && (IsPrime(idx) ==> AllGone(table, idx))
    ensures ThreadOk(table, t, Scan(idx + 16))
  {
    hide IsPrime, AllGone;
    forall q: nat | IsPrime(q) && InClass(t, q) && q < idx + 16 ensures AllGone(table, q) {
      if idx <= q { assert q == idx; }
    }
  }

  lemma MarkingStarts(table: seq<bv8>, idx: nat)
    requires 0 < idx
    ensures Marking(table, idx, idx * 2)
  {
    ModOfMultiple(idx, 2);
  }

  lemma MarkingNext(table: seq<bv8>, idx: nat, j: nat)
    requires 2 <= idx && Marking(table, idx, j) && KeepsPrimes(table) && j < 8 * |table|
    ensures var table' := Cleared(table, j);
            KeepsPrimes(table') && Fewer(table, table') && Marking(table', idx, j + idx)
  {
    var k := j / idx;
    ClearNext(table, idx, k);
    AddDivisor(j, idx);
    assert idx * (k + 1) == idx * k + idx;
  }

  lemma MarkingEnds(table: seq<bv8>, idx: nat, j: nat)
    requires Marking(table, idx, j) && j >= 8 * |table|
    ensures AllGone(table, idx)
  {
    GoneToTheEnd(table, idx, j / idx);
  }

  /** Every step of every thread keeps the invariant. */
  lemma StepInv(s: State, t: nat)
    requires Inv(s) && t < THREADNO
    ensures Inv(Step(s, t))
  {
    hide IsPrime, AllGone, KeepsPrimes, Fewer, Prepared, ThreadOk, Marking, Through, InClass, Bit, Cleared;
    var s' := Step(s, t);
    OwnStep(s, t);
    forall u: nat | u < THREADNO ensures ThreadOk(s'.table, u, s'.threads[u]) {
      if u != t { ThreadOkFewer(s.table, s'.table, u, s.threads[u]); }
    }
  }

  lemma OwnStep(s: State, t: nat)
    requires Inv(s) && t < THREADNO
    ensures var s' := Step(s, t);
            && Fewer(s.table, s'.table) && Prepared(s'.table) && ThreadOk(s'.table, t, s'.threads[t])
  {
    hide IsPrime, AllGone, KeepsPrimes, Fewer, Marking, Through;
    assert ThreadOk(s.table, t, s.threads[t]);
    MarkStarts(s.table, 0);
    match s.threads[t]
    case Scan(idx) =>
      if idx < 8 * |s.table| {
        if Bit(s.table, idx) {
          MarkingStarts(s.table, idx);
        } else {
          NotPrime(s.table, idx);
          ThroughNext(s.table, t, idx);
        }
      }
    case Mark(idx, j) =>
      if j < 8 * |s.table| {
        MarkingNext(s.table, idx, j);
        PreparedFewer(s.table, Cleared(s.table, j));
        ThreadOkFewer(s.table, Cleared(s.table, j), t, Scan(idx));
      } else {
        MarkingEnds(s.table, idx, j);
        ThroughNext(s.table, t, idx);
      }
  }

  lemma {:induction false} RunInv(s: State, schedule: seq<nat>)
    requires Inv(s) && IsSchedule(schedule)
    ensures Inv(Run(s, schedule))
    decreases |schedule|
  {
    if schedule != [] {
      RunInv(s, schedule[..|schedule| - 1]);
      StepInv(Run(s, schedule[..|schedule| - 1]), schedule[|schedule| - 1]);
    }
  }

  ghost predicate AllFinished(s: State) {
    forall t: nat :: t < |s.threads| ==> Finished(s.threads[t], 8 * |s.table|)
  }

  /** At no moment of any interleaving is the bit of a prime cleared. */
  lemma PrimesSurvive(table: seq<bv8>, schedule: seq<nat>, p: nat)
    requires Prepared(table) && IsSchedule(schedule) && IsPrime(p) && p < 8 * |table|
    ensures Bit(Run(Start(table), schedule).table, p)
  {
    hide IsPrime;
    RunInv(Start(table), schedule);
  }

  /** When all threads have finished, in whatever order, the table marks just the primes. */
  lemma FinalTable(table: seq<bv8>, schedule: seq<nat>, i: nat)
    requires Prepared(table) && IsSchedule(schedule) && i < 8 * |table|
    requires AllFinished(Run(Start(table), schedule))
    ensures Bit(Run(Start(table), schedule).table, i) <==> IsPrime(i)
  {
    RunInv(Start(table), schedule);
    FinishedTable(Run(Start(table), schedule), i);
  }

  lemma FinishedTable(s: State, i: nat)
    requires Inv(s) && AllFinished(s) && i < 8 * |s.table|
    ensures Bit(s.table, i) <==> IsPrime(i)
  {
    hide IsPrime, AllGone, Bit;
    if 2 <= i && !IsPrime(i) {
      var q, k := PrimeFactor(i);
      if 64 <= q {
        var t := ClassOf(q);
        assert ThreadOk(s.table, t, s.threads[t]);
        assert Finished(s.threads[t], 8 * |s.table|);
      }
      GoneAt(s.table, q, k);
    } else {
    }
  }

  lemma GoneAt(table: seq<bv8>, q: nat, k: nat)
    requires AllGone(table, q) && 2 <= k && q * k < 8 * |table|
    ensures !Bit(table, q * k)
  {
    assert Gone(table, q, k);
  }

  /** Every prime from 64 up is looked at by one of the threads. */
  lemma ClassOf(q: nat) returns (t: nat)
    requires IsPrime(q) && 64 <= q
    ensures t < THREADNO && InClass(t, q)
  {
    OddPrime(q);
    t := (q % 16) / 2;
  }

  /*
   Every interleaving comes to an end: each step of an unfinished thread lowers a number that
   starts from a fixed value.
   */

  ghost function Work(th: Thread, bound: nat): nat {
    if th.idx >= bound then 0
    else
      Rest(th.idx, bound);
      match th
      case Scan(idx) => (bound - idx) * (2 * bound + 2)
      case Mark(idx, j) => (bound - idx) * (2 * bound + 2) - 1 - (if j < bound then j else bound)
  }

  lemma Rest(idx: nat, bound: nat)
    requires idx < bound
    ensures (bound - idx) * (2 * bound + 2) >= 2 * bound + 2
  {
    MulMonotone(1, bound - idx, 2 * bound + 2);
  }

  lemma WorkMovingOn(idx: nat, j: nat, bound: nat)
    requires idx < bound
    ensures Work(Scan(idx + 16), bound) < Work(Mark(idx, j), bound)
    ensures Work(Scan(idx + 16), bound) < Work(Scan(idx), bound)
  {
    Rest(idx, bound);
    if idx + 16 < bound {
      var w := 2 * bound + 2;
      assert (bound - idx) * w == (bound - idx - 16) * w + 16 * w;
    }
  }

  ghost function TotalWork(threads: seq<Thread>, bound: nat): nat {
    if threads == [] then 0 else TotalWork(threads[..|threads| - 1], bound) + Work(threads[|threads| - 1], bound)
  }

  lemma {:induction false} TotalWorkUpdate(threads: seq<Thread>, t: nat, th: Thread, bound: nat)
    requires t < |threads|
    ensures TotalWork(threads[t := th], bound) == TotalWork(threads, bound) - Work(threads[t], bound) + Work(th, bound)
  {
    var n := |threads| - 1;
    if t < n {
      TotalWorkUpdate(threads[..n], t, th, bound);
      assert threads[t := th][..n] == threads[..n][t := th];
    } else {
      assert threads[t := th][..n] == threads[..n];
    }
  }

  lemma StepWorks(s: State, t: nat)
    requires t < |s.threads| && !Finished(s.threads[t], 8 * |s.table|) && 0 < s.threads[t].idx < 8 * |s.table|
    ensures TotalWork(Step(s, t).threads, 8 * |s.table|) < TotalWork(s.threads, 8 * |s.table|)
  {
    hide TotalWork;
    var m := 8 * |s.table|;
    var th := s.threads[t];
    TotalWorkUpdate(s.threads, t, Step(s, t).threads[t], m);
    assert Step(s, t).threads == s.threads[t := Step(s, t).threads[t]];
    WorkMovingOn(th.idx, if th.Mark? then th.j else 0, m);
  }

  /** A schedule that never picks a finished thread. */
  ghost predicate Busy(s: State, schedule: seq<nat>)
    requires |s.threads| == THREADNO && IsSchedule(schedule)
    decreases |schedule|
  {
    schedule == [] ||
    (var rest := schedule[..|schedule| - 1];
     Busy(s, rest) && !Finished(Run(s, rest).threads[schedule[|schedule| - 1]], 8 * |s.table|))
  }

  /** Marking is only ever done for numbers in the table. */
  ghost predicate MarksInside(s: State) {
    forall t: nat :: t < |s.threads| && s.threads[t].Mark? ==> s.threads[t].idx < 8 * |s.table|
  }

  /** Such a schedule cannot be longer than the work there is, so every interleaving finishes. */
  lemma {:induction false} InterleavingsEnd(table: seq<bv8>, schedule: seq<nat>)
    requires Prepared(table) && IsSchedule(schedule) && Busy(Start(table), schedule)
    ensures MarksInside(Run(Start(table), schedule))
    ensures |schedule| + TotalWork(Run(Start(table), schedule).threads, 8 * |table|) <= TotalWork(Start(table).threads, 8 * |table|)
    decreases |schedule|
  {
    hide TotalWork, Prepared, Bit, Cleared;
    if schedule != [] {
      var rest, t := schedule[..|schedule| - 1], schedule[|schedule| - 1];
      InterleavingsEnd(table, rest);
      var s := Run(Start(table), rest);
      RunInv(Start(table), rest);
      assert ThreadOk(s.table, t, s.threads[t]);
      StepWorks(s, t);
    }
  }
}

/**
  The same threads with a reset split into its load and its store, as the shared byte is really
  updated. Primes are still safe. The final table is right if no thread stores a byte that
  another one holds loaded; without that, a reset can be lost for good.
*/
module SplitResets {
  import opened Primes
  import opened BitTable
  import opened Sieve
  import ParallelSieve

  datatype Thread = Scan(idx: nat) | Mark(idx: nat, j: nat) | Loaded(idx: nat, j: nat, byte: bv8)

  datatype State = State(table: seq<bv8>, threads: seq<Thread>)

  function Step(s: State, t: nat): (s': State)
    requires t < |s.threads|
    ensures |s'.threads| == |s.threads| && |s'.table| == |s.table|
  {
    match s.threads[t]
    case Scan(idx) =>
      if idx >= 8 * |s.table| then s
      else if Bit(s.table, idx) then s.(threads := s.threads[t := Mark(idx, idx * 2)])
      else s.(threads := s.threads[t := Scan(idx + 16)])
    case Mark(idx, j) =>
      if j < 8 * |s.table| then s.(threads := s.threads[t := Loaded(idx, j, s.table[j / 8])])
      else s.(threads := s.threads[t := Scan(idx + 16)])
    case Loaded(idx, j, byte) =>
      if j < 8 * |s.table|
      then State(s.table[j / 8 := byte & !Mask(j % 8)], s.threads[t := Mark(idx, j + idx)])
      else s
  }

  ghost function Run(s: State, schedule: seq<nat>): (s': State)
    requires forall i :: 0 <= i < |schedule| ==> schedule[i] < |s.threads|
    ensures |s'.threads| == |s.threads| && |s'.table| == |s.table|
  {
    if schedule == [] then s
    else Step(Run(s, schedule[..|schedule| - 1]), schedule[|schedule| - 1])
  }

  /** What a thread holds does no harm: it clears a composite, and its byte has all primes. */
  ghost predicate Harmless(th: Thread, bound: nat) {
    && 2 <= th.idx
    && (!th.Scan? ==> exists k :: 2 <= k && IsTimes(th.j, th.idx, k))
    && (th.Loaded? ==> th.j < bound && forall p: nat :: IsPrime(p) && p < bound && p / 8 == th.j / 8 ==> th.byte & Mask(p % 8) != 0)
  }

  ghost predicate IsTimes(j: nat, idx: nat, k: nat) { j == idx * k }

  ghost predicate Safe(s: State) {
    KeepsPrimes(s.table) && forall t: nat :: t < |s.threads| ==> Harmless(s.threads[t], 8 * |s.table|)
  }

  lemma StoreKeepsPrimes(table: seq<bv8>, th: Thread)
    requires th.Loaded? && KeepsPrimes(table) && Harmless(th, 8 * |table|)
    ensures KeepsPrimes(table[th.j / 8 := th.byte & !Mask(th.j % 8)])
  {
    hide IsPrime, Mask;
    var table' := table[th.j / 8 := th.byte & !Mask(th.j % 8)];
    var k :| 2 <= k && IsTimes(th.j, th.idx, k);
    ProductNotPrime(th.idx, k);
    forall p: nat | IsPrime(p) && p < 8 * |table| ensures Bit(table', p) {
      if p / 8 == th.j / 8 {
        ByteCleared(th.byte, th.j % 8, p % 8);
      } else {
        assert Bit(table, p);
      }
    }
  }

  lemma LoadHasPrimes(table: seq<bv8>, j: nat)
    requires KeepsPrimes(table) && j < 8 * |table|
    ensures forall p: nat :: IsPrime(p) && p < 8 * |table| && p / 8 == j / 8 ==> table[j / 8] & Mask(p % 8) != 0
  {
    hide IsPrime, Mask;
    forall p: nat | IsPrime(p) && p < 8 * |table| && p / 8 == j / 8 ensures table[j / 8] & Mask(p % 8) != 0 {
      assert Bit(table, p);
    }
  }

  lemma OwnStepSafe(s: State, t: nat)
    requires Safe(s) && t < |s.threads|
    ensures KeepsPrimes(Step(s, t).table) && Harmless(Step(s, t).threads[t], 8 * |s.table|)
  {
    hide IsPrime, Mask, KeepsPrimes, Bit;
    var th, m := s.threads[t], 8 * |s.table|;
    assert Harmless(th, m);
    match th
    case Scan(idx) =>
      assert IsTimes(idx * 2, idx, 2);
    case Mark(idx, j) =>
      if j < m { LoadHasPrimes(s.table, j); }
    case Loaded(idx, j, byte) =>
      StoreKeepsPrimes(s.table, th);
      var k :| 2 <= k && IsTimes(j, idx, k);
      assert IsTimes(j + idx, idx, k + 1);
  }

  lemma StepSafe(s: State, t: nat)
    requires Safe(s) && t < |s.threads|
    ensures Safe(Step(s, t))
  {
    hide IsPrime, Mask, KeepsPrimes, Harmless;
    OwnStepSafe(s, t);
  }

  /** No interleaving of loads and stores ever clears the bit of a prime. */
  lemma {:induction false} PrimesSurvive(s: State, schedule: seq<nat>)
    requires Safe(s) && forall i :: 0 <= i < |schedule| ==> schedule[i] < |s.threads|
    ensures Safe(Run(s, schedule)) && KeepsPrimes(Run(s, schedule).table)
    decreases |schedule|
  {
    if schedule != [] {
      var rest := schedule[..|schedule| - 1];
      PrimesSurvive(s, rest);
      StepSafe(Run(s, rest), schedule[|schedule| - 1]);
    }
  }

  function Start(table: seq<bv8>): State {
    State(table, seq(ParallelSieve.THREADNO, (t: nat) => Scan(65 + 2 * t)))
  }

  ghost predicate AllFinished(s: State) {
    forall t: nat :: t < |s.threads| ==> s.threads[t].Scan? && s.threads[t].idx >= 8 * |s.table|
  }

  /*
   Schedules on which the table comes out right.
   */

  /** Thread t does not store a byte that another thread has loaded and not stored yet. */
  ghost predicate Apart(s: State, t: nat)
    requires t < |s.threads|
  {
    s.threads[t].Loaded? ==>
      forall u: nat :: u < |s.threads| && u != t && s.threads[u].Loaded? ==> s.threads[u].j / 8 != s.threads[t].j / 8
  }

  ghost predicate KeptApart(s: State, schedule: seq<nat>)
    requires |s.threads| == ParallelSieve.THREADNO && ParallelSieve.IsSchedule(schedule)
    decreases |schedule|
  {
    schedule == [] ||
    (var rest := schedule[..|schedule| - 1];
     KeptApart(s, rest) && Apart(Run(s, rest), schedule[|schedule| - 1]))
  }

  /** A reset is done when its byte is stored; until then the thread still comes to its number. */
  function Whole(th: Thread): ParallelSieve.Thread {
    match th
    case Scan(idx) => ParallelSieve.Scan(idx)
    case Mark(idx, j) => ParallelSieve.Mark(idx, j)
    case Loaded(idx, j, _) => ParallelSieve.Mark(idx, j)
  }

  function WholeState(s: State): (w: ParallelSieve.State)
    ensures |w.threads| == |s.threads|
  {
    ParallelSieve.State(s.table, seq(|s.threads|, (t: nat) requires t < |s.threads| => Whole(s.threads[t])))
  }

  /** What a thread has loaded is still what the table holds. */
  ghost predicate Current(table: seq<bv8>, th: Thread) {
    th.Loaded? ==> th.j < 8 * |table| && th.byte == table[th.j / 8]
  }

  ghost predicate AllCurrent(s: State) {
    forall t: nat :: t < |s.threads| ==> Current(s.table, s.threads[t])
  }

  /** A load changes nothing as a whole, and every other step is a step of the whole resets. */
  lemma StepWhole(s: State, t: nat)
    requires t < |s.threads| && AllCurrent(s) && Apart(s, t)
    ensures AllCurrent(Step(s, t))
    ensures WholeState(Step(s, t)) == WholeState(s) || WholeState(Step(s, t)) == ParallelSieve.Step(WholeState(s), t)
  {
    hide Bit, Mask;
    var s' := Step(s, t);
    assert Current(s.table, s.threads[t]);
    forall u: nat | u < |s.threads| ensures Current(s'.table, s'.threads[u]) {
      assert Current(s.table, s.threads[u]);
    }
    var w, w' := WholeState(s), WholeState(s');
    if s.threads[t].Mark? && s.threads[t].j < 8 * |s.table| {
      assert w'.threads == w.threads;
    } else {
      assert w'.threads == ParallelSieve.Step(w, t).threads;
    }
  }

  lemma {:induction false} RunWhole(table: seq<bv8>, schedule: seq<nat>)
    requires Prepared(table) && ParallelSieve.IsSchedule(schedule) && KeptApart(Start(table), schedule)
    ensures AllCurrent(Run(Start(table), schedule))
    ensures ParallelSieve.Inv(WholeState(Run(Start(table), schedule)))
    decreases |schedule|
  {
    hide ParallelSieve.Step, Step, Prepared, Current;
    if schedule == [] {
      StartWhole(table);
    } else {
      var rest, t := schedule[..|schedule| - 1], schedule[|schedule| - 1];
      RunWhole(table, rest);
      StepWhole(Run(Start(table), rest), t);
      ParallelSieve.StepInv(WholeState(Run(Start(table), rest)), t);
    }
  }

  lemma StartWhole(table: seq<bv8>)
    requires Prepared(table)
    ensures AllCurrent(Start(table)) && ParallelSieve.Inv(WholeState(Start(table)))
  {
    hide Prepared, IsPrime;
    assert WholeState(Start(table)) == ParallelSieve.Start(table);
    ParallelSieve.RunInv(ParallelSieve.Start(table), []);
  }

  /** As long as loads and stores of one byte are kept apart, the final table marks just the primes. */
  lemma FinalTable(table: seq<bv8>, schedule: seq<nat>, i: nat)
    requires Prepared(table) && ParallelSieve.IsSchedule(schedule) && KeptApart(Start(table), schedule)
    requires AllFinished(Run(Start(table), schedule)) && i < 8 * |table|
    ensures Bit(Run(Start(table), schedule).table, i) <==> IsPrime(i)
  {
    hide Bit, IsPrime, Prepared;
    RunWhole(table, schedule);
    var w := WholeState(Run(Start(table), schedule));
    forall t: nat | t < |w.threads| ensures ParallelSieve.Finished(w.threads[t], 8 * |w.table|) {
      assert Run(Start(table), schedule).threads[t].Scan?;
    }
    ParallelSieve.FinishedTable(w, i);
  }

  /*
   The exact condition: nothing that was cleared at some moment is marked at the end.
   */

  /** The numbers marked in both tables. */
  function Both(a: seq<bv8>, b: seq<bv8>): (r: seq<bv8>)
    requires |a| == |b|
    ensures |r| == |a|
  {
    seq(|a|, (i: nat) requires i < |a| => a[i] & b[i])
  }

  lemma BothBits(a: seq<bv8>, b: seq<bv8>, i: nat)
    requires |a| == |b| && i < 8 * |a|
    ensures Bit(Both(a, b), i) <==> Bit(a, i) && Bit(b, i)
  {
    hide Mask, Bit, Both;
    BothAt(a, b, i / 8);
    BothBytes(a[i / 8], b[i / 8], i % 8);
    BitIs(a, i);
    BitIs(b, i);
    BitIs(Both(a, b), i);
  }

  lemma BothAt(a: seq<bv8>, b: seq<bv8>, k: nat)
    requires |a| == |b| && k < |a|
    ensures Both(a, b)[k] == a[k] & b[k]
  {
  }

  lemma BothBytes(x: bv8, y: bv8, j: nat)
    requires j < 8
    ensures (x & y) & Mask(j) != 0 <==> x & Mask(j) != 0 && y & Mask(j) != 0
  {
  }

  lemma BothFewer(a: seq<bv8>, b: seq<bv8>)
    requires |a| == |b|
    ensures Fewer(a, Both(a, b)) && Fewer(b, Both(a, b))
    ensures KeepsPrimes(a) && KeepsPrimes(b) ==> KeepsPrimes(Both(a, b))
  {
    hide Bit, IsPrime, Both;
    forall i: nat | i < 8 * |a| ensures Bit(Both(a, b), i) <==> Bit(a, i) && Bit(b, i) { BothBits(a, b, i); }
  }

  /** The numbers that have been marked at every moment of the run. */
  ghost function AlwaysMarked(s: State, schedule: seq<nat>): (r: seq<bv8>)
    requires forall i :: 0 <= i < |schedule| ==> schedule[i] < |s.threads|
    ensures |r| == |s.table|
    decreases |schedule|
  {
    if schedule == [] then s.table
    else Both(AlwaysMarked(s, schedule[..|schedule| - 1]), Run(s, schedule).table)
  }

  /** The state with the table of the numbers always marked, and whole resets. */
  ghost function EverState(s: State, schedule: seq<nat>): (w: ParallelSieve.State)
    requires forall i :: 0 <= i < |schedule| ==> schedule[i] < |s.threads|
    ensures |w.threads| == |s.threads| && |w.table| == |s.table|
  {
    ParallelSieve.State(AlwaysMarked(s, schedule), WholeState(Run(s, schedule)).threads)
  }

  /** Having cleared the next multiple, at whatever moment, a thread has cleared one more. */
  lemma MarkingAdvances(h: seq<bv8>, h': seq<bv8>, idx: nat, j: nat)
    requires ParallelSieve.Marking(h, idx, j) && Fewer(h, h') && j < 8 * |h'| && !Bit(h', j)
    ensures ParallelSieve.Marking(h', idx, j + idx)
  {
    hide Bit;
    var k := j / idx;
    AddDivisor(j, idx);
    assert idx * (k + 1) == idx * k + idx;
    forall i | 2 <= i < k + 1 ensures Gone(h', idx, i) {
      if i < k { FewerGone(h, h', idx, i); }
    }
  }

  /** What a step of thread t makes of the thread, seen with the table h' of numbers always marked. */
  lemma OwnEver(s: State, t: nat, h: seq<bv8>, h': seq<bv8>)
    requires t < |s.threads| && |h| == |s.table| && Safe(s)
    requires ParallelSieve.ThreadOk(h, t, Whole(s.threads[t]))
    requires Fewer(h, h') && Fewer(Step(s, t).table, h')
    ensures ParallelSieve.ThreadOk(h', t, Whole(Step(s, t).threads[t]))
  {
    hide Bit, IsPrime, AllGone, Fewer, KeepsPrimes, ParallelSieve.Marking, ParallelSieve.Through, Mask, Harmless;
    var th, m := s.threads[t], 8 * |s.table|;
    FewerSize(h, h');
    ParallelSieve.ThreadOkFewer(h, h', t, Whole(th));
    match th
    case Scan(idx) =>
      if idx < m {
        if Bit(s.table, idx) {
          ParallelSieve.MarkingStarts(h', idx);
        } else {
          NotPrime(s.table, idx);
          ParallelSieve.ThroughNext(h', t, idx);
        }
      }
    case Mark(idx, j) =>
      if j >= m {
        ParallelSieve.MarkingEnds(h', idx, j);
        ParallelSieve.ThroughNext(h', t, idx);
      }
    case Loaded(idx, j, byte) =>
      LoadedInside(th, m);
      StoreClears(s, t, h');
      MarkingAdvances(h, h', idx, j);
  }

  lemma FewerSize(h: seq<bv8>, h': seq<bv8>)
    requires Fewer(h, h')
    ensures |h| == |h'|
  {
  }

  lemma LoadedInside(th: Thread, bound: nat)
    requires Harmless(th, bound) && th.Loaded?
    ensures th.j < bound
  {
  }

  lemma StoreClears(s: State, t: nat, h': seq<bv8>)
    requires t < |s.threads| && s.threads[t].Loaded? && s.threads[t].j < 8 * |s.table|
    requires Fewer(Step(s, t).table, h')
    ensures !Bit(h', s.threads[t].j)
  {
    hide Mask;
    var j := s.threads[t].j;
    ByteCleared(s.threads[t].byte, j % 8, j % 8);
    assert !Bit(Step(s, t).table, j);
  }

  lemma StartSafe(table: seq<bv8>)
    requires Prepared(table)
    ensures Safe(Start(table))
  {
    hide IsPrime, Bit;
  }

  /** Whatever the interleaving, the numbers always marked go the way of the table with whole resets. */
  lemma {:induction false} EverInv(table: seq<bv8>, schedule: seq<nat>)
    requires Prepared(table) && ParallelSieve.IsSchedule(schedule)
    ensures Safe(Run(Start(table), schedule)) && ParallelSieve.Inv(EverState(Start(table), schedule))
    ensures Fewer(Run(Start(table), schedule).table, AlwaysMarked(Start(table), schedule))
    decreases |schedule|
  {
    hide Step, Prepared, Safe, Fewer, KeepsPrimes, Both, Whole, ParallelSieve.ThreadOk;
    var s0 := Start(table);
    if schedule == [] {
      StartSafe(table);
      StartWhole(table);
      MarkStarts(table, 0);
    } else {
      var rest, t := schedule[..|schedule| - 1], schedule[|schedule| - 1];
      EverInv(table, rest);
      var s, h := Run(s0, rest), AlwaysMarked(s0, rest);
      var s', h' := Step(s, t), AlwaysMarked(s0, schedule);
      StepSafe(s, t);
      SafePrimes(s');
      BothFewer(h, s'.table);
      PreparedKeeps(h);
      ParallelSieve.PreparedFewer(h, h');
      forall u: nat | u < ParallelSieve.THREADNO
        ensures ParallelSieve.ThreadOk(h', u, EverState(s0, schedule).threads[u])
      {
        assert ParallelSieve.ThreadOk(h, u, EverState(s0, rest).threads[u]);
        if u == t { OwnEver(s, t, h, h'); } else { OtherEver(s, t, u, h, h'); }
      }
    }
  }

  lemma OtherEver(s: State, t: nat, u: nat, h: seq<bv8>, h': seq<bv8>)
    requires t < |s.threads| && u < |s.threads| && u != t
    requires ParallelSieve.ThreadOk(h, u, Whole(s.threads[u])) && Fewer(h, h')
    ensures ParallelSieve.ThreadOk(h', u, Whole(Step(s, t).threads[u]))
  {
    hide ParallelSieve.ThreadOk, Fewer, Bit;
    ParallelSieve.ThreadOkFewer(h, h', u, Whole(s.threads[u]));
  }

  lemma SafePrimes(s: State)
    requires Safe(s)
    ensures KeepsPrimes(s.table)
  {
  }

  lemma PreparedKeeps(t: seq<bv8>)
    requires Prepared(t)
    ensures KeepsPrimes(t)
  {
  }

  /** When all threads have finished, every number that is not prime has been cleared at some moment. */
  lemma EverCleared(table: seq<bv8>, schedule: seq<nat>, i: nat)
    requires Prepared(table) && ParallelSieve.IsSchedule(schedule)
    requires AllFinished(Run(Start(table), schedule)) && i < 8 * |table|
    ensures Bit(AlwaysMarked(Start(table), schedule), i) <==> IsPrime(i)
  {
    hide Bit, IsPrime, Prepared, Safe;
    EverInv(table, schedule);
    var w := EverState(Start(table), schedule);
    forall t: nat | t < |w.threads| ensures ParallelSieve.Finished(w.threads[t], 8 * |w.table|) {
      assert Run(Start(table), schedule).threads[t].Scan?;
    }
    ParallelSieve.FinishedTable(w, i);
  }

  /** The table marks just the primes. */
  ghost predicate RightTable(t: seq<bv8>) { forall i: nat :: i < 8 * |t| ==> (Bit(t, i) <==> IsPrime(i)) }

  /** The final table is right just when it brings back nothing that was cleared at some moment. */
  lemma FinalExactly(table: seq<bv8>, schedule: seq<nat>)
    requires Prepared(table) && ParallelSieve.IsSchedule(schedule) && AllFinished(Run(Start(table), schedule))
    ensures RightTable(Run(Start(table), schedule).table) <==>
      Fewer(AlwaysMarked(Start(table), schedule), Run(Start(table), schedule).table)
  {
    hide Bit, IsPrime, Prepared, Safe, AllFinished, AlwaysMarked, Run;
    EverInv(table, schedule);
    var h, f := AlwaysMarked(Start(table), schedule), Run(Start(table), schedule).table;
    forall i: nat | i < 8 * |table| ensures Bit(h, i) <==> IsPrime(i) { EverCleared(table, schedule, i); }
  }

  /*
   A schedule on which a reset is lost for good: thread 1, clearing the multiples of 67, comes to
   67 * 67 = 4489, while thread 5, clearing those of 107, comes to 107 * 42 = 4494 in the same byte.
   */

  const LOST := 4489

  /** Thread t works alone for n whole resets. */
  function Alone(t: nat, n: nat): (schedule: seq<nat>)
    ensures |schedule| == 2 * n && forall i :: 0 <= i < |schedule| ==> schedule[i] == t
  {
    if n == 0 then [] else Alone(t, n - 1) + [t, t]
  }

  function LosingSchedule(): seq<nat> {
    [5, 5, 5] + Alone(5, 40) + [1] + Alone(1, 65) + [5, 1, 1, 5]
  }

  lemma {:induction false} RunConcat(s: State, a: seq<nat>, b: seq<nat>)
    requires forall i :: 0 <= i < |a| ==> a[i] < |s.threads|
    requires forall i :: 0 <= i < |b| ==> b[i] < |s.threads|
    ensures forall i :: 0 <= i < |a + b| ==> (a + b)[i] < |s.threads|
    ensures Run(s, a + b) == Run(Run(s, a), b)
    decreases |b|
  {
    hide Step;
    if b == [] {
      assert a + b == a;
    } else {
      RunConcat(s, a, b[..|b| - 1]);
      assert (a + b)[..|a + b| - 1] == a + b[..|b| - 1];
    }
  }

  function Multiple(idx: nat, k: nat): nat { idx * k }

  lemma NextMultiple(idx: nat, k: nat)
    ensures Multiple(idx, k + 1) == Multiple(idx, k) + idx
  {
  }

  /** A thread that works alone moves through its multiples and clears nothing else. */
  lemma {:induction false} RunAlone(s: State, t: nat, idx: nat, k: nat, n: nat, p: nat)
    requires t < |s.threads| && s.threads[t] == Mark(idx, Multiple(idx, k)) && p < 8 * |s.table|
    requires Multiple(idx, k + n) < 8 * |s.table|
    ensures var s' := Run(s, Alone(t, n));
            && s'.threads == s.threads[t := Mark(idx, Multiple(idx, k + n))]
            && (Bit(s.table, p) && (forall i: nat :: k <= i < k + n ==> p != Multiple(idx, i)) ==> Bit(s'.table, p))
    decreases n
  {
    hide Bit, Step, Multiple, Run;
    if n == 0 {
      RunEmpty(s);
    } else {
      var m := k + n - 1;
      NextMultiple(idx, m);
      RunAlone(s, t, idx, k, n - 1, p);
      RunConcat(s, Alone(t, n - 1), [t, t]);
      var r := Run(s, Alone(t, n - 1));
      TwoSteps(r, t, idx, Multiple(idx, m), p);
    }
  }

  lemma RunEmpty(s: State)
    ensures Run(s, []) == s
  {
  }

  lemma TwoSteps(s: State, t: nat, idx: nat, j: nat, p: nat)
    requires t < |s.threads| && s.threads[t] == Mark(idx, j) && j < 8 * |s.table| && p < 8 * |s.table|
    ensures Run(s, [t, t]) == State(Cleared(s.table, j), s.threads[t := Mark(idx, j + idx)])
    ensures Bit(s.table, p) && p != j ==> Bit(Run(s, [t, t]).table, p)
  {
    hide Bit, Mask, Run, Step;
    ClearedBits(s.table, j, p);
    RunTwo(s, t, t);
    LoadStep(s, t, idx, j);
    StoreStep(Step(s, t), t, idx, j, s.table[j / 8]);
    assert s.threads[t := Loaded(idx, j, s.table[j / 8])][t := Mark(idx, j + idx)] == s.threads[t := Mark(idx, j + idx)];
  }

  lemma RunMore(s: State, schedule: seq<nat>, t: nat)
    requires t < |s.threads| && forall i :: 0 <= i < |schedule| ==> schedule[i] < |s.threads|
    ensures forall i :: 0 <= i < |schedule + [t]| ==> (schedule + [t])[i] < |s.threads|
    ensures Run(s, schedule + [t]) == Step(Run(s, schedule), t) && Run(s, []) == s
  {
    hide Step;
    assert (schedule + [t])[..|schedule|] == schedule;
  }

  lemma LoadStep(s: State, t: nat, idx: nat, j: nat)
    requires t < |s.threads| && s.threads[t] == Mark(idx, j) && j < 8 * |s.table|
    ensures Step(s, t) == State(s.table, s.threads[t := Loaded(idx, j, s.table[j / 8])])
  {
  }

  lemma StoreStep(s: State, t: nat, idx: nat, j: nat, byte: bv8)
    requires t < |s.threads| && s.threads[t] == Loaded(idx, j, byte) && j < 8 * |s.table|
    ensures Step(s, t) == State(s.table[j / 8 := byte & !Mask(j % 8)], s.threads[t := Mark(idx, j + idx)])
  {
  }

  lemma RunTwo(s: State, a: nat, b: nat)
    requires a < |s.threads| && b < |s.threads|
    ensures Run(s, [a, b]) == Step(Step(s, a), b)
  {
    hide Step, Run;
    RunMore(s, [], a);
    RunMore(s, [a], b);
    assert [] + [a] == [a] && [a] + [b] == [a, b];
  }

  /** t and u load the same byte one after the other. */
  lemma BothLoad(s: State, t: nat, u: nat, i: nat, a: nat, k: nat, b: nat)
    requires t < |s.threads| && u < |s.threads| && t != u && a < 8 * |s.table| && b < 8 * |s.table|
    requires s.threads[t] == Mark(i, a) && s.threads[u] == Mark(k, b)
    ensures Run(s, [t, u]) ==
      State(s.table, s.threads[t := Loaded(i, a, s.table[a / 8])][u := Loaded(k, b, s.table[b / 8])])
  {
    hide Step, Run, Mask;
    RunTwo(s, t, u);
    LoadStep(s, t, i, a);
    LoadStep(Step(s, t), u, k, b);
  }

  /** Then u stores, and t stores over it. */
  lemma BothStore(s: State, t: nat, u: nat, i: nat, a: nat, x: bv8, k: nat, b: nat, y: bv8)
    requires t < |s.threads| && u < |s.threads| && t != u && a < 8 * |s.table| && b < 8 * |s.table| && a / 8 == b / 8
    requires s.threads[t] == Loaded(i, a, x) && s.threads[u] == Loaded(k, b, y)
    ensures Run(s, [u, t]) ==
      State(s.table[b / 8 := x & !Mask(a % 8)], s.threads[u := Mark(k, b + k)][t := Mark(i, a + i)])
  {
    hide Step, Run, Mask;
    RunTwo(s, u, t);
    StoreStep(s, u, k, b, y);
    StoreStep(Step(s, u), t, i, a, x);
    assert s.table[b / 8 := y & !Mask(b % 8)][a / 8 := x & !Mask(a % 8)] == s.table[b / 8 := x & !Mask(a % 8)];
  }

  /** t loads, u loads and stores, t stores an older byte: u's number is marked again. */
  lemma Overtaken(s: State, t: nat, u: nat, i: nat, a: nat, k: nat, b: nat)
    requires t < |s.threads| && u < |s.threads| && t != u && a < 8 * |s.table| && b < 8 * |s.table|
    requires s.threads[t] == Mark(i, a) && s.threads[u] == Mark(k, b)
    requires a != b && a / 8 == b / 8 && Bit(s.table, b)
    ensures var s' := Run(Run(s, [t, u]), [u, t]);
            s'.threads == s.threads[t := Mark(i, a + i)][u := Mark(k, b + k)] && Bit(s'.table, b)
  {
    hide Mask, Run, Step;
    ByteCleared(s.table[a / 8], a % 8, b % 8);
    BothLoad(s, t, u, i, a, k, b);
    BothStore(Run(s, [t, u]), t, u, i, a, s.table[a / 8], k, b, s.table[b / 8]);
  }

  /** Before the race: thread 1 comes to 67 * 67 and thread 5 to 107 * 42, and 4489 is still marked. */
  ghost predicate Racing(s: State) {
    && |s.threads| == ParallelSieve.THREADNO && LOST + 5 < 8 * |s.table|
    && s.threads[1] == Mark(67, LOST) && s.threads[5] == Mark(107, LOST + 5)
    && (forall t: nat :: t < |s.threads| && t != 1 && t != 5 ==> s.threads[t] == Scan(65 + 2 * t))
    && Bit(s.table, LOST)
  }

  /** The first three steps of thread 5 bring it to the multiples of 107. */
  lemma FifthStarts(table: seq<bv8>)
    requires Prepared(table) && LOST + 5 < 8 * |table|
    ensures Run(Start(table), [5, 5, 5]) == State(table, Start(table).threads[5 := Mark(107, 214)])
  {
    hide Bit, IsPrime, Run, AllGone, KeepsPrimes, Step;
    SmallPrimes();
    ParallelSieve.GoneAt(table, 3, 25);
    ParallelSieve.GoneAt(table, 7, 13);
    PreparedPrime(table, 107);
    var s := Start(table);
    ScanStep(s, 5, 75);
    ScanStep(Step(s, 5), 5, 91);
    ScanStep(Step(Step(s, 5), 5), 5, 107);
    RunTwo(s, 5, 5);
    RunMore(s, [5, 5], 5);
    assert [5, 5] + [5] == [5, 5, 5];
    assert s.threads[5 := Scan(91)][5 := Scan(107)][5 := Mark(107, 214)] == s.threads[5 := Mark(107, 214)];
  }

  lemma ScanStep(s: State, t: nat, idx: nat)
    requires t < |s.threads| && s.threads[t] == Scan(idx) && idx < 8 * |s.table|
    ensures Step(s, t) == State(s.table, s.threads[t := if Bit(s.table, idx) then Mark(idx, idx * 2) else Scan(idx + 16)])
  {
  }

  lemma RoughLost()
    ensures Rough(LOST) && !IsPrime(LOST) && IsPrime(67)
  {
    hide IsPrime, NoneDivides;
    TrialDivisions();
    SmallPrimes();
    forall d | 2 <= d < 64 ensures !Divides(d, LOST) { NoneDividesAt(4489, 2, 63, d); }
    ProductNotPrime(67, 67);
  }

  lemma TrialDivisions()
    ensures NoneDivides(4489, 2, 63) && NoneDivides(4489, 2, 66) && NoneDivides(4489, 68, 69)
  {
    assert NoneDivides(4489, 2, 10);
    assert NoneDivides(4489, 2, 20);
    assert NoneDivides(4489, 2, 30);
    assert NoneDivides(4489, 2, 40);
    assert NoneDivides(4489, 2, 50);
    assert NoneDivides(4489, 2, 60);
  }

  lemma SmallPrimes()
    ensures IsPrime(3) && IsPrime(7) && IsPrime(67) && IsPrime(107)
  {
    hide IsPrime;
    assert NoneDivides(3, 2, 1) && NoneDivides(7, 2, 2) && NoneDivides(67, 2, 8) && NoneDivides(107, 2, 10);
    PrimeByTrial(3, 1);
    PrimeByTrial(7, 2);
    PrimeByTrial(67, 8);
    PrimeByTrial(107, 10);
  }

  /** From the start of the program the race is reached. */
  lemma RaceReached(table: seq<bv8>)
    requires Prepared(table) && KeepsRough(table) && LOST + 5 < 8 * |table|
    ensures Racing(Run(Start(table), [5, 5, 5] + Alone(5, 40) + [1] + Alone(1, 65)))
  {
    hide Bit, Prepared, IsPrime, Rough, Run, Step, Alone;
    RoughLost();
    var s0 := Start(table);
    FifthStarts(table);
    var s1 := Run(s0, [5, 5, 5]);
    assert Bit(table, LOST) && Bit(table, 67) by { PreparedPrime(table, 67); }
    RunAlone(s1, 5, 107, 2, 40, LOST);
    RunAlone(s1, 5, 107, 2, 40, 67);
    RunConcat(s0, [5, 5, 5], Alone(5, 40));
    var s2 := Run(s1, Alone(5, 40));
    assert s2.threads[1] == Scan(67);
    FirstStarts(s2);
    RunConcat(s0, [5, 5, 5] + Alone(5, 40), [1]);
    var s3 := Run(s2, [1]);
    RunAlone(s3, 1, 67, 2, 65, LOST);
    RunConcat(s0, [5, 5, 5] + Alone(5, 40) + [1], Alone(1, 65));
  }

  lemma PreparedPrime(table: seq<bv8>, p: nat)
    requires Prepared(table) && IsPrime(p) && p < 8 * |table|
    ensures Bit(table, p)
  {
  }

  lemma FirstStarts(s: State)
    requires |s.threads| == ParallelSieve.THREADNO && s.threads[1] == Scan(67) && 67 < 8 * |s.table| && Bit(s.table, 67)
    ensures Run(s, [1]) == s.(threads := s.threads[1 := Mark(67, 134)])
  {
    hide Bit, Run;
    RunMore(s, [], 1);
    assert [] + [1] == [1];
  }

  /** A thread that will not clear 4489: what it has loaded of that byte has it marked. */
  ghost predicate Past(th: Thread, bound: nat) {
    && 65 <= th.idx && (th.Scan? ==> th.idx != 67)
    && (!th.Scan? ==> (th.idx == 67 ==> LOST < th.j) && exists k :: 2 <= k && IsTimes(th.j, th.idx, k))
    && (th.Loaded? ==> th.j < bound && (th.j / 8 == LOST / 8 ==> th.byte & Mask(LOST % 8) != 0))
  }

  ghost predicate LostInv(s: State) {
    && LOST < 8 * |s.table| && Bit(s.table, LOST)
    && forall t: nat :: t < |s.threads| ==> Past(s.threads[t], 8 * |s.table|)
  }

  /** Of the numbers from 65 up, 67 alone has 4489 among its multiples 2q, 3q, ... */
  lemma OnlyBySixtySeven(idx: nat, k: nat)
    requires 65 <= idx && 2 <= k && IsTimes(LOST, idx, k)
    ensures idx == 67
  {
    hide NoneDivides;
    TrialDivisions();
    if k >= 70 { MulMonotone(70, k, idx); }
    ModOfMultiple(k, idx);
    if k <= 66 { NoneDividesAt(4489, 2, 66, k); }
    if 68 <= k <= 69 { NoneDividesAt(4489, 68, 69, k); }
  }

  lemma OwnStepPast(s: State, t: nat)
    requires LostInv(s) && t < |s.threads|
    ensures Bit(Step(s, t).table, LOST) && Past(Step(s, t).threads[t], 8 * |s.table|)
  {
    hide Mask;
    var th, m := s.threads[t], 8 * |s.table|;
    assert Past(th, m);
    match th
    case Scan(idx) =>
      assert IsTimes(idx * 2, idx, 2);
    case Mark(idx, j) =>
    case Loaded(idx, j, byte) =>
      var k :| 2 <= k && IsTimes(j, idx, k);
      assert IsTimes(j + idx, idx, k + 1);
      if j == LOST { OnlyBySixtySeven(idx, k); }
      if j / 8 == LOST / 8 { ByteCleared(byte, j % 8, LOST % 8); }
  }

  lemma {:induction false} StaysLost(s: State, rest: seq<nat>)
    requires LostInv(s) && |s.threads| == ParallelSieve.THREADNO && ParallelSieve.IsSchedule(rest)
    ensures LostInv(Run(s, rest))
    decreases |rest|
  {
    hide Past, Bit;
    if rest != [] {
      StaysLost(s, rest[..|rest| - 1]);
      OwnStepPast(Run(s, rest[..|rest| - 1]), rest[|rest| - 1]);
    }
  }

  lemma RaceLost(s: State)
    requires Racing(s)
    ensures LostInv(Run(s, [5, 1, 1, 5]))
  {
    hide Bit, Run;
    Overtaken(s, 5, 1, 107, LOST + 5, 67, LOST);
    RunConcat(s, [5, 1], [1, 5]);
    assert [5, 1] + [1, 5] == [5, 1, 1, 5];
    var s' := Run(s, [5, 1, 1, 5]);
    assert IsTimes(LOST + 67, 67, 68) && IsTimes(LOST + 5 + 107, 107, 43);
    assert s'.threads[1] == Mark(67, LOST + 67) && s'.threads[5] == Mark(107, LOST + 5 + 107);
    forall t: nat | t < |s'.threads| ensures Past(s'.threads[t], 8 * |s'.table|) {
      if t != 1 && t != 5 { assert s'.threads[t] == Scan(65 + 2 * t); }
    }
  }

  /** After the losing schedule 4489 = 67 * 67 stays marked, however the run goes on. */
  lemma LostReset(table: seq<bv8>, rest: seq<nat>)
    requires Prepared(table) && KeepsRough(table) && LOST + 5 < 8 * |table| && ParallelSieve.IsSchedule(rest)
    ensures ParallelSieve.IsSchedule(LosingSchedule() + rest) && !IsPrime(LOST)
    ensures Bit(Run(Start(table), LosingSchedule() + rest).table, LOST)
  {
    hide Bit, Prepared, KeepsRough, IsPrime, Run, Racing, Alone;
    var way := [5, 5, 5] + Alone(5, 40) + [1] + Alone(1, 65);
    RoughLost();
    RaceReached(table);
    RaceLost(Run(Start(table), way));
    RunConcat(Start(table), way, [5, 1, 1, 5]);
    StaysLost(Run(Start(table), LosingSchedule()), rest);
    RunConcat(Start(table), LosingSchedule(), rest);
  }
}
