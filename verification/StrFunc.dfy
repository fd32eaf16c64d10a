/**
  Numbers as text: what the printers and parsers of `stringHash4MCU_/strfunc.c` mean. Values are
  unbounded here; the 32-bit limits appear where the parsers give up.
*/
module Numerals {

  const WORD: nat := 0x1_0000_0000

  /** The value of a digit in the given base, or -1; letters count in base 16 only. */
  function DigitOf(c: char, base: nat): (d: int)
    ensures -1 <= d < 16
    ensures base <= 16 ==> d < base || d == -1
  {
    if '0' <= c <= '9' && (c as int) - ('0' as int) < base then (c as int) - ('0' as int)
    else if base == 16 && 'A' <= c <= 'F' then (c as int) - ('A' as int) + 10
    else if base == 16 && 'a' <= c <= 'f' then (c as int) - ('a' as int) + 10
    else -1
  }

  predicate IsDigit(c: char, base: nat) { DigitOf(c, base) >= 0 }

  /** The number that a string of digits denotes; other characters count as zero. */
  function Value(s: string, base: nat): (v: nat) {
    if s == [] then 0
    else Value(s[..|s| - 1], base) * base + (if IsDigit(s[|s| - 1], base) then DigitOf(s[|s| - 1], base) else 0)
  }

  /** The first position from i on that holds no digit. */
  function Span(txt: string, i: nat, base: nat): (j: nat)
    requires i <= |txt|
    ensures i <= j <= |txt|
    ensures forall k :: i <= k < j ==> IsDigit(txt[k], base)
    ensures j < |txt| ==> !IsDigit(txt[j], base)
    decreases |txt| - i
  {
    if i < |txt| && IsDigit(txt[i], base) then Span(txt, i + 1, base) else i
  }

  /** The character a pointer sees: the terminator behind the last one. */
  function At(txt: string, i: nat): char { if i < |txt| then txt[i] else '\0' }

  /** The first character from i on that is greater than a space, or the end of the string. */
  function Skip(txt: string, i: nat): (j: nat)
    requires i <= |txt|
    ensures i <= j <= |txt|
    ensures At(txt, j) == '\0' || At(txt, j) > ' '
    ensures forall k :: i <= k < j ==> txt[k] != '\0' && txt[k] <= ' '
    decreases |txt| - i
  {
    if At(txt, i) == '\0' || At(txt, i) > ' ' then i else Skip(txt, i + 1)
  }

  /** A number written in a text: where it ends and what it is, however large. */
  datatype Written = Nothing | Number(end: nat, value: nat)

  function DigitsAt(txt: string, i: nat, base: nat): (w: Written)
    requires i <= |txt|
    ensures w.Number? <==> i < |txt| && IsDigit(txt[i], base)
    ensures w.Number? ==> i < w.end <= |txt|
  {
    var j := Span(txt, i, base);
    if j == i then Nothing else Number(j, Value(txt[i..j], base))
  }

  /** 0x… is hexadecimal, 0 and an octal digit octal, 0 and anything else zero, b… binary. */
  function NumberAt(txt: string, i: nat): (w: Written)
    requires i <= |txt|
    ensures w.Number? ==> i < w.end <= |txt|
  {
    var s := Skip(txt, i);
    var c, d := At(txt, s), At(txt, s + 1);
    if c == '0' && (d == 'x' || d == 'X') then DigitsAt(txt, s + 2, 16)
    else if c == '0' && '0' <= d < '8' then DigitsAt(txt, s + 1, 8)
    else if c == '0' then Number(s + 1, 0)
    else if c == 'b' || c == 'B' then DigitsAt(txt, s + 1, 2)
    else DigitsAt(txt, s, 10)
  }

  /** A value of 32 bits with an optional sign, as signed numbers are read. */
  function IntegerAt(txt: string, i: nat): (w: Written)
    requires i <= |txt|
    ensures w.Number? ==> i < w.end <= |txt|
  {
    var s := Skip(txt, i);
    NumberAt(txt, if At(txt, s) == '-' then s + 1 else s)
  }

  predicate Negative(txt: string, i: nat)
    requires i <= |txt|
  {
    At(txt, Skip(txt, i)) == '-'
  }

  function DigitChar(d: nat): (c: char)
    requires d < 16
    ensures DigitOf(c, 16) == d
    ensures d < 10 ==> DigitOf(c, 10) == d && '0' <= c <= '9'
    ensures c > ' ' && c != '-' && c != '\0'
    ensures c == '0' <==> d == 0
  {
    if d < 10 then '0' + d as char else 'a' + (d - 10) as char
  }

  /** The decimal text of a number, without leading zeros. */
  function Decimal(n: nat): (s: string)
    ensures s != []
  {
    (if n < 10 then "" else Decimal(n / 10)) + [DigitChar(n % 10)]
  }

  function HexPair(b: nat): string
    requires b < 256
  {
    [DigitChar(b / 16), DigitChar(b % 16)]
  }

  /** The bytes of a number in hexadecimal, without leading zero bytes. */
  function HexBytes(n: nat): (s: string)
    ensures s != []
  {
    (if n < 256 then "" else HexBytes(n / 256)) + HexPair(n % 256)
  }

  lemma ValueAppend(s: string, c: char, base: nat)
    ensures Value(s + [c], base) == Value(s, base) * base + (if IsDigit(c, base) then DigitOf(c, base) else 0)
  {
    assert (s + [c])[..|s|] == s;
  }

  /** Further digits never make a number smaller. */
  lemma {:induction false} ValueGrows(s: string, t: string, base: nat)
    requires 1 <= base
    ensures Value(s + t, base) >= Value(s, base)
    decreases |t|
  {
    if t == [] {
      assert s + t == s;
    } else {
      var u := t[..|t| - 1];
      ValueGrows(s, u, base);
      assert s + t == (s + u) + [t[|t| - 1]];
      ValueAppend(s + u, t[|t| - 1], base);
      Scale(Value(s + u, base), base);
    }
  }

  lemma Scale(v: nat, base: nat)
    requires 1 <= base
    ensures v * base >= v
  {
  }

  ghost predicate AllDigits(s: string, base: nat) { forall k :: 0 <= k < |s| ==> IsDigit(s[k], base) }

  lemma {:induction false} DecimalMeans(n: nat)
    ensures AllDigits(Decimal(n), 10) && Value(Decimal(n), 10) == n
    ensures Decimal(n)[0] == '0' <==> n == 0
    decreases n
  {
    var c := DigitChar(n % 10);
    if n < 10 {
      assert Decimal(n) == [c];
      ValueAppend("", c, 10);
      assert "" + [c] == [c];
    } else {
      DecimalMeans(n / 10);
      ValueAppend(Decimal(n / 10), c, 10);
    }
  }

  lemma {:induction false} DecimalLength(n: nat, k: nat)
    requires 1 <= k && n < Power(10, k)
    ensures |Decimal(n)| <= k
    decreases k
  {
    if n >= 10 {
      assert k >= 2 by { assert Power(10, 1) == 10 * Power(10, 0); }
      DecimalLength(n / 10, k - 1);
    }
  }

  function Power(base: nat, k: nat): nat { if k == 0 then 1 else base * Power(base, k - 1) }

  lemma {:induction false} HexBytesMeans(n: nat)
    ensures AllDigits(HexBytes(n), 16) && Value(HexBytes(n), 16) == n
    decreases n
  {
    hide DigitOf;
    if n >= 256 { HexBytesMeans(n / 256); }
    PairMeans(if n < 256 then "" else HexBytes(n / 256), n);
  }

  lemma PairMeans(high: string, n: nat)
    requires AllDigits(high, 16) && Value(high, 16) == n / 256
    ensures AllDigits(high + HexPair(n % 256), 16) && Value(high + HexPair(n % 256), 16) == n
  {
    hide DigitOf, DigitChar, Value;
    var b := n % 256;
    assert high + HexPair(b) == (high + [DigitChar(b / 16)]) + [DigitChar(b % 16)];
    ValueAppend(high, DigitChar(b / 16), 16);
    ValueAppend(high + [DigitChar(b / 16)], DigitChar(b % 16), 16);
  }

  /** A text that is all digits from i on is read to its end. */
  lemma ReadsAll(txt: string, i: nat, base: nat)
    requires i < |txt| && AllDigits(txt[i..], base)
    ensures DigitsAt(txt, i, base) == Number(|txt|, Value(txt[i..], base))
  {
    forall k | i <= k < |txt| ensures IsDigit(txt[k], base) { assert txt[k] == txt[i..][k - i]; }
    assert txt[i..|txt|] == txt[i..];
  }

  /** Printed in decimal and read again, every number comes back, of any size. */
  lemma DecimalRoundTrip(n: nat)
    ensures NumberAt(Decimal(n), 0) == Number(|Decimal(n)|, n)
  {
    hide Value;
    var t := Decimal(n);
    DecimalMeans(n);
    assert IsDigit(t[0], 10);
    assert Skip(t, 0) == 0 && At(t, 0) == t[0];
    assert t[0..] == t;
    if n == 0 {
      assert t == "0";
    } else {
      ReadsAll(t, 0, 10);
    }
  }

  lemma HexRoundTrip(n: nat)
    ensures NumberAt("0x" + HexBytes(n), 0) == Number(2 + |HexBytes(n)|, n)
  {
    hide Value, HexBytes;
    var t := "0x" + HexBytes(n);
    HexBytesMeans(n);
    assert t[2..] == HexBytes(n);
    assert Skip(t, 0) == 0 && At(t, 0) == '0' && At(t, 1) == 'x';
    ReadsAll(t, 2, 16);
  }

  /** The text of a signed number. */
  function Signed(i: int): string { if i < 0 then "-" + Decimal(-i) else Decimal(i) }

  lemma SignedRoundTrip(i: int)
    ensures IntegerAt(Signed(i), 0) == Number(|Signed(i)|, if i < 0 then -i else i)
    ensures Negative(Signed(i), 0) <==> i < 0
  {
    hide Value, Decimal, Skip, DigitOf, NumberAt;
    if i < 0 {
      NegativeRoundTrip(-i);
    } else {
      DecimalRoundTrip(i);
      DecimalMeans(i);
      DigitStays(Decimal(i), 0);
    }
  }

  lemma NegativeRoundTrip(n: nat)
    requires n > 0
    ensures IntegerAt("-" + Decimal(n), 0) == Number(1 + |Decimal(n)|, n) && Negative("-" + Decimal(n), 0)
  {
    hide Value, Decimal, DigitOf;
    var u := Decimal(n);
    var t := "-" + u;
    DecimalMeans(n);
    assert Skip(t, 0) == 0 && At(t, 0) == '-';
    assert t[1..] == u && t[1] == u[0];
    DigitStays(t, 1);
    ReadsAll(t, 1, 10);
  }

  /** A digit is no space, no sign and no letter. */
  lemma DigitStays(txt: string, i: nat)
    requires i < |txt| && IsDigit(txt[i], 10)
    ensures Skip(txt, i) == i && At(txt, i) == txt[i] && '0' <= txt[i] <= '9'
  {
  }

  /** The octal and the binary digits of a number, without leading zeros. */
  function Octal(n: nat): (s: string)
    ensures s != []
  {
    (if n < 8 then "" else Octal(n / 8)) + [DigitChar(n % 8)]
  }

  function Binary(n: nat): (s: string)
    ensures s != []
  {
    (if n < 2 then "" else Binary(n / 2)) + [DigitChar(n % 2)]
  }

  lemma DigitInBase(d: nat, base: nat)
    requires d < base <= 10
    ensures DigitOf(DigitChar(d), base) == d
  {
  }

  lemma {:induction false} OctalMeans(n: nat)
    ensures AllDigits(Octal(n), 8) && Value(Octal(n), 8) == n
    decreases n
  {
    hide DigitOf, DigitChar, Value, IsDigit;
    if n >= 8 { OctalMeans(n / 8); } else { EmptyValue(8); }
    DigitAppended(if n < 8 then "" else Octal(n / 8), n % 8, 8, n / 8);
  }

  lemma {:induction false} BinaryMeans(n: nat)
    ensures AllDigits(Binary(n), 2) && Value(Binary(n), 2) == n
    decreases n
  {
    hide DigitOf, DigitChar, Value, IsDigit;
    if n >= 2 { BinaryMeans(n / 2); } else { EmptyValue(2); }
    DigitAppended(if n < 2 then "" else Binary(n / 2), n % 2, 2, n / 2);
  }

  lemma EmptyValue(base: nat)
    ensures AllDigits("", base) && Value("", base) == 0
  {
  }

  lemma DigitAppended(high: string, d: nat, base: nat, v: nat)
    requires AllDigits(high, base) && Value(high, base) == v && d < base <= 10
    ensures AllDigits(high + [DigitChar(d)], base) && Value(high + [DigitChar(d)], base) == v * base + d
  {
    hide DigitOf, DigitChar, Value;
    DigitInBase(d, base);
    ValueAppend(high, DigitChar(d), base);
  }

  /** A zero before the octal digits of a number of any size, or a b before the binary ones, is the number. */
  lemma OctalAndBinary(n: nat)
    ensures NumberAt("0" + Octal(n), 0) == Number(1 + |Octal(n)|, n)
    ensures NumberAt("b" + Binary(n), 0) == Number(1 + |Binary(n)|, n)
    ensures NumberAt("B" + Binary(n), 0) == Number(1 + |Binary(n)|, n)
  {
    OctalText(n);
    BinaryText('b', n);
    BinaryText('B', n);
  }

  lemma OctalText(n: nat)
    ensures NumberAt("0" + Octal(n), 0) == Number(1 + |Octal(n)|, n)
  {
    hide Value, Octal, Binary, DigitOf;
    var t := "0" + Octal(n);
    OctalMeans(n);
    assert t[1..] == Octal(n);
    assert Skip(t, 0) == 0 && At(t, 0) == '0' && At(t, 1) == Octal(n)[0];
    OctalDigit(At(t, 1));
    ReadsAll(t, 1, 8);
  }

  lemma OctalDigit(c: char)
    ensures IsDigit(c, 8) <==> '0' <= c < '8'
  {
  }

  lemma BinaryText(p: char, n: nat)
    requires p == 'b' || p == 'B'
    ensures NumberAt([p] + Binary(n), 0) == Number(1 + |Binary(n)|, n)
  {
    hide Value, Octal, Binary, DigitOf;
    var t := [p] + Binary(n);
    BinaryMeans(n);
    assert t[1..] == Binary(n);
    assert Skip(t, 0) == 0 && At(t, 0) == p;
    ReadsAll(t, 1, 2);
  }

  /** Capital letters are the same hexadecimal digits. */
  function Capital(c: char): char { if 'a' <= c <= 'f' then 'A' + (c - 'a') else c }

  function Capitals(s: string): (t: string)
    ensures |t| == |s| && forall i :: 0 <= i < |s| ==> t[i] == Capital(s[i])
  {
    seq(|s|, i requires 0 <= i < |s| => Capital(s[i]))
  }

  lemma {:induction false} CapitalsMean(s: string)
    ensures Value(Capitals(s), 16) == Value(s, 16)
    ensures AllDigits(s, 16) ==> AllDigits(Capitals(s), 16)
  {
    if s != [] {
      var n := |s| - 1;
      CapitalsMean(s[..n]);
      assert Capitals(s)[..n] == Capitals(s[..n]);
    }
  }

  lemma CapitalHexRead(n: nat)
    ensures NumberAt("0X" + Capitals(HexBytes(n)), 0) == Number(2 + |HexBytes(n)|, n)
  {
    hide Value, HexBytes, Capitals;
    var u := Capitals(HexBytes(n));
    var t := "0X" + u;
    HexBytesMeans(n);
    CapitalsMean(HexBytes(n));
    assert t[2..] == u;
    assert Skip(t, 0) == 0 && At(t, 0) == '0' && At(t, 1) == 'X';
    ReadsAll(t, 2, 16);
  }

  /** The documented prefix 0b is not read as binary: the number ends after its zero. */
  lemma ZeroBinary(t: string)
    ensures NumberAt("0b" + t, 0) == Number(1, 0)
  {
    var u := "0b" + t;
    assert At(u, 0) == '0' && At(u, 1) == 'b' && Skip(u, 0) == 0;
  }
}

/** The parsers: pointers into a text are positions in it. */
module NumberReaders {
  import opened Numerals

  /** What reading gave: the position behind the number, and the 32-bit value. */
  ghost predicate Delivers(w: Written, at: nat, nxt: nat, n: nat) {
    match w
    case Nothing => nxt == at && n == 0
    case Number(end, value) => if value < WORD then nxt == end && n == value else nxt == at && n == 0xffffff
  }

  method OmitSpaces(txt: string, at: nat) returns (buf: nat)
    requires at <= |txt|
    ensures buf == Skip(txt, at)
  {
    buf := at;
    while At(txt, buf) != '\0'
      invariant at <= buf <= |txt|
      invariant Skip(txt, buf) == Skip(txt, at)
      decreases |txt| - buf
    {
      if At(txt, buf) > ' ' { break; }
      buf := buf + 1;
    }
  }

  /** The number with one more digit at its end. */
  function Appended(num: nat, c: char, base: nat): nat
    requires IsDigit(c, base)
  {
    num * base + DigitOf(c, base)
  }

  /** The digits read so far make up num, and the run of digits goes on from buf. */
  ghost predicate Reading(txt: string, at: nat, buf: nat, num: nat, base: nat) {
    && at <= buf <= |txt| && num < WORD
    && Span(txt, buf, base) == Span(txt, at, base)
    && num == Value(txt[at..buf], base)
  }

  lemma ReadingOn(txt: string, at: nat, buf: nat, num: nat, base: nat)
    requires 1 <= base <= 16 && Reading(txt, at, buf, num, base)
    requires buf < |txt| && IsDigit(txt[buf], base)
    ensures var more := Appended(num, txt[buf], base);
            if more < WORD then Reading(txt, at, buf + 1, more, base)
            else Delivers(DigitsAt(txt, at, base), at, at, 0xffffff)
  {
    hide Value, DigitOf;
    assert txt[at..buf + 1] == txt[at..buf] + [txt[buf]];
    ValueAppend(txt[at..buf], txt[buf], base);
    assert Span(txt, buf, base) == Span(txt, buf + 1, base);
    var j := Span(txt, at, base);
    assert txt[at..j] == txt[at..buf + 1] + txt[buf + 1..j];
    ValueGrows(txt[at..buf + 1], txt[buf + 1..j], base);
  }

  lemma ReadingEnds(txt: string, at: nat, buf: nat, num: nat, base: nat)
    requires Reading(txt, at, buf, num, base) && !IsDigit(At(txt, buf), base)
    ensures Delivers(DigitsAt(txt, at, base), at, buf, num)
  {
    hide DigitOf;
    assert Span(txt, buf, base) == buf;
  }

  lemma ReadingStarts(txt: string, at: nat, base: nat)
    requires at <= |txt|
    ensures Reading(txt, at, at, 0, base)
  {
    assert txt[at..at] == [];
  }

  method GetDec(txt: string, at: nat) returns (buf: nat, n: nat)
    requires at <= |txt|
    ensures Delivers(DigitsAt(txt, at, 10), at, buf, n)
  {
    hide Reading, Delivers;
    buf := at;
    var num: nat := 0;
    ReadingStarts(txt, at, 10);
    while At(txt, buf) != '\0'
      invariant at <= buf <= |txt| && Reading(txt, at, buf, num, 10)
      decreases |txt| - buf
    {
      var c := At(txt, buf);
      if c < '0' || c > '9' { break; }
      ReadingOn(txt, at, buf, num, 10);
      if num > 429496729 || (num == 429496729 && c > '5') { return at, 0xffffff; }
      num := num * 10;
      num := num + (c as int - '0' as int);
      buf := buf + 1;
    }
    ReadingEnds(txt, at, buf, num, 10);
    n := num;
  }

  method GetHex(txt: string, at: nat) returns (buf: nat, n: nat)
    requires at <= |txt|
    ensures Delivers(DigitsAt(txt, at, 16), at, buf, n)
  {
    hide Reading, Delivers;
    buf := at;
    var num: nat := 0;
    ReadingStarts(txt, at, 16);
    while At(txt, buf) != '\0'
      invariant at <= buf <= |txt| && num < WORD && Reading(txt, at, buf, num, 16)
      decreases |txt| - buf
    {
      var c := At(txt, buf);
      var m := 0;
      if '0' <= c <= '9' { m := '0' as int; }
      else if 'A' <= c <= 'F' { m := 'A' as int - 10; }
      else if 'a' <= c <= 'f' { m := 'a' as int - 10; }
      if m != 0 {
        ReadingOn(txt, at, buf, num, 16);
        if HighBits(num, 0x1000_0000) != 0 { return at, 0xffffff; }
        num := num * 16;
        num := num + (c as int - m);
      } else {
        break;
      }
      buf := buf + 1;
    }
    ReadingEnds(txt, at, buf, num, 16);
    n := num;
  }

  /** The bits of a 32-bit number from the given one up: what is left under a mask of them. */
  function HighBits(num: nat, low: nat): (h: nat)
    requires num < WORD && 0 < low
    ensures h == 0 <==> num < low
  {
    num / low * low
  }

  method GetOct(txt: string, at: nat) returns (buf: nat, n: nat)
    requires at <= |txt|
    ensures Delivers(DigitsAt(txt, at, 8), at, buf, n)
  {
    hide Reading, Delivers;
    buf := at;
    var num: nat := 0;
    ReadingStarts(txt, at, 8);
    while At(txt, buf) != '\0'
      invariant at <= buf <= |txt| && num < WORD && Reading(txt, at, buf, num, 8)
      decreases |txt| - buf
    {
      var c := At(txt, buf);
      if c < '0' || c > '7' { break; }
      ReadingOn(txt, at, buf, num, 8);
      if HighBits(num, 0x2000_0000) != 0 { return at, 0xffffff; }
      num := num * 8;
      num := num + (c as int - '0' as int);
      buf := buf + 1;
    }
    ReadingEnds(txt, at, buf, num, 8);
    n := num;
  }

  method GetBin(txt: string, at: nat) returns (buf: nat, n: nat)
    requires at <= |txt|
    ensures Delivers(DigitsAt(txt, at, 2), at, buf, n)
  {
    hide Reading, Delivers;
    buf := at;
    var num: nat := 0;
    ReadingStarts(txt, at, 2);
    while At(txt, buf) != '\0'
      invariant at <= buf <= |txt| && num < WORD && Reading(txt, at, buf, num, 2)
      decreases |txt| - buf
    {
      var c := At(txt, buf);
      if c < '0' || c > '1' { break; }
      ReadingOn(txt, at, buf, num, 2);
      if HighBits(num, 0x8000_0000) != 0 { return at, 0xffffff; }
      num := num * 2;
      if c == '1' { num := num + 1; }
      buf := buf + 1;
    }
    ReadingEnds(txt, at, buf, num, 2);
    n := num;
  }

  /** The value at the position, unless there is none or it needs more than 32 bits. */
  method GetNum(txt: string, at: nat) returns (nxt: nat, n: nat)
    requires at <= |txt|
    ensures Delivers(NumberAt(txt, at), at, nxt, n)
    ensures nxt == at <==> NumberAt(txt, at) == Nothing || NumberAt(txt, at).value >= 0x1_0000_0000
  {
    hide DigitOf, IsDigit, Value, Span, Skip;
    var s := OmitSpaces(txt, at);
    var c, d := At(txt, s), At(txt, s + 1);
    if c == '0' {
      if d == 'x' || d == 'X' {
        nxt, n := GetHex(txt, s + 2);
        if nxt == s + 2 { nxt := at; }
      } else if '0' <= d < '8' {
        nxt, n := GetOct(txt, s + 1);
        if nxt == s + 1 { nxt := at; }
      } else {
        nxt, n := s + 1, 0;
      }
    } else if c == 'b' || c == 'B' {
      nxt, n := GetBin(txt, s + 1);
      if nxt == s + 1 { nxt := at; }
    } else {
      nxt, n := GetDec(txt, s);
      if nxt == s { nxt := at; }
    }
  }

  /** A signed number of at most 31 bits; on failure the caller's variable keeps its value. */
  method GetInt(txt: string, at: nat, was: int) returns (nxt: nat, i: int)
    requires at <= |txt|
    ensures var w := IntegerAt(txt, at);
            if w.Number? && w.value < 0x8000_0000
            then nxt == w.end && i == (if Negative(txt, at) then 0 - w.value else w.value)
            else nxt == at && i == was
  {
    var s := OmitSpaces(txt, at);
    var sign: int := 1;
    if At(txt, s) == '-' {
      sign := -1;
      s := s + 1;
    }
    var u;
    nxt, u := GetNum(txt, s);
    if nxt == s { return at, was; }
    if HighBits(u, 0x8000_0000) != 0 { return at, was; }
    i := sign * u;
  }
}

/** The printers, each with its own static buffer. */
module NumberPrinters {
  import opened Numerals
  import opened NumberReaders

  class Printer {
    const strbuf: array<char>
    const buf: array<char>

    ghost predicate Valid()
      reads this, buf
    {
      strbuf.Length == 12 && buf.Length == 12 && strbuf != buf && buf[0] == '0' && buf[1] == 'x'
    }

    constructor ()
      ensures Valid() && fresh(strbuf) && fresh(buf)
    {
      strbuf := new char[12](_ => '\0');
      buf := new char[12](i => if i == 0 then '0' else if i == 1 then 'x' else '\0');
    }

    /** One more character in front of those already in the buffer. */
    method PutFront(at: nat, c: char) returns (front: nat)
      requires Valid() && 1 <= at <= 11
      modifies strbuf
      ensures Valid() && front == at - 1 && strbuf[11] == old(strbuf[11])
      ensures strbuf[front..11] == [c] + old(strbuf[at..11])
    {
      front := at - 1;
      strbuf[front] := c;
    }

    /** The buffer is filled from its end; the result points at the first character. */
    method ToStr(n: nat, minus: bool) returns (at: nat)
      requires Valid() && n < WORD
      modifies strbuf
      ensures Valid() && at <= 11 && strbuf[11] == '\0'
      ensures strbuf[at..11] == (if minus then "-" else "") + Decimal(n)
    {
      hide Decimal;
      var val: nat := n;
      at := 11;
      strbuf[at] := '\0';
      TenDigits(n);
      DecimalUnfold(val);
      if val == 0 {
        at := PutFront(at, '0');
      } else {
        while val != 0
          invariant Valid() && 1 <= at <= 11 && strbuf[11] == '\0' && (val > 0 ==> at >= 2)
          invariant Decimal(n) == Front(val) + strbuf[at..11]
          invariant |Decimal(n)| <= 10
        {
          DecimalUnfold(val);
          var x := val / 10;
          assert val - 10 * x == val % 10;
          at := PutFront(at, '0' + (val - 10 * x) as char);
          val := x;
        }
      }
      if minus { at := PutFront(at, '-'); }
    }

    method U2Str(n: nat) returns (at: nat)
      requires Valid() && n < WORD
      modifies strbuf
      ensures Valid() && at <= 11 && strbuf[11] == '\0' && strbuf[at..11] == Decimal(n)
    {
      at := ToStr(n, false);
    }

    method I2Str(i: int) returns (at: nat)
      requires Valid() && -0x8000_0000 <= i < 0x8000_0000
      modifies strbuf
      ensures Valid() && at <= 11 && strbuf[11] == '\0' && strbuf[at..11] == Signed(i)
    {
      var minus := false;
      var val;
      if i < 0 {
        minus := true;
        val := -i;
      } else {
        val := i;
      }
      at := ToStr(val, minus);
    }

    /** Two digits for each byte from the first that is not zero; the last is always shown. */
    method UHex2Str(n: nat) returns (len: nat)
      requires Valid() && n < WORD
      modifies buf
      ensures Valid() && len <= 10 && buf[len] == '\0' && buf[..len] == "0x" + HexBytes(n)
    {
      hide HexBytes, HexPair;
      var npos := 2;
      var z := true;
      assert buf[..2] == "0x";
      for i := 0 to 4
        invariant Valid() && 2 <= npos <= 2 + 2 * i
        invariant z ==> Upper(n, i) == 0 && npos == 2 && i < 4
        invariant buf[..npos] == "0x" + (if z then "" else HexBytes(Upper(n, i)))
        invariant !z ==> Upper(n, i) > 0 || i == 4
      {
        var byte := Upper(n, i + 1) % 256;
        UpperNext(n, i);
        if byte == 0 {
          if i == 3 { z := false; }
          if z { continue; }
        } else {
          z := false;
        }
        HexBytesNext(n, i, buf[..npos]);
        npos := PutPair(npos, byte);
      }
      buf[npos] := '\0';
      len := npos;
    }

    /** The two digits of a byte behind what is in the buffer. */
    method PutPair(at: nat, byte: nat) returns (npos: nat)
      requires Valid() && 2 <= at <= 10 && byte < 256
      modifies buf
      ensures Valid() && npos == at + 2
      ensures buf[..npos] == old(buf[..at]) + HexPair(byte)
    {
      npos := at;
      ghost var was := buf[..at];
      for j := 2 downto 0
        invariant Valid() && npos == at + 2 - j
        invariant buf[..at] == was && buf[at..npos] == HexPair(byte)[..2 - j]
      {
        var half := if j == 1 then byte / 16 else byte % 16;
        if half < 10 { buf[npos] := '0' + half as char; } else { buf[npos] := 'a' + (half - 10) as char; }
        npos := npos + 1;
      }
      assert buf[..npos] == buf[..at] + buf[at..npos];
    }
  }

  /** The decimal text of what is still to be printed: nothing, once zero is reached. */
  ghost function Front(n: nat): string { if n == 0 then "" else Decimal(n) }

  lemma DecimalUnfold(n: nat)
    ensures Decimal(n) == Front(n / 10) + [DigitChar(n % 10)]
    ensures n > 0 ==> |Front(n)| >= 1
  {
  }

  lemma TenDigits(n: nat)
    requires n < WORD
    ensures |Decimal(n)| <= 10
  {
    assert Power(10, 10) == 10_000_000_000 by {
      assert Power(10, 5) == 100000;
    }
    DecimalLength(n, 10);
  }

  /** The i upper bytes of a 32-bit number. */
  function Upper(n: nat, i: nat): nat
    requires i <= 4
  {
    if i == 0 then n / WORD else if i == 1 then n / 0x100_0000
    else if i == 2 then n / 0x1_0000 else if i == 3 then n / 0x100 else n
  }

  lemma UpperNext(n: nat, i: nat)
    requires i < 4
    ensures Upper(n, i) == Upper(n, i + 1) / 256
  {
  }

  lemma HexBytesNext(n: nat, i: nat, was: string)
    requires i < 4
    requires was == if Upper(n, i) == 0 then "0x" else "0x" + HexBytes(Upper(n, i))
    ensures was + HexPair(Upper(n, i + 1) % 256) == "0x" + HexBytes(Upper(n, i + 1))
  {
    UpperNext(n, i);
    var high := if Upper(n, i) == 0 then "" else HexBytes(Upper(n, i));
    assert HexBytes(Upper(n, i + 1)) == high + HexPair(Upper(n, i + 1) % 256);
  }

  /** Every 32-bit value is read back from what the two unsigned printers left in their buffers. */
  method UnsignedReadBack(n: nat) returns (fromDecimal: nat, fromHex: nat)
    requires n < WORD
    ensures fromDecimal == n && fromHex == n
  {
    var p := new Printer();
    var at := p.U2Str(n);
    var len := p.UHex2Str(n);
    DecimalRoundTrip(n);
    HexRoundTrip(n);
    var end, hexEnd;
    end, fromDecimal := GetNum(p.strbuf[at..11], 0);
    hexEnd, fromHex := GetNum(p.buf[..len], 0);
    assert end == |p.strbuf[at..11]| && hexEnd == len;
  }

  /** Of the signed 32-bit values all but the least one are read back. */
  method SignedReadBack(i: int, was: int) returns (read: bool, j: int)
    requires -0x8000_0000 <= i < 0x8000_0000
    ensures read <==> i != -0x8000_0000
    ensures j == if read then i else was
  {
    var p := new Printer();
    var at := p.I2Str(i);
    SignedRoundTrip(i);
    var nxt;
    nxt, j := GetInt(p.strbuf[at..11], 0, was);
    read := nxt != 0;
  }
}
