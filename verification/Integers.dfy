/** Printing and reading 64-bit integers: sdsll2str of sds.c and string2ll of util.c. */
module Integers {
  import opened Bytes
  import opened Options

  const LLONG_MAX: int := 0x7FFF_FFFF_FFFF_FFFF
  const LLONG_MIN: int := -0x8000_0000_0000_0000
  const ULLONG_MAX: int := 0xFFFF_FFFF_FFFF_FFFF

  const MINUS: byte := 45
  const ZERO: byte := 48

  function IsDigit(b: byte): bool { 48 <= b <= 57 }

  /** Decimal digits of a natural number. */
  function Decimal(n: nat): (r: bytes)
    ensures |r| > 0 && forall b :: b in r ==> IsDigit(b)
  {
    if n < 10 then [48 + n] else Decimal(n / 10) + [48 + n % 10]
  }

  /** A number in decimal, with a sign when it is negative. */
  function Text(i: int): bytes { if i < 0 then [45] + Decimal(-i) else Decimal(i) }

  predicate InRange(v: int) { -0x8000_0000_0000_0000 <= v <= 0x7FFF_FFFF_FFFF_FFFF }

  // ---------- Reading ----------

  /** The loop of string2ll, with its tests against overflow of the unsigned 64-bit accumulator. */
  function Accumulate(s: bytes, v: nat): Option<nat> {
    if s == [] then Some(v)
    else if !IsDigit(s[0]) then None
    else if v > ULLONG_MAX / 10 then None
    else if v * 10 > ULLONG_MAX - (s[0] - ZERO) then None
    else Accumulate(s[1..], v * 10 + (s[0] - ZERO))
  }

  /** string2ll: the number, or None for a return value of 0. */
  function ParseLL(s: bytes): Option<int> {
    if s == [] then None
    else if s == [ZERO] then Some(0)
    else
      var digits := if s[0] == MINUS then s[1..] else s;
      if digits == [] || !(49 <= digits[0] <= 57) then None
      else
        match Accumulate(digits[1..], digits[0] - ZERO)
        case None => None
        case Some(v) =>
          if s[0] == MINUS then (if v > -LLONG_MIN then None else Some(-(v as int)))
          else if v > LLONG_MAX then None
          else Some(v)
  }

  /** The value of a digit string that follows the value `v`. */
  function Value(s: bytes, v: nat): nat
    requires forall b :: b in s ==> IsDigit(b)
  {
    if s == [] then v else assert s[0] in s && IsDigit(s[0]); Value(s[1..], v * 10 + (s[0] - ZERO))
  }

  lemma {:induction false} ValueGrows(s: bytes, v: nat)
    requires forall b :: b in s ==> IsDigit(b)
    ensures Value(s, v) >= v
  {
    if s != [] {
      assert s[0] in s;
      ValueGrows(s[1..], v * 10 + (s[0] - ZERO));
    }
  }

  /** The accumulator gives the value when all characters are digits and the value fits 64 bits, and only then. */
  lemma {:induction false} AccumulateIsValue(s: bytes, v: nat)
    requires v <= ULLONG_MAX
    ensures Accumulate(s, v).Some? <==> (forall b :: b in s ==> IsDigit(b)) && Value(s, v) <= ULLONG_MAX
    ensures Accumulate(s, v).Some? ==> Accumulate(s, v).value == Value(s, v)
  {
    if s != [] {
      assert s == [s[0]] + s[1..];
      assert (forall b :: b in s ==> IsDigit(b)) <==> IsDigit(s[0]) && forall b :: b in s[1..] ==> IsDigit(b);
      if IsDigit(s[0]) {
        var v' := v * 10 + (s[0] - ZERO);
        if forall b :: b in s[1..] ==> IsDigit(b) { ValueGrows(s[1..], v'); }
        if v' <= ULLONG_MAX { AccumulateIsValue(s[1..], v'); }
      }
    }
  }

  lemma {:induction false} ValueAppend(s: bytes, b: byte, v: nat)
    requires IsDigit(b) && forall x :: x in s ==> IsDigit(x)
    ensures forall x :: x in s + [b] ==> IsDigit(x)
    ensures Value(s + [b], v) == Value(s, v) * 10 + (b - ZERO)
  {
    if s == [] {
      assert s + [b] == [b] && [b][1..] == [];
      assert Value([b], v) == Value([], v * 10 + (b - ZERO));
    } else {
      assert s[0] in s && (s + [b])[0] == s[0] && (s + [b])[1..] == s[1..] + [b];
      ValueAppend(s[1..], b, v * 10 + (s[0] - ZERO));
    }
  }

  lemma {:induction false} ValueOfDecimal(n: nat)
    ensures Value(Decimal(n), 0) == n
    ensures n > 0 ==> Decimal(n)[0] != ZERO
  {
    if n < 10 {
      assert Decimal(n) == [48 + n] && [48 + n][1..] == [];
      assert Value([48 + n], 0) == Value([], 0 * 10 + n);
    } else {
      ValueOfDecimal(n / 10);
      ValueAppend(Decimal(n / 10), 48 + n % 10, 0);
      assert Decimal(n)[0] == Decimal(n / 10)[0];
    }
  }

  lemma DecimalStep(v: nat, d: nat)
    requires v > 0 && d < 10
    ensures Decimal(10 * v + d) == Decimal(v) + [48 + d]
  {
    assert (10 * v + d) / 10 == v && (10 * v + d) % 10 == d;
  }

  lemma OneDigit(b: byte)
    requires IsDigit(b)
    ensures Value([b], 0) == b - ZERO && Decimal(b - ZERO) == [b]
  {
    var s := [b];
    assert s[1..] == [] && Value(s, 0) == Value([], 0 * 10 + (b - ZERO));
  }

  /** A digit string without a leading zero is the decimal text of its value. */
  lemma {:induction false} DecimalOfValue(s: bytes)
    requires s != [] && s[0] != ZERO && forall b :: b in s ==> IsDigit(b)
    ensures Value(s, 0) > 0 && Decimal(Value(s, 0)) == s
    decreases |s|
  {
    hide Value, Decimal;
    var n := |s| - 1;
    var front, b := s[..n], s[n];
    assert s == front + [b] && b in s && s[0] in s;
    if front == [] {
      assert s == [b];
      OneDigit(b);
    } else {
      assert front[0] == s[0] && forall x :: x in front ==> x in s;
      DecimalOfValue(front);
      ValueAppend(front, b, 0);
      DecimalStep(Value(front, 0), b - ZERO);
    }
  }

  /** string2ll accepts exactly the texts that sdsll2str prints, with the numbers they stand for. */
  lemma ParseInvertsText(s: bytes, v: int)
    ensures ParseLL(s) == Some(v) <==> InRange(v) && s == Text(v)
  {
    if InRange(v) && s == Text(v) && v != 0 { ParseOfText(v); }
    if ParseLL(s) == Some(v) && s != [ZERO] { TextOfParse(s, v); }
  }

  lemma AccumulateDecimal(n: nat)
    requires 0 < n <= ULLONG_MAX
    ensures 49 <= Decimal(n)[0] <= 57 && Accumulate(Decimal(n)[1..], Decimal(n)[0] - ZERO) == Some(n)
  {
    hide Decimal, Accumulate;
    var d := Decimal(n);
    ValueOfDecimal(n);
    assert d[0] in d;
    assert d == [d[0]] + d[1..] && (forall b :: b in d[1..] ==> b in d) && Value(d, 0) == Value(d[1..], d[0] - ZERO);
    AccumulateIsValue(d[1..], d[0] - ZERO);
  }

  lemma ParseOfText(v: int)
    requires InRange(v) && v != 0
    ensures ParseLL(Text(v)) == Some(v)
  {
    hide Accumulate, Decimal;
    var n := if v < 0 then -v else v;
    AccumulateDecimal(n);
    if v < 0 { assert ([MINUS] + Decimal(n))[1..] == Decimal(n); }
  }

  lemma TextOfParse(s: bytes, v: int)
    requires ParseLL(s) == Some(v) && s != [ZERO]
    ensures InRange(v) && s == Text(v)
  {
    hide Value, Decimal;
    var d := if s[0] == MINUS then s[1..] else s;
    AccumulateIsValue(d[1..], d[0] - ZERO);
    assert d == [d[0]] + d[1..];
    ValueHead(d);
    DecimalOfValue(d);
    assert s[0] == MINUS ==> s == [MINUS] + d;
  }

  lemma ValueHead(d: bytes)
    requires d != [] && forall b :: b in d ==> IsDigit(b)
    ensures forall b :: b in d[1..] ==> IsDigit(b)
    ensures d[0] in d && d[0] >= ZERO && Value(d, 0) == Value(d[1..], d[0] - ZERO)
  {
    assert d[0] in d && IsDigit(d[0]);
    forall b | b in d[1..] ensures IsDigit(b) { assert b in d; }
  }

  /** string2ll in place: the accumulator never leaves 64 bits. */
  method String2LL(s: bytes) returns (r: Option<int>)
    ensures r == ParseLL(s)
  {
    if |s| == 0 { return None; }
    if |s| == 1 && s[0] == ZERO { return Some(0); }
    var p, negative := 0, false;
    if s[0] == MINUS {
      negative, p := true, 1;
      if p == |s| { return None; }
    }
    if !(49 <= s[p] <= 57) { return None; }
    var v: int := s[p] - ZERO;
    p := p + 1;
    ghost var tail := s[p..];
    while p < |s| && IsDigit(s[p])
      invariant p <= |s| && 0 <= v <= ULLONG_MAX
      invariant Accumulate(s[p..], v) == Accumulate(tail, s[if negative then 1 else 0] - ZERO)
    {
      assert s[p..][1..] == s[p + 1..];
      if v > ULLONG_MAX / 10 { return None; }
      v := v * 10;
      if v > ULLONG_MAX - (s[p] - ZERO) { return None; }
      v := v + (s[p] - ZERO);
      p := p + 1;
    }
    if p < |s| { return None; }
    if negative {
      if v > -(LLONG_MIN + 1) + 1 { return None; }
      return Some(-v);
    }
    if v > LLONG_MAX { return None; }
    return Some(v);
  }

  // ---------- Printing ----------

  function Pow10(k: nat): (r: nat)
    ensures r > 0
  {
    if k == 0 then 1 else 10 * Pow10(k - 1)
  }

  function Reversed(s: bytes): (r: bytes)
    ensures |r| == |s| && forall i :: 0 <= i < |s| ==> r[i] == s[|s| - 1 - i]
  {
    seq(|s|, i requires 0 <= i < |s| => s[|s| - 1 - i])
  }

  /** Reverses the first `l` bytes. */
  method ReverseInPlace(s: array<byte>, l: nat)
    requires l <= s.Length
    modifies s
    ensures s[..l] == Reversed(old(s[..l])) && s[l..] == old(s[l..])
  {
    var i, j := 0, l - 1;
    while i < j
      invariant 0 <= i <= j + 1 && j == l - 1 - i
      invariant forall k :: 0 <= k < i || j < k < l ==> s[k] == old(s[l - 1 - k])
      invariant forall k :: i <= k <= j || l <= k < s.Length ==> s[k] == old(s[k])
    {
      s[i], s[j] := s[j], s[i];
      i, j := i + 1, j - 1;
    }
  }

  lemma DigitMore(v: nat, d: byte, last: bytes, p: nat)
    requires (v != 0 || p == 0) && d == ZERO + v % 10 && p <= 19 && v < Pow10(19 - p)
    ensures p < 19 && v / 10 < Pow10(18 - p)
    ensures Decimal(v) + last == (if v / 10 == 0 then [] else Decimal(v / 10)) + ([d] + last)
    ensures Reversed(last) + [d] == Reversed([d] + last)
  {
    assert Decimal(v) == (if v / 10 == 0 then [] else Decimal(v / 10)) + [d];
  }

  /** The first loop of sdsll2str: the digits from the last one to the first. */
  method WriteDigits(s: array<byte>, n: nat) returns (p: nat)
    requires n < Pow10(19) && s.Length >= 21
    modifies s
    ensures 1 <= p <= 19 && s[..p] == Reversed(Decimal(n))
  {
    hide Decimal, Pow10;
    DigitMore(n, ZERO + n % 10, [], 0);
    var v: nat := n / 10;
    s[0] := ZERO + n % 10;
    p := 1;
    ghost var last := [s[0]];
    assert s[..1] == Reversed(last) && Decimal(n) + [] == Decimal(n) && last == last + [];
    hide Reversed;
    while v != 0
      invariant 1 <= p <= 19 && v < Pow10(19 - p)
      invariant s[..p] == Reversed(last) && Decimal(n) == (if v == 0 then [] else Decimal(v)) + last
      decreases v
    {
      DigitMore(v, ZERO + v % 10, last, p);
      s[p] := ZERO + v % 10;
      assert s[..p + 1] == s[..p] + [s[p]];
      last := [s[p]] + last;
      p, v := p + 1, v / 10;
    }
    assert Decimal(n) == last;
  }

  /**
    sdsll2str: the text and a NUL, in a buffer of 21 bytes.  For the least number the C code negates
    it before the conversion to unsigned; here that is the mathematical negation.
   */
  method LL2Str(s: array<byte>, value: int) returns (l: nat)
    requires InRange(value) && s.Length >= 21
    modifies s
    ensures l < 21 && s[..l] == Text(value) && s[l] == 0
  {
    hide Decimal, Pow10, Reversed;
    Powers();
    l := WriteDigits(s, if value < 0 then -value else value);
    if value < 0 {
      s[l] := MINUS;
      assert s[..l + 1] == s[..l] + [MINUS];
      l := l + 1;
    }
    s[l] := 0;
    ReversedText(value, s[..l]);
    ReverseInPlace(s, l);
    assert s[l] == s[l..][0];
  }

  /** The digits backwards, with the sign behind them. */
  lemma ReversedText(value: int, written: bytes)
    requires written == Reversed(Decimal(if value < 0 then -value else value)) + if value < 0 then [MINUS] else []
    ensures Reversed(written) == Text(value)
  {
    hide Decimal;
  }

  lemma Powers()
    ensures Pow10(19) == 10_000_000_000_000_000_000
  {
    assert Pow10(4) == 10_000;
    assert Pow10(8) == 100_000_000;
    assert Pow10(12) == 1_000_000_000_000;
    assert Pow10(16) == 10_000_000_000_000_000;
  }
}
