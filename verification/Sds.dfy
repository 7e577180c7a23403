/** String functions of sds.c that other parts of the server use, on byte strings. */
module Sds {
  import opened Bytes
  import opened CInt

  /** A position counted from the start, or from the end when it is negative; never before the start. */
  function Clamp(i: int, n: nat): nat {
    if i >= 0 then i else if n + i < 0 then 0 else n + i
  }

  /** The bytes from position `start` to position `end`, both included. */
  function Slice(s: bytes, start: int, end: int): bytes {
    var lo, hi := Clamp(start, |s|), Clamp(end, |s|);
    if lo > hi || lo >= |s| then [] else if hi < |s| then s[lo..hi + 1] else s[lo..]
  }

  // ---------- Ranges ----------

  /** What sdsrange leaves: it compares with the length as an int. */
  function IntRange(s: bytes, start: Int32, end: Int32): bytes {
    var n := ToInt(|s|);
    if n < 0 then [] else Slice(s[..n], start, end)
  }

  /** A range keeps exactly the bytes between the two clamped positions, in order. */
  lemma RangeKeeps(s: bytes, start: Int32, end: Int32)
    requires |s| < TWO_GB
    ensures var lo, hi, r := Clamp(start, |s|), Clamp(end, |s|), IntRange(s, start, end);
      && (forall i :: lo <= i <= hi && i < |s| ==> i - lo < |r| && r[i - lo] == s[i])
      && (forall k :: 0 <= k < |r| ==> lo + k <= hi && lo + k < |s| && r[k] == s[lo + k])
  {
    RangeIsSlice(s);
    var lo, hi, r := Clamp(start, |s|), Clamp(end, |s|), IntRange(s, start, end);
    if lo <= hi && lo < |s| { assert r == s[lo..lo + |r|]; }
  }

  /** sdsrange is the slice of its range, for all ranges, if and only if the string is shorter than 2 GB. */
  lemma RangeIsSlice(s: bytes)
    ensures (forall start: Int32, end: Int32 :: IntRange(s, start, end) == Slice(s, start, end)) <==> |s| < TWO_GB
  {
    if |s| < TWO_GB { assert s[..ToInt(|s|)] == s; }
    if |s| >= TWO_GB { assert |IntRange(s, 0, -1)| < |s| == |Slice(s, 0, -1)|; }
  }

  /** A string of 2 GB is emptied by a range of its first eleven bytes. */
  lemma LongStringEmptied(s: bytes)
    requires |s| == TWO_GB
    ensures IntRange(s, 0, 10) == [] && Slice(s, 0, 10) == s[0..11] != []
  {
  }

  // ---------- Lists of strings ----------

  /** sdsjoinsds: the strings with `sep` between them. */
  function Join(ss: seq<bytes>, sep: bytes): bytes {
    if ss == [] then [] else if |ss| == 1 then ss[0] else ss[0] + sep + Join(ss[1..], sep)
  }

  /** The strings with `sep` after each one. */
  function Lines(ss: seq<bytes>, sep: bytes): bytes {
    if ss == [] then [] else ss[0] + sep + Lines(ss[1..], sep)
  }

  lemma {:induction false} LinesIsJoin(ss: seq<bytes>, sep: bytes)
    requires ss != []
    ensures Lines(ss, sep) == Join(ss, sep) + sep
  {
    if |ss| > 1 { LinesIsJoin(ss[1..], sep); }
  }

  /**
    Dropping the last byte with sdsrange(s, 0, -2) removes the separator after the last line, if and
    only if there is more than one byte, as a single "\n" stays, and there are less than 2 GB.
   */
  lemma DropLastSeparator(ss: seq<bytes>, c: byte)
    ensures IntRange(Lines(ss, [c]), 0, -2) == Join(ss, [c]) <==> ss != [[]] && |Lines(ss, [c])| < TWO_GB
    ensures ss == [[]] ==> IntRange(Lines(ss, [c]), 0, -2) == [c]
  {
    var s := Lines(ss, [c]);
    if ss != [] { LinesIsJoin(ss, [c]); }
    if |s| < TWO_GB {
      RangeIsSlice(s);
      if ss != [] && Join(ss, [c]) == [] && |ss| == 1 { assert ss == [[]]; }
    } else {
      RangeShortens(s);
    }
  }

  /** In a longer string sdsrange loses more than the last byte. */
  lemma RangeShortens(s: bytes)
    requires |s| >= TWO_GB
    ensures |IntRange(s, 0, -2)| < |s| - 1
  {
    var n := ToInt(|s|);
    assert n < |s| - 1;
  }
}
