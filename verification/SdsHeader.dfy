/**
  Dynamic strings of sds.c in place: a block of bytes behind a header of one of five widths.  Stores
  into the header fields truncate to the width of the field, as the C assignments do, and the `int`
  arithmetic of sdsrange wraps around.
 */
module SdsHeader {
  import opened Bytes
  import opened CInt
  import opened Sds

  datatype Kind = Type5 | Type8 | Type16 | Type32 | Type64

  const MAX_PREALLOC: nat := 1024 * 1024

  /** One more than the greatest number that the length field holds. */
  function Modulus(k: Kind): (m: nat)
    ensures m > 0
  {
    match k
    case Type5 => 0x20
    case Type8 => 0x100
    case Type16 => 0x1_0000
    case Type32 => 0x1_0000_0000
    case Type64 => 0x1_0000_0000_0000_0000
  }

  /** A number stored in a length field. */
  function Truncate(n: nat, k: Kind): nat { n % Modulus(k) }

  /** sdsReqType. */
  function ReqType(size: nat): Kind {
    if size < 0x20 then Type5
    else if size < 0x100 then Type8
    else if size < 0x1_0000 then Type16
    else if size < 0x1_0000_0000 then Type32
    else Type64
  }

  /** sdsReqType gives a header that holds the size, and the narrowest one. */
  lemma ReqTypeIsNarrowest(size: nat, k: Kind)
    requires size < Modulus(Type64)
    ensures size < Modulus(ReqType(size))
    ensures size < Modulus(k) ==> Modulus(ReqType(size)) <= Modulus(k)
  {
  }

  /** The size that sdsMakeRoomFor allocates. */
  function NewSize(needed: nat): (n: nat)
    ensures n >= needed
  {
    if needed < MAX_PREALLOC then needed * 2 else needed + MAX_PREALLOC
  }

  // ---------- What the operations do to the contents ----------

  datatype Op = Append(text: bytes) | MakeRoom(more: nat) | Tighten | GrowZero(size: nat) | Range(start: Int32, end: Int32) | Clear

  function Zeros(n: nat): (r: bytes)
    ensures |r| == n && forall i :: 0 <= i < n ==> r[i] == 0
  {
    seq(n, _ => 0)
  }

  function ApplyTo(s: bytes, op: Op): bytes {
    match op
    case Append(t) => s + t
    case GrowZero(n) => if n <= |s| then s else s + Zeros(n - |s|)
    case Range(start, end) => IntRange(s, start, end)
    case Clear => []
    case _ => s
  }

  /** The size that an operation needs; it must fit into memory. */
  function Needed(s: bytes, op: Op): nat {
    match op
    case Append(t) => |s| + |t|
    case MakeRoom(n) => |s| + n
    case GrowZero(n) => n
    case _ => |s|
  }

  predicate FitsMemory(s: bytes, op: Op) { NewSize(Needed(s, op)) < Modulus(Type64) }

  predicate AllFit(s: bytes, ops: seq<Op>)
    decreases |ops|
  {
    ops != [] ==> FitsMemory(s, ops[0]) && AllFit(ApplyTo(s, ops[0]), ops[1..])
  }

  function ApplyAll(s: bytes, ops: seq<Op>): bytes
    decreases |ops|
  {
    if ops == [] then s else ApplyAll(ApplyTo(s, ops[0]), ops[1..])
  }

  /** memcpy to a place of a block. */
  method Put(dst: array<byte>, to: nat, data: bytes)
    requires to + |data| <= dst.Length
    modifies dst
    ensures dst[..to + |data|] == old(dst[..to]) + data
  {
    for i := 0 to |data|
      invariant dst[..to + i] == old(dst[..to]) + data[..i]
    {
      dst[to + i] := data[i];
      assert dst[..to + i + 1] == dst[..to + i] + [data[i]];
    }
    assert data[..|data|] == data;
  }

  /** Moves `n` bytes from place `from` to the front of the same block: memmove. */
  method MoveDown(s: array<byte>, from: nat, n: nat)
    requires from + n <= s.Length
    modifies s
    ensures s[..n] == old(s[from..from + n])
  {
    for i := 0 to n
      invariant forall k :: 0 <= k < s.Length ==> s[k] == old(s[if k < i then from + k else k])
    {
      s[i] := s[from + i];
    }
  }

  lemma ToIntAdds(len: nat, i: Int32)
    ensures INT_MIN <= ToInt(len) + i <= INT_MAX ==> ToInt(len + i) == ToInt(len) + i
    ensures ToInt(i) == i && ToInt(len) <= len
  {
    ToIntSum(len, i);
    hide ToInt;
    ToIntKeeps(ToInt(len) + i);
    ToIntKeeps(i);
    ToIntKeeps(len);
  }

  /** A position of a range, counted from the end when it is negative. */
  method Position(len: nat, i: Int32) returns (j: Int32)
    ensures j >= 0 && (ToInt(len) >= 0 ==> j == Clamp(i, ToInt(len)))
  {
    ToIntAdds(len, i);
    hide ToInt;
    j := i;
    if j < 0 {
      j := ToInt(len + j);
      if j < 0 { j := 0; }
    }
  }

  lemma LengthFits(first: Int32, last: Int32)
    requires 0 <= first <= last
    ensures ToSize(ToInt(last - first + 1)) > 0
    ensures last - first + 1 < 0x8000_0000 ==> ToSize(ToInt(last - first + 1)) == last - first + 1
  {
  }

  /** The first part of sdsrange: where the range starts, and how long it is. */
  method Bounds(ghost s: bytes, len: nat, start: Int32, end: Int32) returns (lo: nat, newlen: nat)
    requires len == |s| > 0
    ensures newlen <= len && (newlen != 0 ==> lo + newlen <= len)
    ensures IntRange(s, start, end) == if newlen == 0 then [] else s[lo..lo + newlen]
  {
    ToIntAdds(len, -1);
    var first := Position(len, start);
    var last := Position(len, end);
    if first <= last { LengthFits(first, last); }
    hide ToInt, ToSize;
    newlen := if first > last then 0 else ToSize(ToInt(last - first + 1));
    if newlen != 0 {
      if first >= ToInt(len) {
        newlen := 0;
      } else if last >= ToInt(len) {
        last := ToInt(len - 1);
        LengthFits(first, last);  // the source tests once more that first <= last
        newlen := ToSize(ToInt(last - first + 1));
      }
    } else {
      first := 0;
    }
    lo := first;
  }

  class String {
    var buf: array<byte>
    var kind: Kind
    var len: nat
    var alloc: nat

    /** sdsalloc: a type 5 header has no room for an allocation size. */
    function Alloc(): nat
      reads this
    {
      if kind == Type5 then len else alloc
    }

    /** sdsavail. */
    function Avail(): int
      reads this
    {
      if kind == Type5 then 0 else alloc - len
    }

    /** The length is within the allocation, which the header can hold and the block has; a NUL follows the contents. */
    ghost predicate Valid()
      reads this, buf
    {
      len <= Alloc() < Modulus(kind) && Alloc() < buf.Length && buf[len] == 0
    }

    ghost function Contents(): bytes
      requires Valid()
      reads this, buf
    {
      buf[..len]
    }

    /** sdssetlen: the field keeps the low bits. */
    method SetLen(n: nat)
      modifies this`len
      ensures len == Truncate(n, kind) && (n < Modulus(kind) ==> len == n)
    {
      len := Truncate(n, kind);
    }

    /** sdssetalloc. */
    method SetAlloc(n: nat)
      modifies this`alloc
      ensures kind != Type5 ==> alloc == Truncate(n, kind) && (n < Modulus(kind) ==> alloc == n)
    {
      if kind != Type5 { alloc := Truncate(n, kind); }
    }

    /** sdsnewlen. */
    constructor (init: bytes)
      requires |init| < Modulus(Type64)
      ensures Valid() && fresh(buf) && Contents() == init && Avail() == 0
    {
      var k := ReqType(|init|);
      if k == Type5 && |init| == 0 { k := Type8; }
      kind, len, alloc := k, |init|, |init|;
      buf := new byte[|init| + 1](i => if 0 <= i < |init| then init[i] else 0);
      new;
      assert buf[..len] == init;
    }

    /** A new block and header of another size for the same contents. */
    method Resize(k: Kind, size: nat)
      requires Valid() && len <= size < Modulus(k)
      modifies this
      ensures Valid() && kind == k && Contents() == old(Contents())
      ensures k != Type5 ==> alloc == size
      ensures fresh(buf) && buf.Length == size + 1
    {
      hide Truncate;
      ghost var before := Contents();
      var bigger := new byte[size + 1](_ => 0);
      Put(bigger, 0, buf[..len + 1]);
      assert bigger[..len + 1] == buf[..len + 1];
      assert bigger[..len] == bigger[..len + 1][..len] == before;
      assert bigger[len] == bigger[..len + 1][len] == 0;
      buf := bigger;
      if kind != k {
        kind := k;
        SetLen(len);
      }
      SetAlloc(size);
    }

    /** sdsMakeRoomFor. */
    method MakeRoomFor(addlen: nat)
      requires Valid() && FitsMemory(Contents(), Op.MakeRoom(addlen))
      modifies this
      ensures Valid() && Contents() == old(Contents()) && (addlen > 0 ==> Avail() >= addlen && kind != Type5)
      ensures buf == old(buf) || fresh(buf)
      ensures old(Avail()) >= addlen ==> buf == old(buf) && kind == old(kind)
      ensures old(Avail()) < addlen ==>
        var needed := old(len) + addlen; buf.Length == (if needed < 1048576 then 2 * needed else needed + 1048576) + 1
    {
      if Avail() >= addlen { return; }
      var newlen := NewSize(len + addlen);
      var k := ReqType(newlen);
      if k == Type5 { k := Type8; }
      ReqTypeIsNarrowest(newlen, k);
      Resize(k, newlen);
    }

    /** sdsRemoveFreeSpace: the block fits the contents and the header is the narrowest one. */
    method RemoveFreeSpace()
      requires Valid()
      modifies this
      ensures Valid() && Contents() == old(Contents()) && Avail() == 0
      ensures fresh(buf) && buf.Length == len + 1 && kind == ReqType(len)
    {
      assert Modulus(kind) <= Modulus(Type64);
      ReqTypeIsNarrowest(len, kind);
      Resize(ReqType(len), len);
    }

    /** sdscatlen. */
    method CatLen(t: bytes)
      requires Valid() && FitsMemory(Contents(), Append(t))
      modifies this, buf
      ensures Valid() && Contents() == old(Contents()) + t
      ensures buf == old(buf) || fresh(buf)
    {
      hide Truncate;
      ghost var before := Contents();
      var curlen := len;
      MakeRoomFor(|t|);
      Put(buf, curlen, t);
      SetLen(curlen + |t|);
      buf[curlen + |t|] := 0;
    }

    /** sdsgrowzero. */
    method GrowZero(n: nat)
      requires Valid() && FitsMemory(Contents(), Op.GrowZero(n))
      modifies this, buf
      ensures Valid() && Contents() == ApplyTo(old(Contents()), Op.GrowZero(n))
      ensures buf == old(buf) || fresh(buf)
    {
      hide Truncate;
      ghost var before := Contents();
      var curlen := len;
      if n <= curlen { return; }
      MakeRoomFor(n - curlen);
      Put(buf, curlen, Zeros(n - curlen + 1));
      assert Zeros(n - curlen + 1) == Zeros(n - curlen) + [0];
      assert buf[..n + 1] == before + Zeros(n - curlen) + [0];
      assert buf[n] == buf[..n + 1][n];
      assert buf[..n] == buf[..n + 1][..n];
      SetLen(n);
    }

    /** sdsrange. */
    method Range(start: Int32, end: Int32)
      requires Valid()
      modifies this, buf
      ensures Valid() && Contents() == IntRange(old(Contents()), start, end) && buf == old(buf)
    {
      if len == 0 { return; }
      var lo, newlen := Bounds(Contents(), len, start, end);
      assert newlen != 0 ==> Contents()[lo..lo + newlen] == buf[lo..lo + newlen];
      hide Slice, IntRange;
      Keep(lo, newlen);
    }

    /** The end of sdsrange. */
    method Keep(lo: nat, newlen: nat)
      requires Valid() && newlen <= len && (newlen != 0 ==> lo + newlen <= len)
      modifies this, buf
      ensures Valid() && Contents() == (if newlen == 0 then [] else old(buf[lo..lo + newlen])) && buf == old(buf)
    {
      if lo != 0 && newlen != 0 { MoveDown(buf, lo, newlen); }
      buf[newlen] := 0;
      SetLen(newlen);
    }

    /** sdsclear. */
    method Clear()
      requires Valid()
      modifies this, buf
      ensures Valid() && Contents() == [] && buf == old(buf)
    {
      SetLen(0);
      buf[0] := 0;
    }

    method Apply(op: Op)
      requires Valid() && FitsMemory(Contents(), op)
      modifies this, buf
      ensures Valid() && Contents() == ApplyTo(old(Contents()), op) && (buf == old(buf) || fresh(buf))
    {
      match op
      case Append(t) => CatLen(t);
      case MakeRoom(n) => MakeRoomFor(n);
      case Tighten => RemoveFreeSpace();
      case GrowZero(n) => GrowZero(n);
      case Range(start, end) => Range(start, end);
      case Clear => Clear();
    }

    /**
      Any sequence of operations does to the contents what the byte sequences say, and keeps the
      invariant: no store into a header field ever loses bits.
     */
    method Run(ops: seq<Op>)
      requires Valid() && AllFit(Contents(), ops)
      modifies this, buf
      ensures Valid() && Contents() == ApplyAll(old(Contents()), ops)
    {
      var i := 0;
      assert ops[0..] == ops;
      while i < |ops|
        invariant i <= |ops| && Valid() && AllFit(Contents(), ops[i..]) && (buf == old(buf) || fresh(buf))
        invariant ApplyAll(Contents(), ops[i..]) == ApplyAll(old(Contents()), ops)
      {
        assert ops[i..][1..] == ops[i + 1..];
        Apply(ops[i]);
        i := i + 1;
      }
    }
  }
}
