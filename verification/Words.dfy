/**
  The `unsigned long` arithmetic of dictScan, bit by bit.  A word is the list of its 64 bits,
  least significant first, so reversing the bits of a word is reversing a list.
 */
module Words {
  import opened DictModel

  const WIDTH: nat := 64

  type Bits = seq<bool>

  type Word = w: Bits | |w| == 64 witness Fill(WIDTH, false)

  function Fill(n: nat, b: bool): (r: Bits)
    ensures |r| == n && forall i :: 0 <= i < n ==> r[i] == b
  {
    seq(n, _ => b)
  }

  // ---------- Numbers ----------

  function Value(w: Bits): nat {
    if w == [] then 0 else (if w[0] then 1 else 0) + 2 * Value(w[1..])
  }

  /** The low `n` bits of a number. */
  function FromNat(x: nat, n: nat): (r: Bits)
    ensures |r| == n
  {
    if n == 0 then [] else [x % 2 == 1] + FromNat(x / 2, n - 1)
  }

  // ---------- The operators of C ----------

  function And(a: Word, b: Word): Word { seq(WIDTH, i requires 0 <= i < WIDTH => a[i] && b[i]) }
  function Or(a: Word, b: Word): Word { seq(WIDTH, i requires 0 <= i < WIDTH => a[i] || b[i]) }
  function Xor(a: Word, b: Word): Word { seq(WIDTH, i requires 0 <= i < WIDTH => a[i] != b[i]) }
  function Not(a: Word): Word { seq(WIDTH, i requires 0 <= i < WIDTH => !a[i]) }
  function Shl(a: Word, s: nat): Word { seq(WIDTH, i requires 0 <= i < WIDTH => i >= s && a[i - s]) }
  function Shr(a: Word, s: nat): Word { seq(WIDTH, i requires 0 <= i < WIDTH => i + s < WIDTH && a[i + s]) }

  /** Adds one, dropping the carry out of the top bit. */
  function Inc(w: Bits): (r: Bits)
    ensures |r| == |w|
  {
    if w == [] then [] else if w[0] then [false] + Inc(w[1..]) else [true] + w[1..]
  }

  function Mask(k: nat): Word
    requires k <= WIDTH
  {
    Fill(k, true) + Fill(WIDTH - k, false)
  }

  // ---------- Numbers and bits ----------

  lemma {:induction false} ValueBound(w: Bits)
    ensures Value(w) < Pow2(|w|)
  {
    if w != [] { ValueBound(w[1..]); }
  }

  lemma {:induction false} ValueOfFill(n: nat)
    ensures Value(Fill(n, false)) == 0 && Value(Fill(n, true)) == Pow2(n) - 1
  {
    if n > 0 {
      ValueOfFill(n - 1);
      assert Fill(n, false)[1..] == Fill(n - 1, false) && Fill(n, true)[1..] == Fill(n - 1, true);
    }
  }

  lemma {:induction false} ValueInjective(a: Bits, b: Bits)
    requires |a| == |b| && Value(a) == Value(b)
    ensures a == b
  {
    if a != [] {
      ValueInjective(a[1..], b[1..]);
      assert a == [a[0]] + a[1..] && b == [b[0]] + b[1..];
    }
  }

  lemma {:induction false} IncValue(w: Bits)
    ensures Value(Inc(w)) == if w == Fill(|w|, true) then 0 else Value(w) + 1
  {
    if w != [] {
      IncValue(w[1..]);
      if w[0] {
        assert Inc(w)[1..] == Inc(w[1..]);
        assert w == Fill(|w|, true) <==> w[1..] == Fill(|w| - 1, true) by {
          assert w == [w[0]] + w[1..];
          assert Fill(|w|, true) == [true] + Fill(|w| - 1, true);
        }
      } else {
        assert Inc(w)[1..] == w[1..];
        assert Fill(|w|, true)[0];
      }
    }
  }

  lemma {:induction false} IncAppend(a: Bits, b: Bits)
    ensures Inc(a + b) == Inc(a) + if a == Fill(|a|, true) then Inc(b) else b
  {
    if a == [] {
      assert a + b == b;
    } else {
      IncAppend(a[1..], b);
      assert (a + b)[1..] == a[1..] + b;
      assert a == [a[0]] + a[1..];
      assert Fill(|a|, true) == [true] + Fill(|a| - 1, true);
      assert a[0] ==> (a == Fill(|a|, true) <==> a[1..] == Fill(|a| - 1, true));
    }
  }

  lemma {:induction false} IncOnes(n: nat)
    ensures Inc(Fill(n, true)) == Fill(n, false)
  {
    if n > 0 {
      IncOnes(n - 1);
      assert Fill(n, true)[1..] == Fill(n - 1, true);
    }
  }

  /** The low bits of a number are the number modulo a power of two. */
  lemma {:induction false} FromNatValue(x: nat, k: nat)
    ensures Value(FromNat(x, k)) == x % Pow2(k)
  {
    if k > 0 {
      FromNatValue(x / 2, k - 1);
      assert FromNat(x, k)[1..] == FromNat(x / 2, k - 1);
      var p := Pow2(k - 1);
      assert x % (2 * p) == x % 2 + 2 * ((x / 2) % p) by { ModDouble(x, p); }
    }
  }

  lemma ModDouble(x: nat, p: nat)
    requires p > 0
    ensures x % (2 * p) == x % 2 + 2 * ((x / 2) % p)
  {
    var y, r := x / 2 / p, x % 2 + 2 * ((x / 2) % p);
    assert x == x % 2 + 2 * (x / 2);
    assert x / 2 == y * p + (x / 2) % p;
    assert x == y * (2 * p) + r && 0 <= r < 2 * p;
    ModUnique(x, 2 * p, y, r);
  }

  lemma ModUnique(x: nat, m: nat, q: nat, r: nat)
    requires m > 0 && x == q * m + r && r < m
    ensures x % m == r
  {
    var d := x / m - q;
    assert d * m == r - x % m;
    assert d >= 1 ==> d * m >= m;
    assert d <= -1 ==> d * m + m <= 0;
  }

  lemma {:induction false} FromNatPrefix(x: nat, k: nat, n: nat)
    requires k <= n
    ensures FromNat(x, n)[..k] == FromNat(x, k)
  {
    if k > 0 {
      FromNatPrefix(x / 2, k - 1, n - 1);
      assert FromNat(x, n)[..k] == [x % 2 == 1] + FromNat(x / 2, n - 1)[..k - 1];
    }
  }

  lemma Twice(p: nat, v: nat)
    ensures 2 * (p * v) == (2 * p) * v
  {
  }

  lemma {:induction false} ValueAppend(a: Bits, b: Bits)
    ensures Value(a + b) == Value(a) + Pow2(|a|) * Value(b)
  {
    if a == [] {
      assert a + b == b;
    } else {
      ValueAppend(a[1..], b);
      assert (a + b)[1..] == a[1..] + b && (a + b)[0] == a[0];
      Twice(Pow2(|a| - 1), Value(b));
    }
  }

  /** A size that is a power of two, less one, is the mask of its low bits. */
  lemma {:induction false} SizeMask(k: nat, n: nat)
    requires k <= n
    ensures FromNat(Pow2(k) - 1, n) == Fill(k, true) + Fill(n - k, false)
  {
    if k > 0 {
      SizeMask(k - 1, n - 1);
      assert (Pow2(k) - 1) / 2 == Pow2(k - 1) - 1;
    } else if n > 0 {
      SizeMask(0, n - 1);
    }
  }

  lemma AndMask(v: Word, k: nat)
    requires k <= WIDTH
    ensures And(v, Mask(k)) == v[..k] + Fill(WIDTH - k, false)
    ensures Value(And(v, Mask(k))) == Value(v[..k])
  {
    assert And(v, Mask(k)) == v[..k] + Fill(WIDTH - k, false);
    ValueAppend(v[..k], Fill(WIDTH - k, false));
    ValueOfFill(WIDTH - k);
  }

  /** `h & sizemask` is `h % size` when the size is a power of two. */
  lemma MaskIsMod(h: nat, k: nat)
    requires k <= WIDTH
    ensures Value(And(FromNat(h, WIDTH), FromNat(Pow2(k) - 1, WIDTH))) == h % Pow2(k)
  {
    SizeMask(k, WIDTH);
    AndMask(FromNat(h, WIDTH), k);
    FromNatPrefix(h, k, WIDTH);
    FromNatValue(h, k);
  }

  // ---------- Bit reversal ----------

  function Reverse(w: Bits): (r: Bits)
    ensures |r| == |w| && forall i :: 0 <= i < |w| ==> r[i] == w[|w| - 1 - i]
  {
    seq(|w|, i requires 0 <= i < |w| => w[|w| - 1 - i])
  }

  /** Whether `n` bits make up whole blocks of `t` bits. */
  predicate WholeBlocks(n: int, t: nat)
    requires t > 0
    decreases n
  {
    n == 0 || (n >= t && WholeBlocks(n - t, t))
  }

  /** The blocks of `t` bits in reverse order, each block as it was. */
  function ReverseBlocks(w: Bits, t: nat): (r: Bits)
    requires t > 0 && WholeBlocks(|w|, t)
    ensures |r| == |w|
    decreases |w|
  {
    if w == [] then w else ReverseBlocks(w[t..], t) + w[..t]
  }

  /** Whether bit `i` lies in the first, third, fifth, ... block of `t` bits. */
  predicate InLowBlock(t: nat, i: int)
    requires t > 0
    decreases i
  {
    i < t || (i >= 2 * t && InLowBlock(t, i - 2 * t))
  }

  /** Exchanges each even block of `t` bits with the odd block after it. */
  function SwapBlocks(w: Bits, t: nat): (r: Bits)
    requires t > 0 && WholeBlocks(|w|, 2 * t)
    ensures |r| == |w|
    decreases |w|
  {
    if w == [] then w else w[t..2 * t] + w[..t] + SwapBlocks(w[2 * t..], t)
  }

  lemma {:induction false} SwapBlocksAt(w: Bits, t: nat, i: nat)
    requires t > 0 && WholeBlocks(|w|, 2 * t) && i < |w|
    ensures InLowBlock(t, i) ==> i + t < |w| && SwapBlocks(w, t)[i] == w[i + t]
    ensures !InLowBlock(t, i) ==> i - t >= 0 && SwapBlocks(w, t)[i] == w[i - t]
    decreases i
  {
    if i >= 2 * t { SwapBlocksAt(w[2 * t..], t, i - 2 * t); }
  }

  lemma SwapFirst(w: Bits, t: nat)
    requires t > 0 && WholeBlocks(|w|, 2 * t) && w != []
    ensures SwapBlocks(w, t) == w[t..2 * t] + w[..t] + SwapBlocks(w[2 * t..], t)
  {
  }

  lemma Regroup(x: Bits, y: Bits, s: Bits, p: Bits, q: Bits)
    ensures x + y + (s + p + q) == x + y + s + p + q
  {
  }

  lemma {:induction false} SwapAppend(a: Bits, b: Bits, t: nat)
    requires t > 0 && WholeBlocks(|a|, 2 * t) && |b| == 2 * t
    ensures WholeBlocks(|a + b|, 2 * t)
    ensures SwapBlocks(a + b, t) == SwapBlocks(a, t) + b[t..] + b[..t]
    decreases |a|
  {
    if a == [] {
      assert a + b == b && b[2 * t..] == [] && b[t..2 * t] == b[t..];
    } else {
      var w, x, y, rest := a + b, a[t..2 * t], a[..t], a[2 * t..];
      SwapAppend(rest, b, t);
      assert w[2 * t..] == rest + b && w[t..2 * t] == x && w[..t] == y;
      hide SwapBlocks;
      SwapFirst(a, t);
      SwapFirst(w, t);
      Regroup(x, y, SwapBlocks(rest, t), b[t..], b[..t]);
    }
  }

  lemma {:induction false} SmallerBlocks(n: int, t: nat)
    requires t > 0 && WholeBlocks(n, 2 * t)
    ensures WholeBlocks(n, t)
    decreases n
  {
    if n != 0 { SmallerBlocks(n - 2 * t, t); }
  }

  /** Exchanging neighbours in a word of reversed blocks reverses the blocks of half the size. */
  lemma {:induction false} SwapHalvesBlocks(w: Bits, t: nat)
    requires t > 0 && WholeBlocks(|w|, 2 * t)
    ensures WholeBlocks(|w|, t)
    ensures SwapBlocks(ReverseBlocks(w, 2 * t), t) == ReverseBlocks(w, t)
    decreases |w|
  {
    if w != [] {
      SmallerBlocks(|w|, t);
      var rest := w[2 * t..];
      SwapHalvesBlocks(rest, t);
      SwapAppend(ReverseBlocks(rest, 2 * t), w[..2 * t], t);
      assert w[t..][t..] == rest && w[t..][..t] == w[t..2 * t];
      assert w[..2 * t][t..] == w[t..2 * t] && w[..2 * t][..t] == w[..t];
    }
  }

  /** The mask for blocks of `t` bits comes from the mask for blocks twice as long. */
  lemma {:induction false} HalveMask(t: nat, i: nat)
    requires t > 0
    ensures InLowBlock(t, i) <==> (InLowBlock(2 * t, i) != (i >= t && InLowBlock(2 * t, i - t)))
  {
    if i >= 4 * t { HalveMask(t, i - 4 * t); }
  }

  lemma {:induction false} ReverseOneByOne(w: Bits)
    requires WholeBlocks(|w|, 1)
    ensures ReverseBlocks(w, 1) == Reverse(w)
    decreases |w|
  {
    if w != [] { ReverseOneByOne(w[1..]); }
  }

  /** One turn of the loop of rev, from blocks of `2 * t` bits to blocks of `t` bits. */
  lemma RevTurn(v: Word, mask: Word, t: nat)
    requires t > 0 && WholeBlocks(WIDTH, 2 * t)
    requires forall i :: 0 <= i < WIDTH ==> mask[i] == InLowBlock(2 * t, i)
    ensures WholeBlocks(WIDTH, t)
    ensures var mask' := Xor(mask, Shl(mask, t));
            var r := ReverseBlocks(v, 2 * t);
            && (forall i :: 0 <= i < WIDTH ==> mask'[i] == InLowBlock(t, i))
            && Or(And(Shr(r, t), mask'), And(Shl(r, t), Not(mask'))) == ReverseBlocks(v, t)
  {
    var mask' := Xor(mask, Shl(mask, t));
    var r := ReverseBlocks(v, 2 * t);
    SwapHalvesBlocks(v, t);
    forall i | 0 <= i < WIDTH
      ensures mask'[i] == InLowBlock(t, i)
      ensures Or(And(Shr(r, t), mask'), And(Shl(r, t), Not(mask')))[i] == SwapBlocks(r, t)[i]
    {
      HalveMask(t, i);
      SwapBlocksAt(r, t, i);
    }
  }

  /** rev is the reversal of all 64 bits. */
  method Rev(v: Word) returns (r: Word)
    ensures r == Reverse(v)
  {
    var s := WIDTH;
    var mask: Word := Fill(WIDTH, true);
    r := v;
    assert v[64..] == [] && v[..64] == v;
    while s / 2 > 0
      invariant s in {1, 2, 4, 8, 16, 32, 64} && WholeBlocks(WIDTH, s)
      invariant forall i :: 0 <= i < WIDTH ==> mask[i] == InLowBlock(s, i)
      invariant r == ReverseBlocks(v, s)
    {
      s := s / 2;
      RevTurn(v, mask, s);
      mask := Xor(mask, Shl(mask, s));
      r := Or(And(Shr(r, s), mask), And(Shl(r, s), Not(mask)));
    }
    ReverseOneByOne(v);
  }

  lemma ReverseTwice(w: Bits)
    ensures Reverse(Reverse(w)) == w
  {
  }
}
