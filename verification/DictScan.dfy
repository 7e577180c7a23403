/**
  The stateless cursor scan of dict.c.  A cursor counts with its bits reversed, so the hashes
  already covered by a cursor are those that come before it in reversed-bit order, and that stays
  true when the tables grow underneath.
 */
module DictScan {
  import opened Options
  import opened DictModel
  import opened DictRefinement
  import opened Words

  // ---------- Sizes ----------

  function Log2(n: nat): nat { if n <= 1 then 0 else 1 + Log2(n / 2) }

  lemma {:induction false} Log2OfPow2(k: nat)
    ensures Log2(Pow2(k)) == k
  {
    if k > 0 { Log2OfPow2(k - 1); }
  }

  lemma {:induction false} Log2Monotone(a: nat, b: nat)
    requires a <= b
    ensures Log2(a) <= Log2(b)
  {
    if a > 1 { Log2Monotone(a / 2, b / 2); }
  }

  /** A table whose size is a power of two that fits an unsigned long. */
  ghost predicate Sized<K, V>(t: Table<K, V>) {
    |t.buckets| == Pow2(Log2(|t.buckets|)) && Log2(|t.buckets|) <= WIDTH
  }

  /** The tables of a dictionary are small enough to be addressed. */
  ghost predicate Addressable<K, V>(d: Dict<K, V>) {
    Log2(|d.ht0.buckets|) <= WIDTH && Log2(|d.ht1.buckets|) <= WIDTH
  }

  // ---------- Cursors ----------

  /** The next cursor within the bits above the low `k` ones. */
  function NextHigh(v: Word, k: nat): Word
    requires k <= WIDTH
  {
    v[..k] + Inc(v[k..])
  }

  function ReverseInc(w: Bits): (r: Bits)
    ensures |r| == |w|
  {
    Reverse(Inc(Reverse(w)))
  }

  /** The cursor that dictScan returns for a (smaller) table of size 2^k. */
  function NextCursor(v: Word, k: nat): Word
    requires k <= WIDTH
  {
    ReverseInc(v[..k]) + Fill(WIDTH - k, false)
  }

  lemma NextHighCode(v: Word, k: nat)
    requires k <= WIDTH
    ensures Or(And(Inc(Or(v, Mask(k))), Not(Mask(k))), And(v, Mask(k))) == NextHigh(v, k)
  {
    assert Or(v, Mask(k)) == Fill(k, true) + v[k..];
    IncAppend(Fill(k, true), v[k..]);
    IncOnes(k);
    assert Inc(Or(v, Mask(k))) == Fill(k, false) + Inc(v[k..]);
  }

  lemma StopCode(v: Word, k0: nat, k1: nat)
    requires k0 <= k1 <= WIDTH
    ensures And(v, Xor(Mask(k0), Mask(k1))) == Fill(WIDTH, false) <==> v[k0..k1] == Fill(k1 - k0, false)
  {
    var a := And(v, Xor(Mask(k0), Mask(k1)));
    assert forall i :: 0 <= i < WIDTH ==> a[i] == (k0 <= i < k1 && v[i]);
    assert forall i :: k0 <= i < k1 ==> v[i] == v[k0..k1][i - k0] == a[i];
    assert v[k0..k1] == Fill(k1 - k0, false) ==> a == Fill(WIDTH, false);
  }

  lemma NextCursorCode(v: Word, k: nat)
    requires k <= WIDTH
    ensures Reverse(Inc(Reverse(Or(v, Not(Mask(k)))))) == NextCursor(v, k)
  {
    var ones := Fill(WIDTH - k, true);
    assert Or(v, Not(Mask(k))) == v[..k] + ones;
    assert Reverse(v[..k] + ones) == ones + Reverse(v[..k]);
    IncAppend(ones, Reverse(v[..k]));
    IncOnes(WIDTH - k);
    assert Reverse(Fill(WIDTH - k, false) + Inc(Reverse(v[..k]))) == NextCursor(v, k);
  }

  // ---------- The scan ----------

  function Emit<K, V>(t: Table<K, V>, v: Word, k: nat): Chain<K, V>
    requires k <= WIDTH && |t.buckets| == Pow2(k)
  {
    ValueBound(v[..k]);
    t.buckets[Value(v[..k])]
  }

  /** The cursors at which one call looks into the larger table: the given one and the expansions after it. */
  ghost function Expansions(v: Word, k0: nat, k1: nat): seq<Word>
    requires k0 <= k1 <= WIDTH
    decreases Pow2(k1 - k0) - Value(v[k0..k1])
  {
    var next := NextHigh(v, k0);
    ExpansionAdvances(v, k0, k1);
    if next[k0..k1] == Fill(k1 - k0, false) then [v] else [v] + Expansions(next, k0, k1)
  }

  ghost function EmitAll<K, V>(t: Table<K, V>, cursors: seq<Word>, k: nat): Chain<K, V>
    requires k <= WIDTH && |t.buckets| == Pow2(k)
  {
    if cursors == [] then [] else Emit(t, cursors[0], k) + EmitAll(t, cursors[1..], k)
  }

  lemma ExpansionAdvances(v: Word, k0: nat, k1: nat)
    requires k0 <= k1 <= WIDTH
    ensures var mid, next := v[k0..k1], NextHigh(v, k0)[k0..k1];
      && Value(mid) < Pow2(k1 - k0)
      && (if mid == Fill(k1 - k0, true) then next == Fill(k1 - k0, false) else Value(next) == Value(mid) + 1)
  {
    var mid := v[k0..k1];
    ValueBound(mid);
    assert v[k0..] == mid + v[k1..];
    IncAppend(mid, v[k1..]);
    assert NextHigh(v, k0)[k0..k1] == Inc(mid);
    IncValue(mid);
    IncOnes(k1 - k0);
  }

  /** The tables that a call looks at have sizes that are powers of two. */
  ghost predicate Ready<K, V>(d: Dict<K, V>) {
    Size(d) != 0 ==> Sized(d.ht0) && (IsRehashing(d) ==> Sized(d.ht1))
  }

  /** dictScan: the entries passed to the callback, and the cursor returned. */
  ghost function Scan<K, V>(d: Dict<K, V>, v: Word): (Chain<K, V>, Word)
    requires Ready(d)
  {
    if Size(d) == 0 then ([], Fill(WIDTH, false))
    else if !IsRehashing(d) then
      var k := Log2(|d.ht0.buckets|);
      (Emit(d.ht0, v, k), NextCursor(v, k))
    else
      var (t0, t1) := if |d.ht0.buckets| > |d.ht1.buckets| then (d.ht1, d.ht0) else (d.ht0, d.ht1);
      var k0, k1 := Log2(|t0.buckets|), Log2(|t1.buckets|);
      Log2Monotone(|t0.buckets|, |t1.buckets|);
      (Emit(t0, v, k0) + EmitAll(t1, Expansions(v, k0, k1), k1), NextCursor(v, k0))
  }

  // ---------- Reversed-bit order ----------

  /** `h` comes before `v` when both are read from the least significant bit. */
  predicate Before(h: Bits, v: Bits)
    requires |h| == |v|
  {
    h != [] && (if h[0] == v[0] then Before(h[1..], v[1..]) else v[0])
  }

  lemma {:induction false} NothingBeforeZero(h: Bits)
    ensures !Before(h, Fill(|h|, false))
  {
    if h != [] {
      NothingBeforeZero(h[1..]);
      assert Fill(|h|, false)[1..] == Fill(|h| - 1, false);
    }
  }

  lemma {:induction false} BeforePadded(h: Bits, w: Bits)
    requires |w| <= |h|
    ensures Before(h, w + Fill(|h| - |w|, false)) == Before(h[..|w|], w)
  {
    if w == [] {
      NothingBeforeZero(h);
      assert w + Fill(|h|, false) == Fill(|h|, false);
    } else {
      BeforePadded(h[1..], w[1..]);
      assert (w + Fill(|h| - |w|, false))[1..] == w[1..] + Fill(|h| - |w|, false);
      assert h[..|w|][1..] == h[1..][..|w| - 1];
    }
  }

  lemma ReverseParts(t: Bits, b: bool)
    ensures Reverse(t + [b]) == [b] + Reverse(t) && Reverse([b] + t) == Reverse(t) + [b]
    ensures Reverse(Reverse(t)) == t && Reverse(Fill(|t|, b)) == Fill(|t|, b)
  {
  }

  lemma ReverseIncUnfold(w: Bits)
    requires w != []
    ensures ReverseInc(w) == if w[1..] == Fill(|w| - 1, true) then [!w[0]] + Fill(|w| - 1, false) else [w[0]] + ReverseInc(w[1..])
  {
    var u, b := w[1..], w[0];
    var t, n := Reverse(u), |w| - 1;
    assert w == [b] + u;
    ReverseParts(u, b);
    ReverseParts(Inc(t), b);
    ReverseParts(Fill(n, false), !b);
    ReverseParts(u, true);
    ReverseParts(u, false);
    IncAppend(t, [b]);
    IncOnes(n);
    assert Inc([b]) == [!b];
    hide Inc, Reverse, Fill;
    if t == Fill(n, true) { assert u == Reverse(Fill(n, true)); }
  }

  /** Between a cursor and the next one lies exactly the bucket of the cursor. */
  lemma {:induction false} NextCovers(h: Bits, w: Bits)
    requires |h| == |w|
    ensures if w == Fill(|w|, true) then ReverseInc(w) == Fill(|w|, false) && (Before(h, w) || h == w)
            else Before(h, ReverseInc(w)) <==> Before(h, w) || h == w
  {
    if w == [] {
      assert h == [];
    } else {
      NextCovers(h[1..], w[1..]);
      ReverseIncUnfold(w);
      var rest := w[1..];
      assert h == w <==> h[0] == w[0] && h[1..] == rest by {
        assert h == [h[0]] + h[1..] && w == [w[0]] + rest;
      }
      assert w == Fill(|w|, true) <==> w[0] && rest == Fill(|rest|, true) by {
        assert w == [w[0]] + rest && Fill(|w|, true) == [true] + Fill(|rest|, true);
      }
      if rest == Fill(|rest|, true) {
        NothingBeforeZero(h[1..]);
        assert ([!w[0]] + Fill(|rest|, false))[1..] == Fill(|rest|, false);
        if w[0] { assert Fill(|w|, false) == [false] + Fill(|rest|, false); }
      } else {
        assert ([w[0]] + ReverseInc(rest))[1..] == ReverseInc(rest);
      }
    }
  }

  // ---------- What one call emits ----------

  function HashWord<K>(hash: K -> nat, k: K): Word { FromNat(hash(k), WIDTH) }

  lemma WFIsSized<K(!new), V>(hash: K -> nat, d: Dict<K, V>)
    requires WF(hash, d) && Addressable(d)
    ensures |d.ht0.buckets| > 0 ==> Sized(d.ht0)
    ensures |d.ht1.buckets| > 0 ==> Sized(d.ht1)
    ensures Size(d) != 0 ==> |d.ht0.buckets| > 0
  {
    if |d.ht0.buckets| > 0 {
      var k: nat :| |d.ht0.buckets| == Pow2(k);
      Log2OfPow2(k);
    }
    if |d.ht1.buckets| > 0 {
      var k: nat :| |d.ht1.buckets| == Pow2(k);
      Log2OfPow2(k);
    }
  }

  lemma EmitFinds<K(!new), V>(hash: K -> nat, t: Table<K, V>, v: Word, n: nat, k: K)
    requires n <= WIDTH && |t.buckets| == Pow2(n)
    requires HashWord(hash, k)[..n] == v[..n] && LookupTable(hash, t, k).Some?
    ensures Entry(k, LookupTable(hash, t, k).value) in Emit(t, v, n)
  {
    FromNatPrefix(hash(k), n, WIDTH);
    FromNatValue(hash(k), n);
    LookupChainFinds(Emit(t, v, n), k);
  }

  lemma {:induction false} EmitAllFinds<K(!new), V>(hash: K -> nat, t: Table<K, V>, cursors: seq<Word>, n: nat, k: K)
    requires n <= WIDTH && |t.buckets| == Pow2(n) && LookupTable(hash, t, k).Some?
    requires exists c :: c in cursors && HashWord(hash, k)[..n] == c[..n]
    ensures Entry(k, LookupTable(hash, t, k).value) in EmitAll(t, cursors, n)
  {
    if HashWord(hash, k)[..n] == cursors[0][..n] {
      EmitFinds(hash, t, cursors[0], n, k);
    } else {
      EmitAllFinds(hash, t, cursors[1..], n, k);
    }
  }

  // ---------- Which buckets one call visits ----------

  /** Whether the call at `v` visits the bucket of hash `h` in the larger table. */
  ghost predicate Visited(v: Word, k0: nat, k1: nat, h: Word)
    requires k0 <= k1 <= WIDTH
  {
    exists c :: c in Expansions(v, k0, k1) && h[..k1] == c[..k1]
  }

  lemma {:induction false} VisitsFrom(v: Word, k0: nat, k1: nat, h: Word)
    requires k0 <= k1 <= WIDTH && h[..k0] == v[..k0]
    ensures Visited(v, k0, k1, h) <==> Value(v[k0..k1]) <= Value(h[k0..k1])
    decreases Pow2(k1 - k0) - Value(v[k0..k1])
  {
    var next, mid, target := NextHigh(v, k0), v[k0..k1], h[k0..k1];
    ExpansionAdvances(v, k0, k1);
    assert h[..k1] == h[..k0] + target && v[..k1] == v[..k0] + mid;
    assert h[..k1] == v[..k1] <==> target == mid by {
      if h[..k1] == v[..k1] { assert target == h[..k1][k0..] && mid == v[..k1][k0..]; }
    }
    if Value(mid) == Value(target) { ValueInjective(mid, target); }
    ValueBound(target);
    ValueOfFill(k1 - k0);
    var cs := Expansions(v, k0, k1);
    if next[k0..k1] == Fill(k1 - k0, false) {
      assert cs == [v];
      assert Visited(v, k0, k1, h) <==> target == mid by { assert v in cs; }
      assert mid == Fill(k1 - k0, true);
    } else {
      assert mid != Fill(k1 - k0, true);
      VisitsFrom(next, k0, k1, h);
      var rest := Expansions(next, k0, k1);
      assert cs == [v] + rest;
      assert Visited(v, k0, k1, h) <==> target == mid || Visited(next, k0, k1, h) by {
        assert v in cs;
        assert forall c :: c in cs <==> c == v || c in rest;
      }
    }
  }

  /** A run of ones, then zeros. */
  predicate LowRun(m: Bits) {
    m == [] || (if m[0] then LowRun(m[1..]) else m == Fill(|m|, false))
  }

  lemma {:induction false} LowRunOrders(m: Bits, t: Bits)
    requires LowRun(m) && |t| == |m| && Value(t) < Value(m)
    ensures Before(t, m)
  {
    if m[0] && t[0] {
      LowRunOrders(m[1..], t[1..]);
    } else if !m[0] {
      ValueOfFill(|m|);
    }
  }

  /** Bits that are not a low run have a smaller number that does not come before them. */
  lemma {:induction false} NotLowRun(m: Bits) returns (t: Bits)
    requires !LowRun(m)
    ensures |t| == |m| && Value(t) < Value(m) && !Before(t, m)
  {
    if m[0] {
      t := NotLowRun(m[1..]);
      t := [true] + t;
    } else {
      t := [true] + Fill(|m| - 1, false);
      ValueOfFill(|m| - 1);
      assert t[1..] == Fill(|m| - 1, false);
      ValueOfFill(|m|);
      if Value(m) == 0 { ValueInjective(m, Fill(|m|, false)); }
    }
  }

  lemma {:induction false} BeforeAppend(a: Bits, h: Bits, v: Bits)
    requires |h| == |v|
    ensures Before(a + h, a + v) == Before(h, v)
  {
    if a == [] {
      assert a + h == h && a + v == v;
    } else {
      BeforeAppend(a[1..], h, v);
      assert (a + h)[1..] == a[1..] + h && (a + v)[1..] == a[1..] + v;
    }
  }

  lemma {:induction false} BeforeDecided(h: Bits, v: Bits, h2: Bits, v2: Bits)
    requires |h| == |v| && |h2| == |v2| && h != v
    ensures Before(h + h2, v + v2) == Before(h, v)
  {
    assert (h + h2)[1..] == h[1..] + h2 && (v + v2)[1..] == v[1..] + v2;
    assert h == [h[0]] + h[1..] && v == [v[0]] + v[1..];
    if h[0] == v[0] { BeforeDecided(h[1..], v[1..], h2, v2); }
  }

  /** How a hash with the cursor's low bits compares to the cursor, when they differ in the bits between the masks. */
  lemma BeforeBetween(v: Word, k0: nat, k1: nat, h: Word)
    requires k0 <= k1 <= WIDTH && h[..k0] == v[..k0] && h[k0..k1] != v[k0..k1]
    ensures Before(h, v) == Before(h[k0..k1], v[k0..k1])
  {
    assert h == h[..k0] + (h[k0..k1] + h[k1..]) && v == v[..k0] + (v[k0..k1] + v[k1..]);
    BeforeAppend(v[..k0], h[k0..k1] + h[k1..], v[k0..k1] + v[k1..]);
    BeforeDecided(h[k0..k1], v[k0..k1], h[k1..], v[k1..]);
  }

  /**
    The loop over the expansions misses no hash exactly when the cursor's bits between the two
    masks are a run of ones followed by zeros.  They are all zero while tables only grow;
    `DictScanShrink` shows what happens when a rehash to a smaller table starts during a scan.
   */
  lemma ExpansionsCoverIff(v: Word, k0: nat, k1: nat)
    requires k0 <= k1 <= WIDTH
    ensures LowRun(v[k0..k1]) <==>
            forall h: Word :: h[..k0] == v[..k0] ==> Before(h, v) || Visited(v, k0, k1, h)
  {
    var mid := v[k0..k1];
    if LowRun(mid) {
      forall h: Word | h[..k0] == v[..k0]
        ensures Before(h, v) || Visited(v, k0, k1, h)
      {
        VisitsFrom(v, k0, k1, h);
        if Value(h[k0..k1]) < Value(mid) {
          LowRunOrders(mid, h[k0..k1]);
          BeforeBetween(v, k0, k1, h);
        }
      }
    } else {
      var t := NotLowRun(mid);
      var h: Word := v[..k0] + t + v[k1..];
      assert h[..k0] == v[..k0] && h[k0..k1] == t;
      VisitsFrom(v, k0, k1, h);
      BeforeBetween(v, k0, k1, h);
      assert !(Before(h, v) || Visited(v, k0, k1, h));
    }
  }

  // ---------- What one call covers ----------

  /** The sizes, as exponents, of the smaller and the larger table that a call looks at. */
  ghost function Exponents<K, V>(d: Dict<K, V>): (k: (nat, nat))
    ensures k.0 <= k.1
  {
    var a, b := Log2(|d.ht0.buckets|), Log2(|d.ht1.buckets|);
    if !IsRehashing(d) then (a, a) else if a <= b then (a, b) else (b, a)
  }

  /** The condition under which a call at cursor `v` covers its share; a caller can check it beforehand. */
  ghost predicate Covering<K, V>(d: Dict<K, V>, v: Word) {
    Addressable(d) && LowRun(v[Exponents(d).0..Exponents(d).1])
  }

  lemma NonZeroNext(w: Bits)
    requires w != Fill(|w|, true)
    ensures ReverseInc(w) != Fill(|w|, false)
  {
    NextCovers(w, w);
    NothingBeforeZero(w);
  }

  /** A hash that comes before the next cursor comes before this one, or shares its low bits. */
  lemma CursorCovers(h: Word, v: Word, n: nat)
    requires n <= WIDTH
    requires Before(h, NextCursor(v, n)) || NextCursor(v, n) == Fill(WIDTH, false)
    ensures Before(h, v) || h[..n] == v[..n]
  {
    var low := v[..n];
    BeforePadded(h, ReverseInc(low));
    NextCovers(h[..n], low);
    if low != Fill(n, true) {
      NonZeroNext(low);
      assert NextCursor(v, n)[..n] == ReverseInc(low);
      assert NextCursor(v, n) == Fill(WIDTH, false) ==> ReverseInc(low) == Fill(n, false);
    }
    if h[..n] != low {
      assert h == h[..n] + h[n..] && v == low + v[n..];
      BeforeDecided(h[..n], low, h[n..], v[n..]);
    }
  }

  lemma PresentIsSized<K(!new), V>(hash: K -> nat, d: Dict<K, V>, k: K)
    requires WF(hash, d) && Addressable(d) && Lookup(hash, d, k).Some?
    ensures Size(d) != 0 && Sized(d.ht0) && (IsRehashing(d) ==> Sized(d.ht1))
  {
    WFIsSized(hash, d);
    ViewIsLookup(hash, d);
    assert k in View(hash, d);
  }

  lemma SmallerFirst<K, V>(d: Dict<K, V>)
    requires Sized(d.ht0) && Sized(d.ht1) && IsRehashing(d)
    ensures |d.ht0.buckets| > |d.ht1.buckets| <==> Log2(|d.ht0.buckets|) > Log2(|d.ht1.buckets|)
  {
    if Log2(|d.ht0.buckets|) > Log2(|d.ht1.buckets|) {
      if |d.ht0.buckets| <= |d.ht1.buckets| { Log2Monotone(|d.ht0.buckets|, |d.ht1.buckets|); }
    } else if |d.ht0.buckets| > |d.ht1.buckets| {
      Log2Monotone(|d.ht1.buckets|, |d.ht0.buckets|);
    }
  }

  /** A call emits every present entry that has the cursor's low bits and does not come before the cursor. */
  lemma ScanEmits<K(!new), V>(hash: K -> nat, d: Dict<K, V>, v: Word, k: K)
    requires WF(hash, d) && Covering(d, v) && Lookup(hash, d, k).Some?
    requires HashWord(hash, k)[..Exponents(d).0] == v[..Exponents(d).0] && !Before(HashWord(hash, k), v)
    requires Size(d) != 0 && Sized(d.ht0) && (IsRehashing(d) ==> Sized(d.ht1))
    ensures Entry(k, Lookup(hash, d, k).value) in Scan(d, v).0
  {
    if !IsRehashing(d) {
      EmitFinds(hash, d.ht0, v, Log2(|d.ht0.buckets|), k);
    } else {
      SmallerFirst(d);
      var (t0, t1) := if |d.ht0.buckets| > |d.ht1.buckets| then (d.ht1, d.ht0) else (d.ht0, d.ht1);
      var (k0, k1) := Exponents(d);
      if LookupTable(hash, t0, k).Some? {
        EmitFinds(hash, t0, v, k0, k);
      } else {
        ExpansionsCoverIff(v, k0, k1);
        assert Visited(v, k0, k1, HashWord(hash, k));
        EmitAllFinds(hash, t1, Expansions(v, k0, k1), k1, k);
      }
    }
  }

  /** One call emits every present entry that lies between its cursor and the next one. */
  lemma ScanCovers<K(!new), V>(hash: K -> nat, d: Dict<K, V>, v: Word, k: K)
    requires WF(hash, d) && Covering(d, v) && Lookup(hash, d, k).Some?
    ensures Size(d) != 0 && Sized(d.ht0) && (IsRehashing(d) ==> Sized(d.ht1))
    ensures Before(HashWord(hash, k), Scan(d, v).1) || Scan(d, v).1 == Fill(WIDTH, false) ==>
            Before(HashWord(hash, k), v) || Entry(k, Lookup(hash, d, k).value) in Scan(d, v).0
  {
    PresentIsSized(hash, d, k);
    if IsRehashing(d) { SmallerFirst(d); }
    var n := Exponents(d).0;
    var next := Scan(d, v).1;
    assert next == NextCursor(v, n);
    if Before(HashWord(hash, k), next) || next == Fill(WIDTH, false) {
      CursorCovers(HashWord(hash, k), v, n);
      if !Before(HashWord(hash, k), v) { ScanEmits(hash, d, v, k); }
    }
  }

  // ---------- Runs ----------

  datatype Event<K, V> = ScanEvent | OpEvent(op: Op<K, V>)

  /** A run of scan calls and other operations; at each scan call the tables can be addressed. */
  ghost predicate Legal<K(!new), V>(hash: K -> nat, d: Dict<K, V>, events: seq<Event<K, V>>)
    decreases |events|
  {
    && WF(hash, d)
    && (events != [] ==>
          if events[0].ScanEvent? then Addressable(d) && Legal(hash, d, events[1..])
          else Legal(hash, Apply(hash, d, events[0].op).0, events[1..]))
  }

  /** Every scan call of the run is covering. */
  ghost predicate CoveringRun<K(!new), V>(hash: K -> nat, d: Dict<K, V>, v: Word, events: seq<Event<K, V>>)
    requires Legal(hash, d, events)
    decreases |events|
  {
    events != [] ==>
      if events[0].ScanEvent? then
        Covering(d, v) && (WFIsSized(hash, d); CoveringRun(hash, d, Scan(d, v).1, events[1..]))
      else CoveringRun(hash, Apply(hash, d, events[0].op).0, v, events[1..])
  }

  /** The entries that the scans of a run emit, and the cursor after the last of them. */
  ghost function ScanRun<K(!new), V>(hash: K -> nat, d: Dict<K, V>, v: Word,
      events: seq<Event<K, V>>): (Chain<K, V>, Word)
    requires Legal(hash, d, events)
    decreases |events|
  {
    if events == [] then ([], v)
    else if events[0].ScanEvent? then
      WFIsSized(hash, d);
      var (out, next) := Scan(d, v);
      var (rest, last) := ScanRun(hash, d, next, events[1..]);
      (out + rest, last)
    else
      ScanRun(hash, Apply(hash, d, events[0].op).0, v, events[1..])
  }

  lemma OpKeepsKey<K(!new), V>(hash: K -> nat, d: Dict<K, V>, op: Op<K, V>, k: K)
    requires WF(hash, d) && Lookup(hash, d, k).Some? && op != DeleteOp(k)
    ensures Lookup(hash, Apply(hash, d, op).0, k).Some?
  {
    match op {
      case AddOp(k', v) => AddAdds(hash, d, k', v);
      case FindOp(k') => FindFinds(hash, d, k');
      case ReplaceOp(k', v) => ReplaceReplaces(hash, d, k', v);
      case DeleteOp(k') => DeleteDeletes(hash, d, k');
      case RehashOp(n) => RehashKeeps(hash, d, n);
      case ExpandOp(size) => ExpandKeeps(hash, d, size);
      case _ =>
    }
  }

  lemma EntryIsKey<K, V>(c: Chain<K, V>, e: Entry<K, V>)
    requires e in c
    ensures HasKey(c, e.key)
  {
    var i :| 0 <= i < |c| && c[i] == e;
    assert c[i].key == e.key;
  }

  /** A key whose hash the last cursor has passed was passed by the first cursor already, or was emitted. */
  lemma {:induction false} RunCovers<K(!new), V>(hash: K -> nat, d: Dict<K, V>, v: Word, events: seq<Event<K, V>>, k: K)
    requires Legal(hash, d, events) && CoveringRun(hash, d, v, events) && Lookup(hash, d, k).Some?
    requires OpEvent(DeleteOp(k)) !in events
    ensures var last := ScanRun(hash, d, v, events).1;
            Before(HashWord(hash, k), last) || (events != [] && events[|events| - 1].ScanEvent? && last == Fill(WIDTH, false)) ==>
            Before(HashWord(hash, k), v) || HasKey(ScanRun(hash, d, v, events).0, k)
    decreases |events|
  {
    if events != [] {
      var rest := events[1..];
      assert rest != [] ==> rest[|rest| - 1] == events[|events| - 1];
      if events[0].ScanEvent? {
        ScanCovers(hash, d, v, k);
        var (out, next) := Scan(d, v);
        RunCovers(hash, d, next, rest, k);
        var more := ScanRun(hash, d, next, rest).0;
        HasKeyAppend(out, more, k);
        if Entry(k, Lookup(hash, d, k).value) in out { EntryIsKey(out, Entry(k, Lookup(hash, d, k).value)); }
      } else {
        OpKeepsKey(hash, d, events[0].op, k);
        RunCovers(hash, Apply(hash, d, events[0].op).0, v, rest, k);
      }
    }
  }

  /**
    Coverage of the scan.  Take any run that starts at cursor 0 and ends with a call of dictScan
    that returns 0, with any operations in between: adds, finds, replaces, deletions of other
    keys, rehash steps, expansions.  Every key present throughout is emitted.
   */
  lemma ScanVisitsAll<K(!new), V>(hash: K -> nat, d: Dict<K, V>, events: seq<Event<K, V>>, k: K)
    requires Legal(hash, d, events) && CoveringRun(hash, d, Fill(WIDTH, false), events)
    requires k in View(hash, d) && OpEvent(DeleteOp(k)) !in events
    requires events != [] && events[|events| - 1].ScanEvent?
    requires ScanRun(hash, d, Fill(WIDTH, false), events).1 == Fill(WIDTH, false)
    ensures HasKey(ScanRun(hash, d, Fill(WIDTH, false), events).0, k)
  {
    RunCovers(hash, d, Fill(WIDTH, false), events, k);
    NothingBeforeZero(HashWord(hash, k));
  }

  // ---------- Growth ----------

  /** The tables never shrink: during a rehash the new table is the larger one. */
  ghost predicate Growing<K, V>(d: Dict<K, V>) {
    IsRehashing(d) ==> |d.ht0.buckets| <= |d.ht1.buckets|
  }

  ghost predicate CursorFits<K, V>(d: Dict<K, V>, v: Word) {
    var k := Log2(|d.ht0.buckets|);
    k <= WIDTH && v[k..] == Fill(WIDTH - k, false)
  }

  /** An operation that starts no shrinking rehash. */
  ghost predicate GrowsOnly<K, V>(d: Dict<K, V>, op: Op<K, V>) {
    op.ExpandOp? ==> NextPower(op.size) >= |d.ht0.buckets|
  }

  ghost predicate Grown<K, V>(d: Dict<K, V>, d': Dict<K, V>) {
    Growing(d') && |d'.ht0.buckets| >= |d.ht0.buckets|
  }

  lemma StepGrows<K(!new), V>(hash: K -> nat, d: Dict<K, V>)
    requires Growing(d)
    ensures Grown(d, Step(hash, d))
  {
  }

  lemma ExpandIfNeededGrows<K(!new), V>(d: Dict<K, V>)
    requires Growing(d)
    ensures Grown(d, ExpandIfNeeded(d).0)
  {
  }

  lemma {:induction false} RehashGrows<K(!new), V>(hash: K -> nat, d: Dict<K, V>, n: nat)
    requires Growing(d)
    ensures Grown(d, Rehash(hash, d, n).0)
    decreases n
  {
    if IsRehashing(d) && n > 0 { RehashGrows(hash, RehashOne(hash, d), n - 1); }
  }

  lemma ApplyGrows<K(!new), V>(hash: K -> nat, d: Dict<K, V>, op: Op<K, V>)
    requires Growing(d) && GrowsOnly(d, op)
    ensures Grown(d, Apply(hash, d, op).0)
  {
    match op {
      case AddOp(k, v) => AddGrows(hash, d, k, v);
      case ReplaceOp(k, v) =>
        AddGrows(hash, d, k, v);
        StepGrows(hash, Add(hash, d, k, v).0);
      case RehashOp(n) => RehashGrows(hash, d, n);
      case FindOp(k) => StepGrows(hash, d);
      case DeleteOp(k) => StepGrows(hash, d);
      case _ =>
    }
  }

  lemma AddGrows<K(!new), V>(hash: K -> nat, d: Dict<K, V>, k: K, v: V)
    requires Growing(d)
    ensures Grown(d, Add(hash, d, k, v).0)
  {
    StepGrows(hash, d);
    ExpandIfNeededGrows(Step(hash, d));
  }

  lemma FitsGrown<K, V>(d: Dict<K, V>, d': Dict<K, V>, v: Word)
    requires CursorFits(d, v) && Grown(d, d') && Addressable(d')
    ensures CursorFits(d', v)
  {
    var a, b := Log2(|d.ht0.buckets|), Log2(|d'.ht0.buckets|);
    Log2Monotone(|d.ht0.buckets|, |d'.ht0.buckets|);
    assert v[b..] == v[a..][b - a..];
  }

  lemma {:induction false} ZerosAreLowRun(n: nat)
    ensures LowRun(Fill(n, false))
  {
  }

  /** A call at a cursor inside the smaller mask is covering, and returns such a cursor. */
  lemma ScanFits<K(!new), V>(hash: K -> nat, d: Dict<K, V>, v: Word)
    requires WF(hash, d) && Addressable(d) && Growing(d) && CursorFits(d, v)
    ensures Covering(d, v)
    ensures Size(d) != 0 ==> Sized(d.ht0) && (IsRehashing(d) ==> Sized(d.ht1))
    ensures CursorFits(d, Scan(d, v).1)
  {
    WFIsSized(hash, d);
    var (k0, k1) := Exponents(d);
    Log2Monotone(|d.ht0.buckets|, if IsRehashing(d) then |d.ht1.buckets| else |d.ht0.buckets|);
    assert v[k0..k1] == v[k0..][..k1 - k0] == Fill(k1 - k0, false);
    ZerosAreLowRun(k1 - k0);
    if Size(d) == 0 {
      assert Fill(WIDTH, false)[k0..] == Fill(WIDTH - k0, false);
    } else {
      assert NextCursor(v, k0)[k0..] == Fill(WIDTH - k0, false);
    }
  }

  /** A run in which no table shrinks or outgrows the address space. */
  ghost predicate GrowingRun<K(!new), V>(hash: K -> nat, d: Dict<K, V>, events: seq<Event<K, V>>)
    decreases |events|
  {
    && WF(hash, d) && Addressable(d)
    && (events != [] ==>
          if events[0].ScanEvent? then GrowingRun(hash, d, events[1..])
          else GrowsOnly(d, events[0].op) && GrowingRun(hash, Apply(hash, d, events[0].op).0, events[1..]))
  }

  /** While tables only grow every call is covering, so `ScanVisitsAll` applies to the whole run. */
  lemma {:induction false} GrowthIsCovering<K(!new), V>(hash: K -> nat, d: Dict<K, V>, v: Word,
      events: seq<Event<K, V>>)
    requires GrowingRun(hash, d, events) && Growing(d) && CursorFits(d, v)
    ensures Legal(hash, d, events) && CoveringRun(hash, d, v, events)
    decreases |events|
  {
    if events != [] {
      if events[0].ScanEvent? {
        ScanFits(hash, d, v);
        GrowthIsCovering(hash, d, Scan(d, v).1, events[1..]);
      } else {
        var d' := Apply(hash, d, events[0].op).0;
        ApplyGrows(hash, d, events[0].op);
        FitsGrown(d, d', v);
        GrowthIsCovering(hash, d', v, events[1..]);
      }
    }
  }

  /** The scan covers every run with growing tables, from the empty dictionary's first expansion on. */
  lemma GrowingScanVisitsAll<K(!new), V>(hash: K -> nat, d: Dict<K, V>, events: seq<Event<K, V>>, k: K)
    requires GrowingRun(hash, d, events) && Growing(d)
    requires k in View(hash, d) && OpEvent(DeleteOp(k)) !in events
    requires events != [] && events[|events| - 1].ScanEvent?
    ensures Legal(hash, d, events) && CoveringRun(hash, d, Fill(WIDTH, false), events)
    ensures ScanRun(hash, d, Fill(WIDTH, false), events).1 == Fill(WIDTH, false) ==>
            HasKey(ScanRun(hash, d, Fill(WIDTH, false), events).0, k)
  {
    var v := Fill(WIDTH, false);
    assert v[Log2(|d.ht0.buckets|)..] == Fill(WIDTH - Log2(|d.ht0.buckets|), false);
    GrowthIsCovering(hash, d, v, events);
    if ScanRun(hash, d, v, events).1 == v { ScanVisitsAll(hash, d, events, k); }
  }
}
