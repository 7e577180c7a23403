/**
  The dictionary of dict.c refines a map: its invariant, its abstract value, and what every
  operation does to both, whatever the state of the incremental rehash.
 */
module DictRefinement {
  import opened Options
  import opened DictModel

  // ---------- The invariant ----------

  /** The number of entries in a sequence of chains. */
  function Total<K, V>(bs: seq<Chain<K, V>>): nat {
    if bs == [] then 0 else |bs[0]| + Total(bs[1..])
  }

  ghost predicate DistinctKeys<K, V>(c: Chain<K, V>) {
    forall i, j :: 0 <= i < j < |c| ==> c[i].key != c[j].key
  }

  ghost predicate GoodChain<K, V>(hash: K -> nat, size: nat, b: int, c: Chain<K, V>)
    requires size > 0
  {
    DistinctKeys(c) && forall i :: 0 <= i < |c| ==> Index(hash, size, c[i].key) == b
  }

  /** Every entry sits in the bucket of its key, once, and `used` counts the entries. */
  ghost predicate GoodTable<K, V>(hash: K -> nat, t: Table<K, V>) {
    && t.used == Total(t.buckets)
    && forall b :: 0 <= b < |t.buckets| ==> GoodChain(hash, |t.buckets|, b, t.buckets[b])
  }

  ghost predicate GoodSize(n: nat) {
    n == 0 || (n >= 4 && exists k: nat :: n == Pow2(k))
  }

  ghost predicate WF<K(!new), V>(hash: K -> nat, d: Dict<K, V>) {
    && GoodTable(hash, d.ht0) && GoodTable(hash, d.ht1)
    && GoodSize(|d.ht0.buckets|) && GoodSize(|d.ht1.buckets|)
    && (forall k :: LookupTable(hash, d.ht0, k).None? || LookupTable(hash, d.ht1, k).None?)
    && (if IsRehashing(d) then
          && 0 <= d.rehashidx <= |d.ht0.buckets|
          && |d.ht0.buckets| > 0 && |d.ht1.buckets| > 0
          && (forall b :: 0 <= b < d.rehashidx ==> d.ht0.buckets[b] == [])
        else d.ht1 == EmptyTable<K, V>())
  }

  // ---------- The abstract value ----------

  /** All entries of a table, bucket by bucket. */
  function Flatten<K, V>(bs: seq<Chain<K, V>>): Chain<K, V> {
    if bs == [] then [] else bs[0] + Flatten(bs[1..])
  }

  ghost function Keys<K(!new), V>(t: Table<K, V>): set<K> {
    set e | e in Flatten(t.buckets) :: e.key
  }

  /** The map that a dictionary stands for. */
  ghost function View<K(!new), V>(hash: K -> nat, d: Dict<K, V>): map<K, V> {
    map k | k in Keys(d.ht0) + Keys(d.ht1) && Lookup(hash, d, k).Some? :: Lookup(hash, d, k).value
  }

  // ---------- Chains ----------

  lemma HasKeyAppend<K, V>(c1: Chain<K, V>, c2: Chain<K, V>, k: K)
    ensures HasKey(c1 + c2, k) <==> HasKey(c1, k) || HasKey(c2, k)
  {
    var c := c1 + c2;
    if HasKey(c1, k) {
      var i :| 0 <= i < |c1| && c1[i].key == k;
      assert c[i].key == k;
    }
    if HasKey(c2, k) {
      var i :| 0 <= i < |c2| && c2[i].key == k;
      assert c[|c1| + i].key == k;
    }
    if HasKey(c, k) {
      var i :| 0 <= i < |c| && c[i].key == k;
      assert if i < |c1| then c1[i].key == k else c2[i - |c1|].key == k;
    }
  }

  lemma {:induction false} LookupChainFinds<K, V>(c: Chain<K, V>, k: K)
    ensures LookupChain(c, k).None? <==> forall i :: 0 <= i < |c| ==> c[i].key != k
    ensures LookupChain(c, k).Some? ==> exists i :: 0 <= i < |c| && c[i] == Entry(k, LookupChain(c, k).value)
  {
    if c != [] && c[0].key != k {
      LookupChainFinds(c[1..], k);
      if LookupChain(c, k).Some? {
        var i :| 0 <= i < |c[1..]| && c[1..][i] == Entry(k, LookupChain(c, k).value);
        assert c[i + 1] == Entry(k, LookupChain(c, k).value);
      } else {
        assert forall i :: 0 < i < |c| ==> c[i] == c[1..][i - 1];
      }
    } else if c != [] {
      assert c[0] == Entry(k, c[0].val);
    }
  }

  lemma {:induction false} RemoveMembers<K, V>(c: Chain<K, V>, k: K)
    ensures |RemoveFromChain(c, k)| == |c| - (if LookupChain(c, k).Some? then 1 else 0)
    ensures forall e :: e in RemoveFromChain(c, k) ==> e in c
  {
    if c != [] && c[0].key != k { RemoveMembers(c[1..], k); }
  }

  lemma {:induction false} RemoveGood<K, V>(hash: K -> nat, size: nat, b: int, c: Chain<K, V>, k: K)
    requires size > 0 && GoodChain(hash, size, b, c)
    ensures GoodChain(hash, size, b, RemoveFromChain(c, k))
  {
    if c != [] && c[0].key != k {
      RemoveGood(hash, size, b, c[1..], k);
      RemoveMembers(c[1..], k);
      var r := RemoveFromChain(c[1..], k);
      assert forall i :: 0 <= i < |r| ==> r[i] in c[1..];
      assert forall i :: 1 <= i < |r| + 1 ==> ([c[0]] + r)[i] == r[i - 1];
    }
  }

  lemma {:induction false} RemoveLookups<K, V>(c: Chain<K, V>, k: K)
    requires DistinctKeys(c)
    ensures forall k' :: LookupChain(RemoveFromChain(c, k), k') == if k' == k then None else LookupChain(c, k')
  {
    if c != [] {
      if c[0].key == k {
        LookupChainFinds(c[1..], k);
      } else {
        RemoveLookups(c[1..], k);
        assert RemoveFromChain(c, k)[1..] == RemoveFromChain(c[1..], k);
      }
    }
  }

  lemma RemoveFromChainRemoves<K, V>(hash: K -> nat, size: nat, b: int, c: Chain<K, V>, k: K)
    requires size > 0 && GoodChain(hash, size, b, c)
    ensures GoodChain(hash, size, b, RemoveFromChain(c, k))
    ensures |RemoveFromChain(c, k)| == |c| - (if LookupChain(c, k).Some? then 1 else 0)
    ensures forall e :: e in RemoveFromChain(c, k) ==> e in c
    ensures forall k' :: LookupChain(RemoveFromChain(c, k), k') == if k' == k then None else LookupChain(c, k')
  {
    RemoveMembers(c, k);
    RemoveGood(hash, size, b, c, k);
    RemoveLookups(c, k);
  }

  lemma {:induction false} SetInChainSets<K, V>(hash: K -> nat, size: nat, b: int, c: Chain<K, V>, k: K, v: V)
    requires size > 0 && GoodChain(hash, size, b, c) && LookupChain(c, k).Some?
    ensures GoodChain(hash, size, b, SetInChain(c, k, v)) && |SetInChain(c, k, v)| == |c|
    ensures forall i :: 0 <= i < |c| ==> SetInChain(c, k, v)[i].key == c[i].key
    ensures forall k' :: LookupChain(SetInChain(c, k, v), k') == if k' == k then Some(v) else LookupChain(c, k')
  {
    if c[0].key == k {
      assert ([Entry(k, v)] + c[1..])[1..] == c[1..];
    } else {
      SetInChainSets(hash, size, b, c[1..], k, v);
      var r := SetInChain(c[1..], k, v);
      assert ([c[0]] + r)[1..] == r;
    }
  }

  // ---------- Tables ----------

  lemma {:induction false} TotalUpdate<K, V>(bs: seq<Chain<K, V>>, i: nat, c: Chain<K, V>)
    requires i < |bs|
    ensures Total(bs[i := c]) == Total(bs) - |bs[i]| + |c|
  {
    if i == 0 {
      assert bs[i := c][1..] == bs[1..];
    } else {
      TotalUpdate(bs[1..], i - 1, c);
      assert bs[i := c][1..] == bs[1..][i - 1 := c];
    }
  }

  lemma {:induction false} TotalZero<K, V>(bs: seq<Chain<K, V>>)
    ensures Total(bs) == 0 <==> forall b :: 0 <= b < |bs| ==> bs[b] == []
  {
    if bs != [] {
      TotalZero(bs[1..]);
      assert forall b :: 0 < b < |bs| ==> bs[b] == bs[1..][b - 1];
    }
  }

  lemma PushPushes<K, V>(hash: K -> nat, t: Table<K, V>, e: Entry<K, V>)
    requires GoodTable(hash, t) && t.buckets != [] && LookupTable(hash, t, e.key).None?
    ensures GoodTable(hash, Push(hash, t, e)) && Push(hash, t, e).used == t.used + 1
    ensures forall k :: LookupTable(hash, Push(hash, t, e), k) == if k == e.key then Some(e.val) else LookupTable(hash, t, k)
  {
    var i := Index(hash, |t.buckets|, e.key);
    var c := [e] + t.buckets[i];
    TotalUpdate(t.buckets, i, c);
    LookupChainFinds(t.buckets[i], e.key);
    assert c[1..] == t.buckets[i];
    assert GoodChain(hash, |t.buckets|, i, t.buckets[i]);
  }

  lemma RemoveRemoves<K, V>(hash: K -> nat, t: Table<K, V>, k: K)
    requires GoodTable(hash, t) && LookupTable(hash, t, k).Some?
    ensures GoodTable(hash, RemoveFromTable(hash, t, k)) && RemoveFromTable(hash, t, k).used == t.used - 1
    ensures forall k' :: LookupTable(hash, RemoveFromTable(hash, t, k), k') == if k' == k then None else LookupTable(hash, t, k')
  {
    var i := Index(hash, |t.buckets|, k);
    RemoveFromChainRemoves(hash, |t.buckets|, i, t.buckets[i], k);
    TotalUpdate(t.buckets, i, RemoveFromChain(t.buckets[i], k));
  }

  lemma SetSets<K, V>(hash: K -> nat, t: Table<K, V>, k: K, v: V)
    requires GoodTable(hash, t) && LookupTable(hash, t, k).Some?
    ensures GoodTable(hash, SetInTable(hash, t, k, v)) && SetInTable(hash, t, k, v).used == t.used
    ensures forall k' :: LookupTable(hash, SetInTable(hash, t, k, v), k') == if k' == k then Some(v) else LookupTable(hash, t, k')
  {
    var i := Index(hash, |t.buckets|, k);
    SetInChainSets(hash, |t.buckets|, i, t.buckets[i], k, v);
    TotalUpdate(t.buckets, i, SetInChain(t.buckets[i], k, v));
  }

  /** Clearing one bucket takes away exactly the keys of its chain. */
  lemma ClearClears<K, V>(hash: K -> nat, t: Table<K, V>, i: nat)
    requires GoodTable(hash, t) && i < |t.buckets|
    ensures var t' := Table(t.buckets[i := []], t.used - |t.buckets[i]|);
      && GoodTable(hash, t')
      && forall k :: LookupTable(hash, t', k) == if LookupChain(t.buckets[i], k).Some? then None else LookupTable(hash, t, k)
  {
    TotalUpdate(t.buckets, i, []);
    forall k
      ensures LookupChain(t.buckets[i], k).Some? ==> Index(hash, |t.buckets|, k) == i
    {
      LookupChainFinds(t.buckets[i], k);
      assert GoodChain(hash, |t.buckets|, i, t.buckets[i]);
    }
  }

  /** Pushing a chain of new keys adds exactly that chain. */
  lemma {:induction false} PushAllPushes<K, V>(hash: K -> nat, c: Chain<K, V>, t: Table<K, V>)
    requires GoodTable(hash, t) && t.buckets != [] && DistinctKeys(c)
    requires forall i :: 0 <= i < |c| ==> LookupTable(hash, t, c[i].key).None?
    ensures GoodTable(hash, PushAll(hash, c, t)) && PushAll(hash, c, t).used == t.used + |c|
    ensures forall k :: LookupTable(hash, PushAll(hash, c, t), k) ==
                        if LookupChain(c, k).Some? then LookupChain(c, k) else LookupTable(hash, t, k)
    decreases |c|
  {
    if c != [] {
      PushPushes(hash, t, c[0]);
      assert forall i :: 0 <= i < |c[1..]| ==> c[1..][i] == c[i + 1];
      PushAllPushes(hash, c[1..], Push(hash, t, c[0]));
      LookupChainFinds(c[1..], c[0].key);
    }
  }

  // ---------- Sizes ----------

  lemma {:induction false} DoubleUntilPow2(j: nat, size: nat)
    ensures exists k: nat :: DoubleUntil(Pow2(j), size) == Pow2(k)
    ensures DoubleUntil(Pow2(j), size) >= Pow2(j)
    ensures DoubleUntil(Pow2(j), size) > Pow2(j) ==> DoubleUntil(Pow2(j), size) < 2 * size
    decreases if Pow2(j) >= size then 0 else size - Pow2(j)
  {
    if Pow2(j) < size {
      assert Pow2(j + 1) == 2 * Pow2(j);
      DoubleUntilPow2(j + 1, size);
    }
  }

  /** _dictNextPower returns the least power of two that is at least `size` and at least 4. */
  lemma NextPowerIsLeast(size: nat)
    ensures NextPower(size) >= size && NextPower(size) >= 4
    ensures exists k: nat :: NextPower(size) == Pow2(k)
    ensures NextPower(size) == 4 || NextPower(size) < 2 * size
  {
    assert Pow2(2) == INITIAL_SIZE by { assert Pow2(0) == 1; assert Pow2(1) == 2; }
    DoubleUntilPow2(2, size);
  }

  lemma {:induction false} EmptyBucketsAreGood<K(!new), V>(hash: K -> nat, n: nat)
    ensures var t: Table<K, V> := Table(seq(n, _ => []), 0);
      GoodTable(hash, t) && forall k :: LookupTable(hash, t, k).None?
  {
    TotalZero<K, V>(seq(n, _ => []));
  }

  // ---------- The operations ----------

  /** What an operation keeps when it changes no key and no value. */
  ghost predicate SameView<K(!new), V>(hash: K -> nat, d: Dict<K, V>, d': Dict<K, V>) {
    && WF(hash, d')
    && d'.iterators == d.iterators && d'.canResize == d.canResize
    && Size(d') == Size(d)
    && forall k :: Lookup(hash, d', k) == Lookup(hash, d, k)
  }

  /** While entries are left in the old table, the skip loop of dictRehash stops inside it. */
  lemma SkipLoopStops<K(!new), V>(hash: K -> nat, d: Dict<K, V>)
    requires WF(hash, d) && IsRehashing(d) && d.ht0.used != 0
    ensures d.rehashidx < |d.ht0.buckets|
    ensures FirstNonEmpty(d.ht0.buckets, d.rehashidx) < |d.ht0.buckets|
  {
    TotalZero(d.ht0.buckets);
    var b :| 0 <= b < |d.ht0.buckets| && d.ht0.buckets[b] != [];
    assert d.rehashidx <= b && b >= FirstNonEmpty(d.ht0.buckets, d.rehashidx);
  }

  lemma EmptyHasNoKeys<K(!new), V>(hash: K -> nat, t: Table<K, V>)
    requires GoodTable(hash, t) && t.used == 0
    ensures forall k :: LookupTable(hash, t, k).None?
  {
    TotalZero(t.buckets);
  }

  lemma RehashOneKeeps<K(!new), V>(hash: K -> nat, d: Dict<K, V>)
    requires WF(hash, d) && IsRehashing(d)
    ensures SameView(hash, d, RehashOne(hash, d))
  {
    var d' := RehashOne(hash, d);
    if d.ht0.used == 0 {
      EmptyHasNoKeys(hash, d.ht0);
    } else {
      SkipLoopStops(hash, d);
      var i := FirstNonEmpty(d.ht0.buckets, d.rehashidx);
      var c := d.ht0.buckets[i];
      assert GoodChain(hash, |d.ht0.buckets|, i, c);
      ClearClears(hash, d.ht0, i);
      forall j | 0 <= j < |c|
        ensures LookupTable(hash, d.ht1, c[j].key).None?
      {
        LookupChainFinds(c, c[j].key);
        assert LookupTable(hash, d.ht0, c[j].key) == LookupChain(c, c[j].key);
      }
      PushAllPushes(hash, c, d.ht1);
      forall k
        ensures LookupChain(c, k).Some? ==> LookupTable(hash, d.ht0, k) == LookupChain(c, k)
      {
        LookupChainFinds(c, k);
      }
    }
  }

  lemma StepKeeps<K(!new), V>(hash: K -> nat, d: Dict<K, V>)
    requires WF(hash, d)
    ensures SameView(hash, d, Step(hash, d))
  {
    if IsRehashing(d) && d.iterators == 0 { RehashOneKeeps(hash, d); }
  }

  /** Any number of rehash turns keeps the invariant and changes no key and no value. */
  lemma {:induction false} RehashKeeps<K(!new), V>(hash: K -> nat, d: Dict<K, V>, n: nat)
    requires WF(hash, d)
    ensures SameView(hash, d, Rehash(hash, d, n).0)
    ensures Rehash(hash, d, n).1 <==> IsRehashing(Rehash(hash, d, n).0)
    decreases n
  {
    if IsRehashing(d) && n > 0 {
      RehashOneKeeps(hash, d);
      RehashKeeps(hash, RehashOne(hash, d), n - 1);
    }
  }

  /** dictExpand keeps every entry; it is refused exactly during a rehash or when the entries exceed the size. */
  lemma ExpandKeeps<K(!new), V>(hash: K -> nat, d: Dict<K, V>, size: nat)
    requires WF(hash, d)
    ensures SameView(hash, d, Expand(d, size).0)
    ensures Expand(d, size).1 <==> !IsRehashing(d) && Size(d) <= size
    ensures Expand(d, size).1 ==> |Expand(d, size).0.ht0.buckets| > 0
  {
    NextPowerIsLeast(size);
    EmptyBucketsAreGood<K, V>(hash, NextPower(size));
    if d.ht0.buckets == [] { EmptyHasNoKeys(hash, d.ht0); }
  }

  lemma ExpandIfNeededKeeps<K(!new), V>(hash: K -> nat, d: Dict<K, V>)
    requires WF(hash, d)
    ensures SameView(hash, d, ExpandIfNeeded(d).0) && ExpandIfNeeded(d).1
    ensures |ExpandIfNeeded(d).0.ht0.buckets| > 0
  {
    if !IsRehashing(d) {
      if d.ht0.buckets == [] {
        ExpandKeeps(hash, d, INITIAL_SIZE);
      } else if d.ht0.used >= |d.ht0.buckets| {
        ExpandKeeps(hash, d, d.ht0.used * 2);
      }
    }
  }

  /**
    What the automatic expansion makes of the sizes: four buckets at first; from one entry for each
    bucket on, or from six when resizing is switched off, at least twice and less than four times as
    many buckets as entries, in a new table to which the rehash starts; and nothing in any other case.
   */
  lemma ExpandIfNeededSizes<K(!new), V>(hash: K -> nat, d: Dict<K, V>)
    requires WF(hash, d) && !IsRehashing(d)
    ensures var d', n, used := ExpandIfNeeded(d).0, |d.ht0.buckets|, d.ht0.used;
      if n == 0 then |d'.ht0.buckets| == 4 && !IsRehashing(d')
      else if used >= n && (d.canResize || used >= 6 * n) then
        && d'.rehashidx == 0 && d'.ht0 == d.ht0 && d'.ht1.used == 0
        && 2 * used <= |d'.ht1.buckets| < 4 * used && (used == n ==> |d'.ht1.buckets| == 2 * n)
      else d' == d
  {
    var n, used := |d.ht0.buckets|, d.ht0.used;
    if n == 0 {
      assert NextPower(4) == 4;
    } else {
      RatioIs(used, n);
      if used >= n {
        NextPowerIsLeast(2 * used);
        if used == n {
          var k: nat :| n == Pow2(k);
          NextPowerOfPower(k + 1);
        }
      }
    }
  }

  lemma RatioIs(used: int, n: nat)
    requires n > 0 && used >= 0
    ensures used / n > 5 <==> used >= 6 * n
  {
    var q := used / n;
    assert used == q * n + used % n;
    if q > 5 { assert q * n >= 6 * n; } else { assert q * n <= 5 * n; }
  }

  lemma NextPowerOfPower(k: nat)
    requires Pow2(k) >= 4
    ensures NextPower(Pow2(k)) == Pow2(k)
  {
    assert Pow2(0) == 1 && Pow2(1) == 2 && Pow2(2) == 4;
    DoublesTo(2, k);
  }

  lemma {:induction false} DoublesTo(j: nat, k: nat)
    requires j <= k
    ensures DoubleUntil(Pow2(j), Pow2(k)) == Pow2(k)
    decreases k - j
  {
    if j < k {
      PowersGrow(j, k);
      DoublesTo(j + 1, k);
    }
  }

  lemma {:induction false} PowersGrow(j: nat, k: nat)
    requires j < k
    ensures Pow2(j) < Pow2(k)
  {
    if j + 1 < k { PowersGrow(j, k - 1); }
  }

  lemma FindFinds<K(!new), V>(hash: K -> nat, d: Dict<K, V>, k: K)
    requires WF(hash, d)
    ensures SameView(hash, d, Find(hash, d, k).0)
    ensures Find(hash, d, k).1 == Lookup(hash, d, k)
  {
    if d.ht0.buckets != [] { StepKeeps(hash, d); }
  }

  /** What an operation does when it changes the answer for one key. */
  ghost predicate Updates<K(!new), V>(hash: K -> nat, d: Dict<K, V>, d': Dict<K, V>, k: K, r: Option<V>) {
    && WF(hash, d')
    && d'.iterators == d.iterators && d'.canResize == d.canResize
    && Size(d') == Size(d) + (if r.Some? then 1 else 0) - (if Lookup(hash, d, k).Some? then 1 else 0)
    && forall k' :: Lookup(hash, d', k') == if k' == k then r else Lookup(hash, d, k')
  }

  lemma InsertInserts<K(!new), V>(hash: K -> nat, d: Dict<K, V>, k: K, v: V)
    requires WF(hash, d) && d.ht0.buckets != [] && Lookup(hash, d, k).None?
    ensures Updates(hash, d, Insert(hash, d, k, v), k, Some(v))
  {
    PushPushes(hash, if IsRehashing(d) then d.ht1 else d.ht0, Entry(k, v));
  }

  lemma StoreStores<K(!new), V>(hash: K -> nat, d: Dict<K, V>, k: K, v: V)
    requires WF(hash, d) && Lookup(hash, d, k).Some?
    ensures Updates(hash, d, Store(hash, d, k, v), k, Some(v))
  {
    SetSets(hash, if LookupTable(hash, d.ht0, k).Some? then d.ht0 else d.ht1, k, v);
  }

  lemma RemoveDrops<K(!new), V>(hash: K -> nat, d: Dict<K, V>, k: K)
    requires WF(hash, d) && Lookup(hash, d, k).Some?
    ensures Updates(hash, d, Remove(hash, d, k), k, None)
  {
    RemoveRemoves(hash, if LookupTable(hash, d.ht0, k).Some? then d.ht0 else d.ht1, k);
  }

  lemma AddAdds<K(!new), V>(hash: K -> nat, d: Dict<K, V>, k: K, v: V)
    requires WF(hash, d)
    ensures var (d', added) := Add(hash, d, k, v);
            && added == Lookup(hash, d, k).None?
            && if added then Updates(hash, d, d', k, Some(v)) else SameView(hash, d, d')
  {
    StepKeeps(hash, d);
    ExpandIfNeededKeeps(hash, Step(hash, d));
    var d1 := ExpandIfNeeded(Step(hash, d)).0;
    assert Lookup(hash, d1, k) == Lookup(hash, Step(hash, d), k) == Lookup(hash, d, k);
    if Lookup(hash, d1, k).None? { InsertInserts(hash, d1, k, v); }
  }

  lemma ReplaceReplaces<K(!new), V>(hash: K -> nat, d: Dict<K, V>, k: K, v: V)
    requires WF(hash, d)
    ensures var (d', isNew) := Replace(hash, d, k, v);
            isNew == Lookup(hash, d, k).None? && Updates(hash, d, d', k, Some(v))
  {
    AddAdds(hash, d, k, v);
    var (d1, added) := Add(hash, d, k, v);
    if !added {
      FindFinds(hash, d1, k);
      var d2 := Find(hash, d1, k).0;
      assert Lookup(hash, d2, k) == Lookup(hash, d1, k) == Lookup(hash, d, k);
      StoreStores(hash, d2, k, v);
    }
  }

  lemma DeleteDeletes<K(!new), V>(hash: K -> nat, d: Dict<K, V>, k: K)
    requires WF(hash, d)
    ensures var (d', deleted) := Delete(hash, d, k);
            deleted == Lookup(hash, d, k).Some? && Updates(hash, d, d', k, None)
  {
    if d.ht0.buckets != [] {
      StepKeeps(hash, d);
      var d1 := Step(hash, d);
      assert Lookup(hash, d1, k) == Lookup(hash, d, k);
      if Lookup(hash, d1, k).Some? { RemoveDrops(hash, d1, k); }
    }
  }

  // ---------- The abstract map ----------

  ghost predicate InSome<K, V>(bs: seq<Chain<K, V>>, e: Entry<K, V>) {
    exists b :: 0 <= b < |bs| && e in bs[b]
  }

  lemma {:induction false} FlattenHasAll<K, V>(bs: seq<Chain<K, V>>)
    ensures |Flatten(bs)| == Total(bs)
    ensures forall e :: e in Flatten(bs) <==> InSome(bs, e)
  {
    if bs != [] {
      FlattenHasAll(bs[1..]);
      forall e
        ensures InSome(bs, e) <==> e in bs[0] || InSome(bs[1..], e)
      {
        if b :| 0 < b < |bs| && e in bs[b] { assert e in bs[1..][b - 1]; }
        if b :| 0 <= b < |bs[1..]| && e in bs[1..][b] { assert e in bs[b + 1]; }
      }
    }
  }

  lemma {:induction false} FlattenDistinct<K, V>(hash: K -> nat, size: nat, bs: seq<Chain<K, V>>, from: nat)
    requires size > 0
    requires forall b :: 0 <= b < |bs| ==> GoodChain(hash, size, b + from, bs[b])
    ensures DistinctKeys(Flatten(bs))
  {
    if bs != [] {
      FlattenDistinct(hash, size, bs[1..], from + 1);
      FlattenHasAll(bs[1..]);
      var rest := Flatten(bs[1..]);
      forall i, j | 0 <= i < |bs[0]| && 0 <= j < |rest|
        ensures bs[0][i].key != rest[j].key
      {
        var e := rest[j];
        assert e in Flatten(bs[1..]) && InSome(bs[1..], e);
        var b :| 0 <= b < |bs[1..]| && e in bs[1..][b];
        assert GoodChain(hash, size, b + 1 + from, bs[b + 1]);
        assert GoodChain(hash, size, from, bs[0]);
      }
    }
  }

  lemma {:induction false} DistinctCount<K, V>(c: Chain<K, V>)
    requires DistinctKeys(c)
    ensures |set e | e in c :: e.key| == |c|
  {
    if c != [] {
      DistinctCount(c[1..]);
      assert (set e | e in c :: e.key) == {c[0].key} + (set e | e in c[1..] :: e.key);
    }
  }

  lemma KeysAreLookups<K(!new), V>(hash: K -> nat, t: Table<K, V>)
    requires GoodTable(hash, t)
    ensures forall k :: k in Keys(t) <==> LookupTable(hash, t, k).Some?
    ensures |Keys(t)| == t.used
  {
    FlattenHasAll(t.buckets);
    if t.buckets != [] {
      FlattenDistinct(hash, |t.buckets|, t.buckets, 0);
    }
    DistinctCount(Flatten(t.buckets));
    forall k
      ensures k in Keys(t) <==> LookupTable(hash, t, k).Some?
    {
      if k in Keys(t) {
        var e :| e in Flatten(t.buckets) && e.key == k;
        var b :| 0 <= b < |t.buckets| && e in t.buckets[b];
        assert GoodChain(hash, |t.buckets|, b, t.buckets[b]);
        LookupChainFinds(t.buckets[b], k);
      }
      if LookupTable(hash, t, k).Some? {
        LookupChainFinds(t.buckets[Index(hash, |t.buckets|, k)], k);
      }
    }
  }

  /** `View` answers every lookup, and the two `used` counters add up to its size. */
  lemma ViewIsLookup<K(!new), V>(hash: K -> nat, d: Dict<K, V>)
    requires WF(hash, d)
    ensures forall k :: Lookup(hash, d, k) == Get(View(hash, d), k)
    ensures |View(hash, d)| == Size(d)
  {
    KeysAreLookups(hash, d.ht0);
    KeysAreLookups(hash, d.ht1);
    assert View(hash, d).Keys == Keys(d.ht0) + Keys(d.ht1);
    assert Keys(d.ht0) !! Keys(d.ht1);
    assert |View(hash, d).Keys| == Size(d);
  }

  function Get<K(==), V>(m: map<K, V>, k: K): Option<V> { if k in m then Some(m[k]) else None }

  lemma RepresentsView<K(!new), V>(hash: K -> nat, d: Dict<K, V>, m: map<K, V>)
    requires WF(hash, d) && forall k :: Lookup(hash, d, k) == Get(m, k)
    ensures View(hash, d) == m
  {
    ViewIsLookup(hash, d);
    forall k
      ensures k in m <==> k in View(hash, d)
      ensures k in m ==> m[k] == View(hash, d)[k]
    {
      assert Get(m, k) == Get(View(hash, d), k);
    }
  }

  // ---------- Runs ----------

  datatype Op<K, V> =
    | AddOp(k: K, v: V)
    | FindOp(k: K)
    | ReplaceOp(k: K, v: V)
    | DeleteOp(k: K)
    | RehashOp(n: nat)
    | ExpandOp(size: nat)
    | PinOp
    | UnpinOp
    | ResizeOp(enabled: bool)

  datatype Answer<V> = Flag(b: bool) | Found(r: Option<V>) | Silent

  function Apply<K(==), V>(hash: K -> nat, d: Dict<K, V>, op: Op<K, V>): (Dict<K, V>, Answer<V>) {
    match op
    case AddOp(k, v) => var (d', b) := Add(hash, d, k, v); (d', Flag(b))
    case FindOp(k) => var (d', r) := Find(hash, d, k); (d', Found(r))
    case ReplaceOp(k, v) => var (d', b) := Replace(hash, d, k, v); (d', Flag(b))
    case DeleteOp(k) => var (d', b) := Delete(hash, d, k); (d', Flag(b))
    case RehashOp(n) => (Rehash(hash, d, n).0, Silent)
    case ExpandOp(size) => (Expand(d, size).0, Silent)
    case PinOp => (d.(iterators := d.iterators + 1), Silent)
    case UnpinOp => (if d.iterators == 0 then d else d.(iterators := d.iterators - 1), Silent)
    case ResizeOp(enabled) => (d.(canResize := enabled), Silent)
  }

  /** The same operation on a map. */
  function ApplyMap<K(==), V>(m: map<K, V>, op: Op<K, V>): (map<K, V>, Answer<V>) {
    match op
    case AddOp(k, v) => (if k in m then m else m[k := v], Flag(k !in m))
    case FindOp(k) => (m, Found(if k in m then Some(m[k]) else None))
    case ReplaceOp(k, v) => (m[k := v], Flag(k !in m))
    case DeleteOp(k) => (m - {k}, Flag(k in m))
    case _ => (m, Silent)
  }

  function Run<K(==), V>(hash: K -> nat, d: Dict<K, V>, ops: seq<Op<K, V>>): (Dict<K, V>, seq<Answer<V>>)
    decreases |ops|
  {
    if ops == [] then (d, [])
    else
      var (d1, a) := Apply(hash, d, ops[0]);
      var (d2, rest) := Run(hash, d1, ops[1..]);
      (d2, [a] + rest)
  }

  function RunMap<K(==), V>(m: map<K, V>, ops: seq<Op<K, V>>): (map<K, V>, seq<Answer<V>>)
    decreases |ops|
  {
    if ops == [] then (m, [])
    else
      var (m1, a) := ApplyMap(m, ops[0]);
      var (m2, rest) := RunMap(m1, ops[1..]);
      (m2, [a] + rest)
  }

  /** What an operation answers, and what can be looked up after it. */
  lemma ApplyLookups<K(!new), V>(hash: K -> nat, d: Dict<K, V>, op: Op<K, V>, m: map<K, V>)
    requires WF(hash, d) && forall k :: Lookup(hash, d, k) == Get(m, k)
    ensures WF(hash, Apply(hash, d, op).0) && Apply(hash, d, op).1 == ApplyMap(m, op).1
    ensures forall k :: Lookup(hash, Apply(hash, d, op).0, k) == Get(ApplyMap(m, op).0, k)
  {
    hide WF, Add, Replace, Delete, Find, Rehash, Expand, Lookup;
    match op {
      case AddOp(k, v) => AddAdds(hash, d, k, v);
      case FindOp(k) => FindFinds(hash, d, k);
      case ReplaceOp(k, v) => ReplaceReplaces(hash, d, k, v);
      case DeleteOp(k) => DeleteDeletes(hash, d, k);
      case RehashOp(n) => RehashKeeps(hash, d, n);
      case ExpandOp(size) => ExpandKeeps(hash, d, size);
      case PinOp => SettingsKeep(hash, d, d.iterators + 1, d.canResize);
      case UnpinOp => if d.iterators > 0 { SettingsKeep(hash, d, d.iterators - 1, d.canResize); }
      case ResizeOp(enabled) => SettingsKeep(hash, d, d.iterators, enabled);
    }
  }

  lemma SettingsKeep<K(!new), V>(hash: K -> nat, d: Dict<K, V>, iterators: nat, canResize: bool)
    requires WF(hash, d)
    ensures var d' := d.(iterators := iterators, canResize := canResize);
      WF(hash, d') && forall k :: Lookup(hash, d', k) == Lookup(hash, d, k)
  {
  }

  /** Every operation answers like the map, and moves to a dictionary that stands for the new map. */
  lemma ApplyRefinesMap<K(!new), V>(hash: K -> nat, d: Dict<K, V>, op: Op<K, V>)
    requires WF(hash, d)
    ensures WF(hash, Apply(hash, d, op).0)
    ensures View(hash, Apply(hash, d, op).0) == ApplyMap(View(hash, d), op).0
    ensures Apply(hash, d, op).1 == ApplyMap(View(hash, d), op).1
  {
    ViewIsLookup(hash, d);
    ApplyLookups(hash, d, op, View(hash, d));
    RepresentsView(hash, Apply(hash, d, op).0, ApplyMap(View(hash, d), op).0);
  }

  /** Every run of operations, rehash steps included, answers exactly like the same run on a map. */
  lemma {:induction false} RunRefinesMap<K(!new), V>(hash: K -> nat, d: Dict<K, V>, ops: seq<Op<K, V>>)
    requires WF(hash, d)
    ensures WF(hash, Run(hash, d, ops).0)
    ensures View(hash, Run(hash, d, ops).0) == RunMap(View(hash, d), ops).0
    ensures Run(hash, d, ops).1 == RunMap(View(hash, d), ops).1
    decreases |ops|
  {
    if ops != [] {
      ApplyRefinesMap(hash, d, ops[0]);
      RunRefinesMap(hash, Apply(hash, d, ops[0]).0, ops[1..]);
    }
  }

  lemma EmptyIsWF<K(!new), V>(hash: K -> nat, canResize: bool)
    ensures WF(hash, EmptyDict<K, V>(canResize)) && View(hash, EmptyDict<K, V>(canResize)) == map[]
  {
    assert forall k :: k !in View(hash, EmptyDict<K, V>(canResize));
  }
}
