/**
  Safe iterators of dict.c.  While one runs the tables are pinned: no lookup, insertion or
  deletion takes a rehash step, and each entry present at the start is returned exactly once.
 */
module DictIterator {
  import opened Options
  import opened DictModel
  import opened DictRefinement

  /** A `dictIterator` with `safe` set; entries are named by their keys. */
  datatype Iter<K> = Iter(table: int, index: int, entry: Option<K>, nextEntry: Option<K>)

  function Start<K>(): Iter<K> { Iter(0, -1, None, None) }

  function Buckets<K, V>(d: Dict<K, V>, table: int): seq<Chain<K, V>> {
    if table == 0 then d.ht0.buckets else d.ht1.buckets
  }

  /** The entry after the one with key `k`. */
  function After<K(==), V>(c: Chain<K, V>, k: K): Option<K> {
    var s := Suffix(c, k);
    if |s| < 2 then None else Some(s[1].key)
  }

  /** The chain from the entry with key `k` on. */
  function Suffix<K(==), V>(c: Chain<K, V>, k: K): Chain<K, V> {
    if c == [] || c[0].key == k then c else Suffix(c[1..], k)
  }

  /** Bucket (`table`, `index`) comes next. */
  function Enter<K(==), V>(d: Dict<K, V>, table: int, index: int): (r: (Dict<K, V>, Iter<K>, Option<Entry<K, V>>))
    requires 0 <= index <= |Buckets(d, table)|
    ensures r.1.index >= 0
    decreases 2, if table == 0 then |d.ht0.buckets| - index + |d.ht1.buckets| + 1 else |d.ht1.buckets| - index
  {
    var bs := Buckets(d, table);
    if index == |bs| then
      if IsRehashing(d) && table == 0 then Enter(d, 1, 0)
      else (d, Iter(table, index, None, None), None)
    else if bs[index] == [] then Enter(d, table, index + 1)
    else (d, Iter(table, index, Some(bs[index][0].key), After(bs[index], bs[index][0].key)), Some(bs[index][0]))
  }

  /** With no entry at hand, bucket (`table`, `index`) is behind. */
  function Onward<K(==), V>(d: Dict<K, V>, table: int, index: int): (r: (Dict<K, V>, Iter<K>, Option<Entry<K, V>>))
    requires -1 <= index
    ensures r.1.index >= 0
  {
    if index + 1 <= |Buckets(d, table)| then Enter(d, table, index + 1)
    else if IsRehashing(d) && table == 0 then Enter(d, 1, 0)
    else (d, Iter(table, index + 1, None, None), None)
  }

  /** dictNext. */
  function Next<K(==), V>(d: Dict<K, V>, it: Iter<K>): (r: (Dict<K, V>, Iter<K>, Option<Entry<K, V>>))
    requires -1 <= it.index
    ensures r.1.index >= 0
  {
    var bs := Buckets(d, it.table);
    if it.entry.Some? && it.nextEntry.Some? && it.index < |bs| && it.index >= 0 && Suffix(bs[it.index], it.nextEntry.value) != [] then
      var s := Suffix(bs[it.index], it.nextEntry.value);
      (d, Iter(it.table, it.index, it.nextEntry, After(bs[it.index], it.nextEntry.value)), Some(s[0]))
    else
      Onward(if it.index == -1 && it.table == 0 then d.(iterators := d.iterators + 1) else d, it.table, it.index)
  }

  lemma OnwardStep<K, V>(d: Dict<K, V>, table: int, index: int)
    requires -1 <= index
    ensures var bs := Buckets(d, table);
            && (index + 1 < |bs| && bs[index + 1] == [] ==> Onward(d, table, index) == Onward(d, table, index + 1))
            && (index + 1 < |bs| && bs[index + 1] != [] ==> Onward(d, table, index) == Enter(d, table, index + 1))
            && (index + 1 >= |bs| && IsRehashing(d) && table == 0 ==> Onward(d, table, index) == Onward(d, 1, -1))
            && (index + 1 >= |bs| && !(IsRehashing(d) && table == 0) ==>
                  Onward(d, table, index) == (d, Iter(table, index + 1, None, None), None))
  {
  }

  // ---------- What is left to return ----------

  function Drop<T>(s: seq<T>, n: int): seq<T>
    requires n >= 0
  {
    if n <= |s| then s[n..] else []
  }

  /** The entries of the buckets after bucket (`table`, `index`). */
  function Later<K, V>(d: Dict<K, V>, table: int, index: int): Chain<K, V>
    requires index >= -1
  {
    Flatten(Drop(Buckets(d, table), index + 1)) +
    if table == 0 && IsRehashing(d) then Flatten(d.ht1.buckets) else []
  }

  /** The rest of the chain that the iterator is in. */
  function Current<K(==), V>(d: Dict<K, V>, it: Iter<K>): Chain<K, V> {
    if it.entry.Some? && it.nextEntry.Some? && 0 <= it.index < |Buckets(d, it.table)| then
      Suffix(Buckets(d, it.table)[it.index], it.nextEntry.value)
    else []
  }

  /** All entries that dictNext will still return if nothing else happens. */
  function Pending<K(==), V>(d: Dict<K, V>, it: Iter<K>): Chain<K, V>
    requires it.index >= -1
  {
    Current(d, it) + Later(d, it.table, it.index)
  }

  /** An iterator that has been started, and whose saved next entry is in its place. */
  ghost predicate Running<K(!new), V>(hash: K -> nat, d: Dict<K, V>, it: Iter<K>) {
    && WF(hash, d) && d.iterators > 0
    && it.index >= 0 && (it.table == 0 || (it.table == 1 && IsRehashing(d)))
    && (it.entry.Some? ==> it.index < |Buckets(d, it.table)|)
    && (it.entry.Some? && it.nextEntry.Some? ==>
          HasKey(Buckets(d, it.table)[it.index], it.nextEntry.value) && it.nextEntry != it.entry)
  }

  lemma {:induction false} SuffixKeys<K, V>(c: Chain<K, V>, k: K)
    requires DistinctKeys(c) && HasKey(c, k)
    ensures var s := Suffix(c, k);
      && s != [] && s[0].key == k && DistinctKeys(s)
      && (forall k' :: HasKey(s, k') ==> HasKey(c, k'))
      && (|s| > 1 ==> HasKey(c, s[1].key) && Suffix(c, s[1].key) == s[1..] && s[1].key != k)
  {
    if c[0].key != k {
      var i :| 0 <= i < |c| && c[i].key == k;
      assert c[1..][i - 1].key == k;
      SuffixKeys(c[1..], k);
      var s := Suffix(c, k);
      forall k' | HasKey(s, k')
        ensures HasKey(c, k')
      {
        assert HasKey(c[1..], k');
        var j :| 0 <= j < |c[1..]| && c[1..][j].key == k';
        assert c[j + 1].key == k';
      }
      if |s| > 1 {
        var j :| 0 <= j < |c[1..]| && c[1..][j].key == s[1].key;
        assert c[0].key != c[j + 1].key;
      }
    } else if |c| > 1 {
      assert Suffix(c, c[1].key) == Suffix(c[1..], c[1].key);
    }
  }

  lemma LaterUnfold<K, V>(d: Dict<K, V>, table: int, index: int)
    requires index >= 0
    ensures index < |Buckets(d, table)| ==>
              Later(d, table, index - 1) == Buckets(d, table)[index] + Later(d, table, index)
    ensures index >= |Buckets(d, table)| ==>
              Later(d, table, index - 1) == if table == 0 && IsRehashing(d) then Later(d, 1, -1) else []
  {
    var bs := Buckets(d, table);
    if index < |bs| {
      assert Drop(bs, index) == [bs[index]] + Drop(bs, index + 1);
      assert Flatten(Drop(bs, index)) == bs[index] + Flatten(Drop(bs, index + 1));
    } else {
      assert Drop(bs, index) == [];
      assert Drop(d.ht1.buckets, 0) == d.ht1.buckets;
    }
  }

  /** The entry after one in a chain, and what follows it. */
  lemma AfterIs<K, V>(c: Chain<K, V>, k: K)
    requires DistinctKeys(c) && HasKey(c, k)
    ensures var s := Suffix(c, k); var next := After(c, k);
      && s != [] && s[0].key == k
      && (if next.None? then s == [s[0]]
          else next != Some(k) && HasKey(c, next.value) && s == [s[0]] + Suffix(c, next.value))
  {
    SuffixKeys(c, k);
    var s := Suffix(c, k);
    assert s == [s[0]] + s[1..];
    if |s| == 1 { assert s[1..] == []; }
  }

  /** At an entry, what is pending is the rest of its chain and all later buckets. */
  lemma AtEntry<K(!new), V>(hash: K -> nat, d: Dict<K, V>, table: int, index: int, k: K)
    requires WF(hash, d) && d.iterators > 0
    requires (table == 0 || (table == 1 && IsRehashing(d))) && 0 <= index < |Buckets(d, table)|
    requires HasKey(Buckets(d, table)[index], k)
    ensures var c := Buckets(d, table)[index]; var it := Iter(table, index, Some(k), After(c, k));
      && Running(hash, d, it)
      && Suffix(c, k) != [] && Suffix(c, k)[0].key == k
      && [Suffix(c, k)[0]] + Pending(d, it) == Suffix(c, k) + Later(d, table, index)
  {
    var c := Buckets(d, table)[index];
    assert DistinctKeys(c) by { assert GoodChain(hash, |Buckets(d, table)|, index, c); }
    AfterIs(c, k);
    PendingAt(d, table, index, k);
    hide WF, Flatten, Suffix, After, Pending, Later, DistinctKeys;
  }

  lemma PendingAt<K, V>(d: Dict<K, V>, table: int, index: int, k: K)
    requires 0 <= index < |Buckets(d, table)|
    requires DistinctKeys(Buckets(d, table)[index]) && HasKey(Buckets(d, table)[index], k)
    ensures var c := Buckets(d, table)[index]; var it := Iter(table, index, Some(k), After(c, k));
      Suffix(c, k) != [] && [Suffix(c, k)[0]] + Pending(d, it) == Suffix(c, k) + Later(d, table, index)
  {
    var c := Buckets(d, table)[index];
    AfterIs(c, k);
    var next, later := After(c, k), Later(d, table, index);
    var it := Iter(table, index, Some(k), next);
    var rest := if next.None? then [] else Suffix(c, next.value);
    hide Suffix, After, Later, DistinctKeys, HasKey;
    assert Current(d, it) == rest;
    Regroup(Suffix(c, k)[0], rest, later);
  }

  lemma Regroup<T>(x: T, s: seq<T>, t: seq<T>)
    ensures [x] + (s + t) == [x] + s + t && [x] + [] == [x]
  {
  }

  /** What a call of dictNext has to do: return the first pending entry, and leave the others pending. */
  ghost predicate Returns<K(!new), V>(hash: K -> nat, pending: Chain<K, V>,
      res: (Dict<K, V>, Iter<K>, Option<Entry<K, V>>)) {
    && Running(hash, res.0, res.1)
    && (if res.2.Some? then pending == [res.2.value] + Pending(res.0, res.1) && res.1.entry == Some(res.2.value.key)
        else pending == [] == Pending(res.0, res.1) && res.1.entry == None)
  }

  lemma EnterAtEnd<K(!new), V>(hash: K -> nat, d: Dict<K, V>, table: int)
    requires WF(hash, d) && d.iterators > 0
    requires (table == 0 || (table == 1 && IsRehashing(d))) && !(IsRehashing(d) && table == 0)
    ensures var n := |Buckets(d, table)|;
      Enter(d, table, n).0 == d && Returns(hash, Later(d, table, n - 1), Enter(d, table, n))
  {
    hide WF, Flatten;
    var n := |Buckets(d, table)|;
    LaterUnfold(d, table, n);
    LaterUnfold(d, table, n + 1);
  }

  lemma EnterAtEntry<K(!new), V>(hash: K -> nat, d: Dict<K, V>, table: int, index: int)
    requires WF(hash, d) && d.iterators > 0
    requires (table == 0 || (table == 1 && IsRehashing(d))) && 0 <= index < |Buckets(d, table)|
    requires Buckets(d, table)[index] != []
    ensures Enter(d, table, index).0 == d
    ensures Returns(hash, Later(d, table, index - 1), Enter(d, table, index))
  {
    hide WF, Flatten;
    LaterUnfold(d, table, index);
    var c: Chain<K, V> := Buckets(d, table)[index];
    assert Suffix(c, c[0].key) == c;
    AtEntry(hash, d, table, index, c[0].key);
  }

  lemma {:induction false} EnterReturns<K(!new), V>(hash: K -> nat, d: Dict<K, V>, table: int, index: int)
    requires WF(hash, d) && d.iterators > 0
    requires (table == 0 || (table == 1 && IsRehashing(d))) && 0 <= index <= |Buckets(d, table)|
    ensures Enter(d, table, index).0 == d
    ensures Returns(hash, Later(d, table, index - 1), Enter(d, table, index))
    decreases if table == 0 then |d.ht0.buckets| - index + |d.ht1.buckets| + 1 else |d.ht1.buckets| - index
  {
    hide WF, Flatten, Returns, Later;
    var bs := Buckets(d, table);
    if index == |bs| && !(IsRehashing(d) && table == 0) {
      EnterAtEnd(hash, d, table);
    } else if index < |bs| && bs[index] != [] {
      EnterAtEntry(hash, d, table, index);
    } else {
      LaterUnfold(d, table, index);
      if index == |bs| {
        EnterReturns(hash, d, 1, 0);
      } else {
        assert bs[index] + Later(d, table, index) == Later(d, table, index);
        EnterReturns(hash, d, table, index + 1);
      }
    }
  }

  lemma RunningIsWF<K(!new), V>(hash: K -> nat, d: Dict<K, V>, it: Iter<K>)
    requires Running(hash, d, it)
    ensures WF(hash, d)
  {
  }

  lemma NextInChain<K(!new), V>(hash: K -> nat, d: Dict<K, V>, it: Iter<K>)
    requires Running(hash, d, it) && it.entry.Some? && it.nextEntry.Some?
    ensures Next(d, it).0 == d
    ensures Returns(hash, Pending(d, it), Next(d, it))
  {
    AtEntry(hash, d, it.table, it.index, it.nextEntry.value);
  }

  lemma NextBucket<K(!new), V>(hash: K -> nat, d: Dict<K, V>, it: Iter<K>)
    requires WF(hash, d) && d.iterators > 0
    requires it.index >= 0 && (it.table == 0 || (it.table == 1 && IsRehashing(d)))
    requires it.entry.None? || it.nextEntry.None?
    requires it.index + 1 <= |Buckets(d, it.table)|
    ensures Next(d, it).0 == d
    ensures Returns(hash, Pending(d, it), Next(d, it))
  {
    var (t, i) := (it.table, it.index + 1);
    assert Pending(d, it) == Later(d, t, i - 1);
    assert Next(d, it) == Enter(d, t, i);
    EnterReturns(hash, d, t, i);
  }

  lemma NextTable<K(!new), V>(hash: K -> nat, d: Dict<K, V>, it: Iter<K>)
    requires WF(hash, d) && d.iterators > 0
    requires it.index >= |Buckets(d, 0)| && it.table == 0 && IsRehashing(d)
    requires it.entry.None? || it.nextEntry.None?
    ensures Next(d, it).0 == d
    ensures Returns(hash, Pending(d, it), Next(d, it))
  {
    assert Pending(d, it) == Later(d, 0, it.index);
    LaterUnfold(d, 0, it.index + 1);
    EnterReturns(hash, d, 1, 0);
  }

  lemma NextExhausted<K(!new), V>(hash: K -> nat, d: Dict<K, V>, it: Iter<K>)
    requires WF(hash, d) && d.iterators > 0
    requires it.index >= 0 && (it.table == 0 || (it.table == 1 && IsRehashing(d)))
    requires it.entry.None? || it.nextEntry.None?
    requires it.index >= |Buckets(d, it.table)| && !(IsRehashing(d) && it.table == 0)
    ensures Next(d, it).0 == d
    ensures Returns(hash, Pending(d, it), Next(d, it))
  {
    hide WF, Flatten, Suffix;
    assert Pending(d, it) == Later(d, it.table, it.index);
    LaterUnfold(d, it.table, it.index + 1);
    LaterUnfold(d, it.table, it.index + 2);
    var it' := Iter(it.table, it.index + 1, None, None);
    assert Next(d, it) == (d, it', None);
    assert Pending(d, it') == Later(d, it.table, it.index + 1) == [];
  }

  /** The first call of dictNext registers the iterator, and has the whole dictionary before it. */
  lemma NextStarts<K(!new), V>(hash: K -> nat, d: Dict<K, V>)
    requires WF(hash, d)
    ensures Next(d, Start()).0 == d.(iterators := d.iterators + 1)
    ensures Returns(hash, Pending(d, Start()), Next(d, Start()))
  {
    var d1 := d.(iterators := d.iterators + 1);
    assert Pending(d, Start()) == Later(d1, 0, -1);
    EnterReturns(hash, d1, 0, 0);
  }

  /** dictNext returns the first pending entry, and leaves the others pending. */
  lemma NextReturns<K(!new), V>(hash: K -> nat, d: Dict<K, V>, it: Iter<K>)
    requires Running(hash, d, it)
    ensures Next(d, it).0 == d
    ensures Returns(hash, Pending(d, it), Next(d, it))
  {
    if it.entry.Some? && it.nextEntry.Some? { NextInChain(hash, d, it); }
    else if it.index + 1 <= |Buckets(d, it.table)| { NextBucket(hash, d, it); }
    else if IsRehashing(d) && it.table == 0 { NextTable(hash, d, it); }
    else { NextExhausted(hash, d, it); }
  }

  // ---------- Keys that are pending ----------

  ghost predicate InBuckets<K, V>(bs: seq<Chain<K, V>>, from: int, k: K) {
    exists b :: 0 <= b < |bs| && b >= from && HasKey(bs[b], k)
  }

  lemma {:induction false} FlattenKeys<K, V>(bs: seq<Chain<K, V>>, n: int, k: K)
    requires n >= 0
    ensures HasKey(Flatten(Drop(bs, n)), k) <==> InBuckets(bs, n, k)
    decreases |bs| - n
  {
    if n < |bs| {
      FlattenKeys(bs, n + 1, k);
      assert Drop(bs, n) == [bs[n]] + Drop(bs, n + 1);
      HasKeyAppend(bs[n], Flatten(Drop(bs, n + 1)), k);
    }
  }

  lemma PendingKeys<K, V>(d: Dict<K, V>, it: Iter<K>, k: K)
    requires it.index >= -1
    ensures HasKey(Pending(d, it), k) <==>
            || HasKey(Current(d, it), k)
            || InBuckets(Buckets(d, it.table), it.index + 1, k)
            || (it.table == 0 && IsRehashing(d) && InBuckets(d.ht1.buckets, 0, k))
  {
    HasKeyAppend(Current(d, it), Later(d, it.table, it.index), k);
    FlattenKeys(Buckets(d, it.table), it.index + 1, k);
    FlattenKeys(d.ht1.buckets, 0, k);
    assert Drop(d.ht1.buckets, 0) == d.ht1.buckets;
    HasKeyAppend(Flatten(Drop(Buckets(d, it.table), it.index + 1)),
                 if it.table == 0 && IsRehashing(d) then Flatten(d.ht1.buckets) else [], k);
  }

  lemma ChainKey<K, V>(c: Chain<K, V>, k: K)
    ensures HasKey(c, k) <==> LookupChain(c, k).Some?
  {
    LookupChainFinds(c, k);
  }

  lemma BucketKey<K, V>(hash: K -> nat, t: Table<K, V>, b: int, k: K)
    requires GoodTable(hash, t) && 0 <= b < |t.buckets| && HasKey(t.buckets[b], k)
    ensures Index(hash, |t.buckets|, k) == b && LookupTable(hash, t, k).Some?
  {
    assert GoodChain(hash, |t.buckets|, b, t.buckets[b]);
    ChainKey(t.buckets[b], k);
  }

  lemma DistinctAppend<K, V>(c1: Chain<K, V>, c2: Chain<K, V>)
    requires DistinctKeys(c1) && DistinctKeys(c2)
    requires forall k :: !HasKey(c1, k) || !HasKey(c2, k)
    ensures DistinctKeys(c1 + c2)
  {
    forall i, j | 0 <= i < |c1| && 0 <= j < |c2|
      ensures c1[i].key != c2[j].key
    {
      assert HasKey(c1, c1[i].key) && HasKey(c2, c2[j].key);
    }
  }

  lemma LaterDistinct<K, V>(hash: K -> nat, t: Table<K, V>, n: int)
    requires GoodTable(hash, t) && n >= 0
    ensures DistinctKeys(Flatten(Drop(t.buckets, n)))
    ensures forall k :: HasKey(Flatten(Drop(t.buckets, n)), k) ==>
              t.buckets != [] && LookupTable(hash, t, k).Some? && Index(hash, |t.buckets|, k) >= n
  {
    var bs := Drop(t.buckets, n);
    if bs != [] {
      forall b | 0 <= b < |bs|
        ensures GoodChain(hash, |t.buckets|, b + n, bs[b])
      {
        assert bs[b] == t.buckets[b + n];
      }
      FlattenDistinct(hash, |t.buckets|, bs, n);
    }
    forall k | HasKey(Flatten(bs), k)
      ensures t.buckets != [] && LookupTable(hash, t, k).Some? && Index(hash, |t.buckets|, k) >= n
    {
      FlattenKeys(t.buckets, n, k);
      var b :| 0 <= b < |t.buckets| && b >= n && HasKey(t.buckets[b], k);
      BucketKey(hash, t, b, k);
    }
  }

  lemma CurrentDistinct<K, V>(hash: K -> nat, t: Table<K, V>, b: int, k: K)
    requires GoodTable(hash, t) && 0 <= b < |t.buckets| && HasKey(t.buckets[b], k)
    ensures DistinctKeys(Suffix(t.buckets[b], k))
    ensures forall k' :: HasKey(Suffix(t.buckets[b], k), k') ==>
              LookupTable(hash, t, k').Some? && Index(hash, |t.buckets|, k') == b
  {
    assert GoodChain(hash, |t.buckets|, b, t.buckets[b]);
    SuffixKeys(t.buckets[b], k);
    forall k' | HasKey(Suffix(t.buckets[b], k), k')
      ensures LookupTable(hash, t, k').Some? && Index(hash, |t.buckets|, k') == b
    {
      BucketKey(hash, t, b, k');
    }
  }

  lemma AllLaterDistinct<K(!new), V>(hash: K -> nat, d: Dict<K, V>, table: int, index: int)
    requires WF(hash, d) && index >= -1 && (table == 0 || table == 1)
    ensures DistinctKeys(Later(d, table, index))
    ensures var t := if table == 0 then d.ht0 else d.ht1;
            forall k :: HasKey(Later(d, table, index), k) && LookupTable(hash, t, k).Some? ==>
              t.buckets != [] && Index(hash, |t.buckets|, k) > index
  {
    var t := if table == 0 then d.ht0 else d.ht1;
    var here := Flatten(Drop(t.buckets, index + 1));
    LaterDistinct(hash, t, index + 1);
    if table == 0 && IsRehashing(d) {
      var there := Flatten(d.ht1.buckets);
      LaterDistinct(hash, d.ht1, 0);
      assert Drop(d.ht1.buckets, 0) == d.ht1.buckets;
      DistinctAppend(here, there);
      forall k
        ensures HasKey(here + there, k) <==> HasKey(here, k) || HasKey(there, k)
      {
        HasKeyAppend(here, there, k);
      }
    } else {
      assert Later(d, table, index) == here;
    }
  }

  /** No key is pending twice. */
  lemma PendingDistinct<K(!new), V>(hash: K -> nat, d: Dict<K, V>, it: Iter<K>)
    requires Running(hash, d, it) || (WF(hash, d) && it == Start())
    ensures DistinctKeys(Pending(d, it))
  {
    var t := if it.table == 0 then d.ht0 else d.ht1;
    AllLaterDistinct(hash, d, it.table, it.index);
    if it.entry.Some? && it.nextEntry.Some? {
      CurrentDistinct(hash, t, it.index, it.nextEntry.value);
      DistinctAppend(Current(d, it), Later(d, it.table, it.index));
    } else {
      assert Pending(d, it) == Later(d, it.table, it.index);
    }
  }

  // ---------- Other operations while the iterator runs ----------

  /** Two chains with the same keys in the same places after each key, except possibly for key `x`. */
  ghost predicate SameChain<K(!new), V>(c: Chain<K, V>, c': Chain<K, V>, x: Option<K>) {
    && (forall k :: Some(k) != x ==> (HasKey(c', k) <==> HasKey(c, k)))
    && (forall n, k :: Some(n) != x && Some(k) != x && HasKey(c, n) ==>
          (HasKey(Suffix(c', n), k) <==> HasKey(Suffix(c, n), k)))
  }

  ghost predicate SameBuckets<K(!new), V>(bs: seq<Chain<K, V>>, bs': seq<Chain<K, V>>, x: Option<K>) {
    |bs'| == |bs| && forall b :: 0 <= b < |bs| ==> SameChain(bs[b], bs'[b], x)
  }

  lemma HasKeyCons<K, V>(c: Chain<K, V>, k: K)
    requires c != []
    ensures HasKey(c, k) <==> c[0].key == k || HasKey(c[1..], k)
  {
    HasKeyAppend([c[0]], c[1..], k);
    assert c == [c[0]] + c[1..];
    assert HasKey([c[0]], k) <==> c[0].key == k by {
      if c[0].key == k { assert [c[0]][0].key == k; }
    }
  }

  lemma PushSame<K(!new), V>(c: Chain<K, V>, e: Entry<K, V>)
    ensures SameChain(c, [e] + c, Some(e.key))
  {
    assert ([e] + c)[1..] == c;
    forall k
      ensures HasKey([e] + c, k) <==> e.key == k || HasKey(c, k)
    {
      HasKeyCons([e] + c, k);
    }
  }

  lemma {:induction false} RemoveSame<K(!new), V>(c: Chain<K, V>, x: K)
    ensures SameChain(c, RemoveFromChain(c, x), Some(x))
  {
    if c != [] {
      var c' := RemoveFromChain(c, x);
      RemoveSame(c[1..], x);
      forall k
        ensures HasKey(c, k) <==> c[0].key == k || HasKey(c[1..], k)
        ensures c[0].key != x ==> (HasKey(c', k) <==> c[0].key == k || HasKey(RemoveFromChain(c[1..], x), k))
      {
        HasKeyCons(c, k);
        if c[0].key != x {
          HasKeyCons(c', k);
          assert c'[1..] == RemoveFromChain(c[1..], x);
        }
      }
    }
  }

  lemma {:induction false} SetSame<K(!new), V>(c: Chain<K, V>, x: K, v: V)
    ensures SameChain(c, SetInChain(c, x, v), None)
  {
    if c != [] {
      var c' := SetInChain(c, x, v);
      SetSame(c[1..], x, v);
      assert c'[1..] == if c[0].key == x then c[1..] else SetInChain(c[1..], x, v);
      forall k
        ensures HasKey(c, k) <==> c[0].key == k || HasKey(c[1..], k)
        ensures HasKey(c', k) <==> c'[0].key == k || HasKey(c'[1..], k)
      {
        HasKeyCons(c, k);
        HasKeyCons(c', k);
      }
    }
  }

  /** Which keys are pending depends on the chains only. */
  lemma SamePending<K(!new), V>(hash: K -> nat, d: Dict<K, V>, d': Dict<K, V>, it: Iter<K>, x: Option<K>)
    requires Running(hash, d, it) && WF(hash, d') && d'.iterators == d.iterators
    requires SameBuckets(d.ht0.buckets, d'.ht0.buckets, x) && SameBuckets(d.ht1.buckets, d'.ht1.buckets, x)
    requires IsRehashing(d') == IsRehashing(d)
    requires it.entry.Some? && it.nextEntry.Some? ==> it.nextEntry != x
    ensures Running(hash, d', it)
    ensures forall k :: Some(k) != x ==> (HasKey(Pending(d', it), k) <==> HasKey(Pending(d, it), k))
  {
    var bs, bs' := Buckets(d, it.table), Buckets(d', it.table);
    assert SameBuckets(bs, bs', x);
    if it.entry.Some? && it.nextEntry.Some? {
      assert SameChain(bs[it.index], bs'[it.index], x);
    }
    forall k | Some(k) != x
      ensures HasKey(Pending(d', it), k) <==> HasKey(Pending(d, it), k)
    {
      PendingKeys(d, it, k);
      PendingKeys(d', it, k);
      SameInBuckets(bs, bs', it.index + 1, x, k);
      SameInBuckets(d.ht1.buckets, d'.ht1.buckets, 0, x, k);
    }
  }

  lemma SameInBuckets<K(!new), V>(bs: seq<Chain<K, V>>, bs': seq<Chain<K, V>>, from: int, x: Option<K>, k: K)
    requires SameBuckets(bs, bs', x) && Some(k) != x
    ensures InBuckets(bs', from, k) <==> InBuckets(bs, from, k)
  {
    if InBuckets(bs, from, k) {
      var b :| 0 <= b < |bs| && b >= from && HasKey(bs[b], k);
      assert SameChain(bs[b], bs'[b], x);
    }
    if InBuckets(bs', from, k) {
      var b :| 0 <= b < |bs| && b >= from && HasKey(bs'[b], k);
      assert SameChain(bs[b], bs'[b], x);
    }
  }

  lemma SameAll<K(!new), V>(bs: seq<Chain<K, V>>, x: Option<K>)
    ensures SameBuckets(bs, bs, x)
  {
  }

  lemma SameUpdate<K(!new), V>(bs: seq<Chain<K, V>>, i: nat, c: Chain<K, V>, x: Option<K>)
    requires i < |bs| && SameChain(bs[i], c, x)
    ensures SameBuckets(bs, bs[i := c], x)
  {
  }

  /** The keys other than `x` that are pending stay pending, and no others become so. */
  ghost predicate KeepsPending<K(!new), V>(hash: K -> nat, d: Dict<K, V>, d': Dict<K, V>, it: Iter<K>, x: Option<K>) {
    && Running(hash, d, it) && Running(hash, d', it)
    && forall k :: Some(k) != x ==> (HasKey(Pending(d', it), k) <==> HasKey(Pending(d, it), k))
  }

  /** A rehash that starts while the iterator runs adds an empty table at the end of its way. */
  lemma ExpandKeepsPending<K(!new), V>(hash: K -> nat, d: Dict<K, V>, it: Iter<K>)
    requires Running(hash, d, it)
    ensures KeepsPending(hash, d, ExpandIfNeeded(d).0, it, None)
  {
    ExpandIfNeededKeeps(hash, d);
    hide WF, Flatten;
    var d' := ExpandIfNeeded(d).0;
    if d' != d {
      forall k
        ensures HasKey(Pending(d', it), k) <==> HasKey(Pending(d, it), k)
      {
        PendingKeys(d, it, k);
        PendingKeys(d', it, k);
      }
    }
  }

  lemma AddKeepsPending<K(!new), V>(hash: K -> nat, d: Dict<K, V>, it: Iter<K>, k: K, v: V)
    requires Running(hash, d, it)
    ensures KeepsPending(hash, d, Add(hash, d, k, v).0, it, if Lookup(hash, d, k).None? then Some(k) else None)
  {
    ExpandKeepsPending(hash, d, it);
    ExpandIfNeededKeeps(hash, d);
    AddAdds(hash, d, k, v);
    var d1, d2 := ExpandIfNeeded(d).0, Add(hash, d, k, v).0;
    assert Lookup(hash, d1, k) == Lookup(hash, d, k);
    if Lookup(hash, d, k).None? {
      NextIsPresent(hash, d, it);
      var t := if IsRehashing(d1) then d1.ht1 else d1.ht0;
      var i := Index(hash, |t.buckets|, k);
      PushSame(t.buckets[i], Entry(k, v));
      SameUpdate(t.buckets, i, [Entry(k, v)] + t.buckets[i], Some(k));
      SameAll(d1.ht0.buckets, Some(k));
      SameAll(d1.ht1.buckets, Some(k));
      SamePending(hash, d1, d2, it, Some(k));
    }
  }

  lemma NextIsPresent<K(!new), V>(hash: K -> nat, d: Dict<K, V>, it: Iter<K>)
    requires Running(hash, d, it)
    ensures it.entry.Some? && it.nextEntry.Some? ==> Lookup(hash, d, it.nextEntry.value).Some?
  {
    if it.entry.Some? && it.nextEntry.Some? {
      BucketKey(hash, if it.table == 0 then d.ht0 else d.ht1, it.index, it.nextEntry.value);
    }
  }

  lemma DeleteKeepsPending<K(!new), V>(hash: K -> nat, d: Dict<K, V>, it: Iter<K>)
    requires Running(hash, d, it) && it.entry.Some?
    ensures KeepsPending(hash, d, Delete(hash, d, it.entry.value).0, it, it.entry)
  {
    var k := it.entry.value;
    DeleteDeletes(hash, d, k);
    var d' := Delete(hash, d, k).0;
    SameAll(d.ht0.buckets, Some(k));
    SameAll(d.ht1.buckets, Some(k));
    if Lookup(hash, d, k).Some? {
      var t := if LookupTable(hash, d.ht0, k).Some? then d.ht0 else d.ht1;
      var i := Index(hash, |t.buckets|, k);
      RemoveSame(t.buckets[i], k);
      SameUpdate(t.buckets, i, RemoveFromChain(t.buckets[i], k), Some(k));
    }
    SamePending(hash, d, d', it, Some(k));
  }

  lemma ReplaceKeepsPending<K(!new), V>(hash: K -> nat, d: Dict<K, V>, it: Iter<K>, k: K, v: V)
    requires Running(hash, d, it)
    ensures KeepsPending(hash, d, Replace(hash, d, k, v).0, it, if Lookup(hash, d, k).None? then Some(k) else None)
  {
    AddKeepsPending(hash, d, it, k, v);
    AddAdds(hash, d, k, v);
    ReplaceReplaces(hash, d, k, v);
    var (d1, added) := Add(hash, d, k, v);
    if !added {
      var d2 := Replace(hash, d, k, v).0;
      assert Lookup(hash, d1, k).Some?;
      var t := if LookupTable(hash, d1.ht0, k).Some? then d1.ht0 else d1.ht1;
      var i := Index(hash, |t.buckets|, k);
      SetSame(t.buckets[i], k, v);
      SameUpdate(t.buckets, i, SetInChain(t.buckets[i], k, v), None);
      SameAll(d1.ht0.buckets, None);
      SameAll(d1.ht1.buckets, None);
      SamePending(hash, d1, d2, it, None);
    }
  }

  // ---------- Runs ----------

  /** What may happen while a safe iterator runs: deletion is restricted to the entry returned last. */
  datatype IterEvent<K, V> = NextEvent | DeleteLast | AddEvent(k: K, v: V) | FindEvent(k: K) | ReplaceEvent(k: K, v: V)

  datatype IterState<K, V> = IterState(d: Dict<K, V>, it: Iter<K>, returned: seq<K>)

  function Advance<K(==), V>(hash: K -> nat, s: IterState<K, V>, event: IterEvent<K, V>): (r: IterState<K, V>)
    requires s.it.index >= -1
    ensures r.it.index >= -1
  {
    match event
    case NextEvent =>
      var (d, it, r) := Next(s.d, s.it);
      IterState(d, it, if r.Some? then s.returned + [r.value.key] else s.returned)
    case DeleteLast => if s.it.entry.Some? then s.(d := Delete(hash, s.d, s.it.entry.value).0) else s
    case AddEvent(k, v) => s.(d := Add(hash, s.d, k, v).0)
    case FindEvent(k) => s.(d := Find(hash, s.d, k).0)
    case ReplaceEvent(k, v) => s.(d := Replace(hash, s.d, k, v).0)
  }

  /** The event puts `k` into a dictionary that does not have it. */
  ghost predicate Enters<K(!new), V>(hash: K -> nat, s: IterState<K, V>, event: IterEvent<K, V>, k: K) {
    ((event.AddEvent? || event.ReplaceEvent?) && event.k == k) && Lookup(hash, s.d, k).None?
  }

  function Count<K(==)>(s: seq<K>, k: K): nat {
    if s == [] then 0 else (if s[|s| - 1] == k then 1 else 0) + Count(s[..|s| - 1], k)
  }

  /** How often `k` has been returned, and whether it is still to come. */
  ghost function Turns<K, V>(s: IterState<K, V>, k: K): nat
    requires s.it.index >= -1
  {
    Count(s.returned, k) + if HasKey(Pending(s.d, s.it), k) then 1 else 0
  }

  /** A key that is pending is in the dictionary. */
  lemma PendingIsPresent<K(!new), V>(hash: K -> nat, d: Dict<K, V>, it: Iter<K>, k: K)
    requires Running(hash, d, it) || (WF(hash, d) && it == Start())
    requires HasKey(Pending(d, it), k)
    ensures Lookup(hash, d, k).Some?
  {
    PendingKeys(d, it, k);
    var t := if it.table == 0 then d.ht0 else d.ht1;
    if HasKey(Current(d, it), k) {
      CurrentDistinct(hash, t, it.index, it.nextEntry.value);
    } else if InBuckets(t.buckets, it.index + 1, k) {
      var b :| 0 <= b < |t.buckets| && b >= it.index + 1 && HasKey(t.buckets[b], k);
      BucketKey(hash, t, b, k);
    } else {
      var b :| 0 <= b < |d.ht1.buckets| && b >= 0 && HasKey(d.ht1.buckets[b], k);
      BucketKey(hash, d.ht1, b, k);
    }
  }

  /** The entry at hand is the one returned last. */
  predicate AtLast<K(==), V>(s: IterState<K, V>) {
    s.it.entry.Some? ==> s.returned != [] && s.returned[|s.returned| - 1] == s.it.entry.value
  }

  /** A present key has one turn, taken or to come; an absent one has had its turn. */
  ghost predicate OneTurn<K(!new), V>(hash: K -> nat, s: IterState<K, V>, k: K)
    requires s.it.index >= -1
  {
    if Lookup(hash, s.d, k).Some? then Turns(s, k) == 1 else Count(s.returned, k) == 1
  }

  lemma NextKeepsTurns<K(!new), V>(hash: K -> nat, s: IterState<K, V>, k: K)
    requires Running(hash, s.d, s.it) && AtLast(s) && OneTurn(hash, s, k)
    ensures var s' := Advance(hash, s, NextEvent);
      && Running(hash, s'.d, s'.it) && AtLast(s') && OneTurn(hash, s', k)
  {
    NextReturns(hash, s.d, s.it);
    PendingDistinct(hash, s.d, s.it);
    var s' := Advance(hash, s, NextEvent);
    var pending := Pending(s.d, s.it);
    if pending != [] {
      HasKeyCons(pending, k);
      if HasKey(pending, k) { PendingIsPresent(hash, s.d, s.it, k); }
      assert pending[1..] == Pending(s'.d, s'.it);
      assert s'.returned[..|s.returned|] == s.returned;
    }
  }

  /** Deleting the entry returned last takes no turn away, for that entry has had its own. */
  lemma DeleteKeepsTurns<K(!new), V>(hash: K -> nat, s: IterState<K, V>, k: K)
    requires Running(hash, s.d, s.it) && AtLast(s) && OneTurn(hash, s, k)
    ensures var s' := Advance(hash, s, DeleteLast);
      && Running(hash, s'.d, s'.it) && AtLast(s') && OneTurn(hash, s', k)
  {
    if s.it.entry.Some? {
      DeleteKeepsPending(hash, s.d, s.it);
      DeleteDeletes(hash, s.d, s.it.entry.value);
      assert Count(s.returned, s.it.entry.value) >= 1;
    }
  }

  /** So does anything that keeps the other pending keys and the presence of `k`. */
  lemma OtherKeepsTurns<K(!new), V>(hash: K -> nat, s: IterState<K, V>, d': Dict<K, V>, x: Option<K>, k: K)
    requires Running(hash, s.d, s.it) && AtLast(s) && OneTurn(hash, s, k)
    requires KeepsPending(hash, s.d, d', s.it, x) && Some(k) != x
    requires Lookup(hash, d', k).Some? == Lookup(hash, s.d, k).Some?
    ensures var s' := s.(d := d'); Running(hash, s'.d, s'.it) && AtLast(s') && OneTurn(hash, s', k)
  {
  }

  /** One event keeps every key at one turn, unless it brings the key back. */
  lemma AdvanceKeepsTurns<K(!new), V>(hash: K -> nat, s: IterState<K, V>, event: IterEvent<K, V>, k: K)
    requires Running(hash, s.d, s.it) && AtLast(s) && OneTurn(hash, s, k) && !Enters(hash, s, event, k)
    ensures var s' := Advance(hash, s, event);
      && Running(hash, s'.d, s'.it) && AtLast(s') && OneTurn(hash, s', k)
  {
    RunningIsWF(hash, s.d, s.it);
    hide Running, Pending, WF, OneTurn, KeepsPending, AtLast;
    match event {
      case NextEvent => NextKeepsTurns(hash, s, k);
      case DeleteLast => DeleteKeepsTurns(hash, s, k);
      case FindEvent(k') => FindFinds(hash, s.d, k');
      case AddEvent(k', v) =>
        AddKeepsPending(hash, s.d, s.it, k', v);
        AddAdds(hash, s.d, k', v);
        OtherKeepsTurns(hash, s, Add(hash, s.d, k', v).0, if Lookup(hash, s.d, k').None? then Some(k') else None, k);
      case ReplaceEvent(k', v) =>
        ReplaceKeepsPending(hash, s.d, s.it, k', v);
        ReplaceReplaces(hash, s.d, k', v);
        OtherKeepsTurns(hash, s, Replace(hash, s.d, k', v).0, if Lookup(hash, s.d, k').None? then Some(k') else None, k);
    }
  }

  function IterRun<K(==, !new), V>(hash: K -> nat, s: IterState<K, V>,
      events: seq<IterEvent<K, V>>): (r: IterState<K, V>)
    requires s.it.index >= -1
    ensures r.it.index >= -1
    decreases |events|
  {
    if events == [] then s else IterRun(hash, Advance(hash, s, events[0]), events[1..])
  }

  /** Some event of the run puts `k` into a dictionary that does not have it. */
  ghost predicate RunEnters<K(!new), V>(hash: K -> nat, s: IterState<K, V>, events: seq<IterEvent<K, V>>, k: K)
    requires s.it.index >= -1
    decreases |events|
  {
    events != [] &&
    (Enters(hash, s, events[0], k) || RunEnters(hash, Advance(hash, s, events[0]), events[1..], k))
  }

  lemma {:induction false} RunKeepsTurns<K(!new), V>(hash: K -> nat, s: IterState<K, V>,
      events: seq<IterEvent<K, V>>, k: K)
    requires Running(hash, s.d, s.it) && AtLast(s) && OneTurn(hash, s, k) && !RunEnters(hash, s, events, k)
    ensures var s' := IterRun(hash, s, events);
      && Running(hash, s'.d, s'.it) && AtLast(s') && OneTurn(hash, s', k)
    decreases |events|
  {
    if events != [] {
      AdvanceKeepsTurns(hash, s, events[0], k);
      RunKeepsTurns(hash, Advance(hash, s, events[0]), events[1..], k);
    }
  }

  lemma StartHasAll<K(!new), V>(hash: K -> nat, d: Dict<K, V>, k: K)
    requires WF(hash, d) && Lookup(hash, d, k).Some?
    ensures HasKey(Pending(d, Start()), k)
  {
    PendingKeys(d, Start(), k);
    var t := if LookupTable(hash, d.ht0, k).Some? then d.ht0 else d.ht1;
    ChainKey(t.buckets[Index(hash, |t.buckets|, k)], k);
    assert InBuckets(t.buckets, 0, k);
  }

  /** The state after the first call of dictNext. */
  function Begin<K(==), V>(hash: K -> nat, d: Dict<K, V>): (s: IterState<K, V>)
    ensures s.it.index >= -1
  {
    Advance(hash, IterState(d, Start(), []), NextEvent)
  }

  lemma BeginTurns<K(!new), V>(hash: K -> nat, d: Dict<K, V>, k: K)
    requires WF(hash, d) && Lookup(hash, d, k).Some?
    ensures var s := Begin(hash, d);
            Running(hash, s.d, s.it) && AtLast(s) && Lookup(hash, s.d, k).Some? && Turns(s, k) == 1
  {
    NextStarts(hash, d);
    StartHasAll(hash, d, k);
    var (d', it, r) := Next(d, Start());
    var all, rest := Pending(d, Start()), Pending(d', it);
    assert all == [r.value] + rest;
    assert HasKey(all, k) && DistinctKeys(all) by { PendingDistinct(hash, d, Start()); }
    assert Begin(hash, d) == IterState(d', it, [r.value.key]);
    FirstReturned(all, r.value, rest, k);
  }

  lemma FirstReturned<K, V>(all: Chain<K, V>, e: Entry<K, V>, rest: Chain<K, V>, k: K)
    requires all == [e] + rest && DistinctKeys(all) && HasKey(all, k)
    ensures Count([e.key], k) + (if HasKey(rest, k) then 1 else 0) == 1
  {
    HasKeyCons(all, k);
    assert all[1..] == rest;
    assert [e.key][..0] == [];
    assert Count([e.key], k) == if e.key == k then 1 else 0;
  }

  /**
    A safe iterator returns every entry exactly once.  Start it on any dictionary, in the middle of
    a rehash or not, and let any run of dictNext calls, additions, lookups, value updates and
    deletions of the entry returned last follow.  An entry present at the first dictNext and not
    brought back after its deletion has been returned exactly once or is still to come, never
    both; one that is no longer there has been returned once, and so has every one when dictNext
    returns NULL.
   */
  lemma SafeIteratorVisitsOnce<K(!new), V>(hash: K -> nat, d: Dict<K, V>, events: seq<IterEvent<K, V>>, k: K)
    requires WF(hash, d) && k in View(hash, d)
    requires !RunEnters(hash, Begin(hash, d), events, k)
    ensures var s := IterRun(hash, Begin(hash, d), events);
      && Turns(s, k) == 1
      && (Lookup(hash, s.d, k).None? || Next(s.d, s.it).2.None? ==> Count(s.returned, k) == 1)
  {
    ViewIsLookup(hash, d);
    BeginTurns(hash, d, k);
    RunKeepsTurns(hash, Begin(hash, d), events, k);
    var s := IterRun(hash, Begin(hash, d), events);
    NextReturns(hash, s.d, s.it);
    if HasKey(Pending(s.d, s.it), k) { PendingIsPresent(hash, s.d, s.it, k); }
  }

  /** Taking the entries one by one and deleting each. */
  function DeletingRun<K, V>(n: nat): seq<IterEvent<K, V>> {
    if n == 0 then [] else [DeleteLast, NextEvent] + DeletingRun(n - 1)
  }

  lemma {:induction false} DeletingEntersNone<K(!new), V>(hash: K -> nat, s: IterState<K, V>, n: nat, k: K)
    requires s.it.index >= -1
    ensures !RunEnters(hash, s, DeletingRun(n), k)
    decreases n
  {
    if n > 0 {
      var events := DeletingRun<K, V>(n);
      assert events[1..] == [NextEvent] + DeletingRun<K, V>(n - 1);
      assert events[1..][1..] == DeletingRun<K, V>(n - 1);
      DeletingEntersNone(hash, Advance(hash, Advance(hash, s, DeleteLast), NextEvent), n - 1, k);
    }
  }

  /** Such a loop gets every entry of the dictionary exactly once by the time dictNext returns NULL. */
  lemma DeletingVisitsOnce<K(!new), V>(hash: K -> nat, d: Dict<K, V>, n: nat, k: K)
    requires WF(hash, d) && k in View(hash, d)
    ensures var s := IterRun(hash, Begin(hash, d), DeletingRun(n));
            Next(s.d, s.it).2.None? ==> Count(s.returned, k) == 1
  {
    DeletingEntersNone(hash, Begin(hash, d), n, k);
    SafeIteratorVisitsOnce(hash, d, DeletingRun(n), k);
  }

  lemma {:induction false} RunAppend<K(!new), V>(hash: K -> nat, s: IterState<K, V>,
      a: seq<IterEvent<K, V>>, b: seq<IterEvent<K, V>>)
    requires s.it.index >= -1
    ensures IterRun(hash, s, a + b) == IterRun(hash, IterRun(hash, s, a), b)
    decreases |a|
  {
    if a == [] {
      assert a + b == b;
    } else {
      assert (a + b)[1..] == a[1..] + b;
      RunAppend(hash, Advance(hash, s, a[0]), a[1..], b);
    }
  }

  lemma {:induction false} DeletingRunLast<K, V>(n: nat)
    ensures DeletingRun<K, V>(n + 1) == DeletingRun(n) + [DeleteLast, NextEvent]
  {
    if n > 0 { DeletingRunLast<K, V>(n - 1); }
  }

  /** One more turn of the deleting loop, at the end. */
  lemma DeletingTurn<K(!new), V>(hash: K -> nat, s: IterState<K, V>, n: nat)
    requires s.it.index >= -1
    ensures IterRun(hash, s, DeletingRun(n + 1)) == Advance(hash, Advance(hash, IterRun(hash, s, DeletingRun(n)), DeleteLast), NextEvent)
  {
    DeletingRunLast<K, V>(n);
    RunAppend(hash, s, DeletingRun(n), [DeleteLast, NextEvent]);
    var last: seq<IterEvent<K, V>> := [DeleteLast, NextEvent];
    assert last[1..] == [NextEvent] && last[1..][1..] == [];
  }

  /** Every key returned, except the one at hand, is gone. */
  ghost predicate ReturnedAreGone<K(!new), V>(hash: K -> nat, s: IterState<K, V>) {
    forall k :: Count(s.returned, k) > 0 && s.it.entry != Some(k) ==> Lookup(hash, s.d, k).None?
  }

  lemma DeleteMakesGone<K(!new), V>(hash: K -> nat, s: IterState<K, V>)
    requires Running(hash, s.d, s.it) && ReturnedAreGone(hash, s)
    ensures var s' := Advance(hash, s, DeleteLast);
      && Running(hash, s'.d, s'.it) && s'.returned == s.returned
      && forall k :: Count(s.returned, k) > 0 ==> Lookup(hash, s'.d, k).None?
  {
    if s.it.entry.Some? {
      DeleteKeepsPending(hash, s.d, s.it);
      DeleteDeletes(hash, s.d, s.it.entry.value);
    }
    hide Pending, WF;
  }

  lemma NextKeepsGone<K(!new), V>(hash: K -> nat, s: IterState<K, V>)
    requires Running(hash, s.d, s.it) && forall k :: Count(s.returned, k) > 0 ==> Lookup(hash, s.d, k).None?
    ensures var s' := Advance(hash, s, NextEvent); Running(hash, s'.d, s'.it) && ReturnedAreGone(hash, s')
  {
    NextReturns(hash, s.d, s.it);
    hide Running, Next, Pending;
    var s' := Advance(hash, s, NextEvent);
    if s'.returned != s.returned { assert s'.returned[..|s.returned|] == s.returned; }
  }

  lemma DeletingTurnKeeps<K(!new), V>(hash: K -> nat, s: IterState<K, V>)
    requires Running(hash, s.d, s.it) && ReturnedAreGone(hash, s)
    ensures var s' := Advance(hash, Advance(hash, s, DeleteLast), NextEvent);
      Running(hash, s'.d, s'.it) && ReturnedAreGone(hash, s')
  {
    assert s.it.index >= -1;
    hide Running, ReturnedAreGone, Advance, Lookup;
    DeleteMakesGone(hash, s);
    NextKeepsGone(hash, Advance(hash, s, DeleteLast));
  }

  lemma NoTurns<K(!new), V>(hash: K -> nat, s: IterState<K, V>)
    requires s.it.index >= -1
    ensures IterRun(hash, s, DeletingRun(0)) == s
  {
  }

  lemma {:induction false} DeletingKeeps<K(!new), V>(hash: K -> nat, s: IterState<K, V>, n: nat)
    requires s.it.index >= -1 && Running(hash, s.d, s.it) && ReturnedAreGone(hash, s)
    ensures var s' := IterRun(hash, s, DeletingRun(n)); Running(hash, s'.d, s'.it) && ReturnedAreGone(hash, s')
    decreases n
  {
    hide Running, ReturnedAreGone, Advance, IterRun, DeletingRun;
    if n == 0 {
      NoTurns(hash, s);
    } else {
      DeletingKeeps(hash, s, n - 1);
      DeletingTurn(hash, s, n - 1);
      DeletingTurnKeeps(hash, IterRun(hash, s, DeletingRun(n - 1)));
    }
  }

  lemma BeginKeeps<K(!new), V>(hash: K -> nat, d: Dict<K, V>)
    requires WF(hash, d)
    ensures var s := Begin(hash, d); Running(hash, s.d, s.it) && ReturnedAreGone(hash, s)
  {
    NextStarts(hash, d);
    var s := Begin(hash, d);
    if s.returned != [] { assert s.returned[..0] == [] && |s.returned| == 1; }
  }

  lemma TurnAddsNone<K(!new), V>(hash: K -> nat, s: IterState<K, V>, k: K)
    requires s.it.index >= -1 && Running(hash, s.d, s.it)
    requires Lookup(hash, Advance(hash, Advance(hash, s, DeleteLast), NextEvent).d, k).Some?
    ensures Lookup(hash, s.d, k).Some?
  {
    var s1 := Advance(hash, s, DeleteLast);
    if s.it.entry.Some? {
      DeleteKeepsPending(hash, s.d, s.it);
      DeleteDeletes(hash, s.d, s.it.entry.value);
    }
    hide Pending, Next, WF;
    NextReturns(hash, s1.d, s1.it);
  }

  lemma {:induction false} DeletingAddsNone<K(!new), V>(hash: K -> nat, s: IterState<K, V>, n: nat, k: K)
    requires s.it.index >= -1 && Running(hash, s.d, s.it) && ReturnedAreGone(hash, s)
    requires Lookup(hash, IterRun(hash, s, DeletingRun(n)).d, k).Some?
    ensures Lookup(hash, s.d, k).Some?
    decreases n
  {
    hide Running, ReturnedAreGone, Advance, IterRun, DeletingRun, Lookup;
    if n == 0 {
      NoTurns(hash, s);
    } else {
      DeletingKeeps(hash, s, n - 1);
      DeletingTurn(hash, s, n - 1);
      TurnAddsNone(hash, IterRun(hash, s, DeletingRun(n - 1)), k);
      DeletingAddsNone(hash, s, n - 1, k);
    }
  }

  /** When no entry is at hand any more, the loop has emptied the dictionary, and got each of its keys once. */
  lemma DeletingEmpties<K(!new), V>(hash: K -> nat, d: Dict<K, V>, n: nat)
    requires WF(hash, d)
    requires IterRun(hash, Begin(hash, d), DeletingRun(n)).it.entry.None?
    requires Next(IterRun(hash, Begin(hash, d), DeletingRun(n)).d, IterRun(hash, Begin(hash, d), DeletingRun(n)).it).2.None?
    ensures var s := IterRun(hash, Begin(hash, d), DeletingRun(n));
      && (forall k :: Lookup(hash, s.d, k).None?)
      && (forall k :: k in View(hash, d) ==> Count(s.returned, k) == 1)
  {
    forall k ensures k in View(hash, d) ==> Count(IterRun(hash, Begin(hash, d), DeletingRun(n)).returned, k) == 1 {
      if k in View(hash, d) { DeletingVisitsOnce(hash, d, n, k); }
    }
    hide Running, Next, WF, IterRun, DeletingRun, Begin, View;
    forall k ensures Lookup(hash, IterRun(hash, Begin(hash, d), DeletingRun(n)).d, k).None? {
      if Lookup(hash, IterRun(hash, Begin(hash, d), DeletingRun(n)).d, k).Some? {
        LeftIsNew(hash, d, n, k);
        assert false;
      }
    }
  }

  /** What is left when no entry is at hand was there at first, and has not been returned. */
  lemma LeftIsNew<K(!new), V>(hash: K -> nat, d: Dict<K, V>, n: nat, k: K)
    requires WF(hash, d)
    requires IterRun(hash, Begin(hash, d), DeletingRun(n)).it.entry.None?
    requires Lookup(hash, IterRun(hash, Begin(hash, d), DeletingRun(n)).d, k).Some?
    ensures k in View(hash, d) && Count(IterRun(hash, Begin(hash, d), DeletingRun(n)).returned, k) == 0
  {
    var s0 := Begin(hash, d);
    BeginKeeps(hash, d);
    BeginLooks(hash, d, k);
    ViewIsLookup(hash, d);
    hide Running, WF, IterRun, DeletingRun, Begin, View, Next;
    DeletingKeeps(hash, s0, n);
    DeletingAddsNone(hash, s0, n, k);
  }

  lemma BeginLooks<K(!new), V>(hash: K -> nat, d: Dict<K, V>, k: K)
    requires WF(hash, d)
    ensures Lookup(hash, Begin(hash, d).d, k) == Lookup(hash, d, k)
  {
    NextStarts(hash, d);
  }

  /** The entry that dictNext returns is in the dictionary. */
  lemma NextIsThere<K(!new), V>(hash: K -> nat, d: Dict<K, V>, it: Iter<K>)
    requires Running(hash, d, it) || (WF(hash, d) && it == Start())
    ensures var (d', it', r) := Next(d, it);
      && Running(hash, d', it') && (if r.Some? then it'.entry == Some(r.value.key) else it'.entry == None)
      && (r.Some? ==> Lookup(hash, d', r.value.key).Some?)
      && d'.iterators > 0 && Size(d') == Size(d)
  {
    if it == Start() { NextStarts(hash, d); } else { NextReturns(hash, d, it); }
    hide Pending, Next;
    var (d', it', r) := Next(d, it);
    if r.Some? {
      assert Pending(d, it)[0].key == r.value.key && HasKey(Pending(d, it), r.value.key);
      PendingIsPresent(hash, d, it, r.value.key);
    }
  }

  /** After dictNext has returned NULL it returns NULL again. */
  lemma NullStays<K(!new), V>(hash: K -> nat, d: Dict<K, V>, it: Iter<K>)
    requires Running(hash, d, it) || (WF(hash, d) && it == Start())
    requires Next(d, it).2.None?
    ensures Next(Next(d, it).0, Next(d, it).1).2.None?
  {
    if it == Start() { NextStarts(hash, d); } else { NextReturns(hash, d, it); }
    hide Running, Pending, Next;
    var (d', it', r) := Next(d, it);
    NextReturns(hash, d', it');
  }

  lemma DeleteShrinks<K(!new), V>(hash: K -> nat, d: Dict<K, V>, k: K)
    requires WF(hash, d) && d.iterators > 0 && Lookup(hash, d, k).Some?
    ensures 0 <= Size(Delete(hash, d, k).0) < Size(d)
  {
    DeleteDeletes(hash, d, k);
    ViewIsLookup(hash, Delete(hash, d, k).0);
  }

  // ---------- The dictionary under the iterator ----------

  /** What an event makes of the lookups: additions, replacements and the deletion of the last key take place, and nothing else changes. */
  lemma EventSteps<K(!new), V>(hash: K -> nat, s: IterState<K, V>, event: IterEvent<K, V>)
    requires WF(hash, s.d) && s.it.index >= -1
    ensures forall k :: Lookup(hash, Advance(hash, s, event).d, k) == match event
      case AddEvent(k', v) => if k == k' && Lookup(hash, s.d, k).None? then Some(v) else Lookup(hash, s.d, k)
      case ReplaceEvent(k', v) => if k == k' then Some(v) else Lookup(hash, s.d, k)
      case DeleteLast => if s.it.entry == Some(k) then None else Lookup(hash, s.d, k)
      case _ => Lookup(hash, s.d, k)
  {
    hide WF;
    match event
    case AddEvent(k, v) => AddAdds(hash, s.d, k, v);
    case ReplaceEvent(k, v) => ReplaceReplaces(hash, s.d, k, v);
    case DeleteLast => if s.it.entry.Some? { DeleteDeletes(hash, s.d, s.it.entry.value); }
    case FindEvent(k) => FindFinds(hash, s.d, k);
    case NextEvent => NextLooksUp(hash, s.d, s.it);
  }

  lemma NextLooksUp<K(!new), V>(hash: K -> nat, d: Dict<K, V>, it: Iter<K>)
    requires it.index >= -1
    ensures forall k :: Lookup(hash, Next(d, it).0, k) == Lookup(hash, d, k)
  {
    var pinned := d.(iterators := d.iterators + 1);
    OnwardKeeps(d, it.table, it.index);
    OnwardKeeps(pinned, it.table, it.index);
  }

  lemma OnwardKeeps<K, V>(d: Dict<K, V>, table: int, index: int)
    requires -1 <= index
    ensures Onward(d, table, index).0 == d
  {
    if index + 1 <= |Buckets(d, table)| { EnterKeeps(d, table, index + 1); }
    EnterKeeps(d, 1, 0);
  }

  lemma {:induction false} EnterKeeps<K, V>(d: Dict<K, V>, table: int, index: int)
    requires 0 <= index <= |Buckets(d, table)|
    ensures Enter(d, table, index).0 == d
    decreases 2, if table == 0 then |d.ht0.buckets| - index + |d.ht1.buckets| + 1 else |d.ht1.buckets| - index
  {
    var bs := Buckets(d, table);
    if index == |bs| {
      if IsRehashing(d) && table == 0 { EnterKeeps(d, 1, 0); }
    } else if bs[index] == [] {
      EnterKeeps(d, table, index + 1);
    }
  }
}
