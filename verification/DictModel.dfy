/**
  The dictionary of dict.c as a value: two chained tables, the rehash index, the number of
  running safe iterators and the resize switch.  Every operation of dict.c is a function from
  one dictionary value to the next; `HashTable` implements them in place, on linked chains.

  The hash function is a parameter, so every statement holds for all hash functions.  The bucket
  of a key is `hash(key) % size`; `Words.MaskIsMod` shows that this is `hash(key) & sizemask`.
 */
module DictModel {
  import opened Options


  datatype Entry<K, V> = Entry(key: K, val: V)

  type Chain<K, V> = seq<Entry<K, V>>

  /** A `dictht`: its size is the number of buckets, and size 0 stands for the NULL table. */
  datatype Table<K, V> = Table(buckets: seq<Chain<K, V>>, used: int)

  datatype Dict<K, V> = Dict(ht0: Table<K, V>, ht1: Table<K, V>, rehashidx: int, iterators: nat, canResize: bool)

  const INITIAL_SIZE: nat := 4
  const FORCE_RESIZE_RATIO: nat := 5

  function EmptyTable<K, V>(): Table<K, V> { Table([], 0) }

  function EmptyDict<K, V>(canResize: bool): Dict<K, V> {
    Dict(EmptyTable(), EmptyTable(), -1, 0, canResize)
  }

  predicate IsRehashing<K, V>(d: Dict<K, V>) { d.rehashidx != -1 }

  function Size<K, V>(d: Dict<K, V>): int { d.ht0.used + d.ht1.used }

  // ---------- Sizes ----------

  function Pow2(k: nat): (r: nat)
    ensures r > 0
  {
    if k == 0 then 1 else 2 * Pow2(k - 1)
  }

  /** The first of i, 2*i, 4*i, ... that reaches `size`. */
  function DoubleUntil(i: nat, size: nat): (r: nat)
    requires i > 0
    ensures i <= r && size <= r
    decreases if i >= size then 0 else size - i
  {
    if i >= size then i else DoubleUntil(2 * i, size)
  }

  function NextPower(size: nat): nat { DoubleUntil(INITIAL_SIZE, size) }

  // ---------- Chains and tables ----------

  ghost predicate HasKey<K, V>(c: Chain<K, V>, k: K) { exists i :: 0 <= i < |c| && c[i].key == k }

  function LookupChain<K(==), V>(c: Chain<K, V>, k: K): Option<V> {
    if c == [] then None
    else if c[0].key == k then Some(c[0].val)
    else LookupChain(c[1..], k)
  }

  function RemoveFromChain<K(==), V>(c: Chain<K, V>, k: K): Chain<K, V> {
    if c == [] then []
    else if c[0].key == k then c[1..]
    else [c[0]] + RemoveFromChain(c[1..], k)
  }

  function SetInChain<K(==), V>(c: Chain<K, V>, k: K, v: V): Chain<K, V> {
    if c == [] then []
    else if c[0].key == k then [Entry(k, v)] + c[1..]
    else [c[0]] + SetInChain(c[1..], k, v)
  }

  function Index<K>(hash: K -> nat, size: nat, k: K): (i: nat)
    requires size > 0
    ensures i < size
  {
    hash(k) % size
  }

  function LookupTable<K(==), V>(hash: K -> nat, t: Table<K, V>, k: K): Option<V> {
    if t.buckets == [] then None else LookupChain(t.buckets[Index(hash, |t.buckets|, k)], k)
  }

  /** Prepends an entry to the chain of its bucket. */
  function Push<K, V>(hash: K -> nat, t: Table<K, V>, e: Entry<K, V>): (r: Table<K, V>)
    ensures |r.buckets| == |t.buckets|
  {
    if t.buckets == [] then t else
      var i := Index(hash, |t.buckets|, e.key);
      Table(t.buckets[i := [e] + t.buckets[i]], t.used + 1)
  }

  /** Pushes the entries of a chain one after the other. */
  function PushAll<K, V>(hash: K -> nat, c: Chain<K, V>, t: Table<K, V>): (r: Table<K, V>)
    ensures |r.buckets| == |t.buckets|
    decreases |c|
  {
    if c == [] then t else PushAll(hash, c[1..], Push(hash, t, c[0]))
  }

  function RemoveFromTable<K(==), V>(hash: K -> nat, t: Table<K, V>, k: K): (r: Table<K, V>)
    ensures |r.buckets| == |t.buckets|
  {
    if t.buckets == [] then t else
      var i := Index(hash, |t.buckets|, k);
      Table(t.buckets[i := RemoveFromChain(t.buckets[i], k)], t.used - 1)
  }

  function SetInTable<K(==), V>(hash: K -> nat, t: Table<K, V>, k: K, v: V): (r: Table<K, V>)
    ensures |r.buckets| == |t.buckets|
  {
    if t.buckets == [] then t else
      var i := Index(hash, |t.buckets|, k);
      Table(t.buckets[i := SetInChain(t.buckets[i], k, v)], t.used)
  }

  // ---------- Operations ----------

  /** dictExpand; the flag is false for DICT_ERR. */
  function Expand<K, V>(d: Dict<K, V>, size: nat): (Dict<K, V>, bool) {
    if IsRehashing(d) || d.ht0.used > size then (d, false)
    else
      var n := Table(seq(NextPower(size), _ => []), 0);
      if d.ht0.buckets == [] then (d.(ht0 := n), true)
      else (d.(ht1 := n, rehashidx := 0), true)
  }

  /** The first bucket at or after `i` that is not empty, or the size of the table. */
  function FirstNonEmpty<K, V>(bs: seq<Chain<K, V>>, i: int): (j: int)
    requires 0 <= i <= |bs|
    ensures i <= j <= |bs|
    ensures forall b :: i <= b < j ==> bs[b] == []
    ensures j < |bs| ==> bs[j] != []
    decreases |bs| - i
  {
    if i == |bs| || bs[i] != [] then i else FirstNonEmpty(bs, i + 1)
  }

  /** One turn of the loop of dictRehash while a rehash is in progress. */
  function RehashOne<K, V>(hash: K -> nat, d: Dict<K, V>): Dict<K, V> {
    if d.ht0.used == 0 then
      Dict(d.ht1, EmptyTable(), -1, d.iterators, d.canResize)
    else if !(0 <= d.rehashidx <= |d.ht0.buckets|) then d
    else
      var i := FirstNonEmpty(d.ht0.buckets, d.rehashidx);
      if i == |d.ht0.buckets| then d else
        var c := d.ht0.buckets[i];
        d.(ht0 := Table(d.ht0.buckets[i := []], d.ht0.used - |c|), ht1 := PushAll(hash, c, d.ht1), rehashidx := i + 1)
  }

  /** dictRehash; the flag is its return value. */
  function Rehash<K, V>(hash: K -> nat, d: Dict<K, V>, n: nat): (Dict<K, V>, bool)
    decreases n
  {
    if !IsRehashing(d) then (d, false)
    else if n == 0 then (d, true)
    else Rehash(hash, RehashOne(hash, d), n - 1)
  }

  /** _dictRehashStep, under the test that each caller makes first. */
  function Step<K, V>(hash: K -> nat, d: Dict<K, V>): Dict<K, V> {
    if IsRehashing(d) && d.iterators == 0 then RehashOne(hash, d) else d
  }

  function Lookup<K(==), V>(hash: K -> nat, d: Dict<K, V>, k: K): Option<V> {
    var r := LookupTable(hash, d.ht0, k);
    if r.None? && IsRehashing(d) then LookupTable(hash, d.ht1, k) else r
  }

  /** dictFind, with the value of the entry it returns. */
  function Find<K(==), V>(hash: K -> nat, d: Dict<K, V>, k: K): (Dict<K, V>, Option<V>) {
    if d.ht0.buckets == [] then (d, None)
    else var d1 := Step(hash, d); (d1, Lookup(hash, d1, k))
  }

  function ExpandIfNeeded<K, V>(d: Dict<K, V>): (Dict<K, V>, bool) {
    if IsRehashing(d) then (d, true)
    else if d.ht0.buckets == [] then Expand(d, INITIAL_SIZE)
    else if d.ht0.used >= |d.ht0.buckets| && (d.canResize || d.ht0.used / |d.ht0.buckets| > FORCE_RESIZE_RATIO) then
      Expand(d, d.ht0.used * 2)
    else (d, true)
  }

  /** Puts a new entry into the table that takes new entries. */
  function Insert<K, V>(hash: K -> nat, d: Dict<K, V>, k: K, v: V): Dict<K, V> {
    if IsRehashing(d) then d.(ht1 := Push(hash, d.ht1, Entry(k, v))) else d.(ht0 := Push(hash, d.ht0, Entry(k, v)))
  }

  /** Changes the value of an entry, in the table that holds it. */
  function Store<K(==), V>(hash: K -> nat, d: Dict<K, V>, k: K, v: V): Dict<K, V> {
    if LookupTable(hash, d.ht0, k).Some? then d.(ht0 := SetInTable(hash, d.ht0, k, v))
    else d.(ht1 := SetInTable(hash, d.ht1, k, v))
  }

  /** Takes an entry out of the table that holds it. */
  function Remove<K(==), V>(hash: K -> nat, d: Dict<K, V>, k: K): Dict<K, V> {
    if LookupTable(hash, d.ht0, k).Some? then d.(ht0 := RemoveFromTable(hash, d.ht0, k))
    else d.(ht1 := RemoveFromTable(hash, d.ht1, k))
  }

  /** dictAddRaw, with the value that the caller stores in the new entry; the flag is false for NULL. */
  function Add<K(==), V>(hash: K -> nat, d: Dict<K, V>, k: K, v: V): (Dict<K, V>, bool) {
    var (d1, ok) := ExpandIfNeeded(Step(hash, d));
    if !ok || Lookup(hash, d1, k).Some? then (d1, false) else (Insert(hash, d1, k, v), true)
  }

  /** dictReplace; the flag tells whether the key is new. */
  function Replace<K(==), V>(hash: K -> nat, d: Dict<K, V>, k: K, v: V): (Dict<K, V>, bool) {
    var (d1, added) := Add(hash, d, k, v);
    if added then (d1, true) else (Store(hash, Find(hash, d1, k).0, k, v), false)
  }

  /** dictGenericDelete; the flag is false for DICT_ERR. */
  function Delete<K(==), V>(hash: K -> nat, d: Dict<K, V>, k: K): (Dict<K, V>, bool) {
    if d.ht0.buckets == [] then (d, false)
    else
      var d1 := Step(hash, d);
      if Lookup(hash, d1, k).Some? then (Remove(hash, d1, k), true) else (d1, false)
  }
}
