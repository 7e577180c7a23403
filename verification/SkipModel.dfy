/**
  The skiplist of skiplist.c as a value: its nodes in list order, each with the height drawn for
  it, and the fields `level` and `length`.  Every operation is a function to the next value.
 */
module SkipModel {
  import opened Bytes
  import opened Options

  const MAX_LEVEL: nat := 16

  datatype Item = Item(key: bytes, val: bytes, height: nat)

  datatype SkipList = SkipList(items: seq<Item>, level: nat, length: int)

  function Empty(): SkipList { SkipList([], 1, 0) }

  /** slKeyCompare. */
  function KeyCompare(a: bytes, b: bytes): int {
    if |a| != |b| then 0 else Compare(a, b)
  }

  /** The place of the first item that does not come before `k`. */
  function Place(items: seq<Item>, k: bytes): (p: nat)
    ensures p <= |items|
    ensures forall i :: 0 <= i < p ==> KeyCompare(items[i].key, k) < 0
    ensures p < |items| ==> KeyCompare(items[p].key, k) >= 0
  {
    if items == [] || KeyCompare(items[0].key, k) >= 0 then 0 else 1 + Place(items[1..], k)
  }

  predicate Found(items: seq<Item>, k: bytes) {
    var p := Place(items, k);
    p < |items| && KeyCompare(items[p].key, k) == 0
  }

  /** insert_skiplist, with `height` for the level that gen_random_level returns. */
  function Insert(s: SkipList, k: bytes, v: bytes, height: nat): SkipList {
    var p := Place(s.items, k);
    if Found(s.items, k) then
      SkipList(s.items[p := s.items[p].(val := v)], s.level, s.length + 1)
    else
      SkipList(s.items[..p] + [Item(k, v, height)] + s.items[p..], if height > s.level then height else s.level, s.length + 1)
  }

  /** Whether some item reaches level `i`. */
  predicate Reaches(items: seq<Item>, i: int) {
    items != [] && (items[0].height > i || Reaches(items[1..], i))
  }

  /** The loop of delete_skiplist that lowers `level`, from level `i` down to the bottom. */
  function Lower(items: seq<Item>, height: nat, level: nat, i: nat): (r: nat)
    ensures r <= level
  {
    if i == 0 then level
    else Lower(items, height, if i - 1 < height && !Reaches(items, i - 1) && level > 0 then level - 1 else level, i - 1)
  }

  /** delete_skiplist; the flag is false when it returns -1. */
  function Delete(s: SkipList, k: bytes): (SkipList, bool) {
    var p := Place(s.items, k);
    if !Found(s.items, k) then (s, false)
    else
      var rest := s.items[..p] + s.items[p + 1..];
      (SkipList(rest, Lower(rest, s.items[p].height, s.level, s.level), s.length - 1), true)
  }

  /** search_skiplist. */
  function Search(s: SkipList, k: bytes): Option<bytes> {
    if Found(s.items, k) then Some(s.items[Place(s.items, k)].val) else None
  }

  /** replace_skiplist; the flag is false when it returns -1. */
  function Replace(s: SkipList, k: bytes, v: bytes): (SkipList, bool) {
    var p := Place(s.items, k);
    if Found(s.items, k) then (s.(items := s.items[p := s.items[p].(val := v)]), true) else (s, false)
  }

  // ---------- The invariant ----------

  function MaxHeight(items: seq<Item>): nat {
    if items == [] then 0
    else if items[0].height > MaxHeight(items[1..]) then items[0].height
    else MaxHeight(items[1..])
  }

  /** Keys of length `n` in strictly ascending order, and heights in range. */
  ghost predicate Ordered(n: nat, items: seq<Item>) {
    && (forall i :: 0 <= i < |items| ==> |items[i].key| == n && 1 <= items[i].height <= MAX_LEVEL)
    && (forall i, j :: 0 <= i < j < |items| ==> KeyCompare(items[i].key, items[j].key) < 0)
  }

  /** The invariant of skiplist.c for keys of one length `n`. */
  ghost predicate WF(n: nat, s: SkipList) {
    && Ordered(n, s.items)
    && (if s.items == [] then s.level <= 1 else s.level == MaxHeight(s.items))
  }

  /** `length` counts the items; this depends on which keys the callers insert. */
  predicate Counted(s: SkipList) { s.length == |s.items| }

  // ---------- Order ----------

  lemma KeyOrder(n: nat, a: bytes, b: bytes)
    requires |a| == |b| == n
    ensures KeyCompare(a, b) == -KeyCompare(b, a)
    ensures KeyCompare(a, b) == 0 <==> a == b
  {
    CompareZero(a, b);
    CompareAntisymmetric(a, b);
  }

  /** Keys of one length are ordered by the first byte in which they differ. */
  lemma KeyOrderIs(a: bytes, b: bytes)
    ensures KeyCompare(a, b) < 0 <==> |a| == |b| && Less(a, b)
    ensures KeyCompare(a, b) > 0 <==> |a| == |b| && Less(b, a)
  {
    if |a| == |b| { CompareIsOrder(a, b); }
  }

  /** slKeyCompare tells two keys apart if and only if they differ and have the same length. */
  lemma KeyCompareZeroIff(a: bytes, b: bytes)
    ensures KeyCompare(a, b) == 0 <==> a == b || |a| != |b|
  {
    if |a| == |b| { CompareZero(a, b); }
  }

  /** On keys of one length slKeyCompare is a strict total order. */
  lemma KeyOrderTransitive(a: bytes, b: bytes, c: bytes)
    requires |a| == |b| == |c| && KeyCompare(a, b) < 0 && KeyCompare(b, c) <= 0
    ensures KeyCompare(a, c) < 0
  {
    CompareTransitive(a, b, c);
  }

  // ---------- The map ----------

  /** The map that a list of items stands for. */
  function ToMap(items: seq<Item>): map<bytes, bytes> {
    if items == [] then map[] else ToMap(items[1..])[items[0].key := items[0].val]
  }

  ghost predicate Distinct(items: seq<Item>) {
    forall i, j :: 0 <= i < j < |items| ==> items[i].key != items[j].key
  }

  lemma WFIsDistinct(n: nat, s: SkipList)
    requires WF(n, s)
    ensures Distinct(s.items)
  {
    forall i, j | 0 <= i < j < |s.items|
      ensures s.items[i].key != s.items[j].key
    {
      KeyOrder(n, s.items[i].key, s.items[j].key);
    }
  }

  lemma {:induction false} ToMapHas(items: seq<Item>)
    requires Distinct(items)
    ensures forall i :: 0 <= i < |items| ==> items[i].key in ToMap(items) && ToMap(items)[items[i].key] == items[i].val
    ensures forall k :: k in ToMap(items) ==> HasKey(items, k)
    ensures |ToMap(items)| == |items|
  {
    if items != [] {
      ToMapHas(items[1..]);
      assert forall i :: 0 < i < |items| ==> items[i] == items[1..][i - 1];
      forall k | k in ToMap(items[1..])
        ensures HasKey(items, k) && k != items[0].key
      {
        var i :| 0 <= i < |items[1..]| && items[1..][i].key == k;
        assert items[i + 1].key == k;
      }
    }
  }

  ghost predicate HasKey(items: seq<Item>, k: bytes) { exists i :: 0 <= i < |items| && items[i].key == k }

  lemma PlaceOfItem(n: nat, s: SkipList, i: nat)
    requires WF(n, s) && i < |s.items|
    ensures Place(s.items, s.items[i].key) == i && Found(s.items, s.items[i].key)
  {
    KeyOrder(n, s.items[i].key, s.items[i].key);
    var p := Place(s.items, s.items[i].key);
    assert p >= i;
  }

  /** The items before the place of `k` come before `k`, the others do not. */
  lemma PlaceSplits(n: nat, s: SkipList, k: bytes, i: nat)
    requires WF(n, s) && |k| == n && i < |s.items|
    ensures i < Place(s.items, k) <==> KeyCompare(s.items[i].key, k) < 0
  {
    hide Place, Compare;
    var p := Place(s.items, k);
    if i > p && KeyCompare(s.items[i].key, k) < 0 {
      KeyOrderTransitive(s.items[p].key, s.items[i].key, k);
    }
  }

  /** An item with key `k`, if there is one, is at the place of `k`. */
  lemma FoundIffPresent(n: nat, s: SkipList, k: bytes)
    requires WF(n, s) && |k| == n
    ensures Found(s.items, k) <==> k in ToMap(s.items)
    ensures Found(s.items, k) ==> s.items[Place(s.items, k)].key == k && ToMap(s.items)[k] == s.items[Place(s.items, k)].val
  {
    WFIsDistinct(n, s);
    ToMapHas(s.items);
    var p := Place(s.items, k);
    if p < |s.items| { KeyOrder(n, s.items[p].key, k); }
    if k in ToMap(s.items) {
      assert HasKey(s.items, k);
      var i :| 0 <= i < |s.items| && s.items[i].key == k;
      PlaceOfItem(n, s, i);
    }
  }

  /** search_skiplist answers for the map. */
  lemma SearchRefinesMap(n: nat, s: SkipList, k: bytes)
    requires WF(n, s) && |k| == n
    ensures Search(s, k) == if k in ToMap(s.items) then Some(ToMap(s.items)[k]) else None
  {
    FoundIffPresent(n, s, k);
  }

  lemma {:induction false} InsertMap(items: seq<Item>, p: nat, x: Item)
    requires p <= |items| && x.key !in ToMap(items)
    ensures ToMap(items[..p] + [x] + items[p..]) == ToMap(items)[x.key := x.val]
  {
    var items' := items[..p] + [x] + items[p..];
    if p == 0 {
      assert items'[1..] == items;
    } else {
      InsertMap(items[1..], p - 1, x);
      assert items'[1..] == items[1..][..p - 1] + [x] + items[1..][p - 1..];
    }
  }

  lemma {:induction false} RemoveMap(items: seq<Item>, p: nat)
    requires p < |items| && Distinct(items)
    ensures ToMap(items[..p] + items[p + 1..]) == ToMap(items) - {items[p].key}
  {
    var items' := items[..p] + items[p + 1..];
    var k, rest := items[0].key, ToMap(items[1..]);
    if p == 0 {
      assert items' == items[1..];
      HeadIsNew(items);
      assert rest[k := items[0].val] - {k} == rest;
    } else {
      RemoveMap(items[1..], p - 1);
      assert items'[1..] == items[1..][..p - 1] + items[1..][p..];
      assert k != items[p].key;
      assert (rest - {items[p].key})[k := items[0].val] == rest[k := items[0].val] - {items[p].key};
    }
  }

  lemma HeadIsNew(items: seq<Item>)
    requires items != [] && Distinct(items)
    ensures items[0].key !in ToMap(items[1..])
  {
    ToMapHas(items[1..]);
    assert forall i :: 0 <= i < |items[1..]| ==> items[1..][i].key == items[i + 1].key != items[0].key;
  }

  lemma {:induction false} SetMap(items: seq<Item>, p: nat, v: bytes)
    requires p < |items| && Distinct(items)
    ensures ToMap(items[p := items[p].(val := v)]) == ToMap(items)[items[p].key := v]
  {
    var items' := items[p := items[p].(val := v)];
    if p == 0 {
      assert items'[1..] == items[1..];
    } else {
      SetMap(items[1..], p - 1, v);
      assert items'[1..] == items[1..][p - 1 := items[1..][p - 1].(val := v)];
      assert items[0].key != items[p].key;
    }
  }

  lemma {:induction false} HeightBound(items: seq<Item>)
    ensures forall i :: 0 <= i < |items| ==> items[i].height <= MaxHeight(items)
    ensures items != [] ==> exists i :: 0 <= i < |items| && items[i].height == MaxHeight(items)
  {
    if items != [] {
      HeightBound(items[1..]);
      assert forall i :: 0 < i < |items| ==> items[i] == items[1..][i - 1];
      if MaxHeight(items) == items[0].height {
      } else {
        var i :| 0 <= i < |items[1..]| && items[1..][i].height == MaxHeight(items[1..]);
        assert items[i + 1].height == MaxHeight(items);
      }
    }
  }

  /** Heights of the items of one list among those of another. */
  lemma {:induction false} MaxHeightSplit(a: seq<Item>, b: seq<Item>)
    ensures MaxHeight(a + b) == if MaxHeight(a) > MaxHeight(b) then MaxHeight(a) else MaxHeight(b)
  {
    if a == [] {
      assert a + b == b;
    } else {
      MaxHeightSplit(a[1..], b);
      assert (a + b)[1..] == a[1..] + b;
    }
  }

  lemma MaxHeightAround(items: seq<Item>, p: nat, x: Item)
    requires p <= |items|
    ensures MaxHeight(items[..p] + [x] + items[p..]) == if x.height > MaxHeight(items) then x.height else MaxHeight(items)
  {
    assert items == items[..p] + items[p..];
    MaxHeightSplit(items[..p], items[p..]);
    MaxHeightSplit(items[..p] + [x], items[p..]);
    MaxHeightSplit(items[..p], [x]);
  }

  /** Inserting a new key adds it to the map and keeps the list sorted, whatever height is drawn. */
  lemma InsertRefinesMap(n: nat, s: SkipList, k: bytes, v: bytes, height: nat)
    requires WF(n, s) && |k| == n && 1 <= height <= 16 && k !in ToMap(s.items)
    ensures WF(n, Insert(s, k, v, height))
    ensures Counted(s) ==> Counted(Insert(s, k, v, height))
    ensures ToMap(Insert(s, k, v, height).items) == ToMap(s.items)[k := v]
  {
    FoundIffPresent(n, s, k);
    InsertSorted(n, s, k, v, height);
    MaxHeightAround(s.items, Place(s.items, k), Item(k, v, height));
    InsertMap(s.items, Place(s.items, k), Item(k, v, height));
  }

  lemma InsertSorted(n: nat, s: SkipList, k: bytes, v: bytes, height: nat)
    requires WF(n, s) && |k| == n && 1 <= height <= 16 && !Found(s.items, k)
    ensures Ordered(n, Insert(s, k, v, height).items)
  {
    var p, items := Place(s.items, k), Insert(s, k, v, height).items;
    forall i | 0 <= i < |s.items| && i >= p
      ensures KeyCompare(k, s.items[i].key) < 0
    {
      KeyOrder(n, s.items[p].key, k);
      if i > p { KeyOrderTransitive(k, s.items[p].key, s.items[i].key); }
    }
    OrderedWith(n, s.items, p, Item(k, v, height));
  }

  lemma OrderedWith(n: nat, items: seq<Item>, p: nat, x: Item)
    requires Ordered(n, items) && p <= |items| && |x.key| == n && 1 <= x.height <= 16
    requires forall i :: 0 <= i < p ==> KeyCompare(items[i].key, x.key) < 0
    requires forall i :: p <= i < |items| ==> KeyCompare(x.key, items[i].key) < 0
    ensures Ordered(n, items[..p] + [x] + items[p..])
  {
    hide KeyCompare;
    var r := items[..p] + [x] + items[p..];
    forall i, j | 0 <= i < j < |r|
      ensures KeyCompare(r[i].key, r[j].key) < 0
    {
      assert r[i] == if i < p then items[i] else if i == p then x else items[i - 1];
      assert r[j] == if j < p then items[j] else if j == p then x else items[j - 1];
    }
  }

  lemma OrderedWithout(n: nat, items: seq<Item>, p: nat)
    requires Ordered(n, items) && p < |items|
    ensures Ordered(n, items[..p] + items[p + 1..])
  {
    hide KeyCompare;
    var r := items[..p] + items[p + 1..];
    forall i, j | 0 <= i < j < |r|
      ensures KeyCompare(r[i].key, r[j].key) < 0
    {
      assert r[i] == items[if i < p then i else i + 1] && r[j] == items[if j < p then j else j + 1];
    }
  }

  lemma SameHeight(items: seq<Item>, p: nat, x: Item)
    requires p < |items| && x.height == items[p].height
    ensures MaxHeight(items[p := x]) == MaxHeight(items)
  {
    var rest := items[..p] + items[p + 1..];
    assert rest[..p] == items[..p] && rest[p..] == items[p + 1..];
    MaxHeightAround(rest, p, items[p]);
    MaxHeightAround(rest, p, x);
    assert items == rest[..p] + [items[p]] + rest[p..] && items[p := x] == rest[..p] + [x] + rest[p..];
  }

  /** Replacing changes the value of a present key only; it reports whether the key is present. */
  lemma ReplaceRefinesMap(n: nat, s: SkipList, k: bytes, v: bytes)
    requires WF(n, s) && |k| == n
    ensures WF(n, Replace(s, k, v).0)
    ensures Counted(s) ==> Counted(Replace(s, k, v).0)
    ensures Replace(s, k, v).1 == (k in ToMap(s.items))
    ensures ToMap(Replace(s, k, v).0.items) == if k in ToMap(s.items) then ToMap(s.items)[k := v] else ToMap(s.items)
  {
    FoundIffPresent(n, s, k);
    if Found(s.items, k) {
      var p := Place(s.items, k);
      WFIsDistinct(n, s);
      SetMap(s.items, p, v);
      SameHeight(s.items, p, s.items[p].(val := v));
    }
  }

  lemma {:induction false} ReachesIff(items: seq<Item>, i: int)
    requires i >= 0
    ensures Reaches(items, i) <==> i < MaxHeight(items)
  {
    if items != [] { ReachesIff(items[1..], i); }
  }

  /** The loop that lowers `level` stops at the greatest height that is left. */
  lemma {:induction false} LowerFinds(items: seq<Item>, height: nat, level: nat, i: nat)
    requires if i < level then level == MaxHeight(items)
             else i == level >= MaxHeight(items) && (level > MaxHeight(items) ==> height >= level)
    ensures Lower(items, height, level, i) == MaxHeight(items)
    decreases i
  {
    if i > 0 {
      ReachesIff(items, i - 1);
      LowerFinds(items, height, if i - 1 < height && !Reaches(items, i - 1) && level > 0 then level - 1 else level, i - 1);
    }
  }

  lemma DeleteKeepsOrder(n: nat, s: SkipList, k: bytes)
    requires WF(n, s) && Found(s.items, k)
    ensures WF(n, Delete(s, k).0)
    ensures Delete(s, k).0.level == MaxHeight(Delete(s, k).0.items)
  {
    hide Place, KeyCompare;
    var p, items := Place(s.items, k), s.items;
    OrderedWithout(n, items, p);
    hide Ordered;
    var rest := items[..p] + items[p + 1..];
    assert rest[..p] == items[..p] && rest[p..] == items[p + 1..];
    assert items == rest[..p] + [items[p]] + rest[p..];
    MaxHeightAround(rest, p, items[p]);
    LowerFinds(rest, items[p].height, s.level, s.level);
  }

  /** Deleting takes the key out of the map, keeps the order, and lowers `level` to the greatest height left. */
  lemma DeleteRefinesMap(n: nat, s: SkipList, k: bytes)
    requires WF(n, s) && |k| == n
    ensures WF(n, Delete(s, k).0)
    ensures Counted(s) ==> Counted(Delete(s, k).0)
    ensures Delete(s, k).1 == (k in ToMap(s.items))
    ensures ToMap(Delete(s, k).0.items) == ToMap(s.items) - {k}
    ensures Delete(s, k).1 ==> Delete(s, k).0.level == MaxHeight(Delete(s, k).0.items)
  {
    FoundIffPresent(n, s, k);
    if Found(s.items, k) {
      DeleteKeepsOrder(n, s, k);
      WFIsDistinct(n, s);
      RemoveMap(s.items, Place(s.items, k));
    } else {
      assert ToMap(s.items) - {k} == ToMap(s.items);
    }
  }

  /**
    insert_skiplist keeps `length` right if and only if the key is new: a present key gets the new
    value, but is counted a second time.  Only the caller's lookup before the call prevents that.
   */
  lemma InsertCountsIffNew(n: nat, s: SkipList, k: bytes, v: bytes, height: nat)
    requires WF(n, s) && |k| == n && 1 <= height <= 16 && Counted(s)
    ensures Counted(Insert(s, k, v, height)) <==> k !in ToMap(s.items)
    ensures WF(n, Insert(s, k, v, height))
    ensures ToMap(Insert(s, k, v, height).items) == ToMap(s.items)[k := v]
  {
    FoundIffPresent(n, s, k);
    if k !in ToMap(s.items) {
      InsertRefinesMap(n, s, k, v, height);
    } else {
      ReplaceRefinesMap(n, s, k, v);
    }
  }
}
