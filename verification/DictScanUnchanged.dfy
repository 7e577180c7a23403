/**
  The scan of dict.c over tables that do not change, at rest or in the middle of a rehash: it takes
  as many calls as the smaller table has buckets, and emits every entry of both tables exactly once.
 */
module DictScanUnchanged {
  import opened DictModel
  import opened DictRefinement
  import opened DictScan
  import opened Words

  // ---------- Cursors ----------

  /** The cursor after `i` calls on a table of size 2^k. */
  function CursorAt(k: nat, i: nat): Word
    requires k <= WIDTH
  {
    if i == 0 then Fill(WIDTH, false) else NextCursor(CursorAt(k, i - 1), k)
  }

  /** The bucket that call number `i` visits. */
  function BucketAt(k: nat, i: nat): nat
    requires k <= WIDTH
  {
    Value(CursorAt(k, i)[..k])
  }

  lemma NextRank(w: Bits)
    ensures Value(Reverse(ReverseInc(w))) == if Value(Reverse(w)) == Pow2(|w|) - 1 then 0 else Value(Reverse(w)) + 1
  {
    var r := Reverse(w);
    ReverseTwice(Inc(r));
    IncValue(r);
    ValueOfFill(|w|);
    if Value(r) == Pow2(|w|) - 1 { ValueInjective(r, Fill(|w|, true)); }
  }

  lemma ZeroRank(w: Bits)
    ensures Value(Reverse(w)) == 0 <==> w == Fill(|w|, false)
  {
    ValueOfFill(|w|);
    ReverseTwice(w);
    assert Reverse(Fill(|w|, false)) == Fill(|w|, false);
    if Value(Reverse(w)) == 0 { ValueInjective(Reverse(w), Fill(|w|, false)); }
  }

  lemma CursorUnfold(k: nat, i: nat)
    requires k <= WIDTH && i > 0
    ensures CursorAt(k, i)[..k] == ReverseInc(CursorAt(k, i - 1)[..k])
    ensures CursorAt(k, i)[k..] == Fill(WIDTH - k, false)
  {
  }

  lemma FirstCursor(k: nat)
    requires k <= WIDTH
    ensures Value(Reverse(CursorAt(k, 0)[..k])) == 0 && CursorAt(k, 0)[k..] == Fill(WIDTH - k, false)
  {
    ZeroRank(Fill(k, false));
    assert CursorAt(k, 0)[..k] == Fill(k, false);
  }

  /** Read in reverse, the cursor counts the calls. */
  lemma {:induction false} CursorRank(k: nat, i: nat)
    requires k <= WIDTH && i <= Pow2(k)
    ensures Value(Reverse(CursorAt(k, i)[..k])) == if i == Pow2(k) then 0 else i
    ensures CursorAt(k, i)[k..] == Fill(WIDTH - k, false)
  {
    hide CursorAt, ReverseInc, Reverse, Value, Pow2;
    if i == 0 {
      FirstCursor(k);
    } else {
      CursorRank(k, i - 1);
      CursorUnfold(k, i);
      NextRank(CursorAt(k, i - 1)[..k]);
    }
  }

  /** A scan of unchanged tables returns 0 after exactly `size` calls, and not before. */
  lemma ScanTakesSizeCalls(k: nat, i: nat)
    requires k <= WIDTH && 0 < i <= Pow2(k)
    ensures CursorAt(k, i) == Fill(WIDTH, false) <==> i == Pow2(k)
  {
    CursorRank(k, i);
    ZeroRank(CursorAt(k, i)[..k]);
    assert CursorAt(k, i) == CursorAt(k, i)[..k] + CursorAt(k, i)[k..];
    assert Fill(WIDTH, false) == Fill(k, false) + Fill(WIDTH - k, false);
    if CursorAt(k, i) == Fill(WIDTH, false) { assert CursorAt(k, i)[..k] == Fill(k, false); }
  }

  /** No two of these calls visit the same bucket. */
  lemma ScanVisitsOnce(k: nat, i: nat, j: nat)
    requires k <= WIDTH && i < j < Pow2(k)
    ensures BucketAt(k, i) != BucketAt(k, j)
  {
    CursorRank(k, i);
    CursorRank(k, j);
    if BucketAt(k, i) == BucketAt(k, j) { ValueInjective(CursorAt(k, i)[..k], CursorAt(k, j)[..k]); }
  }

  /** Every bucket is visited by one of these calls. */
  lemma ScanVisitsEveryBucket(k: nat, b: nat)
    requires k <= WIDTH && b < Pow2(k)
    ensures exists i: nat :: i < Pow2(k) && BucketAt(k, i) == b
  {
    var w := FromNat(b, k);
    var i := Value(Reverse(w));
    ValueBound(Reverse(w));
    CursorRank(k, i);
    ValueInjective(Reverse(CursorAt(k, i)[..k]), Reverse(w));
    ReverseTwice(CursorAt(k, i)[..k]);
    ReverseTwice(w);
    FromNatValue(b, k);
    ModUnique(b, Pow2(k), 0, b);
    assert BucketAt(k, i) == b;
  }

  // ---------- What all calls emit ----------

  /** Chain by chain, the first list and then the second. */
  function Zip<K, V>(a: seq<Chain<K, V>>, b: seq<Chain<K, V>>): (r: seq<Chain<K, V>>)
    requires |a| == |b|
    ensures |r| == |a|
  {
    seq(|a|, i requires 0 <= i < |a| => a[i] + b[i])
  }

  lemma {:induction false} ZipFlatten<K, V>(a: seq<Chain<K, V>>, b: seq<Chain<K, V>>)
    requires |a| == |b|
    ensures multiset(Flatten(Zip(a, b))) == multiset(Flatten(a)) + multiset(Flatten(b))
  {
    if a != [] {
      ZipFlatten(a[1..], b[1..]);
      assert Zip(a, b)[1..] == Zip(a[1..], b[1..]);
    }
  }

  lemma {:induction false} FlattenAppend<K, V>(a: seq<Chain<K, V>>, b: seq<Chain<K, V>>)
    ensures Flatten(a + b) == Flatten(a) + Flatten(b)
  {
    if a == [] {
      assert a + b == b;
    } else {
      assert (a + b)[1..] == a[1..] + b;
      FlattenAppend(a[1..], b);
      assert a[0] + (Flatten(a[1..]) + Flatten(b)) == a[0] + Flatten(a[1..]) + Flatten(b);
    }
  }

  /** The chains at the places `list`, one after the other. */
  function Pick<K, V>(bs: seq<Chain<K, V>>, list: seq<nat>): Chain<K, V>
    requires forall i :: 0 <= i < |list| ==> list[i] < |bs|
  {
    if list == [] then [] else bs[list[0]] + Pick(bs, list[1..])
  }

  lemma {:induction false} PickAppend<K, V>(bs: seq<Chain<K, V>>, a: seq<nat>, b: seq<nat>)
    requires forall i :: 0 <= i < |a| ==> a[i] < |bs|
    requires forall i :: 0 <= i < |b| ==> b[i] < |bs|
    ensures Pick(bs, a + b) == Pick(bs, a) + Pick(bs, b)
  {
    if a == [] {
      assert a + b == b;
    } else {
      assert (a + b)[1..] == a[1..] + b;
      PickAppend(bs, a[1..], b);
      assert bs[a[0]] + (Pick(bs, a[1..]) + Pick(bs, b)) == bs[a[0]] + Pick(bs, a[1..]) + Pick(bs, b);
    }
  }

  lemma {:induction false} PickShorter<K, V>(bs: seq<Chain<K, V>>, n: nat, list: seq<nat>)
    requires n <= |bs| && forall i :: 0 <= i < |list| ==> list[i] < n
    ensures Pick(bs[..n], list) == Pick(bs, list)
  {
    if list != [] { PickShorter(bs, n, list[1..]); }
  }

  /** The list names each of the places below `n` once. */
  ghost predicate NamesAll(list: seq<nat>, n: nat) {
    && (forall i :: 0 <= i < |list| ==> list[i] < n)
    && (forall i, j :: 0 <= i < j < |list| ==> list[i] != list[j])
    && (forall b: nat :: b < n ==> b in list)
  }

  lemma NamesFewer(list: seq<nat>, n: nat) returns (a: seq<nat>, b: seq<nat>)
    requires NamesAll(list, n + 1)
    ensures list == a + ([n] + b) && NamesAll(a + b, n)
  {
    assert n in list;
    var p :| 0 <= p < |list| && list[p] == n;
    a, b := list[..p], list[p + 1..];
    NamesWithout(list, n, p);
  }

  lemma NamesWithout(list: seq<nat>, n: nat, p: nat)
    requires NamesAll(list, n + 1) && p < |list| && list[p] == n
    ensures NamesAll(list[..p] + list[p + 1..], n)
  {
    var rest := list[..p] + list[p + 1..];
    forall i | 0 <= i < |rest| ensures rest[i] < n && rest[i] == list[if i < p then i else i + 1] {
      if i < p { assert list[i] != list[p]; } else { assert list[p] != list[i + 1]; }
    }
    forall c: nat | c < n ensures c in rest {
      assert c in list;
      var i :| 0 <= i < |list| && list[i] == c;
      if i < p { assert rest[i] == c; } else { assert rest[i - 1] == c; }
    }
  }

  /** A list that names every place once picks everything. */
  lemma {:induction false} PickAll<K, V>(bs: seq<Chain<K, V>>, list: seq<nat>)
    requires NamesAll(list, |bs|)
    ensures multiset(Pick(bs, list)) == multiset(Flatten(bs))
    decreases |bs|
  {
    if bs != [] {
      var n := |bs| - 1;
      var a, b := NamesFewer(list, n);
      NamesInside(a, b, n);
      PickAll(bs[..n], a + b);
      PickShorter(bs, n, a + b);
      hide NamesAll, Flatten, Pick;
      PickMiddle(bs, a, n, b);
      FlattenLast(bs);
    }
  }

  lemma NamesInside(a: seq<nat>, b: seq<nat>, n: nat)
    requires NamesAll(a + b, n)
    ensures (forall i :: 0 <= i < |a| ==> a[i] < n) && (forall i :: 0 <= i < |b| ==> b[i] < n)
  {
    assert forall i :: 0 <= i < |a| ==> a[i] == (a + b)[i];
    assert forall i :: 0 <= i < |b| ==> b[i] == (a + b)[|a| + i];
  }

  lemma PickMiddle<K, V>(bs: seq<Chain<K, V>>, a: seq<nat>, n: nat, b: seq<nat>)
    requires n < |bs| && (forall i :: 0 <= i < |a| ==> a[i] < |bs|) && (forall i :: 0 <= i < |b| ==> b[i] < |bs|)
    ensures multiset(Pick(bs, a + ([n] + b))) == multiset(Pick(bs, a + b)) + multiset(bs[n])
  {
    PickAppend(bs, a, b);
    PickAppend(bs, a, [n] + b);
    assert ([n] + b)[1..] == b && Pick(bs, [n] + b) == bs[n] + Pick(bs, b);
    MiddleLast(Pick(bs, a), bs[n], Pick(bs, b));
  }

  lemma MiddleLast<K, V>(a: Chain<K, V>, c: Chain<K, V>, b: Chain<K, V>)
    ensures multiset(a + (c + b)) == multiset(a + b) + multiset(c)
  {
  }

  lemma FlattenLast<K, V>(bs: seq<Chain<K, V>>)
    requires bs != []
    ensures Flatten(bs) == Flatten(bs[..|bs| - 1]) + bs[|bs| - 1]
  {
    var n := |bs| - 1;
    FlattenAppend(bs[..n], bs[n..]);
    assert bs[n..] == [bs[n]] && Flatten([bs[n]]) == bs[n] + Flatten([]) == bs[n];
    assert bs == bs[..n] + bs[n..];
  }

  /** The buckets `low`, `low + n`, `low + 2n`, ... of a table of `n * rows` buckets, from row `m` on. */
  function Column<K, V>(bs: seq<Chain<K, V>>, n: nat, low: nat, m: nat, rows: nat): Chain<K, V>
    requires low < n && m <= rows && |bs| == n * rows
    decreases rows - m
  {
    if m == rows then [] else InRow(n, low, m, rows); bs[n * m + low] + Column(bs, n, low, m + 1, rows)
  }

  lemma InRow(n: nat, low: nat, m: nat, rows: nat)
    requires low < n && m < rows
    ensures n * m + n == n * (m + 1) <= n * rows && n * m + low < n * rows
  {
    assert n * rows == n * (m + 1) + n * (rows - m - 1);
  }

  function Columns<K, V>(bs: seq<Chain<K, V>>, n: nat, m: nat, rows: nat): (r: seq<Chain<K, V>>)
    requires m <= rows && |bs| == n * rows
    ensures |r| == n
  {
    seq(n, low requires 0 <= low < n => Column(bs, n, low, m, rows))
  }

  /** The columns from row `m` on begin with that row. */
  lemma ColumnsUnfold<K, V>(bs: seq<Chain<K, V>>, n: nat, m: nat, rows: nat)
    requires n > 0 && m < rows && |bs| == n * rows
    ensures 0 <= n * m <= n * (m + 1) <= |bs| && n * (m + 1) - n * m == n
    ensures Columns(bs, n, m, rows) == Zip(bs[n * m..n * (m + 1)], Columns(bs, n, m + 1, rows))
  {
    InRow(n, 0, m, rows);
    var row := bs[n * m..n * (m + 1)];
    forall low | 0 <= low < n
      ensures Columns(bs, n, m, rows)[low] == row[low] + Columns(bs, n, m + 1, rows)[low]
    {
      InRow(n, low, m, rows);
    }
  }

  /** The columns together hold the whole table. */
  lemma {:induction false} ColumnsFlatten<K, V>(bs: seq<Chain<K, V>>, n: nat, m: nat, rows: nat)
    requires n > 0 && m <= rows && |bs| == n * rows
    ensures 0 <= n * m <= |bs|
    ensures multiset(Flatten(Columns(bs, n, m, rows))) == multiset(Flatten(bs[n * m..]))
    decreases rows - m
  {
    if m == rows {
      assert bs[n * m..] == [];
      NoneFlatten(Columns(bs, n, m, rows));
    } else {
      ColumnsUnfold(bs, n, m, rows);
      ColumnsFlatten(bs, n, m + 1, rows);
      FlattenFirst(bs, n * m, n * (m + 1));
      hide Columns, Flatten;
      ZipFlatten(bs[n * m..n * (m + 1)], Columns(bs, n, m + 1, rows));
    }
  }

  lemma FlattenFirst<K, V>(bs: seq<Chain<K, V>>, i: nat, j: nat)
    requires i <= j <= |bs|
    ensures multiset(Flatten(bs[i..])) == multiset(Flatten(bs[i..j])) + multiset(Flatten(bs[j..]))
  {
    FlattenAppend(bs[i..j], bs[j..]);
    assert bs[i..] == bs[i..j] + bs[j..];
  }

  lemma {:induction false} NoneFlatten<K, V>(bs: seq<Chain<K, V>>)
    requires forall i :: 0 <= i < |bs| ==> bs[i] == []
    ensures Flatten(bs) == []
  {
    if bs != [] { NoneFlatten(bs[1..]); }
  }

  /** The bucket that a cursor names, by its row and its place in the row. */
  lemma EmitInColumn<K, V>(t: Table<K, V>, v: Word, k0: nat, k1: nat)
    requires k0 <= k1 <= WIDTH && |t.buckets| == Pow2(k1) == Pow2(k0) * Pow2(k1 - k0)
    ensures var low, mid, n, rows := Value(v[..k0]), Value(v[k0..k1]), Pow2(k0), Pow2(k1 - k0);
      && low < n && mid < rows
      && Column(t.buckets, n, low, mid, rows) == Emit(t, v, k1) + Column(t.buckets, n, low, mid + 1, rows)
  {
    ValueBound(v[..k0]);
    ValueBound(v[k0..k1]);
    assert v[..k1] == v[..k0] + v[k0..k1];
    ValueAppend(v[..k0], v[k0..k1]);
  }

  /** The buckets of the larger table that one call visits form a column. */
  lemma {:induction false} ExpansionsEmit<K, V>(t: Table<K, V>, v: Word, k0: nat, k1: nat)
    requires k0 <= k1 <= WIDTH && |t.buckets| == Pow2(k1) == Pow2(k0) * Pow2(k1 - k0)
    ensures Value(v[..k0]) < Pow2(k0) && Value(v[k0..k1]) < Pow2(k1 - k0)
    ensures EmitAll(t, Expansions(v, k0, k1), k1) ==
      Column(t.buckets, Pow2(k0), Value(v[..k0]), Value(v[k0..k1]), Pow2(k1 - k0))
    decreases Pow2(k1 - k0) - Value(v[k0..k1])
  {
    EmitInColumn(t, v, k0, k1);
    hide Emit, Pow2;
    ExpansionAdvances(v, k0, k1);
    ValueOfFill(k1 - k0);
    var next := NextHigh(v, k0);
    assert next[..k0] == v[..k0];
    if next[k0..k1] == Fill(k1 - k0, false) {
      var column := Column(t.buckets, Pow2(k0), Value(v[..k0]), Pow2(k1 - k0), Pow2(k1 - k0));
      assert Value(v[k0..k1]) + 1 == Pow2(k1 - k0) && column == [];
      assert Expansions(v, k0, k1) == [v] && [v][1..] == [];
      assert EmitAll(t, [v], k1) == Emit(t, v, k1) + [];
    } else {
      if Value(v[k0..k1]) + 1 == Pow2(k1 - k0) { ValueInjective(v[k0..k1], Fill(k1 - k0, true)); }
      ExpansionsEmit(t, next, k0, k1);
      var rest := Expansions(next, k0, k1);
      assert Expansions(v, k0, k1) == [v] + rest && ([v] + rest)[1..] == rest;
    }
  }

  lemma {:induction false} Pow2Sum(a: nat, b: nat)
    ensures Pow2(a + b) == Pow2(a) * Pow2(b)
  {
    if a > 0 {
      Pow2Sum(a - 1, b);
      Twice(Pow2(a - 1), Pow2(b));
    }
  }

  // ---------- The whole scan ----------

  /** What `n` calls emit, starting at cursor 0, and the cursor after them. */
  ghost function Scans<K, V>(d: Dict<K, V>, n: nat): (Chain<K, V>, Word)
    requires Ready(d)
  {
    if n == 0 then ([], Fill(WIDTH, false))
    else
      var (out, v) := Scans(d, n - 1);
      var (more, next) := Scan(d, v);
      (out + more, next)
  }

  /** The smaller and the larger table of a rehash. */
  ghost function Tables<K, V>(d: Dict<K, V>): (r: (Table<K, V>, Table<K, V>))
    requires Ready(d) && Size(d) != 0 && IsRehashing(d)
    ensures var (k0, k1) := Exponents(d);
      |r.0.buckets| == Pow2(k0) && |r.1.buckets| == Pow2(k1) == Pow2(k0) * Pow2(k1 - k0)
  {
    SmallerFirst(d);
    Pow2Sum(Exponents(d).0, Exponents(d).1 - Exponents(d).0);
    if |d.ht0.buckets| > |d.ht1.buckets| then (d.ht1, d.ht0) else (d.ht0, d.ht1)
  }

  /** For each bucket of the smaller table what a call at it emits: its chain and the ones of its expansions. */
  ghost function Shares<K, V>(d: Dict<K, V>): (r: seq<Chain<K, V>>)
    requires Ready(d) && Size(d) != 0
    ensures |r| == Pow2(Exponents(d).0)
  {
    if !IsRehashing(d) then d.ht0.buckets
    else
      var (t0, t1) := Tables(d);
      var (k0, k1) := Exponents(d);
      Zip(t0.buckets, Columns(t1.buckets, Pow2(k0), 0, Pow2(k1 - k0)))
  }

  /** The shares together are the two tables. */
  lemma SharesFlatten<K, V>(d: Dict<K, V>)
    requires Ready(d) && Size(d) != 0 && (!IsRehashing(d) ==> d.ht1.buckets == [])
    ensures multiset(Flatten(Shares(d))) == multiset(Flatten(d.ht0.buckets)) + multiset(Flatten(d.ht1.buckets))
  {
    if IsRehashing(d) {
      var (t0, t1) := Tables(d);
      assert (t0 == d.ht0 && t1 == d.ht1) || (t0 == d.ht1 && t1 == d.ht0);
      var (k0, k1) := Exponents(d);
      var n, rows := Pow2(k0), Pow2(k1 - k0);
      hide Pow2, Exponents, Tables, Flatten;
      ZipFlatten(t0.buckets, Columns(t1.buckets, n, 0, rows));
      ColumnsFlatten(t1.buckets, n, 0, rows);
      assert t1.buckets[n * 0..] == t1.buckets;
    }
  }

  lemma ZerosBetween(v: Word, k0: nat, k1: nat)
    requires k0 <= k1 <= WIDTH && v[k0..] == Fill(WIDTH - k0, false)
    ensures Value(v[k0..k1]) == 0
  {
    assert v[k0..k1] == v[k0..][..k1 - k0] == Fill(k1 - k0, false);
    ValueOfFill(k1 - k0);
  }

  /** One call at a cursor within the smaller mask emits the share of its bucket. */
  lemma ScanEmitsShare<K, V>(d: Dict<K, V>, v: Word)
    requires Ready(d) && Size(d) != 0 && v[Exponents(d).0..] == Fill(WIDTH - Exponents(d).0, false)
    ensures var k := Exponents(d).0;
      Value(v[..k]) < |Shares(d)| && Scan(d, v) == (Shares(d)[Value(v[..k])], NextCursor(v, k))
  {
    ValueBound(v[..Exponents(d).0]);
    if IsRehashing(d) { RehashEmitsShare(d, v); }
  }

  lemma RehashEmitsShare<K, V>(d: Dict<K, V>, v: Word)
    requires Ready(d) && Size(d) != 0 && IsRehashing(d)
    requires v[Exponents(d).0..] == Fill(WIDTH - Exponents(d).0, false)
    ensures var k := Exponents(d).0;
      Value(v[..k]) < |Shares(d)| && Scan(d, v) == (Shares(d)[Value(v[..k])], NextCursor(v, k))
  {
    var (k0, k1) := Exponents(d);
    SmallerFirst(d);
    var (t0, t1) := Tables(d);
    assert Scan(d, v) == (Emit(t0, v, k0) + EmitAll(t1, Expansions(v, k0, k1), k1), NextCursor(v, k0));
    hide Scan, Exponents, Log2, Pow2, Tables, Expansions, EmitAll, NextCursor, Ready;
    ZerosBetween(v, k0, k1);
    ExpansionsEmit(t1, v, k0, k1);
  }

  /** The buckets of the first `n` calls. */
  function BucketList(k: nat, n: nat): (r: seq<nat>)
    requires k <= WIDTH
    ensures |r| == n && forall i :: 0 <= i < n ==> r[i] == BucketAt(k, i)
  {
    seq(n, i requires 0 <= i < n => BucketAt(k, i))
  }

  lemma {:induction false} ScansPick<K, V>(d: Dict<K, V>, n: nat)
    requires Ready(d) && Size(d) != 0 && n <= |Shares(d)|
    ensures var k := Exponents(d).0;
      && (forall i: nat :: i < n ==> BucketAt(k, i) < |Shares(d)|)
      && Scans(d, n) == (Pick(Shares(d), BucketList(k, n)), CursorAt(k, n))
  {
    if n > 0 {
      CursorRank(Exponents(d).0, n - 1);
      hide Shares, Scans, CursorAt, BucketAt, Pow2, Value, Pick, Exponents, Ready, Size, Fill;
      ScansPick(d, n - 1);
      NextPick(d, Exponents(d).0, n);
    }
  }

  lemma NextPick<K, V>(d: Dict<K, V>, k: nat, n: nat)
    requires Ready(d) && Size(d) != 0 && 0 < n <= |Shares(d)| && k == Exponents(d).0
    requires CursorAt(k, n - 1)[k..] == Fill(WIDTH - k, false)
    requires forall i: nat :: i < n - 1 ==> BucketAt(k, i) < |Shares(d)|
    requires Scans(d, n - 1) == (Pick(Shares(d), BucketList(k, n - 1)), CursorAt(k, n - 1))
    ensures (forall i: nat :: i < n ==> BucketAt(k, i) < |Shares(d)|)
    ensures Scans(d, n) == (Pick(Shares(d), BucketList(k, n)), CursorAt(k, n))
  {
    hide Shares, Scan, Exponents, CursorAt, Pow2, Value, BucketAt, Ready, Fill;
    ShareAt(d, k, n - 1);
    CursorStep(k, n);
    PickNext(Shares(d), k, n);
  }

  lemma PickNext<K, V>(bs: seq<Chain<K, V>>, k: nat, n: nat)
    requires k <= WIDTH && n > 0 && forall i: nat :: i < n ==> BucketAt(k, i) < |bs|
    ensures Pick(bs, BucketList(k, n)) == Pick(bs, BucketList(k, n - 1)) + bs[BucketAt(k, n - 1)]
  {
    hide BucketAt, Pick;
    BucketListLast(k, n);
    PickLast(bs, BucketList(k, n - 1), BucketAt(k, n - 1));
  }

  lemma BucketListLast(k: nat, n: nat)
    requires k <= WIDTH && n > 0
    ensures BucketList(k, n) == BucketList(k, n - 1) + [BucketAt(k, n - 1)]
  {
    hide BucketAt;
  }

  lemma PickLast<K, V>(bs: seq<Chain<K, V>>, list: seq<nat>, b: nat)
    requires b < |bs| && forall i :: 0 <= i < |list| ==> list[i] < |bs|
    ensures Pick(bs, list + [b]) == Pick(bs, list) + bs[b]
  {
    PickAppend(bs, list, [b]);
    assert [b][1..] == [] && Pick(bs, [b]) == bs[b] + [];
  }

  lemma ShareAt<K, V>(d: Dict<K, V>, k: nat, i: nat)
    requires Ready(d) && Size(d) != 0 && k == Exponents(d).0 && CursorAt(k, i)[k..] == Fill(WIDTH - k, false)
    ensures BucketAt(k, i) < |Shares(d)|
    ensures Scan(d, CursorAt(k, i)) == (Shares(d)[BucketAt(k, i)], NextCursor(CursorAt(k, i), k))
  {
    hide Shares, Scan, CursorAt;
    ScanEmitsShare(d, CursorAt(k, i));
  }

  lemma CursorStep(k: nat, n: nat)
    requires k <= WIDTH && n > 0
    ensures CursorAt(k, n) == NextCursor(CursorAt(k, n - 1), k)
  {
  }

  /**
    The scan of a dictionary that does not change, at rest or in the middle of a rehash.  From
    cursor 0 on, dictScan returns 0 for the first time after as many calls as the smaller table has
    buckets, and by then it has emitted every entry of the two tables exactly once, and nothing else.
   */
  lemma UnchangedScanEmitsOnce<K(!new), V>(hash: K -> nat, d: Dict<K, V>)
    requires WF(hash, d) && Addressable(d) && Size(d) != 0
    ensures Ready(d)
    ensures var size := Pow2(Exponents(d).0);
      && size == (if IsRehashing(d) && |d.ht1.buckets| < |d.ht0.buckets| then |d.ht1.buckets| else |d.ht0.buckets|)
      && (forall i :: 0 < i <= size ==> (Scans(d, i).1 == Fill(WIDTH, false) <==> i == size))
      && multiset(Scans(d, size).0) == multiset(Flatten(d.ht0.buckets)) + multiset(Flatten(d.ht1.buckets))
  {
    WFIsSized(hash, d);
    assert !IsRehashing(d) ==> d.ht1.buckets == [];
    if IsRehashing(d) { SmallerFirst(d); }
    SharesFlatten(d);
    hide Shares, Flatten, Scans, WF, Ready, CursorAt, BucketAt;
    forall i | 0 < i <= Pow2(Exponents(d).0) ensures Scans(d, i).1 == Fill(WIDTH, false) <==> i == Pow2(Exponents(d).0) {
      ScansPick(d, i);
      ScanTakesSizeCalls(Exponents(d).0, i);
    }
    AllScansEmit(d);
  }

  lemma AllScansEmit<K, V>(d: Dict<K, V>)
    requires Ready(d) && Size(d) != 0
    ensures multiset(Scans(d, Pow2(Exponents(d).0)).0) == multiset(Flatten(Shares(d)))
  {
    var k := Exponents(d).0;
    var size := Pow2(k);
    ScansPick(d, size);
    hide Shares, Scans, Ready, Exponents, CursorAt, BucketAt, Pow2, Flatten, Pick;
    AllBuckets(k);
    PickAll(Shares(d), BucketList(k, size));
  }

  lemma AllBuckets(k: nat)
    requires k <= WIDTH
    ensures NamesAll(BucketList(k, Pow2(k)), Pow2(k))
  {
    var size, list := Pow2(k), BucketList(k, Pow2(k));
    hide Pow2, BucketAt, Value;
    forall i | 0 <= i < size ensures list[i] < size { BucketBound(k, i); }
    forall i, j | 0 <= i < j < size ensures list[i] != list[j] { ScanVisitsOnce(k, i, j); }
    forall b: nat | b < size ensures b in list {
      ScanVisitsEveryBucket(k, b);
      var i: nat :| i < size && BucketAt(k, i) == b;
      assert list[i] == b;
    }
  }

  lemma BucketBound(k: nat, i: nat)
    requires k <= WIDTH
    ensures BucketAt(k, i) < Pow2(k)
  {
    ValueBound(CursorAt(k, i)[..k]);
  }
}
