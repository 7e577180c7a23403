/**
  The scan of dict.c when a rehash to a smaller table starts during it: every cursor is covered
  exactly when the two tables differ by a factor of two at most.  A shrink to a quarter of the size
  can lose an entry, as a run from the empty dictionary shows.
 */
module DictScanShrink {
  import opened Options
  import opened DictModel
  import opened DictRefinement
  import opened DictScan
  import opened Words

  // ---------- Which pairs of tables are safe ----------

  /** Neither table is more than twice as long as the other. */
  predicate Near<K, V>(d: Dict<K, V>) {
    IsRehashing(d) ==> |d.ht0.buckets| <= 2 * |d.ht1.buckets| && |d.ht1.buckets| <= 2 * |d.ht0.buckets|
  }

  lemma {:induction false} Pow2Grows(a: nat, b: nat)
    requires a <= b
    ensures Pow2(a) <= Pow2(b)
  {
    if a < b { Pow2Grows(a, b - 1); }
  }

  /** Sizes within a factor of two have neighbouring exponents. */
  lemma FactorTwo(a: nat, b: nat)
    ensures Pow2(b) <= 2 * Pow2(a) <==> b <= a + 1
  {
    if b <= a + 1 { Pow2Grows(b, a + 1); } else { Pow2Grows(a + 2, b); }
  }

  /** At each cursor the call covers its share, if and only if the tables differ by a factor of two at most. */
  lemma NearCoversIff<K(!new), V>(hash: K -> nat, d: Dict<K, V>)
    requires WF(hash, d) && Addressable(d)
    ensures Near(d) <==> forall v: Word :: Covering(d, v)
  {
    var (k0, k1) := Exponents(d);
    NearExponents(hash, d);
    if k1 <= k0 + 1 {
      forall v: Word ensures Covering(d, v) { assert |v[k0..k1]| <= 1; }
    } else {
      var v: Word := Fill(WIDTH, false)[k0 + 1 := true];
      var mid := v[k0..k1];
      assert !mid[0] && mid[1] && !LowRun(mid);
      assert !Covering(d, v);
    }
  }

  lemma NearExponents<K(!new), V>(hash: K -> nat, d: Dict<K, V>)
    requires WF(hash, d) && Addressable(d)
    ensures Near(d) <==> Exponents(d).1 <= Exponents(d).0 + 1
  {
    WFIsSized(hash, d);
    var a, b := Log2(|d.ht0.buckets|), Log2(|d.ht1.buckets|);
    FactorTwo(a, b);
    FactorTwo(b, a);
  }

  /** A run in which the tables differ by a factor of two at most at each scan call; they may shrink. */
  ghost predicate NearRun<K(!new), V>(hash: K -> nat, d: Dict<K, V>, events: seq<Event<K, V>>)
    decreases |events|
  {
    events != [] ==>
      if events[0].ScanEvent? then Near(d) && NearRun(hash, d, events[1..])
      else NearRun(hash, Apply(hash, d, events[0].op).0, events[1..])
  }

  lemma {:induction false} NearIsCovering<K(!new), V>(hash: K -> nat, d: Dict<K, V>, v: Word,
      events: seq<Event<K, V>>)
    requires Legal(hash, d, events) && NearRun(hash, d, events)
    ensures CoveringRun(hash, d, v, events)
    decreases |events|
  {
    if events != [] {
      if events[0].ScanEvent? {
        NearCoversIff(hash, d);
        WFIsSized(hash, d);
        NearIsCovering(hash, d, Scan(d, v).1, events[1..]);
      } else {
        NearIsCovering(hash, Apply(hash, d, events[0].op).0, v, events[1..]);
      }
    }
  }

  /** Such a scan loses nothing, though the tables shrink under it. */
  lemma NearScanVisitsAll<K(!new), V>(hash: K -> nat, d: Dict<K, V>, events: seq<Event<K, V>>, k: K)
    requires Legal(hash, d, events) && NearRun(hash, d, events)
    requires k in View(hash, d) && OpEvent(DeleteOp(k)) !in events
    requires events != [] && events[|events| - 1].ScanEvent?
    requires ScanRun(hash, d, Fill(WIDTH, false), events).1 == Fill(WIDTH, false)
    ensures HasKey(ScanRun(hash, d, Fill(WIDTH, false), events).0, k)
  {
    NearIsCovering(hash, d, Fill(WIDTH, false), events);
    ScanVisitsAll(hash, d, events, k);
  }

  // ---------- A shrink that loses an entry ----------

  function Id(k: nat): nat { k }

  /** Sixteen buckets, and key 4 in bucket 4. */
  function Sixteen(): Dict<nat, ()> {
    Dict(Table(seq(16, _ => [])[4 := [Entry(4, ())]], 1), EmptyTable(), -1, 0, true)
  }

  /** The same dictionary when a rehash to four buckets has started. */
  function ToFour(): Dict<nat, ()> {
    Sixteen().(ht1 := Table(seq(4, _ => []), 0), rehashidx := 0)
  }

  /** One call, then the shrink, and the four calls that bring the cursor back to 0. */
  function ShrinkEvents(): seq<Event<nat, ()>> { [ScanEvent, OpEvent(ExpandOp(4))] + Calls(4) }

  function Calls(n: nat): (r: seq<Event<nat, ()>>)
    ensures |r| == n && forall i :: 0 <= i < n ==> r[i] == ScanEvent
  {
    seq(n, _ => ScanEvent)
  }

  lemma SixteenIsReached()
    ensures Run(Id, EmptyDict<nat, ()>(true), [ExpandOp(16), AddOp(4, ())]).0 == Sixteen()
    ensures Apply(Id, Sixteen(), ExpandOp(4)).0 == ToFour()
  {
    var d0 := EmptyDict<nat, ()>(true);
    assert NextPower(16) == 16 && NextPower(4) == 4;
    var ops: seq<Op<nat, ()>> := [ExpandOp(16), AddOp(4, ())];
    var d1 := Apply(Id, d0, ops[0]).0;
    assert d1 == Dict(Table(seq(16, _ => []), 0), EmptyTable(), -1, 0, true);
    assert Apply(Id, d1, AddOp(4, ())).0 == Sixteen() by {
      assert Index(Id, 16, 4) == 4;
      assert [Entry(4, ())] + [] == [Entry(4, ())];
    }
    assert ops[1..] == [AddOp(4, ())] && ops[1..][1..] == [];
    assert Run(Id, d1, ops[1..]).0 == Run(Id, Sixteen(), []).0 == Sixteen();
  }

  lemma SixteenSizes()
    ensures Pow2(2) == 4 && Pow2(4) == 16 && Log2(16) == 4 && Log2(4) == 2
  {
    Log2OfPow2(2);
    Log2OfPow2(4);
  }

  /** The word of hash 4. */
  lemma FourWord()
    ensures HashWord(Id, 4)[..2] == [false, false] && Value(HashWord(Id, 4)[2..4]) == 1
    ensures Value(HashWord(Id, 4)[..4]) == 4
  {
    FourBits();
    FromNatPrefix(4, 4, WIDTH);
    hide FromNat, Value;
    assert HashWord(Id, 4)[2..4] == HashWord(Id, 4)[..4][2..] == [true, false];
    assert HashWord(Id, 4)[..2] == HashWord(Id, 4)[..4][..2];
  }

  lemma FourBits()
    ensures FromNat(4, 4) == [false, false, true, false] && Value(FromNat(4, 4)) == 4 && Value([true, false]) == 1
  {
  }

  /** The expansions of a cursor share its low bits. */
  lemma {:induction false} ExpansionsLow(v: Word, k0: nat, k1: nat, c: Word)
    requires k0 <= k1 <= WIDTH && c in Expansions(v, k0, k1)
    ensures c[..k0] == v[..k0]
    decreases Pow2(k1 - k0) - Value(v[k0..k1])
  {
    var next := NextHigh(v, k0);
    ExpansionAdvances(v, k0, k1);
    assert next[..k0] == v[..k0];
    if c != v { ExpansionsLow(next, k0, k1, c); }
  }

  lemma {:induction false} NothingThere(cursors: seq<Word>)
    requires forall i :: 0 <= i < |cursors| ==> Value(cursors[i][..4]) != 4
    ensures |Sixteen().ht0.buckets| == Pow2(4) && EmitAll(Sixteen().ht0, cursors, 4) == []
  {
    SixteenSizes();
    if cursors != [] {
      NothingThere(cursors[1..]);
      ValueBound(cursors[0][..4]);
    }
  }

  /** A call that is not at the low bits of hash 4, or is behind it in the larger table, does not emit it. */
  lemma CallMisses(v: Word)
    requires v[..2] != [false, false] || Value(v[2..4]) > 1
    ensures Ready(ToFour()) && Scan(ToFour(), v) == ([], NextCursor(v, 2))
  {
    SixteenSizes();
    FourWord();
    var h, cs := HashWord(Id, 4), Expansions(v, 2, 4);
    if v[..2] == h[..2] { VisitsFrom(v, 2, 4, h); }
    forall i | 0 <= i < |cs| ensures Value(cs[i][..4]) != 4 {
      ExpansionsLow(v, 2, 4, cs[i]);
      assert cs[i][..4][..2] == cs[i][..2] && h[..4][..2] == h[..2];
      if Value(cs[i][..4]) == 4 { ValueInjective(cs[i][..4], h[..4]); }
    }
    NothingThere(cs);
    ValueBound(v[..2]);
  }

  /** The cursor after the bits `w` of a table of 2^|w| buckets. */
  lemma NextBits(v: Word, w: Bits)
    requires |w| <= WIDTH && v[..|w|] == w
    ensures NextCursor(v, |w|)[..|w|] == ReverseInc(w) && NextCursor(v, |w|)[|w|..] == Fill(WIDTH - |w|, false)
  {
  }

  lemma ShortReverses()
    ensures ReverseInc([false, false]) == [false, true] && ReverseInc([false, true]) == [true, false]
    ensures ReverseInc([true, false]) == [true, true] && ReverseInc([true, true]) == [false, false]
    ensures ReverseInc([false, false, false, false]) == [false, false, false, true]
  {
    assert Reverse([false, false]) == [false, false] && Reverse([false, true]) == [true, false];
    assert Reverse([true, false]) == [false, true] && Reverse([true, true]) == [true, true];
    assert Reverse([false, false, false, false]) == [false, false, false, false];
    assert Inc([false, false, false, false]) == [true, false, false, false];
    assert Reverse([true, false, false, false]) == [false, false, false, true];
  }

  lemma BothWF()
    ensures WF(Id, Sixteen()) && WF(Id, ToFour()) && Addressable(Sixteen()) && Addressable(ToFour())
    ensures 4 in View(Id, Sixteen())
  {
    var d0, ops := EmptyDict<nat, ()>(true), [ExpandOp(16), AddOp(4, ())];
    SixteenIsReached();
    SixteenSizes();
    EmptyIsWF<nat, ()>(Id, true);
    hide WF, View, Run, RunMap, Sixteen, ToFour;
    RunRefinesMap(Id, d0, ops);
    ApplyRefinesMap(Id, Sixteen(), ExpandOp(4));
    FourIsIn();
  }

  lemma FourIsIn()
    requires WF(Id, Sixteen())
    ensures 4 in View(Id, Sixteen()) && Addressable(Sixteen()) && Addressable(ToFour())
  {
    SixteenSizes();
    ViewIsLookup(Id, Sixteen());
    assert Index(Id, 16, 4) == 4;
    assert Lookup(Id, Sixteen(), 4).Some?;
  }

  /** Four calls on the shrinking dictionary, each of which misses key 4. */
  lemma {:induction false} CallsLegal(n: nat)
    ensures Legal(Id, ToFour(), Calls(n))
    decreases n
  {
    hide WF, Sixteen, ToFour, Addressable, View;
    BothWF();
    if n > 0 {
      CallsLegal(n - 1);
      assert Calls(n)[1..] == Calls(n - 1);
    }
  }

  lemma ScanFirst<K(!new), V>(hash: K -> nat, d: Dict<K, V>, v: Word, events: seq<Event<K, V>>)
    requires Legal(hash, d, events) && events != [] && events[0].ScanEvent? && Ready(d) && Scan(d, v).0 == []
    ensures Legal(hash, d, events[1..]) && ScanRun(hash, d, v, events) == ScanRun(hash, d, Scan(d, v).1, events[1..])
  {
    var r := ScanRun(hash, d, Scan(d, v).1, events[1..]);
    assert [] + r.0 == r.0;
  }

  lemma OpFirst<K(!new), V>(hash: K -> nat, d: Dict<K, V>, v: Word, events: seq<Event<K, V>>)
    requires WF(hash, d) && events != [] && events[0].OpEvent?
    requires Legal(hash, Apply(hash, d, events[0].op).0, events[1..])
    ensures Legal(hash, d, events)
    ensures ScanRun(hash, d, v, events) == ScanRun(hash, Apply(hash, d, events[0].op).0, v, events[1..])
  {
  }

  /** One more call in front. */
  lemma CallFirst(v: Word, n: nat)
    requires v[..2] != [false, false] || Value(v[2..4]) > 1
    ensures Legal(Id, ToFour(), Calls(n + 1)) && Legal(Id, ToFour(), Calls(n))
    ensures ScanRun(Id, ToFour(), v, Calls(n + 1)) == ScanRun(Id, ToFour(), NextCursor(v, 2), Calls(n))
  {
    hide Legal, ToFour, Scan, ScanRun, NextCursor, Value, Ready, Fill;
    CallsLegal(n + 1);
    CallMisses(v);
    assert Calls(n + 1)[1..] == Calls(n);
    ScanFirst(Id, ToFour(), v, Calls(n + 1));
  }

  /** The cursors of the four calls, and the one after them. */
  function FourCursors(v: Word): (r: seq<Word>)
    ensures |r| == 5 && r[0] == v && forall i :: 0 <= i < 4 ==> r[i + 1] == NextCursor(r[i], 2)
  {
    var v2 := NextCursor(v, 2);
    var v3 := NextCursor(v2, 2);
    var v4 := NextCursor(v3, 2);
    [v, v2, v3, v4, NextCursor(v4, 2)]
  }

  lemma FourCursorsMiss(v: Word)
    requires v[..4] == [false, false, false, true]
    ensures var vs := FourCursors(v);
      && (forall i :: 0 <= i < 4 ==> vs[i][..2] != [false, false] || Value(vs[i][2..4]) > 1)
      && vs[4] == Fill(WIDTH, false)
  {
    var vs := FourCursors(v);
    ShortReverses();
    assert v[2..4] == v[..4][2..] == [false, true] && Value([false, true]) == 2;
    assert v[..2] == v[..4][..2] == [false, false];
    hide NextCursor, ReverseInc, Value, FourCursors;
    NextBits(vs[0], [false, false]);
    NextBits(vs[1], [false, true]);
    NextBits(vs[2], [true, false]);
    NextBits(vs[3], [true, true]);
    assert vs[4] == vs[4][..2] + vs[4][2..] && vs[4] == Fill(WIDTH, false);
  }

  lemma {:induction false} CallsMiss(vs: seq<Word>, i: nat)
    requires |vs| == 5 && i <= 4 && forall i :: 0 <= i < 4 ==> vs[i + 1] == NextCursor(vs[i], 2)
    requires forall i :: 0 <= i < 4 ==> vs[i][..2] != [false, false] || Value(vs[i][2..4]) > 1
    ensures Legal(Id, ToFour(), Calls(4 - i)) && ScanRun(Id, ToFour(), vs[i], Calls(4 - i)) == ([], vs[4])
    decreases 4 - i
  {
    hide ScanRun, Legal, ToFour, NextCursor, Value, Calls;
    if i == 4 {
      NoCalls(vs[4]);
    } else {
      CallsMiss(vs, i + 1);
      CallFirst(vs[i], 3 - i);
    }
  }

  lemma FourCalls(v: Word)
    requires v[..4] == [false, false, false, true]
    ensures Legal(Id, ToFour(), Calls(4)) && ScanRun(Id, ToFour(), v, Calls(4)) == ([], Fill(WIDTH, false))
  {
    hide ScanRun, Legal, ToFour, NextCursor, Value, Fill, FourCursors, Calls;
    FourCursorsMiss(v);
    CallsMiss(FourCursors(v), 0);
  }

  lemma NoCalls(v: Word)
    ensures Legal(Id, ToFour(), Calls(0)) && ScanRun(Id, ToFour(), v, Calls(0)) == ([], v)
  {
    CallsLegal(0);
  }

  /** The first call, on sixteen buckets, looks into bucket 0. */
  lemma FirstCall()
    ensures Ready(Sixteen()) && Scan(Sixteen(), Fill(WIDTH, false)).0 == []
    ensures Scan(Sixteen(), Fill(WIDTH, false)).1[..4] == [false, false, false, true]
  {
    var zero: Word := Fill(WIDTH, false);
    SixteenSizes();
    ShortReverses();
    assert zero[..4] == [false, false, false, false];
    assert Value(zero[..4]) == 0 by { ValueOfFill(4); assert zero[..4] == Fill(4, false); }
    NextBits(zero, [false, false, false, false]);
  }

  /**
    A reachable dictionary of sixteen buckets, scanned from cursor 0: after the first call a rehash
    to four buckets starts, and four calls later the cursor is 0 again.  Key 4 was there all the
    time, and no call has emitted it.
   */
  lemma ShrinkLosesEntry()
    ensures Run(Id, EmptyDict<nat, ()>(true), [ExpandOp(16), AddOp(4, ())]).0 == Sixteen()
    ensures 4 in View(Id, Sixteen()) && OpEvent(DeleteOp(4)) !in ShrinkEvents()
    ensures Legal(Id, Sixteen(), ShrinkEvents())
    ensures ScanRun(Id, Sixteen(), Fill(WIDTH, false), ShrinkEvents()) == ([], Fill(WIDTH, false))
  {
    hide Sixteen, ToFour, WF, Calls, ScanRun, Scan, ShrinkEvents, Apply, View, Fill, Run, Legal;
    var zero: Word := Fill(WIDTH, false);
    var events := ShrinkEvents();
    SixteenIsReached();
    BothWF();
    FirstCall();
    var v := Scan(Sixteen(), zero).1;
    FourCalls(v);
    EventsUnfold();
    OpFirst(Id, Sixteen(), v, events[1..]);
    LegalFirst(Id, Sixteen(), events);
    ScanFirst(Id, Sixteen(), zero, events);
  }

  lemma EventsUnfold()
    ensures var events := ShrinkEvents();
      && |events| == 6 && events[0] == ScanEvent && events[1] == OpEvent(ExpandOp(4)) && events[1..][1..] == Calls(4)
      && OpEvent(DeleteOp(4)) !in events
  {
  }

  lemma LegalFirst<K(!new), V>(hash: K -> nat, d: Dict<K, V>, events: seq<Event<K, V>>)
    requires events != [] && events[0].ScanEvent? && WF(hash, d) && Addressable(d) && Legal(hash, d, events[1..])
    ensures Legal(hash, d, events)
  {
  }
}
