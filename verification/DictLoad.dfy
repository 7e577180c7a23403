/**
  How full the tables of dict.c get: while resizing is enabled and no safe iterator runs, the
  newest table never holds more than one entry above its size, and a rehash ends in time.
 */
module DictLoad {
  import opened DictModel
  import opened DictRefinement

  /** The number of chains that are not empty. */
  function NonEmpty<K, V>(bs: seq<Chain<K, V>>): nat {
    if bs == [] then 0 else (if bs[0] == [] then 0 else 1) + NonEmpty(bs[1..])
  }

  function NewestSize<K, V>(d: Dict<K, V>): nat {
    if IsRehashing(d) then |d.ht1.buckets| else |d.ht0.buckets|
  }

  /** The load invariant: the old table's buckets that are still to be moved count too. */
  ghost predicate Loaded<K(!new), V>(hash: K -> nat, d: Dict<K, V>) {
    && WF(hash, d) && d.canResize && d.iterators == 0
    && Size(d) + (if IsRehashing(d) then NonEmpty(d.ht0.buckets) else 0) <= NewestSize(d) + 1
  }

  /** Turns of dictRehash that are left in the rehash in progress. */
  function TurnsLeft<K, V>(d: Dict<K, V>): nat {
    if IsRehashing(d) then NonEmpty(d.ht0.buckets) + 1 else 0
  }

  /** Unless the step of this operation ends the rehash, fewer turns are left after it. */
  ghost predicate Advances<K(!new), V>(hash: K -> nat, d: Dict<K, V>, d': Dict<K, V>) {
    IsRehashing(d) && IsRehashing(Step(hash, d)) ==> TurnsLeft(d') < TurnsLeft(d)
  }

  lemma {:induction false} NonEmptyUpdate<K, V>(bs: seq<Chain<K, V>>, i: nat, c: Chain<K, V>)
    requires i < |bs|
    ensures NonEmpty(bs[i := c]) == NonEmpty(bs) - (if bs[i] == [] then 0 else 1) + (if c == [] then 0 else 1)
  {
    if i == 0 {
      assert bs[i := c][1..] == bs[1..];
    } else {
      NonEmptyUpdate(bs[1..], i - 1, c);
      assert bs[i := c][1..] == bs[1..][i - 1 := c];
    }
  }

  lemma {:induction false} NonEmptyAtMostTotal<K, V>(bs: seq<Chain<K, V>>)
    ensures NonEmpty(bs) <= Total(bs)
  {
    if bs != [] { NonEmptyAtMostTotal(bs[1..]); }
  }

  /** A turn of dictRehash empties one bucket, or ends the rehash. */
  lemma RehashOneLoad<K(!new), V>(hash: K -> nat, d: Dict<K, V>)
    requires WF(hash, d) && IsRehashing(d)
    ensures var d' := RehashOne(hash, d);
      && WF(hash, d') && Size(d') == Size(d)
      && (IsRehashing(d') <==> d.ht0.used != 0)
      && TurnsLeft(d') < TurnsLeft(d)
      && (IsRehashing(d') ==> NonEmpty(d'.ht0.buckets) == NonEmpty(d.ht0.buckets) - 1)
      && |d'.ht1.buckets| == (if IsRehashing(d') then |d.ht1.buckets| else 0)
      && |d'.ht0.buckets| == (if IsRehashing(d') then |d.ht0.buckets| else |d.ht1.buckets|)
  {
    RehashOneKeeps(hash, d);
    if d.ht0.used != 0 {
      SkipLoopStops(hash, d);
      NonEmptyUpdate(d.ht0.buckets, FirstNonEmpty(d.ht0.buckets, d.rehashidx), []);
    }
  }

  lemma StepLoad<K(!new), V>(hash: K -> nat, d: Dict<K, V>)
    requires Loaded(hash, d)
    ensures Loaded(hash, Step(hash, d))
    ensures IsRehashing(Step(hash, d)) ==> Size(d) + NonEmpty(Step(hash, d).ht0.buckets) <= NewestSize(d)
    ensures IsRehashing(d) ==> TurnsLeft(Step(hash, d)) < TurnsLeft(d)
  {
    StepKeeps(hash, d);
    if IsRehashing(d) { RehashOneLoad(hash, d); }
  }

  lemma ExpandLoad<K(!new), V>(hash: K -> nat, d: Dict<K, V>)
    requires Loaded(hash, d) && !IsRehashing(d)
    ensures var d' := ExpandIfNeeded(d).0;
      && WF(hash, d') && d'.iterators == 0 && d'.canResize && Size(d') == Size(d)
      && Size(d) + (if IsRehashing(d') then NonEmpty(d'.ht0.buckets) else 0) <= NewestSize(d')
  {
    ExpandIfNeededKeeps(hash, d);
    NonEmptyAtMostTotal(d.ht0.buckets);
    assert d.ht0.used == Total(d.ht0.buckets) && d.ht1.used == 0;
    hide WF, NextPower;
    if d.ht0.buckets != [] { NextPowerIsLeast(d.ht0.used * 2); }
  }

  lemma AddLoad<K(!new), V>(hash: K -> nat, d: Dict<K, V>, k: K, v: V)
    requires Loaded(hash, d)
    ensures Loaded(hash, Add(hash, d, k, v).0) && Advances(hash, d, Add(hash, d, k, v).0)
  {
    StepLoad(hash, d);
    AddAdds(hash, d, k, v);
    var d1 := Step(hash, d);
    if !IsRehashing(d1) { ExpandLoad(hash, d1); }
  }

  lemma RemoveLoad<K(!new), V>(hash: K -> nat, t: Table<K, V>, k: K)
    ensures NonEmpty(RemoveFromTable(hash, t, k).buckets) <= NonEmpty(t.buckets)
  {
    if t.buckets != [] {
      var i := Index(hash, |t.buckets|, k);
      NonEmptyUpdate(t.buckets, i, RemoveFromChain(t.buckets[i], k));
    }
  }

  lemma SetLoad<K(!new), V>(hash: K -> nat, t: Table<K, V>, k: K, v: V)
    ensures NonEmpty(SetInTable(hash, t, k, v).buckets) == NonEmpty(t.buckets)
  {
    if t.buckets != [] {
      var i := Index(hash, |t.buckets|, k);
      NonEmptyUpdate(t.buckets, i, SetInChain(t.buckets[i], k, v));
    }
  }

  lemma ReplaceLoad<K(!new), V>(hash: K -> nat, d: Dict<K, V>, k: K, v: V)
    requires Loaded(hash, d)
    ensures Loaded(hash, Replace(hash, d, k, v).0) && Advances(hash, d, Replace(hash, d, k, v).0)
  {
    AddLoad(hash, d, k, v);
    ReplaceReplaces(hash, d, k, v);
    var (d1, added) := Add(hash, d, k, v);
    if !added {
      StepLoad(hash, d1);
      SetLoad(hash, Find(hash, d1, k).0.ht0, k, v);
    }
  }

  lemma DeleteLoad<K(!new), V>(hash: K -> nat, d: Dict<K, V>, k: K)
    requires Loaded(hash, d)
    ensures Loaded(hash, Delete(hash, d, k).0) && Advances(hash, d, Delete(hash, d, k).0)
  {
    StepLoad(hash, d);
    DeleteDeletes(hash, d, k);
    RemoveLoad(hash, Step(hash, d).ht0, k);
  }

  lemma {:induction false} RehashLoad<K(!new), V>(hash: K -> nat, d: Dict<K, V>, n: nat)
    requires Loaded(hash, d)
    ensures Loaded(hash, Rehash(hash, d, n).0)
    decreases n
  {
    if IsRehashing(d) && n > 0 {
      RehashOneKeeps(hash, d);
      RehashOneLoad(hash, d);
      RehashLoad(hash, RehashOne(hash, d), n - 1);
    }
  }

  // ---------- Runs ----------

  /** The operations that take a rehash step. */
  predicate TakesStep<K, V>(op: Op<K, V>) { op.AddOp? || op.FindOp? || op.ReplaceOp? || op.DeleteOp? }

  lemma ApplyLoad<K(!new), V>(hash: K -> nat, d: Dict<K, V>, op: Op<K, V>)
    requires Loaded(hash, d) && (TakesStep(op) || op.RehashOp?)
    ensures Loaded(hash, Apply(hash, d, op).0)
    ensures TakesStep(op) ==> Advances(hash, d, Apply(hash, d, op).0)
  {
    match op {
      case AddOp(k, v) => AddLoad(hash, d, k, v);
      case FindOp(k) => StepLoad(hash, d);
      case ReplaceOp(k, v) => ReplaceLoad(hash, d, k, v);
      case DeleteOp(k) => DeleteLoad(hash, d, k);
      case RehashOp(n) => RehashLoad(hash, d, n);
    }
  }

  lemma {:induction false} RunStaysLoaded<K(!new), V>(hash: K -> nat, d: Dict<K, V>, ops: seq<Op<K, V>>)
    requires Loaded(hash, d) && forall op :: op in ops ==> TakesStep(op) || op.RehashOp?
    ensures Loaded(hash, Run(hash, d, ops).0)
    decreases |ops|
  {
    if ops != [] {
      ApplyLoad(hash, d, ops[0]);
      RunStaysLoaded(hash, Apply(hash, d, ops[0]).0, ops[1..]);
    }
  }

  /** The load bound: after any run from empty, the entries exceed the newest table's size by at most one. */
  lemma LoadBound<K(!new), V>(hash: K -> nat, ops: seq<Op<K, V>>)
    requires forall op :: op in ops ==> TakesStep(op) || op.RehashOp?
    ensures var d := Run(hash, EmptyDict<K, V>(true), ops).0;
      |View(hash, d)| == Size(d) <= NewestSize(d) + 1
  {
    EmptyIsWF<K, V>(hash, true);
    RunStaysLoaded(hash, EmptyDict<K, V>(true), ops);
    ViewIsLookup(hash, Run(hash, EmptyDict<K, V>(true), ops).0);
  }

  /** dictRehash called for at least as many turns as are left ends the rehash. */
  lemma {:induction false} RehashFinishes<K(!new), V>(hash: K -> nat, d: Dict<K, V>, n: nat)
    requires WF(hash, d) && n >= TurnsLeft(d)
    ensures !IsRehashing(Rehash(hash, d, n).0)
    decreases n
  {
    if IsRehashing(d) {
      RehashOneLoad(hash, d);
      RehashFinishes(hash, RehashOne(hash, d), n - 1);
    }
  }

  /** The first step of operation number i of the run ends the rehash, or a later step of it does (dictReplace takes two). */
  ghost predicate EndsAt<K(!new), V>(hash: K -> nat, d: Dict<K, V>, ops: seq<Op<K, V>>, i: nat)
    requires i < |ops|
  {
    var d' := Run(hash, d, ops[..i]).0;
    !IsRehashing(Step(hash, d')) || !IsRehashing(Apply(hash, d', ops[i]).0)
  }

  lemma EndsLater<K(!new), V>(hash: K -> nat, d: Dict<K, V>, ops: seq<Op<K, V>>, i: nat)
    requires i + 1 < |ops| && EndsAt(hash, Apply(hash, d, ops[0]).0, ops[1..], i)
    ensures EndsAt(hash, d, ops, i + 1)
  {
    assert ops[..i + 1][1..] == ops[1..][..i];
  }

  /** In any run of at least (non-empty old buckets + 1) such operations, the step of one of them ends the rehash. */
  lemma {:induction false} RehashEndsDuringRun<K(!new), V>(hash: K -> nat, d: Dict<K, V>, ops: seq<Op<K, V>>)
    requires Loaded(hash, d) && IsRehashing(d) && |ops| >= TurnsLeft(d)
    requires forall op :: op in ops ==> TakesStep(op)
    ensures exists i: nat :: i < TurnsLeft(d) && EndsAt(hash, d, ops, i)
    decreases |ops|
  {
    var d1 := Apply(hash, d, ops[0]).0;
    if !IsRehashing(Step(hash, d)) || !IsRehashing(d1) {
      assert EndsAt(hash, d, ops, 0);
    } else {
      ApplyLoad(hash, d, ops[0]);
      RehashEndsDuringRun(hash, d1, ops[1..]);
      var i: nat :| i < TurnsLeft(d1) && EndsAt(hash, d1, ops[1..], i);
      EndsLater(hash, d, ops, i);
    }
  }

  // ---------- With resizing switched off and on ----------

  /** The entries for each bucket at which a table is enlarged although resizing is disabled. */
  const FORCED: nat := 6

  /** The invariant for any setting of the resize switch: only a rehash keeps the tight bound. */
  ghost predicate Bounded<K(!new), V>(hash: K -> nat, d: Dict<K, V>) {
    && WF(hash, d) && d.iterators == 0
    && if IsRehashing(d) then Size(d) + NonEmpty(d.ht0.buckets) <= NewestSize(d) + 1 else Size(d) <= FORCED * NewestSize(d)
  }

  lemma StepBounded<K(!new), V>(hash: K -> nat, d: Dict<K, V>)
    requires Bounded(hash, d)
    ensures Bounded(hash, Step(hash, d))
    ensures IsRehashing(Step(hash, d)) ==> Size(d) + NonEmpty(Step(hash, d).ht0.buckets) <= NewestSize(d)
  {
    StepKeeps(hash, d);
    if IsRehashing(d) { RehashOneLoad(hash, d); }
  }

  lemma ExpandBounded<K(!new), V>(hash: K -> nat, d: Dict<K, V>)
    requires Bounded(hash, d) && !IsRehashing(d)
    ensures var d' := ExpandIfNeeded(d).0;
      && WF(hash, d') && d'.iterators == 0 && Size(d') == Size(d)
      && if IsRehashing(d') then Size(d) + NonEmpty(d'.ht0.buckets) <= NewestSize(d') else Size(d) < FORCED * NewestSize(d')
  {
    ExpandIfNeededKeeps(hash, d);
    NonEmptyAtMostTotal(d.ht0.buckets);
    assert d.ht0.used == Total(d.ht0.buckets) && d.ht1.used == 0;
    hide WF, NextPower;
    if d.ht0.buckets != [] {
      NextPowerIsLeast(d.ht0.used * 2);
      RatioReached(d.ht0.used, |d.ht0.buckets|);
    }
  }

  lemma RatioReached(used: nat, size: nat)
    requires size > 0
    ensures used / size > FORCE_RESIZE_RATIO <==> used >= FORCED * size
  {
    var q, r := used / size, used % size;
    assert used == q * size + r;
    if q > FORCE_RESIZE_RATIO {
      assert q * size >= FORCED * size;
    } else {
      assert q * size <= FORCE_RESIZE_RATIO * size;
    }
  }

  lemma AddBounded<K(!new), V>(hash: K -> nat, d: Dict<K, V>, k: K, v: V)
    requires Bounded(hash, d)
    ensures Bounded(hash, Add(hash, d, k, v).0)
  {
    StepBounded(hash, d);
    AddAdds(hash, d, k, v);
    var d1 := Step(hash, d);
    if !IsRehashing(d1) { ExpandBounded(hash, d1); }
  }

  lemma ReplaceBounded<K(!new), V>(hash: K -> nat, d: Dict<K, V>, k: K, v: V)
    requires Bounded(hash, d)
    ensures Bounded(hash, Replace(hash, d, k, v).0)
  {
    AddBounded(hash, d, k, v);
    ReplaceReplaces(hash, d, k, v);
    var (d1, added) := Add(hash, d, k, v);
    if !added {
      StepBounded(hash, d1);
      SetLoad(hash, Find(hash, d1, k).0.ht0, k, v);
    }
  }

  lemma DeleteBounded<K(!new), V>(hash: K -> nat, d: Dict<K, V>, k: K)
    requires Bounded(hash, d)
    ensures Bounded(hash, Delete(hash, d, k).0)
  {
    StepBounded(hash, d);
    DeleteDeletes(hash, d, k);
    RemoveLoad(hash, Step(hash, d).ht0, k);
  }

  lemma {:induction false} RehashBounded<K(!new), V>(hash: K -> nat, d: Dict<K, V>, n: nat)
    requires Bounded(hash, d)
    ensures Bounded(hash, Rehash(hash, d, n).0)
    decreases n
  {
    if IsRehashing(d) && n > 0 {
      RehashOneKeeps(hash, d);
      RehashOneLoad(hash, d);
      RehashBounded(hash, RehashOne(hash, d), n - 1);
    }
  }

  lemma {:induction false} RunStaysBounded<K(!new), V>(hash: K -> nat, d: Dict<K, V>, ops: seq<Op<K, V>>)
    requires Bounded(hash, d) && forall op :: op in ops ==> TakesStep(op) || op.RehashOp? || op.ResizeOp?
    ensures Bounded(hash, Run(hash, d, ops).0)
    decreases |ops|
  {
    if ops != [] {
      assert ops[0] in ops;
      match ops[0] {
        case AddOp(k, v) => AddBounded(hash, d, k, v);
        case FindOp(k) => StepBounded(hash, d);
        case ReplaceOp(k, v) => ReplaceBounded(hash, d, k, v);
        case DeleteOp(k) => DeleteBounded(hash, d, k);
        case RehashOp(n) => RehashBounded(hash, d, n);
        case ResizeOp(enabled) => SettingsKeep(hash, d, d.iterators, enabled);
      }
      RunStaysBounded(hash, Apply(hash, d, ops[0]).0, ops[1..]);
    }
  }

  /**
    The forced resize: in any run from empty, whenever resizing is switched off and on, there are
    never more than six entries for each bucket of the newest table, and during a rehash no more
    than one entry above its size.
   */
  lemma ForcedLoadBound<K(!new), V>(hash: K -> nat, canResize: bool, ops: seq<Op<K, V>>)
    requires forall op :: op in ops ==> TakesStep(op) || op.RehashOp? || op.ResizeOp?
    ensures var d := Run(hash, EmptyDict<K, V>(canResize), ops).0;
      |View(hash, d)| == Size(d) <= if IsRehashing(d) then NewestSize(d) + 1 else FORCED * NewestSize(d)
  {
    EmptyIsWF<K, V>(hash, canResize);
    RunStaysBounded(hash, EmptyDict<K, V>(canResize), ops);
    ViewIsLookup(hash, Run(hash, EmptyDict<K, V>(canResize), ops).0);
  }
}
