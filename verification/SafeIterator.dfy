/**
  The safe iterator of dict.c in place: it holds the entry it returned last and, saved before that
  entry could be deleted, the one after it.
 */
module SafeIterator {
  import opened Options
  import opened DictModel
  import opened DictRefinement
  import DictIterator
  import opened HashTable

  class SafeIterator<K(==, !new), V> {
    const d: HashTable<K, V>
    var table: int
    var index: int
    var entry: Node?<K, V>
    var nextEntry: Node?<K, V>

    ghost function State(): DictIterator.Iter<K>
      reads this
    {
      DictIterator.Iter(table, index, Key(entry), Key(nextEntry))
    }

    static ghost function Key(n: Node?<K, V>): Option<K> { if n == null then None else Some(n.key) }

    ghost function Table(t: int): ChainTable<K, V>
      reads d
    {
      if t == 0 then d.ht0 else d.ht1
    }

    /** The iterator is where it should be, and the saved entry is in the chain that it is in. */
    ghost predicate Valid()
      reads this, d, d.Repr
    {
      && d.Valid() && this !in d.Repr
      && (State() == DictIterator.Start() || DictIterator.Running(d.hash, d.State(), State()))
      && InChain()
    }

    /** The saved entry is in the chain that the iterator is in. */
    ghost predicate InChain()
      reads this, d, d.ht0, d.ht1
    {
      && (entry == null ==> nextEntry == null)
      && (entry != null && nextEntry != null ==> 0 <= index < |Table(table).chains| && nextEntry in Table(table).chains[index])
    }

    constructor (d: HashTable<K, V>)
      requires d.Valid()
      ensures this.d == d && State() == DictIterator.Start() && Valid()
    {
      this.d := d;
      table, index, entry, nextEntry := 0, -1, null, null;
    }

    lemma {:induction false} SuffixAt(es: Chain<K, V>, i: nat)
      requires i < |es| && DistinctKeys(es)
      ensures DictIterator.Suffix(es, es[i].key) == es[i..]
    {
      if i > 0 { SuffixAt(es[1..], i - 1); }
    }

    /** Saves the entry after the current one, which is number `i` of its chain. */
    method Save(ghost i: nat)
      requires d.Valid() && this !in d.Repr && (table == 0 || table == 1)
      requires 0 <= index < |Table(table).chains| && i < |Table(table).chains[index]|
      requires entry == Table(table).chains[index][i]
      modifies this`nextEntry
      ensures nextEntry == At(Table(table).chains[index], i + 1)
      ensures Key(nextEntry) == DictIterator.After(Table(table).model.buckets[index], entry.key)
      ensures DictIterator.Suffix(Table(table).model.buckets[index], entry.key) != []
      ensures DictIterator.Suffix(Table(table).model.buckets[index], entry.key)[0] == Entry(entry.key, entry.val)
    {
      ghost var t := Table(table);
      ghost var es := t.model.buckets[index];
      assert GoodChain(d.hash, |t.model.buckets|, index, es);
      assert Entry(t.chains[index][i].key, t.chains[index][i].val) == es[i];
      assert t.chains[index][i].next == At(t.chains[index], i + 1);
      SuffixAt(es, i);
      if i + 1 < |es| { assert Entry(t.chains[index][i + 1].key, t.chains[index][i + 1].val) == es[i + 1]; }
      nextEntry := entry.next;
    }

    /** What dictNext will find. */
    lemma NextKnown()
      requires Valid()
      ensures var (d', it', r) := DictIterator.Next(d.State(), State());
        && it' != DictIterator.Start() && DictIterator.Running(d.hash, d', it') && index >= -1
        && (table == 0 || (table == 1 && d.rehashidx != -1))
      ensures nextEntry == null ==>
        DictIterator.Next(d.State(), State()) == DictIterator.Next(d.State(), State().(entry := None))
    {
      if State() == DictIterator.Start() {
        DictIterator.NextStarts(d.hash, d.State());
      } else {
        DictIterator.NextReturns(d.hash, d.State(), State());
      }
    }

    /** dictNext. */
    method Next() returns (e: Node?<K, V>)
      requires Valid()
      modifies this, d`iterators
      ensures Valid() && e == entry
      ensures (d.State(), State(), if e == null then None else Some(Entry(e.key, e.val))) ==
              DictIterator.Next(old(d.State()), old(State()))
    {
      NextKnown();
      hide DictIterator.Running, DictIterator.Next, WF;
      if nextEntry != null {
        e := Step();
      } else {
        entry := null;
        e := NextBucket();
      }
    }

    /** The turn of the loop of dictNext in which an entry is at hand. */
    method Step() returns (e: Node<K, V>)
      requires Valid() && nextEntry != null
      modifies this
      ensures d.Valid() && e == entry && InChain()
      ensures (d.State(), State(), Some(Entry(e.key, e.val))) == DictIterator.Next(old(d.State()), old(State()))
    {
      ghost var i :| 0 <= i < |Table(table).chains[index]| && Table(table).chains[index][i] == nextEntry;
      hide WF, GoodTable;
      entry := nextEntry;
      Save(i);
      e := entry;
    }

    /** The turns of the loop of dictNext in which no entry is at hand: on to the next bucket that is not empty. */
    method NextBucket() returns (e: Node?<K, V>)
      requires d.Valid() && this !in d.Repr && entry == null && nextEntry == null && -1 <= index
      requires table == 0 || (table == 1 && d.rehashidx != -1)
      modifies this, d`iterators
      ensures d.Valid() && e == entry && InChain()
      ensures (d.State(), State(), if e == null then None else Some(Entry(e.key, e.val))) ==
              DictIterator.Next(old(d.State()), old(State()))
    {
      hide WF, GoodTable, DictIterator.Onward, DictIterator.Enter;
      if index == -1 && table == 0 { d.Pin(); }
      var t, i;
      t, i, e := Seek();
      if e == null { table, index := t, i; } else { Land(t, i, e); }
    }

    /** Takes the head of bucket (`t`, `i`) as the current entry. */
    method Land(t: int, i: int, e: Node<K, V>)
      requires d.Valid() && this !in d.Repr && (t == 0 || t == 1)
      requires 0 <= i < |Table(t).chains| && e == At(Table(t).chains[i], 0)
      modifies this
      ensures InChain()
      ensures entry == e && (d.State(), State(), Some(Entry(e.key, e.val))) == DictIterator.Enter(d.State(), t, i)
    {
      hide WF, GoodTable;
      table, index, entry := t, i, e;
      assert Table(t).model.buckets[i] != [];
      assert Entry(Table(t).chains[i][0].key, Table(t).chains[i][0].val) == Table(t).model.buckets[i][0];
      Save(0);
    }

    /** Steps through the buckets, and from the first table to the second one while a rehash is in progress. */
    method Seek() returns (t: int, i: int, e: Node?<K, V>)
      requires d.Valid() && -1 <= index
      requires table == 0 || (table == 1 && d.rehashidx != -1)
      ensures t == 0 || (t == 1 && d.rehashidx != -1)
      ensures if e == null then DictIterator.Onward(d.State(), table, index) == (d.State(), DictIterator.Iter(t, i, None, None), None)
              else
                && 0 <= i < |Table(t).chains| && e == At(Table(t).chains[i], 0)
                && DictIterator.Onward(d.State(), table, index) == DictIterator.Enter(d.State(), t, i)
    {
      t, i, e := table, index, null;
      ghost var s := d.State();
      assert d.rehashidx != -1 ==> d.ht1.heads.Length > 0;
      hide WF, GoodTable, DictIterator.Onward, DictIterator.Enter;
      while e == null
        invariant t == 0 || (t == 1 && d.rehashidx != -1)
        invariant -1 <= i
        invariant e == null ==> DictIterator.Onward(s, table, index) == DictIterator.Onward(s, t, i)
        invariant e != null ==>
          && 0 <= i < |Table(t).chains| && e == At(Table(t).chains[i], 0)
          && DictIterator.Onward(s, table, index) == DictIterator.Enter(s, t, i)
        decreases 1 - t, |Table(t).chains| - i, e == null
      {
        DictIterator.OnwardStep(s, t, i);
        i := i + 1;
        if i >= (if t == 0 then d.ht0.heads.Length else d.ht1.heads.Length) {
          if d.rehashidx == -1 || t == 1 { return; }
          DictIterator.OnwardStep(s, 1, -1);
          t, i := 1, 0;
        }
        e := if t == 0 then d.ht0.heads[i] else d.ht1.heads[i];
      }
    }

    // ---------- Other operations between two calls ----------

    /** The saved entry was in one of the chains, and is not the one with key `x`. */
    ghost predicate SavedIn(c0: seq<seq<Node<K, V>>>, c1: seq<seq<Node<K, V>>>, x: Option<K>)
      reads this
    {
      && (entry == null ==> nextEntry == null)
      && (entry != null && nextEntry != null ==>
            var c := if table == 0 then c0 else c1;
            0 <= index < |c| && nextEntry in c[index] && Some(nextEntry.key) != x)
    }

    /** What keeps all nodes but the one with key `x`, which is not the saved one, keeps the iterator. */
    lemma StaysValid(c0: seq<seq<Node<K, V>>>, c1: seq<seq<Node<K, V>>>, x: Option<K>)
      requires d.Valid() && this !in d.Repr && SavedIn(c0, c1, x) && d.KeepsNodes(c0, c1, x)
      requires State() == DictIterator.Start() || DictIterator.Running(d.hash, d.State(), State())
      ensures Valid()
    {
    }

    lemma SavedHere()
      requires Valid()
      ensures SavedIn(d.ht0.chains, d.ht1.chains, None)
      ensures entry != null ==> SavedIn(d.ht0.chains, d.ht1.chains, Some(entry.key))
      ensures State() != DictIterator.Start() ==> DictIterator.Running(d.hash, d.State(), State()) && d.iterators > 0
      ensures State() == DictIterator.Start() ==> entry == null
    {
    }

    /** Deletes the entry returned last; the one after it has been saved. */
    method DeleteLast()
      requires Valid()
      modifies d.Repr
      ensures Valid() && State() == old(State()) && fresh(d.Repr - old(d.Repr))
      ensures d.State() == if entry == null then old(d.State()) else Delete(d.hash, old(d.State()), entry.key).0
    {
      if entry == null { return; }
      SavedHere();
      ghost var c0, c1 := d.ht0.chains, d.ht1.chains;
      DictIterator.DeleteKeepsPending(d.hash, d.State(), State());
      hide DictIterator.Running, DictIterator.Pending, Keeps, WF;
      var deleted := d.Delete(entry.key);
      StaysValid(c0, c1, Some(entry.key));
    }

    method Add(k: K, v: V) returns (added: bool)
      requires Valid()
      modifies d.Repr
      ensures Valid() && State() == old(State()) && fresh(d.Repr - old(d.Repr))
      ensures (d.State(), added) == DictModel.Add(d.hash, old(d.State()), k, v)
    {
      SavedHere();
      ghost var c0, c1 := d.ht0.chains, d.ht1.chains;
      if State() != DictIterator.Start() { DictIterator.AddKeepsPending(d.hash, d.State(), State(), k, v); }
      hide DictIterator.Running, DictIterator.Pending, Keeps, WF;
      added := d.Add(k, v);
      if State() != DictIterator.Start() { StaysValid(c0, c1, None); }
    }

    method Find(k: K) returns (n: Node?<K, V>)
      requires Valid()
      modifies d.Repr
      ensures Valid() && State() == old(State()) && fresh(d.Repr - old(d.Repr))
      ensures (d.State(), if n == null then None else Some(n.val)) == DictModel.Find(d.hash, old(d.State()), k)
    {
      SavedHere();
      ghost var c0, c1 := d.ht0.chains, d.ht1.chains;
      assert d.iterators > 0 ==> DictModel.Find(d.hash, d.State(), k).0 == d.State();
      hide DictIterator.Running, DictIterator.Pending, Keeps, WF;
      n := d.Find(k);
      if State() != DictIterator.Start() { StaysValid(c0, c1, None); }
    }

    method Replace(k: K, v: V) returns (isNew: bool)
      requires Valid()
      modifies d.Repr
      ensures Valid() && State() == old(State()) && fresh(d.Repr - old(d.Repr))
      ensures (d.State(), isNew) == DictModel.Replace(d.hash, old(d.State()), k, v)
    {
      SavedHere();
      ghost var c0, c1 := d.ht0.chains, d.ht1.chains;
      if State() != DictIterator.Start() { DictIterator.ReplaceKeepsPending(d.hash, d.State(), State(), k, v); }
      hide DictIterator.Running, DictIterator.Pending, Keeps, WF;
      isNew := d.Replace(k, v);
      if State() != DictIterator.Start() { StaysValid(c0, c1, None); }
    }

    /** One event of a run; `got` is the key that dictNext returns, if it is called and returns one. */
    method Do(event: DictIterator.IterEvent<K, V>, ghost returned: seq<K>) returns (got: seq<K>)
      requires Valid()
      modifies this, d.Repr
      ensures Valid() && fresh(d.Repr - old(d.Repr))
      ensures index >= -1 && DictIterator.IterState(d.State(), State(), returned + got) ==
        DictIterator.Advance(d.hash, DictIterator.IterState(old(d.State()), old(State()), returned), event)
    {
      assert index >= -1 && returned + [] == returned;
      hide Valid, DictIterator.Next;
      got := [];
      match event {
        case NextEvent =>
          var e := Next();
          if e != null { got := [e.key]; }
        case DeleteLast => DeleteLast();
        case AddEvent(k, v) => var added := Add(k, v);
        case FindEvent(k) => var n := Find(k);
        case ReplaceEvent(k, v) => var isNew := Replace(k, v);
      }
    }

    /** The state of a run, with the keys that have been returned. */
    ghost function Run(returned: seq<K>): (s: DictIterator.IterState<K, V>)
      reads this, d, d.ht0, d.ht1
    {
      DictIterator.IterState(d.State(), State(), returned)
    }

    lemma InRange()
      requires Valid()
      ensures index >= -1
    {
    }

    /** In a loop that deletes what it gets: `e` is the entry at hand, after `n` turns on what was `d0` at first. */
    ghost predicate Deleting(d0: Dict<K, V>, n: nat, keys: seq<K>, e: Node?<K, V>)
      reads this, d, d.Repr
    {
      && Valid() && e == entry && index >= -1 && WF(d.hash, d0)
      && Run(keys) == DictIterator.IterRun(d.hash, DictIterator.Begin(d.hash, d0), DictIterator.DeletingRun(n))
      && if e == null then DictIterator.Next(d.State(), State()).2.None?
         else Lookup(d.hash, d.State(), e.key).Some? && d.iterators > 0
    }

    /** One call of dictNext, with the keys that it has returned so far. */
    method Take(keys: seq<K>) returns (e: Node?<K, V>, keys': seq<K>)
      requires Valid() && index >= -1
      modifies this, d`iterators
      ensures Valid() && e == entry && index >= -1
      ensures Run(keys') == DictIterator.Advance(d.hash, old(Run(keys)), DictIterator.NextEvent)
      ensures Size(d.State()) == old(Size(d.State()))
      ensures if e == null then DictIterator.Next(d.State(), State()).2.None?
              else Lookup(d.hash, d.State(), e.key).Some? && d.iterators > 0
    {
      ghost var d1, it := d.State(), State();
      TakeKnown();
      hide DictIterator.Next, DictIterator.Running, WF, Size, Lookup;
      e := Next();
      keys' := if e == null then keys else keys + [e.key];
    }

    lemma TakeKnown()
      requires Valid()
      ensures var (d', it', r) := DictIterator.Next(d.State(), State());
        && it'.index >= -1 && Size(d') == Size(d.State())
        && (if r.None? then DictIterator.Next(d', it').2.None? else Lookup(d.hash, d', r.value.key).Some? && d'.iterators > 0)
    {
      DictIterator.NextIsThere(d.hash, d.State(), State());
      if DictIterator.Next(d.State(), State()).2.None? { DictIterator.NullStays(d.hash, d.State(), State()); }
      hide DictIterator.Next;
    }

    /** The first call of dictNext. */
    method First(ghost d0: Dict<K, V>) returns (e: Node?<K, V>, keys: seq<K>)
      requires Valid() && State() == DictIterator.Start() && d.State() == d0
      modifies this, d`iterators
      ensures Deleting(d0, 0, keys, e)
    {
      hide WF, Size, Lookup, DictIterator.Next, DictIterator.Advance;
      e, keys := Take([]);
    }

    /** Deletes the entry at hand and goes on to the next one. */
    method Turn(ghost d0: Dict<K, V>, ghost n: nat, last: Node<K, V>, keys: seq<K>) returns (e: Node?<K, V>, keys': seq<K>)
      requires Deleting(d0, n, keys, last)
      modifies this, d.Repr
      ensures Deleting(d0, n + 1, keys', e) && fresh(d.Repr - old(d.Repr))
      ensures 0 <= Size(d.State()) < old(Size(d.State()))
    {
      TurnKnown(d0, n, keys, last);
      hide DictIterator.IterRun, DictIterator.Begin, DictIterator.DeletingRun, DictIterator.Next, DictIterator.Running,
        DictIterator.Advance, Valid, WF, Size, Lookup;
      DeleteLast();
      e, keys' := Take(keys);
    }

    lemma TurnKnown(d0: Dict<K, V>, n: nat, keys: seq<K>, last: Node<K, V>)
      requires Deleting(d0, n, keys, last)
      ensures index >= -1
      ensures var d1 := Delete(d.hash, d.State(), last.key).0; var s := DictIterator.IterState(d1, State(), keys);
        && 0 <= Size(d1) < Size(d.State())
        && DictIterator.IterRun(d.hash, DictIterator.Begin(d.hash, d0), DictIterator.DeletingRun(n + 1)) ==
             DictIterator.Advance(d.hash, s, DictIterator.NextEvent)
    {
      DictIterator.DeletingTurn(d.hash, DictIterator.Begin(d.hash, d0), n);
      DictIterator.DeleteShrinks(d.hash, d.State(), last.key);
      hide DictIterator.IterRun, DictIterator.Begin, DictIterator.DeletingRun, DictIterator.Next, DictIterator.Running,
        WF, Size, Lookup;
    }

    /** A whole run on the linked chains: the keys that dictNext returns are those of the model. */
    method Perform(events: seq<DictIterator.IterEvent<K, V>>) returns (returned: seq<K>)
      requires Valid()
      modifies this, d.Repr
      ensures Valid()
      ensures old(index) >= -1 && Run(returned) == DictIterator.IterRun(d.hash, old(Run([])), events)
    {
      hide Valid, DictIterator.Advance;
      InRange();
      returned := [];
      assert events[0..] == events;
      for i := 0 to |events|
        invariant Valid() && fresh(d.Repr - old(d.Repr)) && index >= -1
        invariant DictIterator.IterRun(d.hash, Run(returned), events[i..]) == DictIterator.IterRun(d.hash, old(Run([])), events)
      {
        assert events[i..][1..] == events[i + 1..];
        var got := Do(events[i], returned);
        returned := returned + got;
      }
    }
  }

  /** A loop that takes the entries one by one and deletes each: it gets every key once, and leaves nothing. */
  method DeleteEach<K(==, !new), V>(d: HashTable<K, V>) returns (keys: seq<K>)
    requires d.Valid()
    modifies d.Repr
    ensures d.Valid() && forall k :: Lookup(d.hash, d.State(), k).None?
    ensures forall k :: k in old(View(d.hash, d.State())) ==> DictIterator.Count(keys, k) == 1
  {
    ghost var d0, n := d.State(), 0;
    var it := new SafeIterator(d);
    hide WF, View, Size, Lookup;
    var e;
    e, keys := it.First(d0);
    while e != null
      invariant it.d == d && fresh(it) && it.Deleting(d0, n, keys, e) && fresh(d.Repr - old(d.Repr))
      decreases Size(d.State())
    {
      e, keys := it.Turn(d0, n, e, keys);
      n := n + 1;
    }
    DictIterator.DeletingEmpties(d.hash, d0, n);
  }
}
