/**
  dict.c in place: two arrays of bucket heads, entries linked through `next`, and the counters.
  The ghost field `model` is the dictionary value that the object stands for; each method moves it
  exactly as the function of the same operation in `DictModel` does.
 */
module HashTable {
  import opened Options
  import opened DictModel
  import opened DictRefinement
  import opened Words
  import DictScan

  class Node<K, V> {
    const key: K
    var val: V
    var next: Node?<K, V>

    constructor (key: K, val: V, next: Node?<K, V>)
      ensures this.key == key && this.val == val && this.next == next
    {
      this.key, this.val, this.next := key, val, next;
    }
  }

  /** The node at place `i` of a chain, NULL at its end. */
  ghost function At<K, V>(c: seq<Node<K, V>>, i: nat): Node?<K, V> {
    if i < |c| then c[i] else null
  }

  /** Each node of the chains `c`, except one with key `x`, is in the same chain of `c'`. */
  ghost predicate Keeps<K, V>(c: seq<seq<Node<K, V>>>, c': seq<seq<Node<K, V>>>, x: Option<K>) {
    |c| <= |c'| && forall b, n :: 0 <= b < |c| && n in c[b] && Some(n.key) != x ==> n in c'[b]
  }

  lemma KeepsPush<K, V>(c: seq<seq<Node<K, V>>>, b: nat, n: Node<K, V>)
    requires b < |c|
    ensures Keeps(c, c[b := [n] + c[b]], None)
  {
  }

  lemma KeepsCut<K, V>(c: seq<seq<Node<K, V>>>, b: nat, i: nat)
    requires b < |c| && i < |c[b]|
    ensures Keeps(c, c[b := c[b][..i] + c[b][i + 1..]], Some(c[b][i].key))
  {
  }

  lemma KeepsAll<K, V>(c: seq<seq<Node<K, V>>>, c': seq<seq<Node<K, V>>>, x: Option<K>)
    ensures Keeps(c, c, x) && Keeps([], c', x)
  {
  }

  /** A `dictht`: an array of bucket heads and the number of entries. */
  class ChainTable<K(==), V> {
    const hash: K -> nat
    const heads: array<Node?<K, V>>
    var used: int

    ghost var chains: seq<seq<Node<K, V>>>
    ghost var nodes: set<Node<K, V>>
    ghost var model: Table<K, V>

    ghost predicate Valid()
      reads this, heads, nodes
    {
      && heads.Length == |chains| == |model.buckets|
      && (forall b :: 0 <= b < |chains| ==> |chains[b]| == |model.buckets[b]| && heads[b] == At(chains[b], 0))
      && (forall b, i :: 0 <= b < |chains| && 0 <= i < |chains[b]| ==>
            chains[b][i] in nodes && Entry(chains[b][i].key, chains[b][i].val) == model.buckets[b][i])
      && (forall b, i {:trigger chains[b][i].next} :: 0 <= b < |chains| && 0 <= i < |chains[b]| ==>
            chains[b][i].next == At(chains[b], i + 1))
      && model.used == used
      && GoodTable(hash, model)
    }

    constructor (hash: K -> nat, size: nat)
      ensures Valid() && fresh(this) && fresh(heads) && nodes == {}
      ensures this.hash == hash && model == Table(seq(size, _ => []), 0)
    {
      this.hash := hash;
      heads := new Node?<K, V>[size](_ => null);
      used := 0;
      chains, nodes, model := seq(size, _ => []), {}, Table(seq(size, _ => []), 0);
      new;
      TotalZero(model.buckets);
    }

    /** Walks the chain of `k`. */
    method Search(k: K) returns (n: Node?<K, V>)
      requires Valid() && heads.Length > 0
      ensures n == null ==> LookupTable(hash, model, k) == None
      ensures n != null ==> n.key == k && LookupTable(hash, model, k) == Some(n.val) && n in chains[Index(hash, heads.Length, k)]
    {
      var b := Index(hash, heads.Length, k);
      ghost var c, es := chains[b], model.buckets[b];
      n := heads[b];
      ghost var i := 0;
      while n != null
        invariant 0 <= i <= |c| && n == At(c, i)
        invariant LookupChain(es, k) == LookupChain(es[i..], k)
        decreases |c| - i
      {
        if n.key == k { return; }
        assert es[i..][1..] == es[i + 1..];
        assert chains[b][i].next == At(c, i + 1);
        n := n.next;
        i := i + 1;
      }
    }

    /** Puts a node at the head of the chain of its key. */
    method Link(n: Node<K, V>)
      requires Valid() && heads.Length > 0
      requires n !in nodes && LookupTable(hash, model, n.key).None?
      modifies this, heads, n`next
      ensures Valid()
      ensures nodes == old(nodes) + {n}
      ensures model == Push(hash, old(model), Entry(n.key, n.val))
      ensures Keeps(old(chains), chains, None)
    {
      var b := Index(hash, heads.Length, n.key);
      hide Keeps, GoodTable, Push, LookupTable;
      ghost var pushed := PushedTable(n, b);
      KeepsPush(chains, b, n);
      ghost var c: seq<Node<K, V>> := chains[b];
      n.next := heads[b];
      LinkHead(b, c, n);
      ghost var linked: seq<seq<Node<K, V>>> := chains[b := [n] + c];
      heads[b] := n;
      used := used + 1;
      chains, nodes, model := linked, nodes + {n}, pushed;
    }

    /** With `n` in front of chain `b`, every entry and every link of the chains is as it should be. */
    lemma LinkHead(b: nat, c: seq<Node<K, V>>, n: Node<K, V>)
      requires Valid() && b < heads.Length && c == chains[b] && n !in nodes && n.next == heads[b]
      ensures var cs, bs := chains[b := [n] + c], model.buckets[b := [Entry(n.key, n.val)] + model.buckets[b]];
        && (forall b', i :: 0 <= b' < |cs| && 0 <= i < |cs[b']| ==>
              cs[b'][i] in nodes + {n} && Entry(cs[b'][i].key, cs[b'][i].val) == bs[b'][i])
        && (forall b', i {:trigger cs[b'][i].next} :: 0 <= b' < |cs| && 0 <= i < |cs[b']| ==>
              cs[b'][i].next == At(cs[b'], i + 1))
    {
      hide GoodTable;
      assert forall i :: 0 <= i < |c| ==> chains[b][i].next == At(c, i + 1);
      PushLinks(c, model.buckets[b], n);
      assert forall b', i {:trigger chains[b'][i].next} :: 0 <= b' < |chains| && 0 <= i < |chains[b']| ==>
        chains[b'][i].next == At(chains[b'], i + 1);
    }

    lemma PushedTable(n: Node<K, V>, b: nat) returns (t: Table<K, V>)
      requires Valid() && heads.Length > 0 && b == Index(hash, heads.Length, n.key)
      requires LookupTable(hash, model, n.key).None?
      ensures t == Push(hash, model, Entry(n.key, n.val)) && GoodTable(hash, t)
      ensures t == Table(model.buckets[b := [Entry(n.key, n.val)] + model.buckets[b]], model.used + 1)
    {
      t := Push(hash, model, Entry(n.key, n.val));
      PushPushes(hash, model, Entry(n.key, n.val));
    }

    /** The links of a chain with a node in front. */
    lemma PushLinks(c: seq<Node<K, V>>, es: Chain<K, V>, n: Node<K, V>)
      requires |c| == |es| && n.next == At(c, 0)
      requires forall j {:trigger c[j].next} :: 0 <= j < |c| ==> c[j].next == At(c, j + 1)
      requires forall j :: 0 <= j < |c| ==> Entry(c[j].key, c[j].val) == es[j]
      ensures var c', es' := [n] + c, [Entry(n.key, n.val)] + es;
        && (forall j :: 0 <= j < |c'| ==> Entry(c'[j].key, c'[j].val) == es'[j])
        && (forall j {:trigger c'[j].next} :: 0 <= j < |c'| ==> c'[j].next == At(c', j + 1))
    {
      var c' := [n] + c;
      forall j | 0 <= j < |c'| ensures c'[j].next == At(c', j + 1) {
        if j > 0 { assert c'[j] == c[j - 1]; }
      }
    }

    /** Passes the entries of one chain to the scan callback. */
    method Emit(b: nat) returns (out: Chain<K, V>)
      requires Valid() && b < heads.Length
      ensures out == model.buckets[b]
    {
      ghost var c, es := chains[b], model.buckets[b];
      var n := heads[b];
      out := [];
      while n != null
        invariant |out| <= |c| && n == At(c, |out|) && out == es[..|out|]
        decreases |c| - |out|
      {
        assert chains[b][|out|].next == At(c, |out| + 1);
        assert Entry(chains[b][|out|].key, chains[b][|out|].val) == es[|out|];
        out := out + [Entry(n.key, n.val)];
        n := n.next;
      }
    }

    /** The loop of dictScan over the expansions of the cursor in the larger table. */
    method EmitExpansions(v: Word, m0: Word, m1: Word, ghost k0: nat, ghost k1: nat) returns (out: Chain<K, V>, w: Word)
      requires Valid() && k0 <= k1 <= WIDTH && heads.Length == Pow2(k1)
      requires m0 == Mask(k0) && m1 == Mask(k1)
      ensures out == DictScan.EmitAll(model, DictScan.Expansions(v, k0, k1), k1)
      ensures w[..k0] == v[..k0]
    {
      out, w := [], v;
      ghost var all := DictScan.EmitAll(model, DictScan.Expansions(v, k0, k1), k1);
      while true
        invariant w[..k0] == v[..k0]
        invariant out + DictScan.EmitAll(model, DictScan.Expansions(w, k0, k1), k1) == all
        decreases Pow2(k1 - k0) - Value(w[k0..k1])
      {
        AndMask(w, k1);
        ValueBound(w[..k1]);
        var es := Emit(Value(And(w, m1)));
        ghost var next := DictScan.NextHigh(w, k0);
        DictScan.ExpansionAdvances(w, k0, k1);
        DictScan.NextHighCode(w, k0);
        DictScan.StopCode(next, k0, k1);
        assert next[..k0] == w[..k0];
        assert DictScan.Expansions(w, k0, k1)[0] == w;
        EmitAllUnfold(w, k0, k1);
        out := out + es;
        w := Or(And(Inc(Or(w, m0)), Not(m0)), And(w, m0));
        if And(w, Xor(m0, m1)) == Fill(WIDTH, false) { break; }
      }
    }

    lemma EmitAllUnfold(w: Word, k0: nat, k1: nat)
      requires k0 <= k1 <= WIDTH && |model.buckets| == Pow2(k1)
      ensures var next := DictScan.NextHigh(w, k0);
        DictScan.EmitAll(model, DictScan.Expansions(w, k0, k1), k1) ==
          DictScan.Emit(model, w, k1) +
          if next[k0..k1] == Fill(k1 - k0, false) then [] else DictScan.EmitAll(model, DictScan.Expansions(next, k0, k1), k1)
    {
      var next := DictScan.NextHigh(w, k0);
      DictScan.ExpansionAdvances(w, k0, k1);
      if next[k0..k1] == Fill(k1 - k0, false) {
        assert DictScan.Expansions(w, k0, k1)[1..] == [];
      } else {
        assert DictScan.Expansions(w, k0, k1)[1..] == DictScan.Expansions(next, k0, k1);
      }
    }

    /** In a good table no node has two places. */
    lemma OnePlace(b: int, i: int)
      requires Valid() && 0 <= b < |chains| && 0 <= i < |chains[b]|
      ensures forall b', i' :: 0 <= b' < |chains| && 0 <= i' < |chains[b']| && chains[b'][i'] == chains[b][i] ==> b' == b && i' == i
    {
      var bs := model.buckets;
      forall b', i' | 0 <= b' < |chains| && 0 <= i' < |chains[b']| && chains[b'][i'] == chains[b][i]
        ensures b' == b && i' == i
      {
        assert GoodChain(hash, |bs|, b, bs[b]) && GoodChain(hash, |bs|, b', bs[b']);
        assert Entry(chains[b][i].key, chains[b][i].val) == bs[b][i];
        assert Entry(chains[b'][i'].key, chains[b'][i'].val) == bs[b'][i'];
      }
    }

    /** Walks the chain of `k` with the node before the current one at hand. */
    method SearchWithPrev(k: K) returns (n: Node?<K, V>, prev: Node?<K, V>, ghost i: nat)
      requires Valid() && heads.Length > 0
      ensures var b := Index(hash, heads.Length, k); var es := model.buckets[b];
        if n == null then LookupTable(hash, model, k) == None
        else
          && i < |chains[b]| && n == chains[b][i] && n.key == k && LookupTable(hash, model, k).Some?
          && prev == (if i == 0 then null else chains[b][i - 1])
          && RemoveFromChain(es, k) == es[..i] + es[i + 1..]
    {
      var b := Index(hash, heads.Length, k);
      ghost var c: seq<Node<K, V>> := chains[b];
      ghost var es := model.buckets[b];
      n, prev, i := heads[b], null, 0;
      while n != null
        invariant 0 <= i <= |c| && n == At(c, i) && prev == if i == 0 then null else c[i - 1]
        invariant forall j :: 0 <= j < i ==> es[j].key != k
        decreases |c| - i
      {
        assert chains[b][i].next == At(c, i + 1);
        assert Entry(chains[b][i].key, chains[b][i].val) == es[i];
        if n.key == k {
          RemoveAt(es, i, k);
          return;
        }
        prev := n;
        n := n.next;
        i := i + 1;
      }
      LookupChainFinds(es, k);
    }

    /** Finds the entry of `k` and unlinks it from its chain. */
    method Unlink(k: K) returns (found: bool)
      requires Valid() && heads.Length > 0
      modifies this, heads, nodes
      ensures Valid() && nodes == old(nodes)
      ensures found == LookupTable(hash, old(model), k).Some?
      ensures model == if found then RemoveFromTable(hash, old(model), k) else old(model)
      ensures Keeps(old(chains), chains, Some(k)) && (!found ==> chains == old(chains))
    {
      hide Keeps, GoodTable;
      KeepsAll(chains, chains, Some(k));
      var n, prev, i := SearchWithPrev(k);
      found := n != null;
      if n != null {
        var b := Index(hash, heads.Length, k);
        KeepsCut(chains, b, i);
        RemovedTable(b, i);
        ghost var removed := RemoveFromTable(hash, model, k);
        hide RemoveFromTable, RemoveFromChain, LookupChain, LookupTable;
        if prev == null { CutFirst(b, removed); } else { CutAfter(b, i, prev, removed); }
      }
    }

    /** Takes the first node out of chain `b`. */
    method CutFirst(b: nat, ghost removed: Table<K, V>)
      requires Valid() && b < heads.Length && 0 < |chains[b]|
      requires GoodTable(hash, removed)
      requires removed == Table(model.buckets[b := model.buckets[b][..0] + model.buckets[b][1..]], used - 1)
      modifies this, heads
      ensures Valid() && nodes == old(nodes) && model == removed
      ensures chains == old(chains)[b := old(chains[b])[..0] + old(chains[b])[1..]]
    {
      hide GoodTable;
      ghost var c: seq<Node<K, V>> := chains[b];
      assert c[0].next == At(c, 1);
      ghost var cut: seq<Node<K, V>> := c[..0] + c[1..];
      assert forall j :: 0 <= j < |cut| ==> cut[j] == c[j + 1];
      heads[b] := heads[b].next;
      used := used - 1;
      assert forall j {:trigger cut[j].next} :: 0 <= j < |cut| ==> cut[j].next == At(cut, j + 1);
      chains, model := chains[b := cut], removed;
    }

    /** Takes node number `i` out of chain `b`, after node `prev`. */
    method CutAfter(b: nat, ghost i: nat, prev: Node<K, V>, ghost removed: Table<K, V>)
      requires Valid() && b < heads.Length && 0 < i < |chains[b]| && prev == chains[b][i - 1]
      requires GoodTable(hash, removed)
      requires removed == Table(model.buckets[b := model.buckets[b][..i] + model.buckets[b][i + 1..]], used - 1)
      modifies this, prev`next
      ensures Valid() && nodes == old(nodes) && model == removed
      ensures chains == old(chains)[b := old(chains[b])[..i] + old(chains[b])[i + 1..]]
    {
      hide GoodTable;
      OnePlace(b, i - 1);
      ghost var es := model.buckets[b];
      ghost var c: seq<Node<K, V>> := chains[b];
      assert c[i - 1].next == At(c, i) && c[i].next == At(c, i + 1);
      prev.next := prev.next.next;
      used := used - 1;
      ghost var cut: seq<Node<K, V>> := c[..i] + c[i + 1..];
      CutLinks(c, cut, es, i);
      chains, model := chains[b := cut], removed;
    }

    lemma RemovedTable(b: nat, i: nat)
      requires Valid() && b < heads.Length && i < |chains[b]|
      requires Index(hash, heads.Length, chains[b][i].key) == b
      requires LookupChain(model.buckets[b], chains[b][i].key).Some?
      requires RemoveFromChain(model.buckets[b], chains[b][i].key) == model.buckets[b][..i] + model.buckets[b][i + 1..]
      ensures GoodTable(hash, RemoveFromTable(hash, model, chains[b][i].key))
      ensures RemoveFromTable(hash, model, chains[b][i].key) ==
        Table(model.buckets[b := model.buckets[b][..i] + model.buckets[b][i + 1..]], used - 1)
    {
      RemoveRemoves(hash, model, chains[b][i].key);
    }

    /** The links of a chain after node number `i` was bypassed. */
    lemma CutLinks(c: seq<Node<K, V>>, cut: seq<Node<K, V>>, es: Chain<K, V>, i: nat)
      requires 0 < i < |c| == |es| && cut == c[..i] + c[i + 1..]
      requires c[i - 1].next == At(c, i + 1)
      requires forall j {:trigger c[j].next} :: 0 <= j < |c| && j != i - 1 ==> c[j].next == At(c, j + 1)
      requires forall j :: 0 <= j < |c| ==> Entry(c[j].key, c[j].val) == es[j]
      ensures At(cut, 0) == At(c, 0)
      ensures forall j :: 0 <= j < |cut| ==> Entry(cut[j].key, cut[j].val) == (es[..i] + es[i + 1..])[j]
      ensures forall j {:trigger cut[j].next} :: 0 <= j < |cut| ==> cut[j].next == At(cut, j + 1)
    {
      forall j | 0 <= j < |cut|
        ensures cut[j].next == At(cut, j + 1)
      {
        if j >= i { assert cut[j] == c[j + 1]; }
      }
    }

    /** Stores a value in an entry that is in the table. */
    method SetVal(n: Node<K, V>, v: V)
      requires Valid() && heads.Length > 0 && n in chains[Index(hash, heads.Length, n.key)]
      modifies this, n`val
      ensures Valid() && nodes == old(nodes) && chains == old(chains)
      ensures model == SetInTable(hash, old(model), n.key, v)
    {
      hide GoodTable, SetInTable;
      ghost var b := Index(hash, heads.Length, n.key);
      ghost var i :| 0 <= i < |chains[b]| && chains[b][i] == n;
      OnePlace(b, i);
      ghost var changed := SetNode(b, i, v);
      n.val := v;
      model := changed;
      forall b', i' | 0 <= b' < |chains| && 0 <= i' < |chains[b']|
        ensures Entry(chains[b'][i'].key, chains[b'][i'].val) == model.buckets[b'][i']
      {
        assert chains[b'][i'] == n ==> b' == b && i' == i;
      }
    }

    lemma SetNode(b: nat, i: nat, v: V) returns (t: Table<K, V>)
      requires Valid() && b < |chains| && i < |chains[b]| && Index(hash, heads.Length, chains[b][i].key) == b
      ensures t == SetInTable(hash, model, chains[b][i].key, v) && GoodTable(hash, t)
      ensures t == Table(model.buckets[b := model.buckets[b][i := Entry(chains[b][i].key, v)]], model.used)
    {
      var es := model.buckets[b];
      assert Entry(chains[b][i].key, chains[b][i].val) == es[i];
      assert GoodChain(hash, |model.buckets|, b, es);
      LookupChainFinds(es, es[i].key);
      SetAt(es, i, v);
      SetSets(hash, model, es[i].key, v);
      t := SetInTable(hash, model, es[i].key, v);
    }

    /** Links the nodes of a chain of another table, from its head on, and takes them off the other table's count. */
    method LinkAll(head: Node?<K, V>, from: ChainTable<K, V>, ghost c: seq<Node<K, V>>, ghost es: Chain<K, V>)
      requires Valid() && heads.Length > 0 && from != this
      requires head == At(c, 0) && DistinctKeys(es) && Unlinked(c, es)
      modifies this, heads, from`used, c`next
      ensures Valid() && nodes <= old(nodes) + set n | n in c
      ensures from.used == old(from.used) - |c|
      ensures model == PushAll(hash, es, old(model))
    {
      var de := head;
      ghost var i := 0;
      assert |c| == |es| && c[0..] == c && es[0..] == es;
      hide Unlinked, PushAll, DistinctKeys;
      while de != null
        invariant Valid()
        invariant 0 <= i <= |c| && de == At(c, i) && Unlinked(c[i..], es[i..])
        invariant nodes <= old(nodes) + set n | n in c
        invariant from.used == old(from.used) - i
        invariant PushAll(hash, es[i..], model) == PushAll(hash, es, old(model))
        decreases |c| - i
      {
        DistinctTail(es, i);
        assert c[i..][1..] == c[i + 1..] && es[i..][1..] == es[i + 1..];
        de := LinkTurn(de, from, c[i..], es[i..]);
        i := i + 1;
      }
    }

    /** A chain of nodes that are not in this table, and whose keys are not. */
    ghost predicate Unlinked(c: seq<Node<K, V>>, es: Chain<K, V>)
      reads this, c
    {
      && |c| == |es|
      && (forall i :: 0 <= i < |c| ==> c[i] !in nodes && Entry(c[i].key, c[i].val) == es[i])
      && (forall i {:trigger c[i].next} :: 0 <= i < |c| ==> c[i].next == At(c, i + 1))
      && (forall i :: 0 <= i < |es| ==> LookupTable(hash, model, es[i].key).None?)
    }

    /** One turn of that loop. */
    method LinkTurn(de: Node<K, V>, from: ChainTable<K, V>, ghost c: seq<Node<K, V>>,
        ghost es: Chain<K, V>) returns (nextde: Node?<K, V>)
      requires Valid() && heads.Length > 0 && from != this
      requires c != [] && de == c[0] && DistinctKeys(es) && Unlinked(c, es)
      modifies this, heads, from`used, de`next
      ensures Valid() && nodes == old(nodes) + {de} && Unlinked(c[1..], es[1..]) && nextde == At(c, 1)
      ensures from.used == old(from.used) - 1 && PushAll(hash, es[1..], model) == PushAll(hash, es, old(model))
    {
      hide Unlinked, PushAll, DistinctKeys, GoodTable;
      nextde := LinkOne(de, c, es);
      from.used := from.used - 1;
    }

    /** Its first part. */
    method LinkOne(de: Node<K, V>, ghost c: seq<Node<K, V>>, ghost es: Chain<K, V>) returns (nextde: Node?<K, V>)
      requires Valid() && heads.Length > 0
      requires c != [] && de == c[0] && DistinctKeys(es) && Unlinked(c, es)
      modifies this, heads, de`next
      ensures Valid() && nodes == old(nodes) + {de} && Unlinked(c[1..], es[1..]) && nextde == At(c, 1)
      ensures PushAll(hash, es[1..], model) == PushAll(hash, es, old(model))
    {
      LinkKnown(c, es);
      hide GoodTable, Push, PushAll, Keeps, DistinctKeys, LookupTable;
      nextde := de.next;
      Link(de);
    }

    /** Before the first node of a chain comes in: it is no other node of the chain, and the other keys stay absent. */
    lemma LinkKnown(c: seq<Node<K, V>>, es: Chain<K, V>)
      requires Valid() && heads.Length > 0 && c != [] && DistinctKeys(es) && Unlinked(c, es)
      ensures forall j :: 0 < j < |c| ==> c[j] != c[0]
      ensures forall j :: 0 < j < |es| ==> LookupTable(hash, Push(hash, model, es[0]), es[j].key).None?
      ensures PushAll(hash, es[1..], Push(hash, model, es[0])) == PushAll(hash, es, model)
    {
      PushPushes(hash, model, es[0]);
      forall j | 0 < j < |c| ensures c[j] != c[0] { assert es[0].key != es[j].key; }
    }

    lemma DistinctTail(es: Chain<K, V>, i: nat)
      requires DistinctKeys(es) && i <= |es|
      ensures DistinctKeys(es[i..])
    {
    }

    /** Moves all entries of bucket `b` to the other table. */
    method Drain(b: nat, to: ChainTable<K, V>)
      requires Valid() && to.Valid() && hash == to.hash && to != this && heads != to.heads && nodes !! to.nodes
      requires b < heads.Length && to.heads.Length > 0
      requires forall k :: LookupTable(hash, model, k).None? || LookupTable(hash, to.model, k).None?
      modifies this, heads, nodes, to, to.heads
      ensures Valid() && to.Valid()
      ensures nodes + to.nodes <= old(nodes + to.nodes) && nodes !! to.nodes
      ensures model == Table(old(model).buckets[b := []], old(used) - |old(model).buckets[b]|)
      ensures to.model == PushAll(hash, old(model).buckets[b], old(to.model))
    {
      ghost var c: seq<Node<K, V>> := chains[b];
      ghost var es := model.buckets[b];
      ghost var cleared := Table(model.buckets[b := []], used - |es|);
      BucketIsUnlinked(b, to);
      assert GoodTable(hash, cleared) by { ClearClears(hash, model, b); }
      to.LinkAll(heads[b], this, c, es);
      ClearBucket(b, c, cleared);
    }

    /** The links outside bucket `b`. */
    ghost predicate ValidOutside(b: nat, c: seq<Node<K, V>>)
      reads this, heads, nodes
    {
      && b < heads.Length == |chains| == |model.buckets| && OnlyHere(b, c)
      && (forall b' :: 0 <= b' < |chains| && b' != b ==> |chains[b']| == |model.buckets[b']| && heads[b'] == At(chains[b'], 0))
      && (forall b', i :: 0 <= b' < |chains| && b' != b && 0 <= i < |chains[b']| ==>
            chains[b'][i] in nodes && Entry(chains[b'][i].key, chains[b'][i].val) == model.buckets[b'][i])
      && (forall b', i {:trigger chains[b'][i].next} :: 0 <= b' < |chains| && b' != b && 0 <= i < |chains[b']| ==>
            chains[b'][i].next == At(chains[b'], i + 1))
    }

    method ClearBucket(b: nat, ghost c: seq<Node<K, V>>, ghost cleared: Table<K, V>)
      requires ValidOutside(b, c)
      requires cleared == Table(model.buckets[b := []], used) && GoodTable(hash, cleared)
      modifies this, heads
      ensures Valid() && nodes == old(nodes) - set n | n in c
      ensures model == cleared
    {
      heads[b] := null;
      chains, model, nodes := chains[b := []], cleared, nodes - set n | n in c;
    }

    /** The nodes of bucket `b` appear in no other bucket. */
    ghost predicate OnlyHere(b: nat, c: seq<Node<K, V>>)
      reads this
    {
      forall b', i :: 0 <= b' < |chains| && b' != b && 0 <= i < |chains[b']| ==> chains[b'][i] !in c
    }

    lemma BucketIsUnlinked(b: nat, to: ChainTable<K, V>)
      requires Valid() && to.Valid() && hash == to.hash && nodes !! to.nodes && b < |chains|
      requires forall k :: LookupTable(hash, model, k).None? || LookupTable(hash, to.model, k).None?
      ensures DistinctKeys(model.buckets[b]) && to.Unlinked(chains[b], model.buckets[b])
      ensures OnlyHere(b, chains[b])
    {
      ghost var c: seq<Node<K, V>> := chains[b];
      ghost var es := model.buckets[b];
      assert GoodChain(hash, |model.buckets|, b, es);
      forall b', i, j | 0 <= b' < |chains| && b' != b && 0 <= i < |chains[b']| && 0 <= j < |c|
        ensures chains[b'][i] != c[j]
      {
        OnePlace(b, j);
      }
      forall i | 0 <= i < |es|
        ensures LookupTable(hash, to.model, es[i].key).None?
      {
        LookupChainFinds(es, es[i].key);
        assert LookupTable(hash, model, es[i].key).Some?;
      }
      forall i | 0 <= i < |c|
        ensures c[i] !in to.nodes && Entry(c[i].key, c[i].val) == es[i] && c[i].next == At(c, i + 1)
      {
        assert chains[b][i].next == At(c, i + 1);
      }
    }
  }

  lemma {:induction false} RemoveAt<K, V>(es: Chain<K, V>, i: nat, k: K)
    requires i < |es| && es[i].key == k && forall j :: 0 <= j < i ==> es[j].key != k
    ensures LookupChain(es, k).Some? && RemoveFromChain(es, k) == es[..i] + es[i + 1..]
  {
    if i > 0 {
      RemoveAt(es[1..], i - 1, k);
      assert es[..i] + es[i + 1..] == [es[0]] + (es[1..][..i - 1] + es[1..][i..]);
    }
  }

  lemma {:induction false} SetAt<K, V>(es: Chain<K, V>, i: nat, v: V)
    requires i < |es| && DistinctKeys(es)
    ensures SetInChain(es, es[i].key, v) == es[i := Entry(es[i].key, v)]
  {
    if i > 0 { SetAt(es[1..], i - 1, v); }
  }

  lemma AddPinned<K(!new), V>(hash: K -> nat, d: Dict<K, V>, k: K, v: V)
    ensures d.iterators > 0 ==> DictModel.Add(hash, d, k, v).0.iterators == d.iterators
  {
  }

  /** A `dict`: two tables, of which the second one is used while entries move over to it. */
  class HashTable<K(==, !new), V> {
    const hash: K -> nat
    var ht0: ChainTable<K, V>
    var ht1: ChainTable<K, V>
    var rehashidx: int
    var iterators: nat
    var canResize: bool
    ghost var Repr: set<object>

    /** The dictionary value. */
    ghost function State(): Dict<K, V>
      reads this, ht0, ht1
    {
      Dict(ht0.model, ht1.model, rehashidx, iterators, canResize)
    }

    ghost predicate Valid()
      reads this, Repr
      ensures Valid() ==> this in Repr
    {
      && this in Repr && ht0 in Repr && ht1 in Repr && ht0.heads in Repr && ht1.heads in Repr
      && ht0.nodes <= Repr && ht1.nodes <= Repr
      && ht0 != ht1 && ht0.heads != ht1.heads && ht0.nodes !! ht1.nodes
      && ht0.Valid() && ht1.Valid() && ht0.hash == hash && ht1.hash == hash
      && WF(hash, State())
    }

    /** The nodes of the chains `c0` and `c1`, except one with key `x`, are in the chains of the two tables. */
    ghost predicate KeepsNodes(c0: seq<seq<Node<K, V>>>, c1: seq<seq<Node<K, V>>>, x: Option<K>)
      reads this, ht0, ht1
    {
      Keeps(c0, ht0.chains, x) && Keeps(c1, ht1.chains, x)
    }

    constructor (hash: K -> nat, canResize: bool)
      ensures Valid() && fresh(Repr)
      ensures this.hash == hash && State() == EmptyDict(canResize)
    {
      hide WF, GoodTable, ChainTable.Valid;
      this.hash := hash;
      ht0 := new ChainTable(hash, 0);
      ht1 := new ChainTable(hash, 0);
      rehashidx, iterators := -1, 0;
      this.canResize := canResize;
      new;
      Repr := {this, ht0, ht0.heads, ht1, ht1.heads};
      EmptyIsWF<K, V>(hash, canResize);
    }

    /** Counts one more safe iterator. */
    method Pin()
      requires Valid()
      modifies this`iterators
      ensures Valid() && State() == old(State()).(iterators := old(iterators) + 1)
    {
      iterators := iterators + 1;
    }

    /** _dictNextPower. */
    method NextPower(size: nat) returns (i: nat)
      ensures i == DictModel.NextPower(size)
    {
      i := INITIAL_SIZE;
      while i < size
        invariant i > 0 && DoubleUntil(i, size) == DictModel.NextPower(size)
        decreases size - i
      {
        i := i * 2;
      }
    }

    /** dictExpand. */
    method Expand(size: nat) returns (ok: bool)
      requires Valid()
      modifies this
      ensures Valid() && fresh(Repr - old(Repr))
      ensures (State(), ok) == DictModel.Expand(old(State()), size)
      ensures KeepsNodes(old(ht0.chains), old(ht1.chains), None)
    {
      KeepsAll(ht0.chains, ht0.chains, None);
      KeepsAll(ht1.chains, ht1.chains, None);
      hide Keeps;
      assert rehashidx == -1 ==> ht1.chains == [];
      if rehashidx != -1 || ht0.used > size { return false; }
      assert WF(hash, DictModel.Expand(State(), size).0) by { ExpandKeeps(hash, State(), size); }
      hide WF, GoodTable;
      var n := NextPower(size);
      if ht0.heads.Length != 0 {
        NextTable(n);
        KeepsAll(ht0.chains, ht1.chains, None);
      } else {
        assert ht0.chains == [];
        FirstTable(n);
        KeepsAll(ht1.chains, ht0.chains, None);
      }
      return true;
    }

    /** The first initialization: the new table is the only one. */
    method FirstTable(n: nat)
      requires Valid() && WF(hash, State().(ht0 := Table(seq(n, _ => []), 0)))
      modifies this
      ensures Valid() && fresh(Repr - old(Repr)) && State() == old(State()).(ht0 := Table(seq(n, _ => []), 0))
      ensures ht1 == old(ht1)
    {
      hide WF, GoodTable;
      var t := new ChainTable(hash, n);
      Repr := Repr + {t, t.heads};
      ht0 := t;
    }

    /** A second table, and a rehash into it. */
    method NextTable(n: nat)
      requires Valid() && WF(hash, State().(ht1 := Table(seq(n, _ => []), 0), rehashidx := 0))
      modifies this
      ensures Valid() && fresh(Repr - old(Repr))
      ensures State() == old(State()).(ht1 := Table(seq(n, _ => []), 0), rehashidx := 0)
      ensures ht0 == old(ht0)
    {
      hide WF, GoodTable;
      var t := new ChainTable(hash, n);
      Repr := Repr + {t, t.heads};
      ht1, rehashidx := t, 0;
    }

    /** One turn of the loop of dictRehash. */
    method RehashTurn()
      requires Valid() && rehashidx != -1
      modifies Repr
      ensures Valid() && fresh(Repr - old(Repr))
      ensures State() == RehashOne(hash, old(State()))
    {
      if ht0.used == 0 {
        FinishRehash();
      } else {
        SkipLoopStops(hash, State());
        SkipEmpty();
        MoveBucket();
      }
    }

    /** The new table takes the place of the old one. */
    method FinishRehash()
      requires Valid() && rehashidx != -1 && ht0.used == 0
      modifies this
      ensures Valid() && fresh(Repr - old(Repr))
      ensures State() == RehashOne(hash, old(State()))
    {
      hide WF, GoodTable;
      assert WF(hash, RehashOne(hash, State())) by { RehashOneKeeps(hash, State()); }
      var t := new ChainTable(hash, 0);
      Repr := Repr + {t, t.heads};
      ht0, ht1, rehashidx := ht1, t, -1;
    }

    /** The entries of the next bucket move over. */
    method MoveBucket()
      requires Valid() && 0 <= rehashidx < ht0.heads.Length && ht0.used != 0
      requires ht0.model.buckets[rehashidx] != []
      modifies Repr
      ensures Valid() && Repr == old(Repr)
      ensures State() == RehashOne(hash, old(State()))
    {
      MoveKnown();
      hide WF, GoodTable, LookupTable;
      ht0.Drain(rehashidx, ht1);
      rehashidx := rehashidx + 1;
    }

    lemma MoveKnown()
      requires Valid() && 0 <= rehashidx < ht0.heads.Length && ht0.used != 0
      requires ht0.model.buckets[rehashidx] != []
      ensures WF(hash, RehashOne(hash, State())) && ht1.heads.Length > 0
      ensures forall k :: LookupTable(hash, ht0.model, k).None? || LookupTable(hash, ht1.model, k).None?
    {
      RehashOneKeeps(hash, State());
    }

    /** The loop of dictRehash that skips empty buckets; it stays inside the table. */
    method SkipEmpty()
      requires Valid() && 0 <= rehashidx < ht0.heads.Length
      requires FirstNonEmpty(ht0.model.buckets, rehashidx) < ht0.heads.Length
      modifies this`rehashidx
      ensures Valid() && Repr == old(Repr) && RehashOne(hash, State()) == RehashOne(hash, old(State()))
      ensures State() == old(State()).(rehashidx := FirstNonEmpty(ht0.model.buckets, old(rehashidx)))
    {
      ghost var last := FirstNonEmpty(ht0.model.buckets, rehashidx);
      while ht0.heads[rehashidx] == null
        invariant old(rehashidx) <= rehashidx <= last
        decreases last - rehashidx
      {
        rehashidx := rehashidx + 1;
      }
    }

    /** dictRehash. */
    method Rehash(n: nat) returns (more: bool)
      requires Valid()
      modifies Repr
      ensures Valid() && fresh(Repr - old(Repr))
      ensures (State(), more) == DictModel.Rehash(hash, old(State()), n)
    {
      hide RehashOne, WF;
      var left := n;
      while rehashidx != -1 && left > 0
        invariant Valid() && fresh(Repr - old(Repr))
        invariant 0 <= left <= n
        invariant DictModel.Rehash(hash, State(), left) == DictModel.Rehash(hash, old(State()), n)
        decreases left
      {
        ghost var d := State();
        RehashTurn();
        assert DictModel.Rehash(hash, d, left) == DictModel.Rehash(hash, State(), left - 1);
        left := left - 1;
      }
      more := rehashidx != -1;
    }

    /** _dictRehashStep, under the test that each caller makes first. */
    method Step()
      requires Valid()
      modifies Repr
      ensures Valid() && fresh(Repr - old(Repr))
      ensures State() == DictModel.Step(hash, old(State()))
      ensures old(iterators) > 0 ==> Repr == old(Repr) && KeepsNodes(old(ht0.chains), old(ht1.chains), None)
    {
      KeepsAll(ht0.chains, ht0.chains, None);
      KeepsAll(ht1.chains, ht1.chains, None);
      hide Keeps;
      if rehashidx != -1 && iterators == 0 { RehashTurn(); }
    }

    /** The entry of `k`, and whether it is in the first table. */
    method Search(k: K) returns (n: Node?<K, V>, first: bool)
      requires Valid() && ht0.heads.Length > 0
      ensures n == null ==> Lookup(hash, State(), k) == None
      ensures n != null ==> n.key == k && Lookup(hash, State(), k) == Some(n.val) && first == LookupTable(hash, ht0.model, k).Some?
      ensures n != null ==> var t := if first then ht0 else ht1;
                t.heads.Length > 0 && (!first ==> rehashidx != -1) && n in t.chains[Index(hash, t.heads.Length, k)]
    {
      n := ht0.Search(k);
      first := n != null;
      if n == null && rehashidx != -1 { n := ht1.Search(k); }
    }

    /** dictFind. */
    method Find(k: K) returns (n: Node?<K, V>)
      requires Valid()
      modifies Repr
      ensures Valid() && fresh(Repr - old(Repr))
      ensures n != null ==> n.key == k
      ensures (State(), if n == null then None else Some(n.val)) == DictModel.Find(hash, old(State()), k)
      ensures old(iterators) > 0 ==> KeepsNodes(old(ht0.chains), old(ht1.chains), None)
    {
      KeepsAll(ht0.chains, ht0.chains, None);
      KeepsAll(ht1.chains, ht1.chains, None);
      hide Keeps;
      if ht0.heads.Length == 0 { return null; }
      Step();
      var first;
      n, first := Search(k);
    }

    /** _dictExpandIfNeeded. */
    method ExpandIfNeeded() returns (ok: bool)
      requires Valid()
      modifies this
      ensures Valid() && fresh(Repr - old(Repr))
      ensures (State(), ok) == DictModel.ExpandIfNeeded(old(State()))
      ensures KeepsNodes(old(ht0.chains), old(ht1.chains), None)
    {
      KeepsAll(ht0.chains, ht0.chains, None);
      KeepsAll(ht1.chains, ht1.chains, None);
      hide Keeps;
      if rehashidx != -1 { return true; }
      if ht0.heads.Length == 0 {
        ok := Expand(INITIAL_SIZE);
      } else if ht0.used >= ht0.heads.Length && (canResize || ht0.used / ht0.heads.Length > FORCE_RESIZE_RATIO) {
        ok := Expand(ht0.used * 2);
      } else {
        ok := true;
      }
    }

    method Insert(k: K, v: V)
      requires Valid() && ht0.heads.Length > 0 && Lookup(hash, State(), k).None?
      modifies Repr
      ensures Valid() && fresh(Repr - old(Repr))
      ensures State() == DictModel.Insert(hash, old(State()), k, v)
      ensures KeepsNodes(old(ht0.chains), old(ht1.chains), None)
    {
      hide WF, GoodTable, LookupTable, Keeps, Lookup, Push;
      InsertKnown(k, v);
      var e := new Node(k, v, null);
      Repr := Repr + {e};
      if rehashidx != -1 { LinkNew(e); } else { LinkOld(e); }
    }

    /** What an insertion needs to know of the tables, and leads to. */
    lemma InsertKnown(k: K, v: V)
      requires Valid() && ht0.heads.Length > 0 && Lookup(hash, State(), k).None?
      ensures LookupTable(hash, ht0.model, k).None?
      ensures rehashidx != -1 ==> ht1.heads.Length > 0 && LookupTable(hash, ht1.model, k).None?
      ensures var d' := if rehashidx != -1 then State().(ht1 := Push(hash, ht1.model, Entry(k, v)))
                        else State().(ht0 := Push(hash, ht0.model, Entry(k, v)));
        WF(hash, d') && d' == DictModel.Insert(hash, State(), k, v)
    {
      InsertInserts(hash, State(), k, v);
    }

    /** The new entry goes into the table that the rehash fills. */
    method LinkNew(e: Node<K, V>)
      requires Valid() && e !in ht0.nodes && e !in ht1.nodes && e in Repr && ht1.heads.Length > 0
      requires LookupTable(hash, ht1.model, e.key).None?
      requires WF(hash, State().(ht1 := Push(hash, ht1.model, Entry(e.key, e.val))))
      modifies Repr
      ensures Valid() && Repr == old(Repr)
      ensures State() == old(State().(ht1 := Push(hash, ht1.model, Entry(e.key, e.val))))
      ensures KeepsNodes(old(ht0.chains), old(ht1.chains), None)
    {
      KeepsAll(ht0.chains, ht0.chains, None);
      hide Keeps;
      hide WF, GoodTable;
      ht1.Link(e);
    }

    /** The new entry goes into the only table. */
    method LinkOld(e: Node<K, V>)
      requires Valid() && e !in ht0.nodes && e !in ht1.nodes && e in Repr && ht0.heads.Length > 0
      requires LookupTable(hash, ht0.model, e.key).None?
      requires WF(hash, State().(ht0 := Push(hash, ht0.model, Entry(e.key, e.val))))
      modifies Repr
      ensures Valid() && Repr == old(Repr)
      ensures State() == old(State().(ht0 := Push(hash, ht0.model, Entry(e.key, e.val))))
      ensures KeepsNodes(old(ht0.chains), old(ht1.chains), None)
    {
      KeepsAll(ht1.chains, ht1.chains, None);
      hide Keeps;
      hide WF, GoodTable;
      ht0.Link(e);
    }

    /** dictAddRaw, with the value that its caller stores in the new entry. */
    method Add(k: K, v: V) returns (added: bool)
      requires Valid()
      modifies Repr
      ensures Valid() && fresh(Repr - old(Repr))
      ensures (State(), added) == DictModel.Add(hash, old(State()), k, v)
      ensures old(iterators) > 0 ==> KeepsNodes(old(ht0.chains), old(ht1.chains), None)
    {
      hide Keeps;
      Step();
      ghost var c0, c1 := ht0.chains, ht1.chains;
      added := AddIfAbsent(k, v);
      KeepsBoth(old(ht0.chains), old(ht1.chains), c0, c1, None);
    }

    /** dictAddRaw after its rehash step. */
    method AddIfAbsent(k: K, v: V) returns (added: bool)
      requires Valid()
      modifies Repr
      ensures Valid() && fresh(Repr - old(Repr))
      ensures var (d, ok) := DictModel.ExpandIfNeeded(old(State()));
        && added == (ok && Lookup(hash, d, k).None?)
        && State() == if added then DictModel.Insert(hash, d, k, v) else d
      ensures KeepsNodes(old(ht0.chains), old(ht1.chains), None)
    {
      hide Keeps, WF, GoodTable;
      assert |DictModel.ExpandIfNeeded(State()).0.ht0.buckets| > 0 by { ExpandIfNeededKeeps(hash, State()); }
      var ok := ExpandIfNeeded();
      ghost var c0, c1 := ht0.chains, ht1.chains;
      var n, first := Search(k);
      added := ok && n == null;
      if added {
        Insert(k, v);
        KeepsBoth(old(ht0.chains), old(ht1.chains), c0, c1, None);
      }
    }

    /** What one operation keeps and then another one. */
    lemma KeepsBoth(a0: seq<seq<Node<K, V>>>, a1: seq<seq<Node<K, V>>>, b0: seq<seq<Node<K, V>>>,
        b1: seq<seq<Node<K, V>>>, x: Option<K>)
      ensures Keeps(a0, b0, None) && Keeps(a1, b1, None) && KeepsNodes(b0, b1, x) ==> KeepsNodes(a0, a1, x)
    {
    }

    /** dictReplace. */
    method Replace(k: K, v: V) returns (isNew: bool)
      requires Valid()
      modifies Repr
      ensures Valid() && fresh(Repr - old(Repr))
      ensures (State(), isNew) == DictModel.Replace(hash, old(State()), k, v)
      ensures old(iterators) > 0 ==> KeepsNodes(old(ht0.chains), old(ht1.chains), None)
    {
      hide Keeps, WF, GoodTable;
      assert DictModel.Add(hash, State(), k, v).1 || Lookup(hash, DictModel.Add(hash, State(), k, v).0, k).Some? by {
        AddAdds(hash, State(), k, v);
      }
      isNew := Add(k, v);
      if !isNew {
        ghost var c0, c1 := ht0.chains, ht1.chains;
        assert iterators == old(iterators) by { AddPinned(hash, old(State()), k, v); }
        Store(k, v);
        KeepsBoth(old(ht0.chains), old(ht1.chains), c0, c1, None);
      }
    }

    /** Looks an entry up again and changes its value. */
    method Store(k: K, v: V)
      requires Valid() && Lookup(hash, State(), k).Some?
      modifies Repr
      ensures Valid() && fresh(Repr - old(Repr))
      ensures State() == DictModel.Store(hash, DictModel.Find(hash, old(State()), k).0, k, v)
      ensures old(iterators) > 0 ==> KeepsNodes(old(ht0.chains), old(ht1.chains), None)
    {
      hide Keeps;
      assert Lookup(hash, DictModel.Find(hash, State(), k).0, k).Some? by { FindFinds(hash, State(), k); }
      Step();
      ghost var c0, c1 := ht0.chains, ht1.chains;
      SetVal(k, v);
      KeepsBoth(old(ht0.chains), old(ht1.chains), c0, c1, None);
    }

    method SetVal(k: K, v: V)
      requires Valid() && Lookup(hash, State(), k).Some?
      modifies Repr
      ensures Valid() && Repr == old(Repr)
      ensures State() == DictModel.Store(hash, old(State()), k, v)
      ensures KeepsNodes(old(ht0.chains), old(ht1.chains), None)
    {
      assert WF(hash, DictModel.Store(hash, State(), k, v)) by { StoreStores(hash, State(), k, v); }
      assert ht0.heads.Length > 0;
      hide WF, GoodTable, Keeps;
      var n, first := Search(k);
      if first { SetOld(n, v); } else { SetNew(n, v); }
    }

    /** The entry is in the first table. */
    method SetOld(n: Node<K, V>, v: V)
      requires Valid() && ht0.heads.Length > 0 && n in ht0.chains[Index(hash, ht0.heads.Length, n.key)]
      requires WF(hash, State().(ht0 := SetInTable(hash, ht0.model, n.key, v)))
      modifies Repr
      ensures Valid() && Repr == old(Repr) && KeepsNodes(old(ht0.chains), old(ht1.chains), None)
      ensures State() == old(State().(ht0 := SetInTable(hash, ht0.model, n.key, v)))
    {
      KeepsAll(ht0.chains, ht0.chains, None);
      KeepsAll(ht1.chains, ht1.chains, None);
      hide WF, GoodTable, Keeps;
      ht0.SetVal(n, v);
    }

    /** The entry is in the table that the rehash fills. */
    method SetNew(n: Node<K, V>, v: V)
      requires Valid() && ht1.heads.Length > 0 && n in ht1.chains[Index(hash, ht1.heads.Length, n.key)]
      requires WF(hash, State().(ht1 := SetInTable(hash, ht1.model, n.key, v)))
      modifies Repr
      ensures Valid() && Repr == old(Repr) && KeepsNodes(old(ht0.chains), old(ht1.chains), None)
      ensures State() == old(State().(ht1 := SetInTable(hash, ht1.model, n.key, v)))
    {
      KeepsAll(ht0.chains, ht0.chains, None);
      KeepsAll(ht1.chains, ht1.chains, None);
      hide WF, GoodTable, Keeps;
      ht1.SetVal(n, v);
    }

    /** dictGenericDelete. */
    method Delete(k: K) returns (deleted: bool)
      requires Valid()
      modifies Repr
      ensures Valid() && fresh(Repr - old(Repr))
      ensures (State(), deleted) == DictModel.Delete(hash, old(State()), k)
      ensures old(iterators) > 0 ==> KeepsNodes(old(ht0.chains), old(ht1.chains), Some(k))
    {
      KeepsAll(ht0.chains, ht0.chains, Some(k));
      KeepsAll(ht1.chains, ht1.chains, Some(k));
      hide Keeps;
      if ht0.heads.Length == 0 { return false; }
      Step();
      ghost var c0, c1 := ht0.chains, ht1.chains;
      deleted := Unlink(k);
      KeepsBoth(old(ht0.chains), old(ht1.chains), c0, c1, Some(k));
    }

    /** The loop of dictGenericDelete over the two tables. */
    method Unlink(k: K) returns (deleted: bool)
      requires Valid() && ht0.heads.Length > 0
      modifies Repr
      ensures Valid()
      ensures Repr == old(Repr)
      ensures deleted == Lookup(hash, old(State()), k).Some?
      ensures State() == if deleted then Remove(hash, old(State()), k) else old(State())
      ensures KeepsNodes(old(ht0.chains), old(ht1.chains), Some(k))
    {
      assert Lookup(hash, State(), k).Some? ==> WF(hash, Remove(hash, State(), k)) by {
        if Lookup(hash, State(), k).Some? { RemoveDrops(hash, State(), k); }
      }
      assert rehashidx != -1 ==> ht1.heads.Length > 0;
      hide WF, GoodTable, Keeps;
      deleted := UnlinkOld(k);
      if !deleted && rehashidx != -1 { deleted := UnlinkNew(k); }
    }

    /** Its turn for the first table. */
    method UnlinkOld(k: K) returns (found: bool)
      requires Valid() && ht0.heads.Length > 0
      requires LookupTable(hash, ht0.model, k).Some? ==> WF(hash, State().(ht0 := RemoveFromTable(hash, ht0.model, k)))
      modifies Repr
      ensures Valid() && Repr == old(Repr) && ht0 == old(ht0) && ht1 == old(ht1)
      ensures found == LookupTable(hash, old(ht0.model), k).Some?
      ensures State() == if found then old(State().(ht0 := RemoveFromTable(hash, ht0.model, k))) else old(State())
      ensures KeepsNodes(old(ht0.chains), old(ht1.chains), Some(k)) && ht1.chains == old(ht1.chains)
      ensures !found ==> ht0.chains == old(ht0.chains)
    {
      KeepsAll(ht1.chains, ht1.chains, Some(k));
      hide WF, GoodTable, Keeps;
      found := ht0.Unlink(k);
    }

    /** Its turn for the table that the rehash fills. */
    method UnlinkNew(k: K) returns (found: bool)
      requires Valid() && ht1.heads.Length > 0
      requires LookupTable(hash, ht1.model, k).Some? ==> WF(hash, State().(ht1 := RemoveFromTable(hash, ht1.model, k)))
      modifies Repr
      ensures Valid() && Repr == old(Repr)
      ensures found == LookupTable(hash, old(ht1.model), k).Some?
      ensures State() == if found then old(State().(ht1 := RemoveFromTable(hash, ht1.model, k))) else old(State())
      ensures KeepsNodes(old(ht0.chains), old(ht1.chains), Some(k))
    {
      KeepsAll(ht0.chains, ht0.chains, Some(k));
      hide WF, GoodTable, Keeps;
      found := ht1.Unlink(k);
    }

    /** dictScan: the entries passed to the callback, and the next cursor. */
    method Scan(v: Word) returns (out: Chain<K, V>, next: Word)
      requires Valid() && DictScan.Addressable(State())
      ensures DictScan.Ready(State()) && (out, next) == DictScan.Scan(State(), v)
    {
      hide WF, GoodTable, DictScan.Expansions, DictScan.EmitAll, DictScan.NextCursor, Pow2, DictScan.Log2;
      ScanKnown();
      if ht0.used + ht1.used == 0 {
        return [], Fill(WIDTH, false);
      } else if rehashidx == -1 {
        out := EmitAt(ht0, v);
        next := NextCursor(v, SizeMaskOf(ht0), DictScan.Log2(ht0.heads.Length));
      } else if ht0.heads.Length > ht1.heads.Length {
        out, next := ScanTwo(ht1, ht0, v);
      } else {
        out, next := ScanTwo(ht0, ht1, v);
      }
    }

    lemma ScanKnown()
      requires Valid() && DictScan.Addressable(State())
      ensures DictScan.Ready(State())
      ensures ht0.used + ht1.used != 0 ==> ht0.heads.Length > 0 && DictScan.Sized(ht0.model)
      ensures rehashidx != -1 ==> ht0.heads.Length > 0 && ht1.heads.Length > 0 && DictScan.Sized(ht1.model)
      ensures var k0, k1 := DictScan.Log2(ht0.heads.Length), DictScan.Log2(ht1.heads.Length);
        if ht0.heads.Length > ht1.heads.Length then k1 <= k0 else k0 <= k1
      ensures DictScan.Sized(ht0.model) && ht0.heads.Length > 0 ==> ht0.heads.Length == Pow2(DictScan.Log2(ht0.heads.Length))
      ensures DictScan.Log2(ht0.heads.Length) <= WIDTH
    {
      DictScan.WFIsSized(hash, State());
      if ht0.heads.Length > ht1.heads.Length {
        DictScan.Log2Monotone(ht1.heads.Length, ht0.heads.Length);
      } else {
        DictScan.Log2Monotone(ht0.heads.Length, ht1.heads.Length);
      }
    }

    /** The scan of a smaller table `t0` and a larger one `t1`. */
    method ScanTwo(t0: ChainTable<K, V>, t1: ChainTable<K, V>, v: Word) returns (out: Chain<K, V>, next: Word)
      requires t0.Valid() && t1.Valid() && t0.heads.Length > 0 && t1.heads.Length > 0
      requires DictScan.Sized(t0.model) && DictScan.Sized(t1.model)
      requires DictScan.Log2(t0.heads.Length) <= DictScan.Log2(t1.heads.Length)
      ensures var k0, k1 := DictScan.Log2(t0.heads.Length), DictScan.Log2(t1.heads.Length);
        && out == DictScan.Emit(t0.model, v, k0) + DictScan.EmitAll(t1.model, DictScan.Expansions(v, k0, k1), k1)
        && next == DictScan.NextCursor(v, k0)
    {
      hide DictScan.Emit, DictScan.EmitAll, DictScan.Expansions, DictScan.ReverseInc;
      ghost var k0, k1 := DictScan.Log2(t0.heads.Length), DictScan.Log2(t1.heads.Length);
      out := EmitAt(t0, v);
      SizeMask(k0, WIDTH);
      SizeMask(k1, WIDTH);
      var more, w := t1.EmitExpansions(v, SizeMaskOf(t0), SizeMaskOf(t1), k0, k1);
      out := out + more;
      next := NextCursor(w, SizeMaskOf(t0), k0);
    }

    /** The mask of a table of 2^k buckets. */
    static function SizeMaskOf(t: ChainTable<K, V>): Word
      requires t.heads.Length > 0
    {
      FromNat(t.heads.Length - 1, WIDTH)
    }

    method EmitAt(t: ChainTable<K, V>, v: Word) returns (out: Chain<K, V>)
      requires t.Valid() && DictScan.Sized(t.model) && t.heads.Length > 0
      ensures out == DictScan.Emit(t.model, v, DictScan.Log2(t.heads.Length))
    {
      ghost var k := DictScan.Log2(t.heads.Length);
      SizeMask(k, WIDTH);
      AndMask(v, k);
      ValueBound(v[..k]);
      out := t.Emit(Value(And(v, SizeMaskOf(t))));
    }

    /** The end of dictScan: the reversed cursor is incremented on the bits of the mask. */
    method NextCursor(v: Word, m0: Word, ghost k: nat) returns (next: Word)
      requires k <= WIDTH && m0 == FromNat(Pow2(k) - 1, WIDTH)
      ensures next == DictScan.NextCursor(v, k)
    {
      SizeMask(k, WIDTH);
      DictScan.NextCursorCode(v, k);
      next := Or(v, Not(m0));
      next := Rev(next);
      next := Inc(next);
      next := Rev(next);
    }
  }
}
