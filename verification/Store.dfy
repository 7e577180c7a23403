/** The server's store in place: the hash table and the skiplist, with the handlers of commands.c that work on them. */
module Store {
  import opened Bytes
  import opened Options
  import opened StoreModel
  import Hash = HashTable
  import List = Skiplist
  import D = DictModel
  import S = SkipModel
  import Sds

  class Store {
    const fl: Limits
    const dict: Hash.HashTable<bytes, ()>
    const sl: List.Skiplist
    ghost var Repr: set<object>

    ghost function State(): StoreModel.Store
      reads this, dict, dict.ht0, dict.ht1, sl
    {
      StoreModel.Store(dict.State(), sl.model)
    }

    /** The two structures are sound on their own and share no memory. */
    ghost predicate Sound()
      reads this, Repr
      ensures Sound() ==> this in Repr && dict in Repr && sl in Repr && dict.Valid() && sl.Valid() && dict.Repr <= Repr && sl.Repr <= Repr
    {
      && this in Repr && dict in Repr && sl in Repr && dict.Repr <= Repr && sl.Repr <= Repr
      && dict.Repr !! sl.Repr && this !in dict.Repr && this !in sl.Repr
      && dict.Valid() && sl.Valid() && sl.keyLen == fl.keyLen
    }

    ghost predicate Valid()
      reads this, Repr
      ensures Valid() ==> this in Repr
    {
      Sound() && Consistent(dict.hash, fl, State())
    }

    constructor (hash: bytes -> nat, fl: Limits, canResize: bool)
      ensures Valid() && fresh(Repr)
      ensures this.fl == fl && dict.hash == hash && State() == Empty(canResize)
    {
      hide Consistent, Hash.HashTable.Valid, List.Skiplist.Valid;
      this.fl := fl;
      var d := new Hash.HashTable<bytes, ()>(hash, canResize);
      var l := new List.Skiplist(fl.keyLen);
      dict, sl, Repr := d, l, {this} + d.Repr + l.Repr;
      new;
      EmptyIsConsistent(hash, fl, canResize);
    }

    // ---------- Calls into one of the structures ----------

    method Find(k: bytes) returns (found: bool)
      requires Sound()
      modifies Repr
      ensures Sound() && fresh(Repr - old(Repr))
      ensures State() == old(State()).(dict := D.Find(dict.hash, old(State()).dict, k).0)
      ensures found == D.Find(dict.hash, old(State()).dict, k).1.Some?
    {
      var n := dict.Find(k);
      Repr := Repr + dict.Repr;
      found := n != null;
    }

    method AddKey(k: bytes)
      requires Sound()
      modifies Repr
      ensures Sound() && fresh(Repr - old(Repr))
      ensures State() == old(State()).(dict := D.Add(dict.hash, old(State()).dict, k, ()).0)
    {
      var added := dict.Add(k, ());
      Repr := Repr + dict.Repr;
    }

    method DeleteKey(k: bytes)
      requires Sound()
      modifies Repr
      ensures Sound() && fresh(Repr - old(Repr))
      ensures State() == old(State()).(dict := D.Delete(dict.hash, old(State()).dict, k).0)
    {
      var deleted := dict.Delete(k);
      Repr := Repr + dict.Repr;
    }

    method InsertNode(k: bytes, v: bytes, height: nat)
      requires Sound() && |k| == fl.keyLen && 1 <= height <= 16
      modifies Repr
      ensures Sound() && fresh(Repr - old(Repr))
      ensures State() == old(State()).(sl := S.Insert(old(State()).sl, k, v, height))
    {
      sl.Insert(k, v, height);
      Repr := Repr + sl.Repr;
    }

    method ReplaceNode(k: bytes, v: bytes)
      requires Sound() && |k| == fl.keyLen
      modifies Repr
      ensures Sound() && Repr == old(Repr)
      ensures State() == old(State()).(sl := S.Replace(old(State()).sl, k, v).0)
    {
      var found := sl.Replace(k, v);
    }

    method AddPair(k: bytes, v: bytes, height: nat)
      requires Sound() && |k| == fl.keyLen && 1 <= height <= 16
      modifies Repr
      ensures Sound() && fresh(Repr - old(Repr))
      ensures State() == StoreModel.Store(D.Add(dict.hash, old(State()).dict, k, ()).0, S.Insert(old(State()).sl, k, v, height))
    {
      hide Sound;
      AddKey(k);
      InsertNode(k, v, height);
    }

    method DeleteNode(k: bytes)
      requires Sound() && |k| == fl.keyLen
      modifies Repr
      ensures Sound() && Repr == old(Repr)
      ensures State() == old(State()).(sl := S.Delete(old(State()).sl, k).0)
    {
      var found := sl.Delete(k);
    }

    method DeletePair(k: bytes)
      requires Sound() && |k| == fl.keyLen
      modifies Repr
      ensures Sound() && fresh(Repr - old(Repr))
      ensures State() == StoreModel.Store(D.Delete(dict.hash, old(State()).dict, k).0, S.Delete(old(State()).sl, k).0)
    {
      hide Sound;
      DeleteNode(k);
      DeleteKey(k);
    }

    // ---------- The handlers ----------

    /** getCommand. */
    method Get(k: bytes) returns (r: Reply)
      requires Valid()
      modifies Repr
      ensures Valid() && fresh(Repr - old(Repr))
      ensures (State(), r) == GetCommand(dict.hash, fl, old(State()), k)
    {
      if |k| != fl.keyLen { return KeyLength; }
      ghost var s := GetCommand(dict.hash, fl, State(), k);
      assert Consistent(dict.hash, fl, s.0) by { GetAnswers(dict.hash, fl, State(), k); }
      hide Consistent, Sound;
      var found := Find(k);
      if !found { return Null; }
      r := Fetch(k);
    }

    method Fetch(k: bytes) returns (r: Reply)
      requires Sound() && |k| == fl.keyLen
      ensures r == match S.Search(State().sl, k) case Some(v) => Bulk(v) case None => Crash
    {
      var res := sl.Search(k);
      match res
      case Some(v) => return Bulk(v);
      case None => return Crash;
    }

    /** putCommand. */
    method Put(k: bytes, v: bytes, height: nat) returns (r: Reply)
      requires Valid() && 1 <= height <= 16
      modifies Repr
      ensures Valid() && fresh(Repr - old(Repr))
      ensures (State(), r) == PutCommand(dict.hash, fl, old(State()), k, v, height)
    {
      if |k| != fl.keyLen || |v| != fl.valLen { return PairLength; }
      ghost var s := PutCommand(dict.hash, fl, State(), k, v, height);
      assert Consistent(dict.hash, fl, s.0) by { PutAnswers(dict.hash, fl, State(), k, v, height); }
      hide Consistent, Sound;
      var found := Find(k);
      if found {
        ReplaceNode(k, v);
      } else {
        AddPair(k, v, height);
      }
      return Status(Ascii("OK"));
    }

    /** deleteCommand. */
    method Delete(k: bytes) returns (r: Reply)
      requires Valid()
      modifies Repr
      ensures Valid() && fresh(Repr - old(Repr))
      ensures (State(), r) == DeleteCommand(dict.hash, fl, old(State()), k)
    {
      hide Consistent, Sound, MapStep, Answers, MapOf, D.Find, D.Delete, S.Delete;
      if |k| != fl.keyLen { return KeyLength; }
      ghost var s := DeleteCommand(dict.hash, fl, State(), k);
      assert Consistent(dict.hash, fl, s.0) by { DeleteAnswers(dict.hash, fl, State(), k); }
      var found := Find(k);
      if !found { return Status(Ascii("0")); }
      DeletePair(k);
      return Status(Ascii("1"));
    }

    /** scanCommand. */
    method Scan(start: bytes, end: bytes) returns (r: Reply)
      requires Valid()
      ensures r == ScanCommand(fl, State(), start, end)
    {
      if |start| != fl.keyLen || |end| != fl.keyLen { return CursorLength; }
      if S.KeyCompare(start, end) > 0 { return CursorOrder(start, end); }
      var tmp := Collect(sl, start, end);
      return Status(Sds.IntRange(tmp, 0, -2));
    }

    /** infoCommand. */
    method Show() returns (r: Reply)
      requires Valid()
      ensures r == ShowCommand(State())
    {
      if sl.length == 0 { return Info(0, Ascii("NULL"), Ascii("NULL")); }
      assert sl.model.items != [] by { SizesAgree(dict.hash, fl, State()); }
      var first := sl.BottomNext(sl.head, 0);
      var max := sl.FindMax();
      return Info(sl.length, first.key, max);
    }
  }

  /** The loop of scanCommand. */
  method Collect(sl: List.Skiplist, start: bytes, end: bytes) returns (tmp: bytes)
    requires sl.Valid()
    ensures tmp == Sds.Lines(Between(sl.model.items, start, end), LF_LINE)
  {
    ghost var items := sl.model.items;
    ghost var m := 0;
    hide List.Skiplist.Valid, Between, Sds.Lines, S.KeyCompare;
    tmp := [];
    assert items[0..] == items;
    var node := sl.BottomNext(sl.head, 0);
    while node != null
      invariant m <= |items| && (node == null <==> m == |items|)
      invariant node != null ==> m + 1 < |sl.all| && node == sl.all[m + 1] && node.key == items[m].key
      invariant Sds.Lines(Between(items, start, end), LF_LINE) == tmp + Sds.Lines(Between(items[m..], start, end), LF_LINE)
      decreases |items| - m
    {
      tmp := CollectKey(items[m..], node.key, tmp, start, end);
      assert items[m..][1..] == items[m + 1..];
      m := m + 1;
      node := sl.BottomNext(node, m);
    }
    assert items[m..] == [];
    CollectEnd(start, end);
  }

  /** One turn: the key is appended if it is in the range. */
  method CollectKey(ghost items: seq<S.Item>, key: bytes, before: bytes, start: bytes, end: bytes) returns (tmp: bytes)
    requires items != [] && key == items[0].key
    ensures before + Sds.Lines(Between(items, start, end), LF_LINE) == tmp + Sds.Lines(Between(items[1..], start, end), LF_LINE)
  {
    CollectStep(items, start, end);
    hide Between, Sds.Lines, S.KeyCompare;
    tmp := before;
    if S.KeyCompare(key, start) >= 0 && S.KeyCompare(key, end) <= 0 { tmp := tmp + (key + LF_LINE); }
  }

  lemma CollectEnd(start: bytes, end: bytes)
    ensures Sds.Lines(Between([], start, end), LF_LINE) == []
  {
  }

  lemma CollectStep(items: seq<S.Item>, start: bytes, end: bytes)
    requires items != []
    ensures var k, rest := items[0].key, Sds.Lines(Between(items[1..], start, end), LF_LINE);
      Sds.Lines(Between(items, start, end), LF_LINE) ==
        if S.KeyCompare(k, start) >= 0 && S.KeyCompare(k, end) <= 0 then k + LF_LINE + rest else rest
  {
    hide S.KeyCompare;
    var k, ks := items[0].key, Between(items[1..], start, end);
    if S.KeyCompare(k, start) >= 0 && S.KeyCompare(k, end) <= 0 {
      assert Between(items, start, end) == [k] + ks;
      assert ([k] + ks)[0] == k && ([k] + ks)[1..] == ks;
    } else {
      assert Between(items, start, end) == ks;
    }
  }
}
