/**
  The two indexes of the server in fixed-length mode, as a value: the hash table that answers
  whether a key exists and the skiplist that holds the data, with the handlers of commands.c.
 */
module StoreModel {
  import opened Bytes
  import opened CInt
  import opened Options
  import D = DictModel
  import R = DictRefinement
  import S = SkipModel
  import Sds

  /** The lengths that `server.fl` fixes. */
  datatype Limits = Limits(keyLen: nat, valLen: nat)

  datatype Store = Store(dict: D.Dict<bytes, ()>, sl: S.SkipList)

  /** `height` is the level that a put draws if it makes a node. */
  datatype Command = Get(key: bytes) | Put(key: bytes, val: bytes, height: nat) | Delete(key: bytes) | Scan(start: bytes, end: bytes) | Show

  /** `Crash` stands for the use of a NULL pointer. */
  datatype Reply = Null | Bulk(val: bytes) | Status(text: bytes) | Info(count: int, min: bytes, max: bytes)
                 | KeyLength | PairLength | CursorLength | CursorOrder(start: bytes, end: bytes) | Crash

  const LF_LINE: bytes := [LF]

  function Empty(canResize: bool): Store { Store(D.EmptyDict(canResize), S.Empty()) }

  // ---------- The handlers ----------

  /** getCommand. */
  function GetCommand(hash: bytes -> nat, fl: Limits, s: Store, k: bytes): (Store, Reply) {
    if |k| != fl.keyLen then (s, KeyLength)
    else
      var (d, found) := D.Find(hash, s.dict, k);
      (s.(dict := d), if found.None? then Null else match S.Search(s.sl, k) case Some(v) => Bulk(v) case None => Crash)
  }

  /** putCommand. */
  function PutCommand(hash: bytes -> nat, fl: Limits, s: Store, k: bytes, v: bytes, height: nat): (Store, Reply) {
    if |k| != fl.keyLen || |v| != fl.valLen then (s, PairLength)
    else
      var (d, found) := D.Find(hash, s.dict, k);
      (if found.Some? then Store(d, S.Replace(s.sl, k, v).0)
       else Store(D.Add(hash, d, k, ()).0, S.Insert(s.sl, k, v, height)),
       Status(Ascii("OK")))
  }

  /** deleteCommand. */
  function DeleteCommand(hash: bytes -> nat, fl: Limits, s: Store, k: bytes): (Store, Reply) {
    if |k| != fl.keyLen then (s, KeyLength)
    else
      var (d, found) := D.Find(hash, s.dict, k);
      if found.None? then (s.(dict := d), Status(Ascii("0")))
      else (Store(D.Delete(hash, d, k).0, S.Delete(s.sl, k).0), Status(Ascii("1")))
  }

  /** The keys of the items from `start` to `end`, in list order. */
  function Between(items: seq<S.Item>, start: bytes, end: bytes): seq<bytes> {
    if items == [] then []
    else
      var k := items[0].key;
      (if S.KeyCompare(k, start) >= 0 && S.KeyCompare(k, end) <= 0 then [k] else []) + Between(items[1..], start, end)
  }

  /** scanCommand: the keys, a line feed after each one, without the last byte. */
  function ScanCommand(fl: Limits, s: Store, start: bytes, end: bytes): Reply {
    if |start| != fl.keyLen || |end| != fl.keyLen then CursorLength
    else if S.KeyCompare(start, end) > 0 then CursorOrder(start, end)
    else Status(Sds.IntRange(Sds.Lines(Between(s.sl.items, start, end), LF_LINE), 0, -2))
  }

  /** infoCommand. */
  function ShowCommand(s: Store): Reply {
    if s.sl.length == 0 then Info(0, Ascii("NULL"), Ascii("NULL"))
    else if s.sl.items == [] then Crash
    else Info(s.sl.length, s.sl.items[0].key, s.sl.items[|s.sl.items| - 1].key)
  }

  function Execute(hash: bytes -> nat, fl: Limits, s: Store, c: Command): (Store, Reply) {
    match c
    case Get(k) => GetCommand(hash, fl, s, k)
    case Put(k, v, height) => PutCommand(hash, fl, s, k, v, height)
    case Delete(k) => DeleteCommand(hash, fl, s, k)
    case Scan(start, end) => (s, ScanCommand(fl, s, start, end))
    case Show => (s, ShowCommand(s))
  }

  function Run(hash: bytes -> nat, fl: Limits, s: Store, cs: seq<Command>): (r: (Store, seq<Reply>))
    ensures |r.1| == |cs|
    decreases |cs|
  {
    if cs == [] then (s, [])
    else
      var (s1, a) := Execute(hash, fl, s, cs[0]);
      var (s2, rest) := Run(hash, fl, s1, cs[1..]);
      (s2, [a] + rest)
  }

  // ---------- What the handlers stand for ----------

  function MapStep(fl: Limits, m: map<bytes, bytes>, c: Command): map<bytes, bytes> {
    match c
    case Put(k, v, _) => if |k| == fl.keyLen && |v| == fl.valLen then m[k := v] else m
    case Delete(k) => if |k| == fl.keyLen then m - {k} else m
    case _ => m
  }

  function MapAfter(fl: Limits, m: map<bytes, bytes>, cs: seq<Command>): map<bytes, bytes>
    decreases |cs|
  {
    if cs == [] then m else MapAfter(fl, MapStep(fl, m, cs[0]), cs[1..])
  }

  ghost predicate Ascending(ks: seq<bytes>) {
    forall i, j :: 0 <= i < j < |ks| ==> |ks[i]| == |ks[j]| && Less(ks[i], ks[j])
  }

  /** `ks` lists the keys of `m` from `start` to `end` in ascending order. */
  ghost predicate Lists(m: map<bytes, bytes>, start: bytes, end: bytes, ks: seq<bytes>) {
    && Ascending(ks)
    && forall k :: k in ks <==> k in m && |k| == |start| == |end| && !Less(k, start) && !Less(end, k)
  }

  /**
    The text of a scan's reply: the keys with a line feed between them, and one line feed for the
    empty key alone; from 2 GB on, what sdsrange leaves of the lines.
   */
  function Listing(ks: seq<bytes>): bytes {
    var lines := Sds.Lines(ks, LF_LINE);
    if |lines| >= TWO_GB then Sds.IntRange(lines, 0, -2) else if ks == [[]] then LF_LINE else Sds.Join(ks, LF_LINE)
  }

  /** `a` is the least and `b` the greatest key of `m`. */
  ghost predicate Bounds(m: map<bytes, bytes>, a: bytes, b: bytes) {
    a in m && b in m && forall k :: k in m ==> |a| == |k| == |b| && !Less(k, a) && !Less(b, k)
  }

  /** The right answer to a command on the map `m`. */
  ghost predicate Answers(fl: Limits, m: map<bytes, bytes>, c: Command, r: Reply) {
    match c
    case Get(k) => r == if |k| != fl.keyLen then KeyLength else if k in m then Bulk(m[k]) else Null
    case Put(k, v, _) => r == if |k| != fl.keyLen || |v| != fl.valLen then PairLength else Status(Ascii("OK"))
    case Delete(k) => r == if |k| != fl.keyLen then KeyLength else Status(Ascii(if k in m then "1" else "0"))
    case Scan(start, end) =>
      if |start| != fl.keyLen || |end| != fl.keyLen then r == CursorLength
      else if Less(end, start) then r == CursorOrder(start, end)
      else exists ks :: Lists(m, start, end, ks) && r == Status(Listing(ks))
    case Show =>
      if m == map[] then r == Info(0, Ascii("NULL"), Ascii("NULL"))
      else r.Info? && r.count == |m| && Bounds(m, r.min, r.max)
  }

  // ---------- The invariant ----------

  function MapOf(s: Store): map<bytes, bytes> { S.ToMap(s.sl.items) }

  /** The two indexes agree. */
  ghost predicate Consistent(hash: bytes -> nat, fl: Limits, s: Store) {
    && R.WF(hash, s.dict) && S.WF(fl.keyLen, s.sl) && S.Counted(s.sl)
    && (forall k :: D.Lookup(hash, s.dict, k).Some? <==> k in MapOf(s))
  }

  lemma EmptyIsConsistent(hash: bytes -> nat, fl: Limits, canResize: bool)
    ensures Consistent(hash, fl, Empty(canResize)) && MapOf(Empty(canResize)) == map[]
  {
    R.EmptyIsWF<bytes, ()>(hash, canResize);
  }

  /** In a consistent store the dictionary has as many entries as the skiplist has nodes. */
  lemma SizesAgree(hash: bytes -> nat, fl: Limits, s: Store)
    requires Consistent(hash, fl, s)
    ensures D.Size(s.dict) == s.sl.length == |s.sl.items| == |MapOf(s)|
    ensures R.View(hash, s.dict).Keys == MapOf(s).Keys
  {
    S.WFIsDistinct(fl.keyLen, s.sl);
    S.ToMapHas(s.sl.items);
    R.ViewIsLookup(hash, s.dict);
    var v, m := R.View(hash, s.dict), MapOf(s);
    assert forall k :: D.Lookup(hash, s.dict, k) == R.Get(v, k);
    assert v.Keys == m.Keys;
    assert |v| == |v.Keys| && |m| == |m.Keys|;
  }

  // ---------- The commands ----------

  lemma GetAnswers(hash: bytes -> nat, fl: Limits, s: Store, k: bytes)
    requires Consistent(hash, fl, s)
    ensures Right(hash, fl, s, Get(k))
  {
    if |k| == fl.keyLen {
      R.FindFinds(hash, s.dict, k);
      S.SearchRefinesMap(fl.keyLen, s.sl, k);
    }
  }

  /** One command keeps the invariant, steps the map and gives the right answer. */
  ghost predicate Right(hash: bytes -> nat, fl: Limits, s: Store, c: Command) {
    var (s', r) := Execute(hash, fl, s, c);
    Consistent(hash, fl, s') && MapOf(s') == MapStep(fl, MapOf(s), c) && Answers(fl, MapOf(s), c, r)
  }

  lemma PutAnswers(hash: bytes -> nat, fl: Limits, s: Store, k: bytes, v: bytes, height: nat)
    requires Consistent(hash, fl, s) && 1 <= height <= 16
    ensures Right(hash, fl, s, Put(k, v, height))
  {
    hide R.WF, S.WF;
    if |k| == fl.keyLen && |v| == fl.valLen {
      R.FindFinds(hash, s.dict, k);
      var d := D.Find(hash, s.dict, k).0;
      if k in MapOf(s) {
        S.ReplaceRefinesMap(fl.keyLen, s.sl, k, v);
      } else {
        R.AddAdds(hash, d, k, ());
        S.InsertRefinesMap(fl.keyLen, s.sl, k, v, height);
      }
    }
  }

  lemma DeleteAnswers(hash: bytes -> nat, fl: Limits, s: Store, k: bytes)
    requires Consistent(hash, fl, s)
    ensures Right(hash, fl, s, Delete(k))
  {
    hide R.WF, S.WF;
    if |k| == fl.keyLen {
      R.FindFinds(hash, s.dict, k);
      if k in MapOf(s) {
        DeletePresent(hash, fl, s, k);
      } else {
        assert MapOf(s) - {k} == MapOf(s);
      }
    }
  }

  lemma DeletePresent(hash: bytes -> nat, fl: Limits, s: Store, k: bytes)
    requires Consistent(hash, fl, s) && |k| == fl.keyLen && k in MapOf(s)
    ensures Right(hash, fl, s, Delete(k))
  {
    hide R.WF, S.WF;
    R.FindFinds(hash, s.dict, k);
    R.DeleteDeletes(hash, D.Find(hash, s.dict, k).0, k);
    S.DeleteRefinesMap(fl.keyLen, s.sl, k);
  }

  lemma AscendingCons(k: bytes, rest: seq<bytes>)
    requires Ascending(rest) && forall x :: x in rest ==> |k| == |x| && Less(k, x)
    ensures Ascending([k] + rest)
  {
    hide Less;
    var all := [k] + rest;
    forall i, j | 0 <= i < j < |all| ensures |all[i]| == |all[j]| && Less(all[i], all[j]) {
      assert all[j] == rest[j - 1] && rest[j - 1] in rest;
      if i > 0 { assert all[i] == rest[i - 1]; }
    }
  }

  /** The keys behind the first item come after it. */
  lemma HeadIsLess(items: seq<S.Item>, k: bytes)
    requires forall i, j :: 0 <= i < j < |items| ==> S.KeyCompare(items[i].key, items[j].key) < 0
    requires items != [] && S.HasKey(items[1..], k)
    ensures |items[0].key| == |k| && Less(items[0].key, k)
  {
    hide Less;
    var j :| 0 <= j < |items[1..]| && items[1..][j].key == k;
    assert items[j + 1].key == k;
    S.KeyOrderIs(items[0].key, k);
  }

  /** The keys that the scan collects are in ascending order, and they are the ones in the range. */
  lemma {:induction false} BetweenLists(items: seq<S.Item>, start: bytes, end: bytes)
    requires forall i :: 0 <= i < |items| ==> |items[i].key| == |start| == |end|
    requires forall i, j :: 0 <= i < j < |items| ==> S.KeyCompare(items[i].key, items[j].key) < 0
    ensures Ascending(Between(items, start, end))
    ensures forall k :: k in Between(items, start, end) <==>
      S.HasKey(items, k) && |k| == |start| == |end| && !Less(k, start) && !Less(end, k)
  {
    hide Less, S.KeyCompare, Ascending, S.HasKey;
    if items == [] {
      NoneBetween(start, end);
    } else {
      var k, rest := items[0].key, Between(items[1..], start, end);
      BetweenLists(items[1..], start, end);
      S.KeyOrderIs(k, start);
      S.KeyOrderIs(k, end);
      forall x ensures S.HasKey(items, x) <==> x == k || S.HasKey(items[1..], x) { HasKeyHead(items, x); }
      forall x | x in rest ensures |k| == |x| && Less(k, x) { HeadIsLess(items, x); }
      AscendingCons(k, rest);
      assert [] + rest == rest;
    }
  }

  lemma NoneBetween(start: bytes, end: bytes)
    ensures Ascending(Between([], start, end)) && Between([], start, end) == [] && forall k :: !S.HasKey([], k)
  {
  }

  lemma HasKeyHead(items: seq<S.Item>, k: bytes)
    requires items != []
    ensures S.HasKey(items, k) <==> k == items[0].key || S.HasKey(items[1..], k)
  {
    if S.HasKey(items, k) && k != items[0].key {
      var i :| 0 <= i < |items| && items[i].key == k;
      assert items[1..][i - 1].key == k;
    }
    if S.HasKey(items[1..], k) {
      var i :| 0 <= i < |items[1..]| && items[1..][i].key == k;
      assert items[i + 1].key == k;
    }
  }

  lemma HasKeyIsInMap(n: nat, s: S.SkipList, k: bytes)
    requires S.WF(n, s)
    ensures S.HasKey(s.items, k) <==> k in S.ToMap(s.items)
  {
    S.WFIsDistinct(n, s);
    S.ToMapHas(s.items);
  }

  lemma ScanAnswers(hash: bytes -> nat, fl: Limits, s: Store, start: bytes, end: bytes)
    requires Consistent(hash, fl, s)
    ensures Right(hash, fl, s, Scan(start, end))
  {
    hide Execute, MapStep, Answers, Consistent, MapOf, ScanCommand;
    ScanExecutes(hash, fl, s, start, end);
    ScanReplies(hash, fl, s, start, end);
  }

  lemma ScanExecutes(hash: bytes -> nat, fl: Limits, s: Store, start: bytes, end: bytes)
    ensures Execute(hash, fl, s, Scan(start, end)) == (s, ScanCommand(fl, s, start, end))
    ensures MapStep(fl, MapOf(s), Scan(start, end)) == MapOf(s)
  {
  }

  lemma ScanReplies(hash: bytes -> nat, fl: Limits, s: Store, start: bytes, end: bytes)
    requires Consistent(hash, fl, s)
    ensures Answers(fl, MapOf(s), Scan(start, end), ScanCommand(fl, s, start, end))
  {
    hide Between, Listing, Lists, MapOf, Consistent, Less, S.KeyCompare, Sds.IntRange, Sds.Lines;
    if |start| == fl.keyLen && |end| == fl.keyLen {
      S.KeyOrderIs(start, end);
      var ks := Between(s.sl.items, start, end);
      ScanLists(hash, fl, s, start, end);
      ListingIs(ks);
    }
  }

  /** The keys that the scan collects are those of the map. */
  lemma ScanLists(hash: bytes -> nat, fl: Limits, s: Store, start: bytes, end: bytes)
    requires Consistent(hash, fl, s) && |start| == fl.keyLen == |end|
    ensures Lists(MapOf(s), start, end, Between(s.sl.items, start, end))
  {
    hide Between, Ascending;
    BetweenLists(s.sl.items, start, end);
    forall k ensures S.HasKey(s.sl.items, k) <==> k in MapOf(s) { HasKeyIsInMap(fl.keyLen, s.sl, k); }
  }

  /** What the handler makes of the keys that it has collected. */
  lemma ListingIs(ks: seq<bytes>)
    ensures Sds.IntRange(Sds.Lines(ks, LF_LINE), 0, -2) == Listing(ks)
  {
    hide Sds.IntRange, Sds.Lines, Sds.Join;
    Sds.DropLastSeparator(ks, LF);
  }

  lemma EndsBound(n: nat, s: S.SkipList)
    requires S.WF(n, s) && s.items != []
    ensures Bounds(S.ToMap(s.items), s.items[0].key, s.items[|s.items| - 1].key)
  {
    var items := s.items;
    hide Less;
    forall k | k in S.ToMap(items)
      ensures |items[0].key| == |k| == |items[|items| - 1].key|
      ensures !Less(k, items[0].key) && !Less(items[|items| - 1].key, k)
    {
      EndsAreBounds(n, s, k);
    }
    HasKeyIsInMap(n, s, items[0].key);
    HasKeyIsInMap(n, s, items[|items| - 1].key);
    assert S.HasKey(items, items[0].key) && S.HasKey(items, items[|items| - 1].key);
  }

  lemma ShowAnswers(hash: bytes -> nat, fl: Limits, s: Store)
    requires Consistent(hash, fl, s)
    ensures Right(hash, fl, s, Show)
  {
    hide Execute, MapStep, Answers, Consistent, MapOf, ShowCommand;
    ShowExecutes(hash, fl, s);
    ShowReplies(hash, fl, s);
  }

  lemma ShowExecutes(hash: bytes -> nat, fl: Limits, s: Store)
    ensures Execute(hash, fl, s, Show) == (s, ShowCommand(s)) && MapStep(fl, MapOf(s), Show) == MapOf(s)
  {
  }

  lemma ShowReplies(hash: bytes -> nat, fl: Limits, s: Store)
    requires Consistent(hash, fl, s)
    ensures Answers(fl, MapOf(s), Show, ShowCommand(s))
  {
    hide Consistent, MapOf, Bounds, Less, Lists;
    SizesAgree(hash, fl, s);
    ShowBounds(hash, fl, s);
    assert MapOf(s) == map[] <==> |MapOf(s)| == 0;
  }

  lemma ShowBounds(hash: bytes -> nat, fl: Limits, s: Store)
    requires Consistent(hash, fl, s)
    ensures s.sl.items != [] ==> Bounds(MapOf(s), s.sl.items[0].key, s.sl.items[|s.sl.items| - 1].key)
  {
    hide Bounds;
    if s.sl.items != [] { EndsBound(fl.keyLen, s.sl); }
  }

  lemma EndsAreBounds(n: nat, s: S.SkipList, k: bytes)
    requires S.WF(n, s) && s.items != [] && k in S.ToMap(s.items)
    ensures var a, b := s.items[0].key, s.items[|s.items| - 1].key; |a| == |k| == |b| && !Less(k, a) && !Less(b, k)
  {
    hide Less;
    HasKeyIsInMap(n, s, k);
    var i :| 0 <= i < |s.items| && s.items[i].key == k;
    S.KeyOrderIs(s.items[0].key, k);
    S.KeyOrderIs(k, s.items[|s.items| - 1].key);
    CompareZero(k, k);
    if i > 0 { assert S.KeyCompare(s.items[0].key, s.items[i].key) < 0; }
    if i < |s.items| - 1 { assert S.KeyCompare(s.items[i].key, s.items[|s.items| - 1].key) < 0; }
  }

  /** Every command keeps the two indexes in agreement and answers as the map does. */
  lemma ExecuteRefinesMap(hash: bytes -> nat, fl: Limits, s: Store, c: Command)
    requires Consistent(hash, fl, s) && (c.Put? ==> 1 <= c.height <= 16)
    ensures Right(hash, fl, s, c)
  {
    match c
    case Get(k) => GetAnswers(hash, fl, s, k);
    case Put(k, v, height) => PutAnswers(hash, fl, s, k, v, height);
    case Delete(k) => DeleteAnswers(hash, fl, s, k);
    case Scan(start, end) => ScanAnswers(hash, fl, s, start, end);
    case Show => ShowAnswers(hash, fl, s);
  }

  /**
    A whole run, from any consistent store: the store stays consistent, it stands for the map that
    the commands build, and each reply is the right one for the map before its command.  No reply
    is a `Crash`.
   */
  lemma {:induction false} RunRefinesMap(hash: bytes -> nat, fl: Limits, s: Store, cs: seq<Command>)
    requires Consistent(hash, fl, s) && forall c :: c in cs && c.Put? ==> 1 <= c.height <= 16
    ensures Consistent(hash, fl, Run(hash, fl, s, cs).0)
    ensures MapOf(Run(hash, fl, s, cs).0) == MapAfter(fl, MapOf(s), cs)
    ensures forall i :: 0 <= i < |cs| ==> Answers(fl, MapAfter(fl, MapOf(s), cs[..i]), cs[i], Run(hash, fl, s, cs).1[i])
    decreases |cs|
  {
    hide Consistent, Execute, Answers, MapStep, MapOf;
    if cs != [] {
      ExecuteRefinesMap(hash, fl, s, cs[0]);
      var (s1, a) := Execute(hash, fl, s, cs[0]);
      RunRefinesMap(hash, fl, s1, cs[1..]);
      forall i | 0 <= i < |cs|
        ensures Answers(fl, MapAfter(fl, MapOf(s), cs[..i]), cs[i], Run(hash, fl, s, cs).1[i])
      {
        if i > 0 {
          assert cs[..i][1..] == cs[1..][..i - 1] && cs[..i][0] == cs[0];
          assert cs[i] == cs[1..][i - 1];
        }
      }
    }
  }

  /** The answer to a command is unique, so the replies of a run depend on the commands only. */
  lemma AnswerIsUnique(fl: Limits, m: map<bytes, bytes>, c: Command, r: Reply, r': Reply)
    requires Answers(fl, m, c, r) && Answers(fl, m, c, r')
    ensures r == r'
  {
    match c
    case Scan(start, end) =>
      if |start| == fl.keyLen && |end| == fl.keyLen && !Less(end, start) {
        var ks :| Lists(m, start, end, ks) && r == Status(Listing(ks));
        var ks' :| Lists(m, start, end, ks') && r' == Status(Listing(ks'));
        ListIsUnique(ks, ks');
      }
    case Show =>
      if m != map[] {
        LessIsTotal(r.min, r'.min);
        LessIsTotal(r.max, r'.max);
      }
    case _ =>
  }

  lemma LessIsTotal(a: bytes, b: bytes)
    requires |a| == |b|
    ensures !Less(a, b) && !Less(b, a) ==> a == b
    ensures !(Less(a, b) && Less(b, a)) && !Less(a, a)
  {
    CompareIsOrder(a, b);
    CompareZero(a, b);
    CompareIsOrder(a, a);
    CompareZero(a, a);
  }

  lemma {:induction false} ListIsUnique(a: seq<bytes>, b: seq<bytes>)
    requires Ascending(a) && Ascending(b) && forall k :: k in a <==> k in b
    ensures a == b
  {
    hide Less;
    assert (a != [] ==> a[0] in b) && (b != [] ==> b[0] in a);
    if a != [] && b != [] {
      HeadIsLeast(a, b);
      HeadIsLeast(b, a);
      LessIsTotal(a[0], b[0]);
      Tail(a);
      Tail(b);
      ListIsUnique(a[1..], b[1..]);
      assert a == [a[0]] + a[1..] && b == [b[0]] + b[1..];
    }
  }

  lemma HeadIsLeast(a: seq<bytes>, b: seq<bytes>)
    requires Ascending(a) && a != [] && b != [] && b[0] in a
    ensures |a[0]| == |b[0]| && !Less(b[0], a[0])
  {
    hide Less;
    var i :| 0 <= i < |a| && a[i] == b[0];
    LessIsTotal(a[0], a[i]);
  }

  lemma Tail(a: seq<bytes>)
    requires Ascending(a) && a != []
    ensures Ascending(a[1..]) && forall k :: k in a[1..] <==> k in a && k != a[0]
  {
    hide Less;
    LessIsTotal(a[0], a[0]);
    assert a == [a[0]] + a[1..];
  }

  // ---------- The answers as a function ----------

  /** The keys of a range, in ascending order. */
  ghost function Listed(m: map<bytes, bytes>, start: bytes, end: bytes): seq<bytes> {
    if exists ks :: Lists(m, start, end, ks) then (var ks :| Lists(m, start, end, ks); ks) else []
  }

  /** The least and the greatest key. */
  ghost function Ends(m: map<bytes, bytes>): (bytes, bytes) {
    if exists a, b :: Bounds(m, a, b) then (var a, b :| Bounds(m, a, b); (a, b)) else ([], [])
  }

  /** The right answer to a command on the map `m`. */
  ghost function MapAnswer(fl: Limits, m: map<bytes, bytes>, c: Command): Reply {
    match c
    case Get(k) => if |k| != fl.keyLen then KeyLength else if k in m then Bulk(m[k]) else Null
    case Put(k, v, _) => if |k| != fl.keyLen || |v| != fl.valLen then PairLength else Status(Ascii("OK"))
    case Delete(k) => if |k| != fl.keyLen then KeyLength else Status(Ascii(if k in m then "1" else "0"))
    case Scan(start, end) =>
      if |start| != fl.keyLen || |end| != fl.keyLen then CursorLength
      else if Less(end, start) then CursorOrder(start, end)
      else Status(Listing(Listed(m, start, end)))
    case Show =>
      if m == map[] then Info(0, Ascii("NULL"), Ascii("NULL")) else Info(|m|, Ends(m).0, Ends(m).1)
  }

  /** The right answer is the one that the function gives. */
  lemma AnswerIsMapAnswer(fl: Limits, m: map<bytes, bytes>, c: Command, r: Reply)
    requires Answers(fl, m, c, r)
    ensures r == MapAnswer(fl, m, c)
  {
    hide Less, Listing, Bounds, Lists;
    match c
    case Scan(start, end) =>
      if |start| == fl.keyLen && |end| == fl.keyLen && !Less(end, start) {
        var ks :| Lists(m, start, end, ks) && r == Status(Listing(ks));
        assert Lists(m, start, end, Listed(m, start, end));
        assert Answers(fl, m, c, MapAnswer(fl, m, c));
        AnswerIsUnique(fl, m, c, r, MapAnswer(fl, m, c));
      }
    case Show =>
      if m != map[] {
        assert Bounds(m, r.min, r.max);
        assert Bounds(m, Ends(m).0, Ends(m).1);
        AnswerIsUnique(fl, m, c, r, MapAnswer(fl, m, c));
      }
    case _ =>
  }
}
