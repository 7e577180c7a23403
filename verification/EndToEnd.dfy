/**
  From the client's commands to its replies: the commands are formatted, cut into reads, parsed and
  executed by the server, and the reply bytes are cut up and read by the client again.
 */
module EndToEnd {
  import opened Bytes
  import opened Options
  import opened Resp
  import opened Server
  import Format
  import ReaderModel
  import RequestModel
  import S = SkipModel
  import StoreModel

  /** The name, a C string in any case, is that of the command; for a name with a NUL `lands` decides. */
  predicate Called(lands: bytes -> bool, name: bytes, word: string) {
    Spells(CString(name), word) && (0 in name ==> lands(name))
  }

  /** The commands of the property: all but quit, and shutdown with its right number of arguments. */
  predicate Plain(lands: bytes -> bool, argv: seq<bytes>) {
    RequestModel.Proper(argv) && !(Called(lands, argv[0], "shutdown") && |argv| == 1)
  }

  // ---------- What the client must see ----------

  function ErrorReply(message: bytes): Reply { Error(Ascii("ERR ") + Clean(message)) }

  function WrongCount(word: string): Reply {
    ErrorReply(Ascii("wrong number of arguments for '") + Ascii(word) + Ascii("' command"))
  }

  function KeyError(fl: StoreModel.Limits): Reply {
    ErrorReply(Ascii("Illegal key length, key length should be ") + Integers.Text(fl.keyLen))
  }

  function PairError(fl: StoreModel.Limits): Reply {
    ErrorReply(Ascii("Illegal kv length, key/value length should be ") + Integers.Text(fl.keyLen) + Ascii("/") + Integers.Text(fl.valLen))
  }

  function CursorError(fl: StoreModel.Limits): Reply {
    ErrorReply(Ascii("Illegal cursor length, key length should be ") + Integers.Text(fl.keyLen))
  }

  function OrderError(start: bytes, end: bytes): Reply {
    ErrorReply(Ascii("CURSORERR '") + CString(start) + Ascii("' should less or equal to '") + CString(end) + Ascii("'"))
  }

  function GetReply(fl: StoreModel.Limits, m: map<bytes, bytes>, argv: seq<bytes>): Reply {
    if |argv| != 2 then WrongCount("get")
    else if |argv[1]| != fl.keyLen then KeyError(fl)
    else if argv[1] in m then Bulk(m[argv[1]]) else Nil
  }

  function PutReply(fl: StoreModel.Limits, word: string, argv: seq<bytes>): Reply {
    if |argv| != 3 then WrongCount(word)
    else if |argv[1]| != fl.keyLen || |argv[2]| != fl.valLen then PairError(fl) else Status(Ascii("OK"))
  }

  function DeleteReply(fl: StoreModel.Limits, m: map<bytes, bytes>, argv: seq<bytes>): Reply {
    if |argv| != 2 then WrongCount("delete")
    else if |argv[1]| != fl.keyLen then KeyError(fl)
    else Status(Ascii(if argv[1] in m then "1" else "0"))
  }

  ghost function ScanReply(fl: StoreModel.Limits, m: map<bytes, bytes>, argv: seq<bytes>): Reply {
    if |argv| != 3 then WrongCount("scan")
    else if |argv[1]| != fl.keyLen || |argv[2]| != fl.keyLen then CursorError(fl)
    else if Less(argv[2], argv[1]) then OrderError(argv[1], argv[2])
    else Status(StoreModel.Listing(StoreModel.Listed(m, argv[1], argv[2])))
  }

  ghost function ShowReply(m: map<bytes, bytes>, argv: seq<bytes>): Reply {
    if |argv| != 1 then WrongCount("show")
    else
      var (min, max) := if m == map[] then (Ascii("NULL"), Ascii("NULL")) else StoreModel.Ends(m);
      Status(Ascii("tadpole:keys=") + Integers.Text(|m|) + Ascii(",min=") + min + Ascii(",max=") + max)
  }

  /** The reply to a command on a map, by its name. */
  ghost function Expected(lands: bytes -> bool, fl: StoreModel.Limits, m: map<bytes, bytes>, argv: seq<bytes>): Reply
    requires argv != []
  {
    var name := argv[0];
    if Called(lands, name, "get") then GetReply(fl, m, argv)
    else if Called(lands, name, "put") then PutReply(fl, "put", argv)
    else if Called(lands, name, "set") then PutReply(fl, "set", argv)
    else if Called(lands, name, "delete") then DeleteReply(fl, m, argv)
    else if Called(lands, name, "scan") then ScanReply(fl, m, argv)
    else if Called(lands, name, "ping") then (if |argv| != 1 then WrongCount("ping") else Status(Ascii("PONG")))
    else if Called(lands, name, "shutdown") then WrongCount("shutdown")
    else if Called(lands, name, "show") then ShowReply(m, argv)
    else ErrorReply(Ascii("unknown command '") + CString(name) + Ascii("'"))
  }

  /** The map after a command, by its name. */
  function MapNext(lands: bytes -> bool, fl: StoreModel.Limits, m: map<bytes, bytes>, argv: seq<bytes>): map<bytes, bytes>
    requires argv != []
  {
    var name := argv[0];
    if Called(lands, name, "put") || Called(lands, name, "set") then
      if |argv| == 3 && |argv[1]| == fl.keyLen && |argv[2]| == fl.valLen then m[argv[1] := argv[2]] else m
    else if Called(lands, name, "delete") && |argv| == 2 && |argv[1]| == fl.keyLen then m - {argv[1]}
    else m
  }

  ghost function ExpectedAll(lands: bytes -> bool, fl: StoreModel.Limits, m: map<bytes, bytes>,
      cmds: seq<seq<bytes>>): (r: seq<Reply>)
    requires forall i :: 0 <= i < |cmds| ==> cmds[i] != []
    ensures |r| == |cmds|
    decreases |cmds|
  {
    if cmds == [] then []
    else [Expected(lands, fl, m, cmds[0])] + ExpectedAll(lands, fl, MapNext(lands, fl, m, cmds[0]), cmds[1..])
  }

  // ---------- The server's output ----------

  /** The reply bytes of a list of commands; `heights` are the levels that the puts draw. */
  function Execute(lands: bytes -> bool, hash: bytes -> nat, fl: StoreModel.Limits, s: StoreModel.Store,
      cmds: seq<seq<bytes>>, heights: nat -> nat)
    : (StoreModel.Store, bytes)
    requires forall i :: 0 <= i < |cmds| ==> cmds[i] != []
    decreases |cmds|
  {
    if cmds == [] then (s, [])
    else
      var (s1, out) := ProcessCommand(lands, hash, fl, s, cmds[0], heights(|cmds|));
      var (s2, rest) := Execute(lands, hash, fl, s1, cmds[1..], heights);
      (s2, out + rest)
  }

  // ---------- The command table ----------

  /** A folded name is a word of small letters if and only if it spells the word. */
  lemma FoldSpells(s: bytes, word: string)
    requires forall i :: 0 <= i < |word| ==> 'a' <= word[i] <= 'z'
    ensures Fold(s) == Ascii(word) <==> Spells(s, word)
  {
    var f, w := Fold(s), Ascii(word);
    if |s| == |word| {
      forall i | 0 <= i < |s|
        ensures f[i] == w[i] <==> s[i] == word[i] as int || s[i] == word[i] as int - 32
      {
      }
      if Spells(s, word) { assert f == w; }
      if f == w {
        forall i | 0 <= i < |s| ensures s[i] == word[i] as int || s[i] == word[i] as int - 32 { assert f[i] == w[i]; }
      }
    }
  }

  /** One turn of the search in the table. */
  lemma LookupStep(table: seq<Entry>, name: bytes, i: nat)
    requires i <= |table|
    ensures LookupIn(table[i..], name) ==
      if i == |table| then None else if table[i].name == name then Some(table[i]) else LookupIn(table[i + 1..], name)
  {
    if i < |table| { assert table[i..][1..] == table[i + 1..]; }
  }

  /** The entry of a folded name. */
  lemma TableIs(x: bytes)
    ensures LookupIn(Table(), x) ==
      if x == Ascii("get") then Some(Entry(Ascii("get"), GetHandler, 2))
      else if x == Ascii("put") then Some(Entry(Ascii("put"), PutHandler, 3))
      else if x == Ascii("set") then Some(Entry(Ascii("set"), PutHandler, 3))
      else if x == Ascii("delete") then Some(Entry(Ascii("delete"), DeleteHandler, 2))
      else if x == Ascii("scan") then Some(Entry(Ascii("scan"), ScanHandler, 3))
      else if x == Ascii("ping") then Some(Entry(Ascii("ping"), PingHandler, 1))
      else if x == Ascii("shutdown") then Some(Entry(Ascii("shutdown"), ShutdownHandler, 1))
      else if x == Ascii("show") then Some(Entry(Ascii("show"), ShowHandler, 1))
      else None
  {
    hide Ascii, LookupIn;
    var t := Table();
    assert t[0..] == t;
    LookupStep(t, x, 0);
    LookupStep(t, x, 1);
    LookupStep(t, x, 2);
    LookupStep(t, x, 3);
    LookupStep(t, x, 4);
    LookupStep(t, x, 5);
    LookupStep(t, x, 6);
    LookupStep(t, x, 7);
    LookupStep(t, x, 8);
  }

  /** lookupCommand finds exactly the eight names. */
  lemma LookupIs(lands: bytes -> bool, name: bytes)
    ensures LookupCommand(lands, name) ==
      if Called(lands, name, "get") then Some(Entry(Ascii("get"), GetHandler, 2))
      else if Called(lands, name, "put") then Some(Entry(Ascii("put"), PutHandler, 3))
      else if Called(lands, name, "set") then Some(Entry(Ascii("set"), PutHandler, 3))
      else if Called(lands, name, "delete") then Some(Entry(Ascii("delete"), DeleteHandler, 2))
      else if Called(lands, name, "scan") then Some(Entry(Ascii("scan"), ScanHandler, 3))
      else if Called(lands, name, "ping") then Some(Entry(Ascii("ping"), PingHandler, 1))
      else if Called(lands, name, "shutdown") then Some(Entry(Ascii("shutdown"), ShutdownHandler, 1))
      else if Called(lands, name, "show") then Some(Entry(Ascii("show"), ShowHandler, 1))
      else None
  {
    hide Ascii, LookupIn, Table, Fold, Spells, CString;
    var s := CString(name);
    TableIs(Fold(s));
    FoldSpells(s, "get");
    FoldSpells(s, "put");
    FoldSpells(s, "set");
    FoldSpells(s, "delete");
    FoldSpells(s, "scan");
    FoldSpells(s, "ping");
    FoldSpells(s, "shutdown");
    FoldSpells(s, "show");
  }

  // ---------- From the table to the reply ----------

  /** The protocol value of a reply of the store. */
  function AsReply(fl: StoreModel.Limits, r: StoreModel.Reply): Reply {
    match r
    case Null => Nil
    case Bulk(v) => Bulk(v)
    case Status(t) => Status(t)
    case Info(n, min, max) =>
      Status(Ascii("tadpole:keys=") + Integers.Text(n) + Ascii(",min=") + min + Ascii(",max=") + max)
    case KeyLength => KeyError(fl)
    case PairLength => PairError(fl)
    case CursorLength => CursorError(fl)
    case CursorOrder(start, end) => OrderError(start, end)
    case Crash => Nil
  }

  /** The reply of the entry that is found. */
  ghost function Dispatched(found: Option<Entry>, fl: StoreModel.Limits, m: map<bytes, bytes>, argv: seq<bytes>): Reply
    requires argv != []
  {
    match found
    case None => ErrorReply(UnknownMessage(argv[0]))
    case Some(e) =>
      if |argv| != e.arity then ErrorReply(ArityMessage(e.name))
      else match StoreCommand(e.handler, argv, 1)
        case None => Status(Ascii("PONG"))
        case Some(c) => AsReply(fl, StoreModel.MapAnswer(fl, m, c))
  }

  /** The map after the handler of the entry that is found. */
  function DispatchedMap(found: Option<Entry>, fl: StoreModel.Limits, m: map<bytes, bytes>, argv: seq<bytes>): map<bytes, bytes> {
    match found
    case None => m
    case Some(e) =>
      if |argv| != e.arity then m
      else match StoreCommand(e.handler, argv, 1)
        case None => m
        case Some(c) => StoreModel.MapStep(fl, m, c)
  }

  lemma ArityIs(word: string)
    ensures ErrorReply(ArityMessage(Ascii(word))) == WrongCount(word)
  {
  }

  lemma DispatchGet(fl: StoreModel.Limits, m: map<bytes, bytes>, argv: seq<bytes>)
    requires argv != []
    ensures var e := Some(Entry(Ascii("get"), GetHandler, 2)); Dispatched(e, fl, m, argv) == GetReply(fl, m, argv) && DispatchedMap(e, fl, m, argv) == m
  {
    hide ErrorReply, ArityMessage, WrongCount, Ascii, Clean, Integers.Text;
    ArityIs("get");
  }

  lemma DispatchPut(fl: StoreModel.Limits, m: map<bytes, bytes>, argv: seq<bytes>, word: string)
    requires argv != []
    ensures var e := Some(Entry(Ascii(word), PutHandler, 3));
      && Dispatched(e, fl, m, argv) == PutReply(fl, word, argv)
      && DispatchedMap(e, fl, m, argv) ==
        if |argv| == 3 && |argv[1]| == fl.keyLen && |argv[2]| == fl.valLen then m[argv[1] := argv[2]] else m
  {
    hide ErrorReply, ArityMessage, WrongCount, Ascii, Clean, Integers.Text;
    ArityIs(word);
  }

  lemma DispatchDelete(fl: StoreModel.Limits, m: map<bytes, bytes>, argv: seq<bytes>)
    requires argv != []
    ensures var e := Some(Entry(Ascii("delete"), DeleteHandler, 2));
      && Dispatched(e, fl, m, argv) == DeleteReply(fl, m, argv)
      && DispatchedMap(e, fl, m, argv) == if |argv| == 2 && |argv[1]| == fl.keyLen then m - {argv[1]} else m
  {
    hide ErrorReply, ArityMessage, WrongCount, Ascii, Clean, Integers.Text;
    ArityIs("delete");
  }

  lemma DispatchScan(fl: StoreModel.Limits, m: map<bytes, bytes>, argv: seq<bytes>)
    requires argv != []
    ensures var e := Some(Entry(Ascii("scan"), ScanHandler, 3)); Dispatched(e, fl, m, argv) == ScanReply(fl, m, argv) && DispatchedMap(e, fl, m, argv) == m
  {
    hide ErrorReply, ArityMessage, WrongCount, Ascii, Clean, Integers.Text, CString, Less, StoreModel.Listing, StoreModel.Listed;
    ArityIs("scan");
  }

  lemma DispatchShow(fl: StoreModel.Limits, m: map<bytes, bytes>, argv: seq<bytes>)
    requires argv != []
    ensures var e := Some(Entry(Ascii("show"), ShowHandler, 1)); Dispatched(e, fl, m, argv) == ShowReply(m, argv) && DispatchedMap(e, fl, m, argv) == m
  {
    hide ErrorReply, ArityMessage, WrongCount, Ascii, Clean, Integers.Text, StoreModel.Ends;
    ArityIs("show");
  }

  lemma DispatchPing(fl: StoreModel.Limits, m: map<bytes, bytes>, argv: seq<bytes>)
    requires argv != []
    ensures var e := Some(Entry(Ascii("ping"), PingHandler, 1));
      && Dispatched(e, fl, m, argv) == (if |argv| != 1 then WrongCount("ping") else Status(Ascii("PONG")))
      && DispatchedMap(e, fl, m, argv) == m
    ensures var e := Some(Entry(Ascii("shutdown"), ShutdownHandler, 1));
      && DispatchedMap(e, fl, m, argv) == m && (|argv| != 1 ==> Dispatched(e, fl, m, argv) == WrongCount("shutdown"))
    ensures Dispatched(None, fl, m, argv) == ErrorReply(Ascii("unknown command '") + CString(argv[0]) + Ascii("'")) && DispatchedMap(None, fl, m, argv) == m
  {
    hide Ascii, Clean, Integers.Text;
  }

  /** What the name says and what the table makes of it are the same. */
  lemma ExpectedIsDispatched(lands: bytes -> bool, fl: StoreModel.Limits, m: map<bytes, bytes>, argv: seq<bytes>)
    requires argv != [] && !(Called(lands, argv[0], "shutdown") && |argv| == 1)
    ensures var e := LookupCommand(lands, argv[0]);
      Dispatched(e, fl, m, argv) == Expected(lands, fl, m, argv) && DispatchedMap(e, fl, m, argv) == MapNext(lands, fl, m, argv)
  {
    hide Called, LookupCommand, Dispatched, DispatchedMap, GetReply, PutReply, DeleteReply, ScanReply, ShowReply, WrongCount, ErrorReply, Ascii, CString;
    LookupIs(lands, argv[0]);
    DispatchGet(fl, m, argv);
    DispatchPut(fl, m, argv, "put");
    DispatchPut(fl, m, argv, "set");
    DispatchDelete(fl, m, argv);
    DispatchScan(fl, m, argv);
    DispatchPing(fl, m, argv);
    DispatchShow(fl, m, argv);
    OneName(lands, argv[0]);
  }

  /** A name that spells put or set spells no other command. */
  lemma OneName(lands: bytes -> bool, name: bytes)
    ensures Called(lands, name, "put") || Called(lands, name, "set") ==> !Called(lands, name, "get") && !Called(lands, name, "delete")
    ensures Called(lands, name, "delete") ==> !Called(lands, name, "get")
  {
    hide CString;
    assert "get"[0] == 'g' && "put"[0] == 'p' && "set"[0] == 's';
    assert |"delete"| == 6;
  }

  /** The drawn level changes neither the right answer nor the map. */
  lemma HeightIsFree(lands: bytes -> bool, fl: StoreModel.Limits, m: map<bytes, bytes>, h: Handler, argv: seq<bytes>, height: nat)
    ensures match StoreCommand(h, argv, height)
      case None => StoreCommand(h, argv, 1) == None
      case Some(c) =>
        && StoreCommand(h, argv, 1).Some?
        && StoreModel.MapAnswer(fl, m, c) == StoreModel.MapAnswer(fl, m, StoreCommand(h, argv, 1).value)
        && StoreModel.MapStep(fl, m, c) == StoreModel.MapStep(fl, m, StoreCommand(h, argv, 1).value)
  {
    hide StoreModel.Listed, StoreModel.Ends, StoreModel.Listing, Less;
  }

  /** A reply without numbers, which is one frame unless it is a status line with a CR LF in it. */
  ghost predicate Simple(r: Reply) {
    (r.Nil? || r.Bulk? || r.Status? || r.Error?) && (!r.Status? ==> Printable(r, 0))
  }

  ghost predicate AllSimple(rs: seq<Reply>) { forall r :: r in rs ==> Simple(r) }

  /** The bytes that the handlers write. */
  lemma StoreReply(fl: StoreModel.Limits, r: StoreModel.Reply)
    requires !r.Crash?
    ensures ReplyBytes(fl, r) == Print(AsReply(fl, r)) && Simple(AsReply(fl, r))
  {
    hide Newline, Clean, CString, Integers.Text;
    match r
    case Null => NilIsPrint();
    case Bulk(v) => BulkIsPrint(v);
    case Status(t) => StatusIsPrint(t);
    case Info(n, min, max) => InfoLine(fl, n, min, max);
    case KeyLength => ErrorIsOneFrame(LengthMessage("Illegal key length, key length should be ", fl.keyLen));
    case PairLength =>
      ErrorIsOneFrame(LengthMessage("Illegal kv length, key/value length should be ", fl.keyLen) + Ascii("/") + Integers.Text(fl.valLen));
    case CursorLength => ErrorIsOneFrame(LengthMessage("Illegal cursor length, key length should be ", fl.keyLen));
    case CursorOrder(start, end) =>
      ErrorIsOneFrame(Ascii("CURSORERR '") + CString(start) + Ascii("' should less or equal to '") + CString(end) + Ascii("'"));
  }

  lemma InfoPrefix()
    ensures Ascii("+tadpole:keys=") == Ascii("+") + Ascii("tadpole:keys=")
  {
  }

  lemma InfoLine(fl: StoreModel.Limits, n: int, min: bytes, max: bytes)
    ensures var r := StoreModel.Info(n, min, max); ReplyBytes(fl, r) == Print(AsReply(fl, r))
  {
    hide Ascii, Integers.Text;
    var t := Ascii("tadpole:keys=") + Integers.Text(n) + Ascii(",min=") + min + Ascii(",max=") + max;
    StatusIsPrint(t);
    InfoPrefix();
    hide Print;
    assert Ascii("+") + Ascii("tadpole:keys=") + Integers.Text(n) + Ascii(",min=") + min + Ascii(",max=") + max + Ascii("\r\n")
      == Ascii("+") + t + Ascii("\r\n");
  }

  lemma PongReply()
    ensures Ascii("+PONG\r\n") == Print(Status(Ascii("PONG")))
  {
    StatusIsPrint(Ascii("PONG"));
    assert Ascii("+PONG\r\n") == Ascii("+") + Ascii("PONG") + Ascii("\r\n");
  }

  lemma NoCrash(fl: StoreModel.Limits, m: map<bytes, bytes>, c: StoreModel.Command)
    ensures !StoreModel.MapAnswer(fl, m, c).Crash?
  {
  }

  /** A command of the store writes the reply of the map. */
  lemma StoreCommandReply(hash: bytes -> nat, fl: StoreModel.Limits, s: StoreModel.Store, c: StoreModel.Command)
    requires StoreModel.Consistent(hash, fl, s) && (c.Put? ==> 1 <= c.height <= 16)
    ensures var (s', r) := StoreModel.Execute(hash, fl, s, c); var m := StoreModel.MapOf(s); var a := AsReply(fl, StoreModel.MapAnswer(fl, m, c));
      StoreModel.Consistent(hash, fl, s') && StoreModel.MapOf(s') == StoreModel.MapStep(fl, m, c) && ReplyBytes(fl, r) == Print(a) && Simple(a)
  {
    hide StoreModel.Consistent, StoreModel.MapOf, StoreModel.Execute, StoreModel.Answers, StoreModel.MapStep, StoreModel.MapAnswer;
    hide ReplyBytes, Print, Simple, AsReply;
    StoreModel.ExecuteRefinesMap(hash, fl, s, c);
    var r, m := StoreModel.Execute(hash, fl, s, c).1, StoreModel.MapOf(s);
    StoreModel.AnswerIsMapAnswer(fl, m, c, r);
    NoCrash(fl, m, c);
    StoreReply(fl, r);
  }

  /** One command writes the expected reply, and steps the map. */
  lemma OneReply(lands: bytes -> bool, hash: bytes -> nat, fl: StoreModel.Limits, s: StoreModel.Store,
      argv: seq<bytes>, height: nat)
    requires StoreModel.Consistent(hash, fl, s) && 1 <= height <= 16
    requires argv != [] && !(Called(lands, argv[0], "shutdown") && |argv| == 1)
    ensures var (s', out) := ProcessCommand(lands, hash, fl, s, argv, height); var m := StoreModel.MapOf(s);
      && StoreModel.Consistent(hash, fl, s') && StoreModel.MapOf(s') == MapNext(lands, fl, m, argv)
      && out == Print(Expected(lands, fl, m, argv)) && Simple(Expected(lands, fl, m, argv))
  {
    hide LookupCommand, StoreModel.Consistent, StoreModel.MapOf, StoreModel.MapStep, StoreModel.MapAnswer, StoreModel.Execute;
    hide Print, Printable, ReplyBytes, ErrorBytes, AsReply, StoreCommand, Expected, MapNext, Called;
    ExpectedIsDispatched(lands, fl, StoreModel.MapOf(s), argv);
    match LookupCommand(lands, argv[0])
    case None => ErrorIsOneFrame(UnknownMessage(argv[0]));
    case Some(e) =>
      if |argv| != e.arity {
        ErrorIsOneFrame(ArityMessage(e.name));
      } else {
        HeightIsFree(lands, fl, StoreModel.MapOf(s), e.handler, argv, height);
        match StoreCommand(e.handler, argv, height)
        case None => PongReply();
        case Some(c) =>
          PutHeight(e.handler, argv, height);
          StoreCommandReply(hash, fl, s, c);
      }
  }

  lemma PutHeight(h: Handler, argv: seq<bytes>, height: nat)
    ensures match StoreCommand(h, argv, height) case Some(c) => c.Put? ==> c.height == height case None => true
  {
  }

  // ---------- Literal commands ----------

  /** A word of small letters is its own C string, and spells itself. */
  lemma {:induction false} SmallWord(s: bytes)
    requires 0 !in s
    ensures CString(s) == s
  {
    if s != [] {
      SmallWord(s[1..]);
      assert s == [s[0]] + s[1..];
    }
  }

  lemma SmallAscii(word: string)
    requires forall i :: 0 <= i < |word| ==> 'a' <= word[i] <= 'z'
    ensures var s := Ascii(word);
      0 !in s && CString(s) == s && forall i :: 0 <= i < |s| ==> s[i] == word[i] as int
  {
    var s := Ascii(word);
    forall i | 0 <= i < |s| ensures s[i] == word[i] as int { assert 'a' <= word[i] <= 'z'; }
    forall b | b in s ensures b != 0 {
      var i :| 0 <= i < |s| && s[i] == b;
      assert 'a' <= word[i];
    }
    SmallWord(s);
  }

  /** A name of small letters calls its own command, and no other one. */
  lemma CalledIff(lands: bytes -> bool, word: string, other: string)
    requires forall i :: 0 <= i < |word| ==> 'a' <= word[i] <= 'z'
    requires forall i :: 0 <= i < |other| ==> 'a' <= other[i] <= 'z'
    ensures Called(lands, Ascii(word), other) <==> word == other
  {
    SmallAscii(word);
    hide Ascii, CString;
    if Called(lands, Ascii(word), other) {
      forall i | 0 <= i < |word| ensures word[i] == other[i] { assert 'a' <= word[i] <= 'z' && 'a' <= other[i] <= 'z'; }
    }
  }

  /** The eight names. */
  predicate IsName(word: string) { word in ["get", "put", "set", "delete", "scan", "ping", "shutdown", "show"] }

  lemma LiteralName(lands: bytes -> bool, word: string)
    requires IsName(word)
    ensures forall other :: IsName(other) ==> (Called(lands, Ascii(word), other) <==> word == other)
  {
    hide Called;
    forall other | IsName(other) ensures Called(lands, Ascii(word), other) <==> word == other {
      SmallLetters(word);
      SmallLetters(other);
      CalledIff(lands, word, other);
    }
  }

  lemma IsNames()
    ensures IsName("get") && IsName("put") && IsName("set") && IsName("delete")
    ensures IsName("scan") && IsName("ping") && IsName("shutdown") && IsName("show")
  {
    var names := ["get", "put", "set", "delete", "scan", "ping", "shutdown", "show"];
    assert names[0] == "get" && names[1] == "put" && names[2] == "set" && names[3] == "delete" && names[4] == "scan";
    assert names[5] == "ping" && names[6] == "shutdown" && names[7] == "show";
  }

  lemma SmallLetters(word: string)
    requires IsName(word)
    ensures forall i :: 0 <= i < |word| ==> 'a' <= word[i] <= 'z'
  {
  }

  lemma NamesDiffer()
    ensures "get" != "put" && "get" != "set" && "put" != "set" && "scan" != "ping" && "scan" != "show" && "ping" != "show"
  {
    assert "get"[0] == 'g' && "put"[0] == 'p' && "set"[0] == 's';
    assert "scan"[1] == 'c' && "ping"[1] == 'i' && "show"[1] == 'h';
  }

  /** The reply and the next map of a command with a literal name. */
  lemma ExpectedByName(lands: bytes -> bool, fl: StoreModel.Limits, m: map<bytes, bytes>, word: string, argv: seq<bytes>)
    requires IsName(word) && argv != [] && argv[0] == Ascii(word)
    ensures Called(lands, argv[0], "shutdown") <==> word == "shutdown"
    ensures Expected(lands, fl, m, argv) ==
      if word == "get" then GetReply(fl, m, argv)
      else if word == "put" || word == "set" then PutReply(fl, word, argv)
      else if word == "delete" then DeleteReply(fl, m, argv)
      else if word == "scan" then ScanReply(fl, m, argv)
      else if word == "ping" then (if |argv| != 1 then WrongCount("ping") else Status(Ascii("PONG")))
      else if word == "shutdown" then WrongCount("shutdown")
      else ShowReply(m, argv)
    ensures MapNext(lands, fl, m, argv) ==
      if (word == "put" || word == "set") && |argv| == 3 && |argv[1]| == fl.keyLen && |argv[2]| == fl.valLen then m[argv[1] := argv[2]]
      else if word == "delete" && |argv| == 2 && |argv[1]| == fl.keyLen then m - {argv[1]}
      else m
  {
    hide Called, GetReply, PutReply, DeleteReply, ScanReply, ShowReply, WrongCount, Ascii;
    NamesDiffer();
    IsNames();
    LiteralName(lands, word);
  }

  /** get on the bytes of its name: the value of the map in one frame, or nil. */
  lemma GetWrites(lands: bytes -> bool, hash: bytes -> nat, fl: StoreModel.Limits, s: StoreModel.Store,
      k: bytes, height: nat)
    requires StoreModel.Consistent(hash, fl, s) && 1 <= height <= 16 && |k| == fl.keyLen
    ensures var (s', out) := ProcessCommand(lands, hash, fl, s, [Ascii("get"), k], height); var m := StoreModel.MapOf(s);
      && StoreModel.MapOf(s') == m
      && out == if k in m then [36] + Integers.Text(|m[k]|) + CRLF + m[k] + CRLF else Ascii("$-1") + CRLF
  {
    hide ProcessCommand, Expected, MapNext, Called, StoreModel.MapOf, StoreModel.Consistent, StoreModel.Listing, StoreModel.Listed;
    hide StoreModel.Ends, Ascii, Integers.Decimal, Clean, CString, Simple;
    var m := StoreModel.MapOf(s);
    NamesDiffer();
    IsNames();
    ExpectedByName(lands, fl, m, "get", [Ascii("get"), k]);
    OneReply(lands, hash, fl, s, [Ascii("get"), k], height);
  }

  /** put and set set the key. */
  lemma PutWrites(lands: bytes -> bool, hash: bytes -> nat, fl: StoreModel.Limits, s: StoreModel.Store,
      word: string, k: bytes, v: bytes, height: nat)
    requires StoreModel.Consistent(hash, fl, s) && 1 <= height <= 16 && |k| == fl.keyLen && |v| == fl.valLen && (word == "put" || word == "set")
    ensures var (s', out) := ProcessCommand(lands, hash, fl, s, [Ascii(word), k, v], height); var m := StoreModel.MapOf(s);
      && StoreModel.MapOf(s') == m[k := v] && out == [43] + Ascii("OK") + CRLF
  {
    hide ProcessCommand, Expected, MapNext, Called, StoreModel.MapOf, StoreModel.Consistent, StoreModel.Listing, StoreModel.Listed;
    hide StoreModel.Ends, Ascii, Integers.Decimal, Clean, CString, Simple;
    var m := StoreModel.MapOf(s);
    NamesDiffer();
    IsNames();
    ExpectedByName(lands, fl, m, word, [Ascii(word), k, v]);
    OneReply(lands, hash, fl, s, [Ascii(word), k, v], height);
  }

  /** delete removes the key, and tells whether it was there. */
  lemma DeleteWrites(lands: bytes -> bool, hash: bytes -> nat, fl: StoreModel.Limits, s: StoreModel.Store,
      k: bytes, height: nat)
    requires StoreModel.Consistent(hash, fl, s) && 1 <= height <= 16 && |k| == fl.keyLen
    ensures var (s', out) := ProcessCommand(lands, hash, fl, s, [Ascii("delete"), k], height); var m := StoreModel.MapOf(s);
      && StoreModel.MapOf(s') == m - {k} && out == [43] + Ascii(if k in m then "1" else "0") + CRLF
  {
    hide ProcessCommand, Expected, MapNext, Called, StoreModel.MapOf, StoreModel.Consistent, StoreModel.Listing, StoreModel.Listed;
    hide StoreModel.Ends, Ascii, Integers.Decimal, Clean, CString, Simple;
    var m := StoreModel.MapOf(s);
    NamesDiffer();
    IsNames();
    ExpectedByName(lands, fl, m, "delete", [Ascii("delete"), k]);
    OneReply(lands, hash, fl, s, [Ascii("delete"), k], height);
  }

  /** scan lists the keys from one to the other. */
  lemma ScanWrites(lands: bytes -> bool, hash: bytes -> nat, fl: StoreModel.Limits, s: StoreModel.Store,
      start: bytes, end: bytes, height: nat)
    requires StoreModel.Consistent(hash, fl, s) && 1 <= height <= 16 && |start| == |end| == fl.keyLen && !Less(end, start)
    ensures var (s', out) := ProcessCommand(lands, hash, fl, s, [Ascii("scan"), start, end], height); var m := StoreModel.MapOf(s);
      StoreModel.MapOf(s') == m && out == [43] + StoreModel.Listing(StoreModel.Listed(m, start, end)) + CRLF
  {
    hide ProcessCommand, Expected, MapNext, Called, StoreModel.MapOf, StoreModel.Consistent, StoreModel.Listing, StoreModel.Listed;
    hide StoreModel.Ends, Ascii, Integers.Decimal, Clean, CString, Simple;
    var m := StoreModel.MapOf(s);
    NamesDiffer();
    IsNames();
    ExpectedByName(lands, fl, m, "scan", [Ascii("scan"), start, end]);
    OneReply(lands, hash, fl, s, [Ascii("scan"), start, end], height);
  }

  /** show tells how many keys there are, and the least and the greatest one. */
  lemma ShowWrites(lands: bytes -> bool, hash: bytes -> nat, fl: StoreModel.Limits, s: StoreModel.Store,
      height: nat)
    requires StoreModel.Consistent(hash, fl, s) && 1 <= height <= 16
    ensures var (s', out) := ProcessCommand(lands, hash, fl, s, [Ascii("show")], height); var m := StoreModel.MapOf(s);
      && StoreModel.MapOf(s') == m
      && (m != map[] ==> out == [43] + (Ascii("tadpole:keys=") + Integers.Text(|m|) + Ascii(",min=") + StoreModel.Ends(m).0 + Ascii(",max=") + StoreModel.Ends(m).1) + CRLF)
      && (m == map[] ==> out == [43] + (Ascii("tadpole:keys=") + Integers.Text(0) + Ascii(",min=") + Ascii("NULL") + Ascii(",max=") + Ascii("NULL")) + CRLF)
  {
    hide ProcessCommand, Expected, MapNext, Called, StoreModel.MapOf, StoreModel.Consistent, StoreModel.Listing, StoreModel.Listed;
    hide StoreModel.Ends, Ascii, Integers.Decimal, Clean, CString, Simple;
    var m := StoreModel.MapOf(s);
    NamesDiffer();
    IsNames();
    ExpectedByName(lands, fl, m, "show", [Ascii("show")]);
    OneReply(lands, hash, fl, s, [Ascii("show")], height);
  }

  /** ping is answered. */
  lemma PingWrites(lands: bytes -> bool, hash: bytes -> nat, fl: StoreModel.Limits, s: StoreModel.Store,
      height: nat)
    requires StoreModel.Consistent(hash, fl, s) && 1 <= height <= 16
    ensures var (s', out) := ProcessCommand(lands, hash, fl, s, [Ascii("ping")], height); var m := StoreModel.MapOf(s);
      StoreModel.MapOf(s') == m && out == [43] + Ascii("PONG") + CRLF
  {
    hide ProcessCommand, Expected, MapNext, Called, StoreModel.MapOf, StoreModel.Consistent, StoreModel.Listing, StoreModel.Listed;
    hide StoreModel.Ends, Ascii, Integers.Decimal, Clean, CString, Simple;
    var m := StoreModel.MapOf(s);
    NamesDiffer();
    IsNames();
    ExpectedByName(lands, fl, m, "ping", [Ascii("ping")]);
    OneReply(lands, hash, fl, s, [Ascii("ping")], height);
  }

  /** The number of arguments of a command, its name included. */
  function CountOf(word: string): nat
    requires IsName(word)
  {
    if word == "put" || word == "set" || word == "scan" then 3 else if word == "get" || word == "delete" then 2 else 1
  }

  /** Any other number of arguments is an error, and changes nothing. */
  lemma OtherCounts(lands: bytes -> bool, hash: bytes -> nat, fl: StoreModel.Limits, s: StoreModel.Store,
      word: string, args: seq<bytes>, height: nat)
    requires StoreModel.Consistent(hash, fl, s) && 1 <= height <= 16 && IsName(word) && 1 + |args| != CountOf(word)
    ensures var (s', out) := ProcessCommand(lands, hash, fl, s, [Ascii(word)] + args, height); var m := StoreModel.MapOf(s);
      && StoreModel.MapOf(s') == m
      && out == [45] + (Ascii("ERR ") + Clean(Ascii("wrong number of arguments for '") + Ascii(word) + Ascii("' command"))) + CRLF
  {
    hide ProcessCommand, Expected, MapNext, Called, StoreModel.MapOf, StoreModel.Consistent, StoreModel.Listing, StoreModel.Listed;
    hide StoreModel.Ends, Ascii, Integers.Decimal, Clean, CString, Simple;
    var m := StoreModel.MapOf(s);
    NamesDiffer();
    ExpectedByName(lands, fl, m, word, [Ascii(word)] + args);
    OneReply(lands, hash, fl, s, [Ascii(word)] + args, height);
  }

  /** Any other name is an error, and changes nothing. */
  lemma OtherNames(lands: bytes -> bool, hash: bytes -> nat, fl: StoreModel.Limits, s: StoreModel.Store,
      argv: seq<bytes>, height: nat)
    requires StoreModel.Consistent(hash, fl, s) && 1 <= height <= 16 && argv != [] && forall word :: IsName(word) ==> !Called(lands, argv[0], word)
    ensures var (s', out) := ProcessCommand(lands, hash, fl, s, argv, height); var m := StoreModel.MapOf(s);
      && StoreModel.MapOf(s') == m
      && out == [45] + (Ascii("ERR ") + Clean(Ascii("unknown command '") + CString(argv[0]) + Ascii("'"))) + CRLF
  {
    hide ProcessCommand, Called, StoreModel.MapOf, StoreModel.Consistent, StoreModel.Listing, StoreModel.Listed;
    hide StoreModel.Ends, Ascii, Integers.Decimal, Clean, CString, Simple;
    var m := StoreModel.MapOf(s);
    IsNames();
    OneReply(lands, hash, fl, s, argv, height);
  }

  lemma PlainRuns(lands: bytes -> bool, argv: seq<bytes>)
    requires Plain(lands, argv)
    ensures argv != [] && !(Called(lands, argv[0], "shutdown") && |argv| == 1)
  {
  }

  /** A pipeline of commands writes the expected replies, in order. */
  lemma {:induction false} PipelineReplies(lands: bytes -> bool, hash: bytes -> nat, fl: StoreModel.Limits,
      s: StoreModel.Store, cmds: seq<seq<bytes>>, heights: nat -> nat)
    requires StoreModel.Consistent(hash, fl, s)
    requires forall i :: 0 <= i < |cmds| ==> cmds[i] != [] && Plain(lands, cmds[i])
    requires forall i :: 1 <= heights(i) <= 16
    ensures var (s', out) := Execute(lands, hash, fl, s, cmds, heights);
      var rs := ExpectedAll(lands, fl, StoreModel.MapOf(s), cmds);
      && StoreModel.Consistent(hash, fl, s') && out == PrintAll(rs) && AllSimple(rs)
    decreases |cmds|
  {
    hide StoreModel.Consistent, Plain, Expected, MapNext, ProcessCommand, Print, Simple, StoreModel.MapOf, Called;
    if cmds != [] {
      PlainRuns(lands, cmds[0]);
      OneReply(lands, hash, fl, s, cmds[0], heights(|cmds|));
      var (s1, out) := ProcessCommand(lands, hash, fl, s, cmds[0], heights(|cmds|));
      PipelineReplies(lands, hash, fl, s1, cmds[1..], heights);
    }
  }

  // ---------- Frames ----------

  /** No CR LF in a line. */
  predicate NoLineEnd(t: bytes) { forall i :: 0 <= i < |t| - 1 ==> !(t[i] == CR && t[i + 1] == LF) }

  /** The text of each status reply, also of a scan and a show, is without CR LF. */
  ghost predicate Framed(rs: seq<Reply>) { forall r :: r in rs && r.Status? ==> NoLineEnd(r.text) }

  /** A line with any text in it ends at the first CR LF. */
  lemma StatusEnd(t: bytes)
    ensures var n := Newline(t + CRLF, 0); n.Some? && n.value <= |t| && (NoLineEnd(t) <==> n.value == |t|)
  {
    var s := t + CRLF;
    assert s[|t|] == CR && s[|t| + 1] == LF;
    if Newline(s, 0).Some? && Newline(s, 0).value < |t| {
      var n := Newline(s, 0).value;
      assert n + 1 < |t| && t[n] == CR && t[n + 1] == LF;
    }
    forall i | 0 <= i < |t| - 1 && t[i] == CR && t[i + 1] == LF
      ensures Newline(s, 0).Some? && Newline(s, 0).value <= i
    {
      assert s[i] == CR && s[i + 1] == LF;
    }
  }

  lemma SimplePrintable(r: Reply)
    requires Simple(r)
    ensures Printable(r, 0) <==> (r.Status? ==> NoLineEnd(r.text))
  {
    if r.Status? { StatusEnd(r.text); }
  }

  /** A status reply with a CR LF in its text is read back as a shorter one. */
  lemma ShortStatus(t: bytes, more: bytes)
    requires !NoLineEnd(t)
    ensures var p := ParseReply(false, 0, Print(Status(t)) + more); p.Done? && p.value != Status(t)
  {
    hide NoLineEnd, Newline;
    StatusEnd(t);
    var n := Newline(t + CRLF, 0).value;
    NewlineStays(t + CRLF, more, 0);
    assert (Print(Status(t)) + more)[1..] == t + CRLF + more;
  }

  /** The client's parser reads exactly these replies, if and only if no status text has a CR LF in it. */
  lemma {:induction false} FramesIff(rs: seq<Reply>)
    requires AllSimple(rs)
    ensures ParseAll(false, PrintAll(rs)) == (rs, None) <==> Framed(rs)
    ensures Framed(rs) <==> AllPrintable(rs, 0)
  {
    hide Printable, Print, Simple, ParseReply, NoLineEnd;
    if rs == [] {
      ParseAllPrinted(false, rs);
    } else {
      var r, rest := rs[0], rs[1..];
      assert rs == [r] + rest;
      FramesIff(rest);
      SimplePrintable(r);
      assert Framed(rs) <==> (r.Status? ==> NoLineEnd(r.text)) && Framed(rest);
      if Printable(r, 0) {
        ParsePrint(false, r, 0, PrintAll(rest));
      } else {
        ShortStatus(r.text, PrintAll(rest));
      }
    }
  }

  /** Replies without numbers fit the client's C types when there are less than 2^63 bytes. */
  lemma {:induction false} SimpleIsRanged(rs: seq<Reply>)
    requires AllSimple(rs) && |PrintAll(rs)| <= LONG_MAX
    ensures AllRanged(rs)
  {
    hide Printable;
    if rs != [] {
      assert rs[0] in rs && forall r :: r in rs[1..] ==> r in rs;
      SimpleIsRanged(rs[1..]);
    }
  }

  /** What the server writes when it gets these reads. */
  function Serve(lands: bytes -> bool, hash: bytes -> nat, fl: StoreModel.Limits, s: StoreModel.Store,
      heights: nat -> nat, chunks: seq<bytes>): bytes {
    RequestModel.AllSeeArguments(RequestModel.NewClient(), chunks);
    Execute(lands, hash, fl, s, RequestModel.ReceiveAll(RequestModel.NewClient(), chunks).1, heights).1
  }

  /** Reads of formatted commands: the server writes the expected replies. */
  lemma ServeIsExpected(lands: bytes -> bool, hash: bytes -> nat, fl: StoreModel.Limits, s: StoreModel.Store,
      cmds: seq<seq<bytes>>, heights: nat -> nat, chunks: seq<bytes>)
    requires StoreModel.Consistent(hash, fl, s)
    requires forall i :: 0 <= i < |cmds| ==> cmds[i] != [] && Plain(lands, cmds[i])
    requires forall i :: 1 <= heights(i) <= 16
    requires Format.Concat(chunks) == RequestModel.Wires(cmds)
    requires forall i :: 0 <= i < |chunks| ==> |chunks[i]| <= 16384
    ensures var rs := ExpectedAll(lands, fl, StoreModel.MapOf(s), cmds);
      Serve(lands, hash, fl, s, heights, chunks) == PrintAll(rs) && AllSimple(rs)
  {
    hide StoreModel.Consistent, Expected, MapNext, Simple, ProcessCommand, Print;
    assert Format.Concat(chunks) + [] == RequestModel.Wires(cmds);
    RequestModel.ParserInvertsFormatter(cmds, chunks, []);
    PipelineReplies(lands, hash, fl, s, cmds, heights);
  }

  /** The reply bytes of a pipeline are one frame for each command, if and only if no listed text has a CR LF in it. */
  lemma PipelineFramesIff(lands: bytes -> bool, hash: bytes -> nat, fl: StoreModel.Limits, s: StoreModel.Store,
      cmds: seq<seq<bytes>>, heights: nat -> nat, chunks: seq<bytes>)
    requires StoreModel.Consistent(hash, fl, s)
    requires forall i :: 0 <= i < |cmds| ==> cmds[i] != [] && Plain(lands, cmds[i])
    requires forall i :: 1 <= heights(i) <= 16
    requires Format.Concat(chunks) == RequestModel.Wires(cmds)
    requires forall i :: 0 <= i < |chunks| ==> |chunks[i]| <= 16384
    ensures var rs := ExpectedAll(lands, fl, StoreModel.MapOf(s), cmds);
      ParseAll(false, Serve(lands, hash, fl, s, heights, chunks)) == (rs, None) <==> Framed(rs)
  {
    hide *;
    ServeIsExpected(lands, hash, fl, s, cmds, heights, chunks);
    FramesIff(ExpectedAll(lands, fl, StoreModel.MapOf(s), cmds));
  }

  /** The client's reader on printed replies. */
  lemma ReaderOnReplies(rs: seq<Reply>, acts: seq<ReaderModel.Action>)
    requires AllSimple(rs) && Framed(rs) && |PrintAll(rs)| <= LONG_MAX
    requires ReaderModel.Fed(acts) == PrintAll(rs) && ReaderModel.Calm(ReaderModel.Start(), acts)
    requires acts != [] && acts[|acts| - 1].AskReply?
    ensures var outs := ReaderModel.Run(ReaderModel.Start(), acts).1;
      && outs != [] && !outs[|outs| - 1].Failed? && ReaderModel.Replies(outs) <= rs
      && (outs[|outs| - 1].NoReply? ==> ReaderModel.Replies(outs) == rs)
  {
    hide Simple, Framed, AllRanged, AllPrintable, ParseAll, PrintAll, ReaderModel.Calm, ReaderModel.Run, ReaderModel.Replies, ReaderModel.Fed;
    FramesIff(rs);
    SimpleIsRanged(rs);
    ParseAllPrinted(true, rs);
    ReaderModel.ReaderRefinesParser(acts);
  }

  /**
    End to end, for any pipeline of such commands on a consistent store whose listed keys have no
    CR LF: the client's formatted commands are cut into any reads of at most 16 KB; the server
    parses, executes and answers them; its reply bytes are cut in any way and read with calls in
    between, each on a buffer below 2 GB.  No call fails, and when a call finds no further reply, the
    client has seen exactly one reply for each command, in order, each one the right answer for the
    map that the commands before it have built.
   */
  lemma PipelineEndToEnd(lands: bytes -> bool, hash: bytes -> nat, fl: StoreModel.Limits, s: StoreModel.Store,
      cmds: seq<seq<bytes>>, heights: nat -> nat, chunks: seq<bytes>, acts: seq<ReaderModel.Action>)
    requires StoreModel.Consistent(hash, fl, s)
    requires forall i :: 0 <= i < |cmds| ==> cmds[i] != [] && Plain(lands, cmds[i])
    requires forall i :: 1 <= heights(i) <= 16
    requires Format.Concat(chunks) == RequestModel.Wires(cmds)
    requires forall i :: 0 <= i < |chunks| ==> |chunks[i]| <= 16384
    requires Framed(ExpectedAll(lands, fl, StoreModel.MapOf(s), cmds))
    requires ReaderModel.Fed(acts) == Serve(lands, hash, fl, s, heights, chunks) && |ReaderModel.Fed(acts)| <= LONG_MAX
    requires ReaderModel.Calm(ReaderModel.Start(), acts) && acts != [] && acts[|acts| - 1].AskReply?
    ensures var outs := ReaderModel.Run(ReaderModel.Start(), acts).1;
      outs != [] && !outs[|outs| - 1].Failed? &&
      ReaderModel.Replies(outs) <= ExpectedAll(lands, fl, StoreModel.MapOf(s), cmds) &&
      (outs[|outs| - 1].NoReply? ==> ReaderModel.Replies(outs) == ExpectedAll(lands, fl, StoreModel.MapOf(s), cmds))
  {
    hide *;
    ServeIsExpected(lands, hash, fl, s, cmds, heights, chunks);
    ReaderOnReplies(ExpectedAll(lands, fl, StoreModel.MapOf(s), cmds), acts);
  }
}
