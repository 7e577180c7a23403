/**
  The server between its request parser and its store: processCommand with the command table, and
  the bytes of the replies.  The handlers themselves are in `StoreModel`.
 */
module Server {
  import opened Bytes
  import opened Integers
  import opened Options
  import Resp
  import StoreModel
  import RequestModel

  datatype Handler = GetHandler | PutHandler | DeleteHandler | ScanHandler | PingHandler | ShutdownHandler | ShowHandler

  datatype Entry = Entry(name: bytes, handler: Handler, arity: nat)

  /** server_commands_table. */
  function Table(): seq<Entry> {
    [Entry(Ascii("get"), GetHandler, 2), Entry(Ascii("put"), PutHandler, 3), Entry(Ascii("set"), PutHandler, 3),
     Entry(Ascii("delete"), DeleteHandler, 2), Entry(Ascii("scan"), ScanHandler, 3), Entry(Ascii("ping"), PingHandler, 1),
     Entry(Ascii("shutdown"), ShutdownHandler, 1), Entry(Ascii("show"), ShowHandler, 1)]
  }

  function Fold(name: bytes): (r: bytes)
    ensures |r| == |name|
  {
    seq(|name|, i requires 0 <= i < |name| => RequestModel.Lower(name[i]))
  }

  function LookupIn(table: seq<Entry>, name: bytes): Option<Entry> {
    if table == [] then None else if table[0].name == name then Some(table[0]) else LookupIn(table[1..], name)
  }

  /**
    lookupCommand.  The table hashes the whole name but compares C strings; so for a name with a NUL
    it depends on the hash function whether the right bucket is searched, and `lands` tells that.
   */
  function LookupCommand(lands: bytes -> bool, name: bytes): Option<Entry> {
    if 0 in name && !lands(name) then None else LookupIn(Table(), Fold(CString(name)))
  }

  // ---------- Reply bytes ----------

  function Clean(s: bytes): (r: bytes)
    ensures |r| == |s| && forall i :: 0 <= i < |s| ==> r[i] == if s[i] == CR || s[i] == LF then 32 else s[i]
  {
    seq(|s|, i requires 0 <= i < |s| => if s[i] == CR || s[i] == LF then 32 else s[i])
  }

  /** The loop of addReplyErrorFormat, in place. */
  method CleanInPlace(s: array<byte>)
    modifies s
    ensures s[..] == Clean(old(s[..]))
  {
    for j := 0 to s.Length
      invariant forall i :: 0 <= i < s.Length ==>
        s[i] == if i < j && (old(s[i]) == CR || old(s[i]) == LF) then 32 else old(s[i])
    {
      if s[j] == CR || s[j] == LF { s[j] := 32; }
    }
  }

  /** addReplyErrorFormat with its message printed. */
  function ErrorBytes(message: bytes): bytes { Ascii("-ERR ") + Clean(message) + Ascii("\r\n") }

  /** convertToResp. */
  function BulkBytes(v: bytes): bytes { Ascii("$") + Text(|v|) + Ascii("\r\n") + v + Ascii("\r\n") }

  function LengthMessage(what: string, n: nat): bytes { Ascii(what) + Text(n) }

  /** The bytes that the handlers write for a reply of the store. */
  function ReplyBytes(fl: StoreModel.Limits, r: StoreModel.Reply): bytes {
    match r
    case Null => Ascii("$-1\r\n")
    case Bulk(v) => BulkBytes(v)
    case Status(t) => Ascii("+") + t + Ascii("\r\n")
    case KeyLength => ErrorBytes(LengthMessage("Illegal key length, key length should be ", fl.keyLen))
    case PairLength =>
      ErrorBytes(LengthMessage("Illegal kv length, key/value length should be ", fl.keyLen) + Ascii("/") + Text(fl.valLen))
    case CursorLength => ErrorBytes(LengthMessage("Illegal cursor length, key length should be ", fl.keyLen))
    case CursorOrder(start, end) =>
      ErrorBytes(Ascii("CURSORERR '") + CString(start) + Ascii("' should less or equal to '") + CString(end) + Ascii("'"))
    case Info(n, min, max) =>
      Ascii("+tadpole:keys=") + Text(n) + Ascii(",min=") + min + Ascii(",max=") + max + Ascii("\r\n")
    case Crash => []
  }

  function UnknownMessage(name: bytes): bytes { Ascii("unknown command '") + CString(name) + Ascii("'") }

  function ArityMessage(name: bytes): bytes { Ascii("wrong number of arguments for '") + name + Ascii("' command") }

  // ---------- processCommand ----------

  /** The store command of an argument vector of the right arity; None for ping and shutdown. */
  function StoreCommand(h: Handler, argv: seq<bytes>, height: nat): Option<StoreModel.Command> {
    if h == GetHandler && |argv| == 2 then Some(StoreModel.Get(argv[1]))
    else if h == PutHandler && |argv| == 3 then Some(StoreModel.Put(argv[1], argv[2], height))
    else if h == DeleteHandler && |argv| == 2 then Some(StoreModel.Delete(argv[1]))
    else if h == ScanHandler && |argv| == 3 then Some(StoreModel.Scan(argv[1], argv[2]))
    else if h == ShowHandler && |argv| == 1 then Some(StoreModel.Show)
    else None
  }

  /** processCommand for commands other than quit and shutdown: the next store and the reply bytes. */
  function ProcessCommand(lands: bytes -> bool, hash: bytes -> nat, fl: StoreModel.Limits, s: StoreModel.Store,
      argv: seq<bytes>, height: nat)
    : (StoreModel.Store, bytes)
    requires argv != []
  {
    match LookupCommand(lands, argv[0])
    case None => (s, ErrorBytes(UnknownMessage(argv[0])))
    case Some(entry) =>
      if |argv| != entry.arity then (s, ErrorBytes(ArityMessage(entry.name)))
      else
        match StoreCommand(entry.handler, argv, height)
        case None => (s, Ascii("+PONG\r\n"))
        case Some(c) =>
          var (s', r) := StoreModel.Execute(hash, fl, s, c);
          (s', ReplyBytes(fl, r))
  }

  // ---------- One frame each ----------

  lemma CleanLine(message: bytes)
    ensures Resp.Newline(Ascii("ERR ") + Clean(message) + CRLF, 0) == Some(|message| + 4)
  {
    var line := Ascii("ERR ") + Clean(message);
    forall b | b in line ensures b != CR {
      var i :| 0 <= i < |line| && line[i] == b;
      if i >= 4 { assert line[i] == Clean(message)[i - 4]; }
    }
    Resp.PlainLine(line);
  }

  /** An error reply is one frame, whatever its message contains. */
  lemma ErrorIsOneFrame(message: bytes)
    ensures ErrorBytes(message) == Resp.Print(Resp.Error(Ascii("ERR ") + Clean(message)))
    ensures Resp.Printable(Resp.Error(Ascii("ERR ") + Clean(message)), 0)
    ensures CR !in Clean(message) && LF !in Clean(message)
  {
    CleanLine(message);
    assert Ascii("-ERR ") == [45] + Ascii("ERR ") && Ascii("\r\n") == CRLF;
    assert [45] + Ascii("ERR ") + Clean(message) + CRLF == [45] + (Ascii("ERR ") + Clean(message)) + CRLF;
  }

  lemma BulkIsPrint(v: bytes)
    ensures BulkBytes(v) == Resp.Print(Resp.Bulk(v))
  {
    assert Ascii("$") == [36] && Ascii("\r\n") == CRLF;
  }

  lemma StatusIsPrint(t: bytes)
    ensures Ascii("+") + t + Ascii("\r\n") == Resp.Print(Resp.Status(t))
  {
    assert Ascii("+") == [43] && Ascii("\r\n") == CRLF;
  }

  lemma NilIsPrint()
    ensures Ascii("$-1\r\n") == Resp.Print(Resp.Nil)
  {
    assert Ascii("$-1\r\n") == Ascii("$-1") + CRLF;
  }
}
