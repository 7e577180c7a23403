/** The request parser of db.c in place: the client's query buffer, argument array and parse state. */
module Request {
  import opened Bytes
  import opened Options
  import opened RequestModel
  import Integers
  import Sds

  /** strchr(s + from, '\r'). */
  method StrChrCr(s: bytes, from: nat) returns (r: Option<nat>)
    requires from <= |s|
    ensures r == FindCr(s, from)
  {
    var i := from;
    while i < |s| && s[i] != 0
      invariant from <= i <= |s| && FindCr(s, i) == FindCr(s, from)
    {
      if s[i] == CR { return Some(i); }
      i := i + 1;
    }
    return None;
  }

  /** What has been seen before the rest of a run. */
  function After(seen: seq<seq<bytes>>,
      r: (RequestModel.Client, seq<seq<bytes>>)): (RequestModel.Client, seq<seq<bytes>>) {
    (r.0, seen + r.1)
  }

  lemma AfterTwice(a: seq<seq<bytes>>, b: seq<seq<bytes>>, r: (RequestModel.Client, seq<seq<bytes>>))
    ensures After(a, After(b, r)) == After(a + b, r) && After([], r) == r && After(a, (r.0, [])) == (r.0, a)
  {
    assert a + (b + r.1) == a + b + r.1;
    assert [] + r.1 == r.1 && a + [] == a;
  }

  /** One turn of the loop of processInputBuffer, in the model. */
  lemma InputTurn(c: RequestModel.Client)
    ensures c.buf == [] || c.failed ==> ProcessInput(c) == (c, [])
    ensures c.buf != [] && !c.failed ==>
      var (c2, ok) := ProcessMultibulk(Classify(c));
      var go := Classify(c).reqtype == MULTIBULK && ok;
      var c3 := if c2.argv != [] && IsQuit(c2.argv[0]) then c2 else Reset(c2);
      ProcessInput(c) == if Classify(c).reqtype != MULTIBULK then (Classify(c), []) else if !ok then (c2, [])
                         else After(if c2.argv == [] then [] else [c2.argv], ProcessInput(c3))
    ensures var (c2, ok) := ProcessMultibulk(Classify(c)); ok ==> |c2.buf| < |c.buf|
  {
  }

  class Client {
    var querybuf: bytes
    var argc: nat
    var argv: array<bytes>
    var multibulklen: int
    var bulklen: int
    var reqtype: int
    var failed: bool

    ghost predicate Shape()
      reads this
    {
      argc <= argv.Length && multibulklen >= 0 && bulklen >= -1 && (multibulklen > 0 ==> argc + multibulklen == argv.Length)
    }

    ghost function State(): RequestModel.Client
      requires Shape()
      reads this, argv
    {
      RequestModel.Client(querybuf, argv[..argc], argv.Length, multibulklen, bulklen, reqtype, failed)
    }

    /** createClient. */
    constructor ()
      ensures Shape() && fresh(argv) && State() == NewClient()
    {
      querybuf, argc, multibulklen, bulklen, reqtype, failed := [], 0, 0, -1, UNKNOWN, false;
      argv := new bytes[0];
    }

    /** The length of the next argument. */
    method ReadBulkLen(pos: nat) returns (pos': nat, v: Verdict)
      requires Shape() && pos <= |querybuf| && bulklen == -1
      modifies this`querybuf, this`bulklen
      ensures Shape() && (State(), pos', v) == ReadLen(old(State()), pos)
    {
      var newline := StrChrCr(querybuf, pos);
      if newline.None? { return pos, if |querybuf| > INLINE_MAX then Abort else Break; }
      var n := newline.value;
      if n > |querybuf| - 2 { return pos, Break; }
      if querybuf[pos] != DOLLAR { return pos, Abort; }
      var ll := Integers.String2LL(querybuf[pos + 1..n]);
      if ll.None? || ll.value < 0 || ll.value > MAX_BULK { return pos, Abort; }
      pos' := n + 2;
      if ll.value >= BIG_ARG {
        querybuf := Sds.Slice(querybuf, pos', -1);
        pos' := 0;
      }
      bulklen := ll.value;
      return pos', Go;
    }

    /** Stores one argument; the array has room for it. */
    method StoreArg(pos: nat) returns (pos': nat)
      requires Shape() && multibulklen > 0 && bulklen >= 0 && pos + bulklen + 2 <= |querybuf|
      modifies this, argv
      ensures Shape() && argv == old(argv) && (State(), pos') == TakeArg(old(State()), pos)
    {
      ghost var before := argv[..argc];
      if pos == 0 && bulklen >= BIG_ARG && |querybuf| == bulklen + 2 {
        argv[argc] := querybuf;
        querybuf, pos' := [], 0;
      } else {
        argv[argc] := querybuf[pos..pos + bulklen];
        pos' := pos + bulklen + 2;
      }
      assert argv[..argc + 1] == before + [argv[argc]];
      argc := argc + 1;
      bulklen, multibulklen := -1, multibulklen - 1;
    }

    /** The loop of processMultibulkBuffer. */
    method ReadArguments(from: nat) returns (pos: nat, abort: bool)
      requires Shape() && from <= |querybuf|
      modifies this, argv
      ensures Shape() && argv == old(argv) && (State(), pos, abort) == ReadArgs(old(State()), from)
    {
      pos := from;
      while multibulklen > 0
        invariant Shape() && argv == old(argv) && pos <= |querybuf|
        invariant ReadArgs(State(), pos) == ReadArgs(old(State()), from)
        decreases multibulklen
      {
        if bulklen == -1 {
          var v;
          pos, v := ReadBulkLen(pos);
          if v == Abort { return pos, true; }
          if v == Break { return pos, false; }
        }
        if |querybuf| - pos < bulklen + 2 { return pos, false; }
        pos := StoreArg(pos);
      }
      return pos, false;
    }

    /** The second half of processMultibulkBuffer. */
    method FinishArguments(from: nat) returns (ok: bool)
      requires Shape() && from <= |querybuf|
      modifies this, argv
      ensures Shape() && argv == old(argv) && (State(), ok) == Arguments(old(State()), from)
    {
      var pos, abort := ReadArguments(from);
      if abort { return false; }
      if pos != 0 { querybuf := Sds.Slice(querybuf, pos, -1); }
      return multibulklen == 0;
    }

    /** processMultibulkBuffer. */
    method ProcessMultibulkBuffer() returns (ok: bool)
      requires Shape()
      modifies this, argv
      ensures Shape() && (argv == old(argv) || fresh(argv))
      ensures (State(), ok) == ProcessMultibulk(old(State()))
    {
      hide Arguments, FindCr, Integers.ParseLL, Sds.Slice;
      var pos := 0;
      if multibulklen == 0 {
        if argc != 0 {
          failed := true;
          return false;
        }
        var newline := StrChrCr(querybuf, 0);
        if newline.None? || newline.value > |querybuf| - 2 { return false; }
        if querybuf[0] != STAR {
          failed := true;
          return false;
        }
        var ll := Integers.String2LL(querybuf[1..newline.value]);
        if ll.None? || ll.value > MAX_COUNT { return false; }
        pos := newline.value + 2;
        if ll.value <= 0 {
          querybuf := Sds.Slice(querybuf, pos, -1);
          return true;
        }
        multibulklen := ll.value;
        argv := new bytes[multibulklen];
      }
      ok := FinishArguments(pos);
    }

    /** resetClient. */
    method ResetClient()
      requires Shape()
      modifies this
      ensures Shape() && argv == old(argv) && State() == Reset(old(State()))
    {
      argc, reqtype, multibulklen, bulklen := 0, UNKNOWN, 0, -1;
    }

    /** One turn of the loop of processInputBuffer: the arguments that processCommand gets, if it is called. */
    method Turn() returns (go: bool, seen: seq<seq<bytes>>)
      requires Shape() && querybuf != [] && !failed
      modifies this, argv
      ensures Shape() && (argv == old(argv) || fresh(argv))
      ensures var (c2, ok) := ProcessMultibulk(Classify(old(State())));
        && go == (Classify(old(State())).reqtype == MULTIBULK && ok)
        && seen == (if !go || c2.argv == [] then [] else [c2.argv])
        && State() == if Classify(old(State())).reqtype != MULTIBULK then Classify(old(State()))
                      else if !ok || (c2.argv != [] && IsQuit(c2.argv[0])) then c2 else Reset(c2)
    {
      if reqtype == UNKNOWN { reqtype := if querybuf[0] == STAR then MULTIBULK else INLINE; }
      if reqtype != MULTIBULK { return false, []; }
      var ok := ProcessMultibulkBuffer();
      if !ok { return false, []; }
      seen := [];
      if argc == 0 {
        ResetClient();
      } else {
        seen := [argv[..argc]];
        if !IsQuit(argv[0]) { ResetClient(); }
      }
      return true, seen;
    }

    /** processInputBuffer. */
    method ProcessInputBuffer() returns (seen: seq<seq<bytes>>)
      requires Shape()
      modifies this, argv
      ensures Shape() && (argv == old(argv) || fresh(argv))
      ensures (State(), seen) == ProcessInput(old(State()))
    {
      hide ProcessInput, After, ProcessMultibulk, Classify;
      seen := [];
      AfterTwice([], [], ProcessInput(State()));
      while querybuf != [] && !failed
        invariant Shape() && (argv == old(argv) || fresh(argv))
        invariant ProcessInput(old(State())) == After(seen, ProcessInput(State()))
        decreases |querybuf|
      {
        ghost var c := State();
        InputTurn(c);
        var go, one := Turn();
        AfterTwice(seen, one, ProcessInput(State()));
        if !go {
          AfterTwice(seen, [], (State(), []));
          return;
        }
        seen := seen + one;
      }
      InputTurn(State());
      AfterTwice(seen, [], (State(), []));
    }

    /** How many bytes readQueryFromClient asks for. */
    method ReadLength() returns (readlen: nat)
      requires Shape() && ReadLimit(State()) > 0
      ensures readlen == ReadLimit(State())
    {
      readlen := IOBUF;
      if reqtype == MULTIBULK && multibulklen != 0 && bulklen != -1 && bulklen >= BIG_ARG {
        var remaining := bulklen + 2 - |querybuf|;
        if remaining < readlen { readlen := remaining; }
      }
    }

    /** readQueryFromClient, when `socket` has come in; `rest` stays in the socket. */
    method Receive(socket: bytes) returns (seen: seq<seq<bytes>>, rest: bytes)
      requires Shape() && Live(State())
      modifies this, argv
      ensures Shape() && (argv == old(argv) || fresh(argv)) && Live(State())
      ensures var n := if |socket| < ReadLimit(old(State())) then |socket| else ReadLimit(old(State()));
        (State(), seen) == RequestModel.Receive(old(State()), socket[..n]) && rest == socket[n..]
    {
      var readlen := ReadLength();
      var nread := if |socket| < readlen then |socket| else readlen;
      querybuf := querybuf + socket[..nread];
      InputWaits(State());
      seen := ProcessInputBuffer();
      rest := socket[nread..];
    }
  }
}
