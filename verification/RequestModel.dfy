/**
  The request parser of db.c as a value: a query buffer and the fields that survive between chunks.
  The later parts prove which commands of the formatter of `Format` it sees, for every cutting of
  the byte stream into reads.
 */
module RequestModel {
  import opened Bytes
  import opened Options
  import opened Integers
  import opened Format
  import Sds

  const STAR: byte := 42
  const DOLLAR: byte := 36
  const MAX_COUNT: int := 1024 * 1024
  const MAX_BULK: int := 512 * 1024 * 1024
  const INLINE_MAX: nat := 64 * 1024
  const BIG_ARG: nat := 32 * 1024
  const IOBUF: nat := 16 * 1024

  const UNKNOWN := 0
  const INLINE := 1
  const MULTIBULK := 2

  /** `room` is the number of places allocated for arguments; `failed` records a failed assertion. */
  datatype Client = Client(buf: bytes, argv: seq<bytes>, room: nat, multibulklen: int, bulklen: int, reqtype: int, failed: bool)

  datatype Verdict = Go | Break | Abort

  function NewClient(): Client { Client([], [], 0, 0, -1, UNKNOWN, false) }

  // ---------- The parser ----------

  /** strchr for CR from a position on: it stops at a NUL. */
  function FindCr(s: bytes, from: nat): (r: Option<nat>)
    requires from <= |s|
    ensures r.Some? ==> from <= r.value < |s| && s[r.value] == CR
    decreases |s| - from
  {
    if from == |s| || s[from] == 0 then None
    else if s[from] == CR then Some(from)
    else FindCr(s, from + 1)
  }

  /** The part of processMultibulkBuffer that reads the length of an argument. */
  function ReadLen(c: Client, pos: nat): (r: (Client, nat, Verdict))
    requires pos <= |c.buf|
    ensures r.1 <= |r.0.buf| && r.0.multibulklen == c.multibulklen
    ensures |r.0.buf| - r.1 <= |c.buf| - pos
    ensures r.2.Go? ==> r.0.bulklen >= 0
  {
    match FindCr(c.buf, pos)
    case None => (c, pos, if |c.buf| > INLINE_MAX then Abort else Break)
    case Some(n) =>
      if n > |c.buf| - 2 then (c, pos, Break)
      else if c.buf[pos] != DOLLAR then (c, pos, Abort)
      else
        match ParseLL(c.buf[pos + 1..n])
        case None => (c, pos, Abort)
        case Some(ll) =>
          if ll < 0 || ll > MAX_BULK then (c, pos, Abort)
          else if ll >= BIG_ARG then (c.(bulklen := ll, buf := Sds.Slice(c.buf, n + 2, -1)), 0, Go)
          else (c.(bulklen := ll), n + 2, Go)
  }

  /** The part that stores an argument. */
  function TakeArg(c: Client, pos: nat): (Client, nat)
    requires c.bulklen >= 0 && pos + c.bulklen + 2 <= |c.buf|
  {
    var c1 := c.(bulklen := -1, multibulklen := c.multibulklen - 1);
    if pos == 0 && c.bulklen >= BIG_ARG && |c.buf| == c.bulklen + 2 then
      (c1.(argv := c.argv + [c.buf], buf := []), 0)
    else
      (c1.(argv := c.argv + [c.buf[pos..pos + c.bulklen]]), pos + c.bulklen + 2)
  }

  /** The loop of processMultibulkBuffer: the state, the position, and whether it returns at once with an error. */
  function ReadArgs(c: Client, pos: nat): (r: (Client, nat, bool))
    requires pos <= |c.buf| && (c.bulklen == -1 || c.bulklen >= 0)
    ensures r.1 <= |r.0.buf| && |r.0.buf| - r.1 <= |c.buf| - pos
    ensures c.multibulklen > 0 && r.0.multibulklen == 0 ==> |r.0.buf| - r.1 < |c.buf| - pos
    decreases c.multibulklen
  {
    if c.multibulklen <= 0 then (c, pos, false)
    else
      var (c1, pos1, verdict) := if c.bulklen == -1 then ReadLen(c, pos) else (c, pos, Go);
      match verdict
      case Abort => (c1, pos1, true)
      case Break => (c1, pos1, false)
      case Go =>
        if |c1.buf| - pos1 < c1.bulklen + 2 then (c1, pos1, false)
        else
          var (c2, pos2) := TakeArg(c1, pos1);
          ReadArgs(c2, pos2)
  }

  function Trim(c: Client, pos: nat): Client {
    if pos == 0 then c else c.(buf := Sds.Slice(c.buf, pos, -1))
  }

  /** The second half of processMultibulkBuffer. */
  function Arguments(c: Client, pos: nat): (r: (Client, bool))
    requires pos <= |c.buf| && (c.bulklen == -1 || c.bulklen >= 0)
    ensures r.1 && (c.multibulklen > 0 || pos > 0) ==> |r.0.buf| < |c.buf|
  {
    var (c1, pos1, abort) := ReadArgs(c, pos);
    if abort then (c1, false) else (Trim(c1, pos1), c1.multibulklen == 0)
  }

  /** processMultibulkBuffer; the flag is false for SERVER_ERR. */
  function ProcessMultibulk(c: Client): (r: (Client, bool))
    ensures r.1 ==> |r.0.buf| < |c.buf|
  {
    if c.multibulklen < 0 || !(c.bulklen == -1 || c.bulklen >= 0) then (c, false)
    else if c.multibulklen != 0 then Arguments(c, 0)
    else if c.argv != [] then (c.(failed := true), false)
    else
      match FindCr(c.buf, 0)
      case None => (c, false)
      case Some(n) =>
        if n > |c.buf| - 2 then (c, false)
        else if c.buf[0] != STAR then (c.(failed := true), false)
        else
          match ParseLL(c.buf[1..n])
          case None => (c, false)
          case Some(ll) =>
            if ll > MAX_COUNT then (c, false)
            else if ll <= 0 then (c.(buf := Sds.Slice(c.buf, n + 2, -1)), true)
            else Arguments(c.(multibulklen := ll, room := ll), n + 2)
  }

  /** resetClient. */
  function Reset(c: Client): Client {
    c.(argv := [], reqtype := UNKNOWN, multibulklen := 0, bulklen := -1)
  }

  function Lower(b: byte): byte { if 65 <= b <= 90 then b + 32 else b }

  /** strcasecmp(name, "quit") == 0. */
  predicate IsQuit(name: bytes) {
    var s := CString(name);
    |s| == 4 && Lower(s[0]) == 113 && Lower(s[1]) == 117 && Lower(s[2]) == 105 && Lower(s[3]) == 116
  }

  /** The request type, when it is unknown. */
  function Classify(c: Client): Client {
    if c.reqtype == UNKNOWN && c.buf != [] then c.(reqtype := if c.buf[0] == STAR then MULTIBULK else INLINE) else c
  }

  /**
    processInputBuffer, and the argument vectors that processCommand sees.  The quit command is not
    followed by a reset.  Inline requests are not modelled: the loop stops at one.
   */
  function ProcessInput(c: Client): (Client, seq<seq<bytes>>)
    decreases |c.buf|
  {
    if c.buf == [] || c.failed then (c, [])
    else
      var c1 := Classify(c);
      if c1.reqtype != MULTIBULK then (c1, [])
      else
        var (c2, ok) := ProcessMultibulk(c1);
        if !ok then (c2, [])
        else
          var c3 := if c2.argv != [] && IsQuit(c2.argv[0]) then c2 else Reset(c2);
          var seen := if c2.argv == [] then [] else [c2.argv];
          var (c4, more) := ProcessInput(c3);
          (c4, seen + more)
  }

  /** How many bytes readQueryFromClient asks for: a big argument must end alone in the buffer. */
  function ReadLimit(c: Client): nat {
    if c.reqtype == MULTIBULK && c.multibulklen != 0 && c.bulklen != -1 && c.bulklen >= BIG_ARG then
      var remaining := c.bulklen + 2 - |c.buf|;
      if remaining < 0 then 0 else if remaining < IOBUF then remaining else IOBUF
    else IOBUF
  }

  /** readQueryFromClient, for a read that returns `data`. */
  function Receive(c: Client, data: bytes): (Client, seq<seq<bytes>>) { ProcessInput(c.(buf := c.buf + data)) }

  function ReceiveAll(c: Client, chunks: seq<bytes>): (Client, seq<seq<bytes>>)
    decreases |chunks|
  {
    if chunks == [] then (c, [])
    else
      var (c1, seen) := Receive(c, chunks[0]);
      var (c2, more) := ReceiveAll(c1, chunks[1..]);
      (c2, seen + more)
  }

  /** No read returns more bytes than were asked for. */
  ghost predicate Within(c: Client, chunks: seq<bytes>)
    decreases |chunks|
  {
    chunks != [] ==> |chunks[0]| <= ReadLimit(c) && Within(Receive(c, chunks[0]).0, chunks[1..])
  }

  /** A state between two reads. */
  ghost predicate Live(c: Client) {
    c.multibulklen >= 0 && c.bulklen >= -1 && (c.failed ==> c.multibulklen == 0) && ReadLimit(c) > 0
  }

  lemma {:induction false} ArgsWait(c: Client, pos: nat)
    requires pos <= |c.buf| && c.multibulklen >= 0 && c.bulklen >= -1
    ensures var (c1, pos1, abort) := ReadArgs(c, pos);
      && c1.multibulklen >= 0 && c1.bulklen >= -1 && c1.failed == c.failed
      && (c1.multibulklen > 0 && c1.bulklen >= 0 ==> !abort && |c1.buf| - pos1 < c1.bulklen + 2)
    decreases c.multibulklen
  {
    if c.multibulklen > 0 {
      var (c1, pos1, verdict) := if c.bulklen == -1 then ReadLen(c, pos) else (c, pos, Go);
      if verdict.Go? && |c1.buf| - pos1 >= c1.bulklen + 2 {
        var (c2, pos2) := TakeArg(c1, pos1);
        ArgsWait(c2, pos2);
      }
    }
  }

  lemma MultibulkWaits(c: Client)
    requires c.multibulklen >= 0 && c.bulklen >= -1 && !c.failed
    ensures var (c1, ok) := ProcessMultibulk(c); ok || Live(c1)
  {
    if c.multibulklen != 0 {
      ArgumentsWait(c, 0);
    } else if c.argv == [] && FindCr(c.buf, 0).Some? && FindCr(c.buf, 0).value <= |c.buf| - 2 && c.buf[0] == STAR {
      var n := FindCr(c.buf, 0).value;
      var ll := ParseLL(c.buf[1..n]);
      hide FindCr, ParseLL, Arguments;
      if ll.Some? && 0 < ll.value <= MAX_COUNT { ArgumentsWait(c.(multibulklen := ll.value, room := ll.value), n + 2); }
    }
  }

  lemma ArgumentsWait(c: Client, pos: nat)
    requires pos <= |c.buf| && c.multibulklen >= 0 && c.bulklen >= -1 && !c.failed
    ensures var (c1, ok) := Arguments(c, pos); ok || Live(c1)
  {
    ArgsWait(c, pos);
    hide ReadArgs;
    var (c1, pos1, abort) := ReadArgs(c, pos);
    TrimCuts(c1, pos1);
  }

  /** Whatever comes in, the server asks for at least one byte more. */
  lemma {:induction false} InputWaits(c: Client)
    requires c.multibulklen >= 0 && c.bulklen >= -1 && (c.failed ==> c.multibulklen == 0)
    ensures Live(ProcessInput(c).0)
    decreases |c.buf|
  {
    hide ProcessMultibulk;
    if c.buf != [] && !c.failed && Classify(c).reqtype == MULTIBULK {
      MultibulkWaits(Classify(c));
      var (c2, ok) := ProcessMultibulk(Classify(c));
      if ok {
        OkResets(Classify(c));
        InputWaits(if c2.argv != [] && IsQuit(c2.argv[0]) then c2 else Reset(c2));
      }
    }
  }

  lemma OkResets(c: Client)
    requires ProcessMultibulk(c).1 && c.bulklen >= -1 && !c.failed
    ensures var c1 := ProcessMultibulk(c).0; c1.multibulklen == 0 && c1.bulklen >= -1 && !c1.failed
  {
    hide ReadArgs, FindCr, ParseLL;
    var from, n := c, 0;
    if c.multibulklen == 0 && FindCr(c.buf, 0).Some? && FindCr(c.buf, 0).value <= |c.buf| - 2 {
      n := FindCr(c.buf, 0).value + 2;
      var ll := ParseLL(c.buf[1..n - 2]);
      if ll.Some? && 0 < ll.value <= MAX_COUNT { from := c.(multibulklen := ll.value, room := ll.value); }
    }
    if from.multibulklen > 0 { ArgsWait(from, n); }
  }

  /** processCommand is called with at least one argument. */
  lemma {:induction false} InputSeesArguments(c: Client)
    ensures forall i :: 0 <= i < |ProcessInput(c).1| ==> ProcessInput(c).1[i] != []
    decreases |c.buf|
  {
    if c.buf != [] && !c.failed && Classify(c).reqtype == MULTIBULK {
      var (c2, ok) := ProcessMultibulk(Classify(c));
      if ok { InputSeesArguments(if c2.argv != [] && IsQuit(c2.argv[0]) then c2 else Reset(c2)); }
    }
  }

  lemma {:induction false} AllSeeArguments(c: Client, chunks: seq<bytes>)
    ensures forall i :: 0 <= i < |ReceiveAll(c, chunks).1| ==> ReceiveAll(c, chunks).1[i] != []
    decreases |chunks|
  {
    if chunks != [] {
      InputSeesArguments(c.(buf := c.buf + chunks[0]));
      AllSeeArguments(Receive(c, chunks[0]).0, chunks[1..]);
    }
  }

  // ---------- What the server stores ----------

  /** The commands that the parser takes. */
  predicate Sendable(cmd: seq<bytes>) {
    1 <= |cmd| <= 1048576 && forall i :: 0 <= i < |cmd| ==> |cmd[i]| <= 536870912
  }

  /** The commands that it also stores as they were sent, and resets after. */
  predicate Proper(cmd: seq<bytes>) {
    1 <= |cmd| <= 1048576 && !IsQuit(cmd[0]) && forall i :: 0 <= i < |cmd| ==> |cmd[i]| < 32768
  }

  /** A big argument is stored with its line end. */
  function Stored(arg: bytes): bytes { if |arg| < 32768 then arg else arg + CRLF }

  function StoredArgs(cmd: seq<bytes>): (r: seq<bytes>)
    ensures |r| == |cmd| && forall i :: 0 <= i < |cmd| ==> r[i] == Stored(cmd[i])
  {
    seq(|cmd|, i requires 0 <= i < |cmd| => Stored(cmd[i]))
  }

  function StoredAll(cmds: seq<seq<bytes>>): (r: seq<seq<bytes>>)
    ensures |r| == |cmds| && forall i :: 0 <= i < |cmds| ==> r[i] == StoredArgs(cmds[i])
  {
    seq(|cmds|, i requires 0 <= i < |cmds| => StoredArgs(cmds[i]))
  }

  lemma CStringUnfold(s: bytes, t: bytes)
    requires s != [] && s[0] != 0
    ensures CString(s + t) == [s[0]] + CString(s[1..] + t) && CString(s) == [s[0]] + CString(s[1..])
  {
    assert (s + t)[1..] == s[1..] + t;
  }

  lemma {:induction false} CStringEnds(s: bytes, t: bytes)
    ensures CString(s + t) == if 0 in s then CString(s) else s + CString(t)
  {
    if s == [] {
      assert s + t == t && [] + CString(t) == CString(t);
    } else if s[0] != 0 {
      CStringEnds(s[1..], t);
      CStringUnfold(s, t);
      hide CString;
      assert s == [s[0]] + s[1..] && 0 in s <==> 0 in s[1..];
      assert [s[0]] + (s[1..] + CString(t)) == s + CString(t);
    }
  }

  lemma StoredQuit(name: bytes)
    ensures IsQuit(Stored(name)) == IsQuit(name)
  {
    if |name| >= BIG_ARG {
      CStringEnds(name, CRLF);
      CStringEnds(name, []);
      assert name + [] == name;
    }
  }

  // ---------- What is still to come ----------

  function Wires(cmds: seq<seq<bytes>>): bytes {
    if cmds == [] then [] else Wire(cmds[0]) + Wires(cmds[1..])
  }

  /** The arguments of `cmd` up to the current one have been read. */
  ghost predicate Reading(c: Client, cmd: seq<bytes>) {
    && !c.failed && c.reqtype == MULTIBULK
    && 0 < c.multibulklen <= |cmd| == c.room && c.argv == StoredArgs(cmd[..|cmd| - c.multibulklen])
    && (c.bulklen == -1 || c.bulklen == |cmd[|cmd| - c.multibulklen]|)
  }

  /** The bytes of `cmd` that are still to be read. */
  ghost function Owed(c: Client, cmd: seq<bytes>): bytes
    requires Reading(c, cmd)
  {
    var j := |cmd| - c.multibulklen;
    if c.bulklen == -1 then BulkTexts(cmd[j..]) else cmd[j] + CRLF + BulkTexts(cmd[j + 1..])
  }

  /** The buffer and the bytes `future` that will come are the rest of the commands. */
  ghost predicate Expects(c: Client, cmds: seq<seq<bytes>>, future: bytes) {
    && !c.failed && (c.reqtype == UNKNOWN || c.reqtype == MULTIBULK)
    && (c.buf == [] && c.multibulklen == 0 ==> c.reqtype == UNKNOWN)
    && if c.multibulklen == 0 then c.argv == [] && c.bulklen == -1 && c.buf + future == Wires(cmds)
       else cmds != [] && Reading(c, cmds[0]) && c.buf + future == Owed(c, cmds[0]) + Wires(cmds[1..])
  }

  /** The buffer from `pos` on: a big argument is alone in it and not longer than it should be. */
  ghost predicate Fits(c: Client, pos: nat) {
    pos <= |c.buf| &&
    if c.bulklen < BIG_ARG then |c.buf| <= INLINE_MAX && |c.buf| - pos <= BIG_ARG + if c.bulklen == -1 then 0 else c.bulklen + 2
    else pos == 0 && |c.buf| <= c.bulklen + 2
  }

  /** What is left from `pos` on when the parser waits for more bytes. */
  ghost predicate Idle(c: Client, pos: nat) {
    pos <= |c.buf| && if c.bulklen == -1 then |c.buf| - pos <= IOBUF else |c.buf| - pos < c.bulklen + 2
  }

  // ---------- Lines ----------

  lemma {:induction false} DecimalShort(n: nat, k: nat)
    requires k > 0 && n < Pow10(k)
    ensures |Decimal(n)| <= k
  {
    if n >= 10 { DecimalShort(n / 10, k - 1); }
  }

  /** The place of the first CR, when what comes before it is neither CR nor NUL. */
  lemma {:induction false} FindCrIs(s: bytes, from: nat, n: nat)
    requires from <= n <= |s| && forall i :: from <= i < n ==> s[i] != 0 && s[i] != CR
    requires n < |s| ==> s[n] == CR
    ensures FindCr(s, from) == if n < |s| then Some(n) else None
    decreases n - from
  {
    if from < n { FindCrIs(s, from + 1, n); }
  }

  /** A line of a type byte and a number, of which a part may be missing. */
  lemma NumberLineIn(buf: bytes, pos: nat, future: bytes, b: byte, n: nat, rest: bytes)
    requires pos <= |buf| && buf[pos..] + future == [b] + Decimal(n) + CRLF + rest && b != 0 && b != CR
    ensures var end := pos + 1 + |Decimal(n)|;
      && FindCr(buf, pos) == (if end < |buf| then Some(end) else None)
      && (end + 2 <= |buf| ==> buf[pos] == b && buf[pos + 1..end] == Decimal(n) && buf[end + 2..] + future == rest)
      && (end + 2 > |buf| ==> |buf| - pos <= |Decimal(n)| + 2 && |future| > |rest|)
  {
    var s, line := buf[pos..], [b] + Decimal(n) + CRLF + rest;
    var d := |Decimal(n)|;
    assert forall i :: 0 <= i < |s| ==> s[i] == (s + future)[i] == line[i];
    forall i | 1 <= i < 1 + d ensures IsDigit(line[i]) { assert line[i] == Decimal(n)[i - 1] && Decimal(n)[i - 1] in Decimal(n); }
    var end := pos + 1 + d;
    forall i | pos <= i < |buf| && i < end ensures buf[i] != 0 && buf[i] != CR { assert buf[i] == s[i - pos] == line[i - pos]; }
    if end < |buf| {
      assert buf[end] == s[1 + d] == line[1 + d] == CR;
      FindCrIs(buf, pos, end);
    } else {
      FindCrIs(buf, pos, |buf|);
    }
    if end + 2 <= |buf| {
      assert buf[pos] == s[0] == line[0];
      assert buf[pos + 1..end] == s[1..1 + d] == line[1..1 + d] == Decimal(n);
      assert buf[end + 2..] == s[1 + d + 2..];
      assert (s + future)[1 + d + 2..] == s[1 + d + 2..] + future;
      assert line[1 + d + 2..] == rest;
    }
  }

  // ---------- One command ----------

  /** In the middle of `cmd`, at position `pos`; `rest` comes after the command. */
  ghost predicate Mid(c: Client, pos: nat, cmd: seq<bytes>, rest: bytes, future: bytes) {
    Reading(c, cmd) && Sendable(cmd) && Fits(c, pos) && c.buf[pos..] + future == Owed(c, cmd) + rest
  }

  /** The command has been read up to position `pos`. */
  ghost predicate Finished(c: Client, pos: nat, cmd: seq<bytes>, rest: bytes, future: bytes) {
    && !c.failed && c.reqtype == MULTIBULK && c.multibulklen == 0 && c.bulklen == -1
    && c.argv == StoredArgs(cmd) && c.room == |cmd|
    && Fits(c, pos) && c.buf[pos..] + future == rest
  }

  lemma FirstBulk(cmd: seq<bytes>, j: nat)
    requires j < |cmd|
    ensures BulkTexts(cmd[j..]) == [DOLLAR] + Decimal(|cmd[j]|) + CRLF + (cmd[j] + CRLF + BulkTexts(cmd[j + 1..]))
  {
    assert cmd[j..][0] == cmd[j] && cmd[j..][1..] == cmd[j + 1..];
    var d := [DOLLAR] + Decimal(|cmd[j]|) + CRLF;
    assert d + cmd[j] + CRLF + BulkTexts(cmd[j + 1..]) == d + (cmd[j] + CRLF + BulkTexts(cmd[j + 1..]));
  }

  /** The state and the position after the line with the length of an argument. */
  function WithLen(c: Client, end: nat, n: nat): (Client, nat)
    requires end <= |c.buf|
  {
    if n < BIG_ARG then (c.(bulklen := n), end) else (c.(bulklen := n, buf := c.buf[end..]), 0)
  }

  /** The line with the length of an argument, or a part of it. */
  lemma LenLine(c: Client, pos: nat, n: nat, rest: bytes, future: bytes)
    requires pos <= |c.buf| <= INLINE_MAX && n <= MAX_BULK && c.buf[pos..] + future == [DOLLAR] + Decimal(n) + CRLF + rest
    ensures var end := pos + 1 + |Decimal(n)| + 2;
      if end <= |c.buf| then
        ReadLen(c, pos) == (WithLen(c, end, n).0, WithLen(c, end, n).1, Go) && c.buf[end..] + future == rest
      else ReadLen(c, pos) == (c, pos, Break) && |future| > |rest| && |c.buf| - pos <= IOBUF
  {
    hide FindCr, ParseLL, Decimal;
    NumberLineIn(c.buf, pos, future, DOLLAR, n, rest);
    DecimalFits(n, 9);
    ParseInvertsText(Decimal(n), n);
    var end := pos + 1 + |Decimal(n)| + 2;
    if end <= |c.buf| { TrimCuts(c, end); }
  }

  /** What ReadLen does: the length of an argument is read, or its line is incomplete. */
  ghost predicate LenRead(c: Client, pos: nat, cmd: seq<bytes>, rest: bytes, future: bytes, r: (Client, nat, Verdict)) {
    match r.2
    case Go => r.0.bulklen >= 0 && Mid(r.0, r.1, cmd, rest, future)
    case Break => r.0 == c && r.1 == pos && |future| > |rest| && |c.buf| - pos <= IOBUF
    case Abort => false
  }

  lemma LenProgress(c: Client, pos: nat, cmd: seq<bytes>, rest: bytes, future: bytes)
    requires Mid(c, pos, cmd, rest, future) && c.bulklen == -1
    ensures LenRead(c, pos, cmd, rest, future, ReadLen(c, pos))
  {
    hide Mid, Reading, Sendable, Owed, ReadLen, Decimal, BulkTexts, Fits, StoredArgs;
    var n := LenMid(c, pos, cmd, rest, future);
    LenLine(c, pos, n, Owed(c.(bulklen := n), cmd) + rest, future);
    var end := pos + 1 + |Decimal(n)| + 2;
    if end <= |c.buf| { MidAfterLen(c, pos, end, cmd, rest, future); }
  }

  lemma LenMid(c: Client, pos: nat, cmd: seq<bytes>, rest: bytes, future: bytes) returns (n: nat)
    requires Mid(c, pos, cmd, rest, future) && c.bulklen == -1
    ensures
      && 0 < c.multibulklen <= |cmd| && n == |cmd[|cmd| - c.multibulklen]| && Reading(c, cmd)
      && n <= MAX_BULK && pos <= |c.buf| <= INLINE_MAX && |c.buf| - pos <= BIG_ARG
      && Reading(c.(bulklen := n), cmd) && Sendable(cmd)
      && c.buf[pos..] + future == [DOLLAR] + Decimal(n) + CRLF + (Owed(c.(bulklen := n), cmd) + rest)
  {
    n := |cmd[|cmd| - c.multibulklen]|;
    OwedLen(c, cmd, n);
    assert n <= MAX_BULK;
    hide Owed, Sendable, Decimal;
    Assoc([DOLLAR] + Decimal(n) + CRLF, Owed(c.(bulklen := n), cmd), rest);
  }

  lemma MidAfterLen(c: Client, pos: nat, end: nat, cmd: seq<bytes>, rest: bytes, future: bytes)
    requires 0 < c.multibulklen <= |cmd| && Reading(c, cmd) && Sendable(cmd) && c.bulklen == -1
    requires pos < end <= |c.buf| <= INLINE_MAX && |c.buf| - pos <= BIG_ARG
    requires var c1 := c.(bulklen := |cmd[|cmd| - c.multibulklen]|);
             Reading(c1, cmd) && c.buf[end..] + future == Owed(c1, cmd) + rest
    ensures var (c', pos') := WithLen(c, end, |cmd[|cmd| - c.multibulklen]|);
            c'.bulklen >= 0 && Mid(c', pos', cmd, rest, future)
  {
    hide BulkTexts, StoredArgs, Sendable;
    var (c', pos') := WithLen(c, end, |cmd[|cmd| - c.multibulklen]|);
    assert c'.buf[pos'..] == c.buf[end..];
  }

  lemma Assoc(x: bytes, y: bytes, z: bytes)
    ensures x + y + z == x + (y + z)
  {
  }

  lemma OwedLen(c: Client, cmd: seq<bytes>, n: nat)
    requires Reading(c, cmd) && c.bulklen == -1 && n == |cmd[|cmd| - c.multibulklen]|
    ensures Reading(c.(bulklen := n), cmd)
    ensures Owed(c, cmd) == [DOLLAR] + Decimal(n) + CRLF + Owed(c.(bulklen := n), cmd)
  {
    FirstBulk(cmd, |cmd| - c.multibulklen);
    hide BulkTexts, Decimal;
  }

  lemma DecimalFits(n: nat, k: nat)
    requires (k == 9 && n <= MAX_BULK) || (k == 7 && n <= MAX_COUNT)
    ensures |Decimal(n)| <= k
  {
    assert Pow10(7) == 10_000_000;
    assert Pow10(9) == 100 * Pow10(7);
    DecimalShort(n, k);
  }

  /** An argument is stored; a big one is the whole buffer. */
  lemma TakeProgress(c: Client, pos: nat, cmd: seq<bytes>, rest: bytes, future: bytes)
    requires Mid(c, pos, cmd, rest, future) && c.bulklen >= 0 && |c.buf| - pos >= c.bulklen + 2
    ensures |c.argv| < c.room
    ensures var (c', pos') := TakeArg(c, pos);
      && c'.multibulklen == c.multibulklen - 1
      && if c'.multibulklen == 0 then Finished(c', pos', cmd, rest, future) else Mid(c', pos', cmd, rest, future)
  {
    var j := |cmd| - c.multibulklen;
    var n, tail := |cmd[j]|, BulkTexts(cmd[j + 1..]);
    var s := c.buf[pos..];
    assert cmd[j] + CRLF + tail + rest == cmd[j] + CRLF + (tail + rest);
    CutArgument(s, future, cmd[j], tail + rest);
    assert s[..n] == c.buf[pos..pos + n] && s[n + 2..] == c.buf[pos + n + 2..];
    var (c', pos') := TakeArg(c, pos);
    assert c'.argv == c.argv + [Stored(cmd[j])] && c'.buf[pos'..] == s[n + 2..];
    assert cmd[..j + 1] == cmd[..j] + [cmd[j]];
    assert StoredArgs(cmd[..j + 1]) == StoredArgs(cmd[..j]) + [Stored(cmd[j])];
    if c.multibulklen == 1 { assert cmd[j + 1..] == [] && cmd[..j + 1] == cmd && [] + rest == rest; }
  }

  lemma CutArgument(s: bytes, future: bytes, arg: bytes, rest: bytes)
    requires s + future == arg + CRLF + rest && |s| >= |arg| + 2
    ensures s[..|arg|] == arg && s[..|arg| + 2] == arg + CRLF && s[|arg| + 2..] + future == rest
    ensures |s| == |arg| + 2 ==> s == arg + CRLF
  {
    var n := |arg|;
    assert s[..n] == (s + future)[..n] == (arg + CRLF + rest)[..n];
    assert s[..n + 2] == (s + future)[..n + 2] == (arg + CRLF + rest)[..n + 2];
    assert s[n + 2..] + future == (s + future)[n + 2..] == (arg + CRLF + rest)[n + 2..];
  }

  /** The bytes of an argument are not all there. */
  lemma ShortArgument(c: Client, pos: nat, cmd: seq<bytes>, rest: bytes, future: bytes)
    requires Mid(c, pos, cmd, rest, future) && c.bulklen >= 0 && |c.buf| - pos < c.bulklen + 2
    ensures |future| > |rest| && Idle(c, pos)
  {
  }

  /** The loop reads the command to its end, or waits for more bytes in the middle of it. */
  lemma {:induction false} ArgsProgress(c: Client, pos: nat, cmd: seq<bytes>, rest: bytes, future: bytes)
    requires Mid(c, pos, cmd, rest, future)
    ensures var (c', pos', abort) := ReadArgs(c, pos);
      && !abort
      && if c'.multibulklen == 0 then Finished(c', pos', cmd, rest, future)
         else Mid(c', pos', cmd, rest, future) && |future| > |rest| && Idle(c', pos')
    decreases c.multibulklen
  {
    hide Owed, Sendable, ReadLen, TakeArg, StoredArgs;
    var c1, pos1, verdict := c, pos, Go;
    if c.bulklen == -1 {
      LenProgress(c, pos, cmd, rest, future);
      var r := ReadLen(c, pos);
      c1, pos1, verdict := r.0, r.1, r.2;
    }
    if verdict.Go? {
      if |c1.buf| - pos1 < c1.bulklen + 2 {
        ShortArgument(c1, pos1, cmd, rest, future);
      } else {
        TakeProgress(c1, pos1, cmd, rest, future);
        var (c2, pos2) := TakeArg(c1, pos1);
        if c2.multibulklen != 0 { ArgsProgress(c2, pos2, cmd, rest, future); }
      }
    }
  }

  /** After a call of processMultibulkBuffer: the command is complete, or the rest of it is expected. */
  ghost predicate Advanced(c: Client, r: (Client, bool), cmds: seq<seq<bytes>>, future: bytes) {
    var (c', ok) := r;
    && cmds != []
    && if ok then
         && c'.argv == StoredArgs(cmds[0]) && c'.room == |cmds[0]|
         && c'.multibulklen == 0 && c'.bulklen == -1 && c'.reqtype == MULTIBULK
         && Expects(Reset(c'), cmds[1..], future) && Fits(Reset(c'), 0)
       else Expects(c', cmds, future) && |future| > |Wires(cmds[1..])| && Idle(c', 0)
  }

  lemma ArgumentsProgress(c: Client, pos: nat, cmds: seq<seq<bytes>>, future: bytes)
    requires cmds != [] && Mid(c, pos, cmds[0], Wires(cmds[1..]), future)
    ensures Advanced(c, Arguments(c, pos), cmds, future)
  {
    ArgsProgress(c, pos, cmds[0], Wires(cmds[1..]), future);
    hide ReadArgs, Wires, Owed, Sendable, StoredArgs;
    var (c1, pos1, abort) := ReadArgs(c, pos);
    TrimCuts(c1, pos1);
    if c1.multibulklen != 0 { OwedTrim(c1, pos1, cmds[0]); }
  }

  lemma TrimCuts(c: Client, pos: nat)
    requires pos <= |c.buf|
    ensures Trim(c, pos) == c.(buf := c.buf[pos..])
    ensures Sds.Slice(c.buf, pos, -1) == c.buf[pos..]
  {
  }

  lemma OwedTrim(c: Client, pos: nat, cmd: seq<bytes>)
    requires Reading(c, cmd)
    ensures Reading(Trim(c, pos), cmd) && Owed(Trim(c, pos), cmd) == Owed(c, cmd)
  {
    hide BulkTexts, Sds.Slice;
  }

  /** The header of a command, or a part of it, in the buffer. */
  lemma HeaderLine(c: Client, cmd: seq<bytes>, rest: bytes, future: bytes)
    requires c.multibulklen == 0 && c.bulklen == -1 && c.argv == [] && Sendable(cmd)
    requires c.buf + future == [STAR] + Decimal(|cmd|) + CRLF + rest
    ensures var end := 1 + |Decimal(|cmd|)|;
      if end + 2 <= |c.buf| then
        && ProcessMultibulk(c) == Arguments(c.(multibulklen := |cmd|, room := |cmd|), end + 2)
        && c.buf[end + 2..] + future == rest
      else ProcessMultibulk(c) == (c, false) && |future| > |rest| && |c.buf| <= IOBUF
  {
    hide Arguments, FindCr, ParseLL, Decimal;
    var n := |cmd|;
    assert c.buf[0..] == c.buf;
    NumberLineIn(c.buf, 0, future, STAR, n, rest);
    DecimalFits(n, 7);
    ParseInvertsText(Decimal(n), n);
  }

  lemma HeaderProgress(c: Client, cmds: seq<seq<bytes>>, future: bytes)
    requires Expects(c, cmds, future) && c.multibulklen == 0 && c.reqtype == MULTIBULK
    requires cmds != [] && Sendable(cmds[0]) && Fits(c, 0)
    ensures Advanced(c, ProcessMultibulk(c), cmds, future)
  {
    hide ProcessMultibulk, Arguments, Wires, BulkTexts, Decimal, Sendable, Expects, Advanced, Fits, Mid;
    var cmd, rest := cmds[0], Wires(cmds[1..]);
    HeaderExpected(c, cmds, future);
    HeaderLine(c, cmd, BulkTexts(cmd) + rest, future);
    var end := 1 + |Decimal(|cmd|)| + 2;
    if end <= |c.buf| {
      BeginsCommand(c, end, cmd, rest, future);
      ArgumentsProgress(c.(multibulklen := |cmd|, room := |cmd|), end, cmds, future);
      HeaderAdvances(c, ProcessMultibulk(c), cmds, future);
    } else {
      HeaderWaits(c, cmds, future);
    }
  }

  lemma HeaderExpected(c: Client, cmds: seq<seq<bytes>>, future: bytes)
    requires Expects(c, cmds, future) && c.multibulklen == 0 && cmds != []
    ensures !c.failed && c.argv == [] && c.bulklen == -1
    ensures c.buf + future == [STAR] + Decimal(|cmds[0]|) + CRLF + (BulkTexts(cmds[0]) + Wires(cmds[1..]))
  {
    assert Wires(cmds) == [STAR] + Decimal(|cmds[0]|) + CRLF + (BulkTexts(cmds[0]) + Wires(cmds[1..]));
  }

  lemma HeaderAdvances(c: Client, r: (Client, bool), cmds: seq<seq<bytes>>, future: bytes)
    requires cmds != [] && Advanced(c.(multibulklen := |cmds[0]|, room := |cmds[0]|), r, cmds, future)
    ensures Advanced(c, r, cmds, future)
  {
    hide Expects, Fits, Idle, StoredArgs;
  }

  lemma HeaderWaits(c: Client, cmds: seq<seq<bytes>>, future: bytes)
    requires cmds != [] && Expects(c, cmds, future) && c.bulklen == -1 && |c.buf| <= IOBUF
    requires |future| > |BulkTexts(cmds[0]) + Wires(cmds[1..])|
    ensures Advanced(c, (c, false), cmds, future)
  {
    hide Expects;
  }

  /** The state behind the header is at the beginning of the command. */
  lemma BeginsCommand(c: Client, pos: nat, cmd: seq<bytes>, rest: bytes, future: bytes)
    requires !c.failed && c.multibulklen == 0 && c.bulklen == -1 && c.argv == [] && c.reqtype == MULTIBULK
    requires Sendable(cmd) && Fits(c, 0) && pos <= |c.buf| && c.buf[pos..] + future == BulkTexts(cmd) + rest
    ensures Mid(c.(multibulklen := |cmd|, room := |cmd|), pos, cmd, rest, future)
  {
    hide BulkTexts;
    assert cmd[0..] == cmd && cmd[..0] == [] && StoredArgs([]) == [];
  }

  // ---------- Many commands ----------

  ghost predicate AllSendable(cmds: seq<seq<bytes>>) { forall i :: 0 <= i < |cmds| ==> Sendable(cmds[i]) }

  ghost predicate AllProper(cmds: seq<seq<bytes>>) { forall i :: 0 <= i < |cmds| ==> Proper(cmds[i]) }

  predicate QuitsAt(cmds: seq<seq<bytes>>, i: int) { 0 <= i < |cmds| && cmds[i] != [] && IsQuit(cmds[i][0]) }

  /** The request type of an expected command is found to be multibulk. */
  lemma ClassifyKeeps(c: Client, cmds: seq<seq<bytes>>, future: bytes)
    requires Expects(c, cmds, future) && c.buf != [] && Fits(c, 0)
    ensures var c1 := Classify(c);
      && cmds != [] && c1.reqtype == MULTIBULK && c1.buf == c.buf && Expects(c1, cmds, future) && Fits(c1, 0)
  {
    if c.multibulklen == 0 {
      assert (c.buf + future)[0] == c.buf[0];
      if cmds != [] { assert Wires(cmds)[0] == STAR; }
    }
  }

  /** One turn of the loop of processInputBuffer. */
  lemma TurnProgress(c: Client, cmds: seq<seq<bytes>>, future: bytes)
    requires Expects(c, cmds, future) && AllSendable(cmds) && c.buf != [] && Fits(c, 0)
    ensures Classify(c).reqtype == MULTIBULK && Classify(c).buf == c.buf
    ensures Advanced(c, ProcessMultibulk(Classify(c)), cmds, future)
  {
    ClassifyKeeps(c, cmds, future);
    var c1 := Classify(c);
    assert Sendable(cmds[0]);
    if c1.multibulklen == 0 {
      HeaderProgress(c1, cmds, future);
    } else {
      assert c1.buf[0..] == c1.buf;
      assert Mid(c1, 0, cmds[0], Wires(cmds[1..]), future);
      ArgumentsProgress(c1, 0, cmds, future);
    }
  }

  /** After quit the argument list is not empty; the next byte fails the assertion that it is. */
  ghost predicate Stuck(c: Client) {
    && c.argv != [] && |c.argv| <= c.room && c.multibulklen == 0 && c.bulklen == -1 && c.reqtype == MULTIBULK
    && (c.failed || c.buf == [])
  }

  /**
    The commands seen are the first ones, up to quit, that have come in whole; behind quit the client
    fails on the next byte, and otherwise it expects the rest of the commands.
   */
  ghost predicate Seen(r: (Client, seq<seq<bytes>>), cmds: seq<seq<bytes>>, future: bytes) {
    var (c', seen) := r; var k := |seen|;
    && k <= |cmds| && seen == StoredAll(cmds[..k]) && (forall i :: 0 <= i < k - 1 ==> !QuitsAt(cmds, i))
    && |future| <= |Wires(cmds[k..])|
    && if QuitsAt(cmds, k - 1) then Stuck(c') && (c'.failed <==> |future| < |Wires(cmds[k..])|)
       else
         && Expects(c', cmds[k..], future) && Idle(c', 0)
         && if k < |cmds| then |future| > |Wires(cmds[k + 1..])| else future == []
  }

  /** What is owed of a command is a part of it. */
  lemma OwedShort(c: Client, cmd: seq<bytes>)
    requires Reading(c, cmd)
    ensures 0 < |Owed(c, cmd)| <= |Wire(cmd)|
  {
    var j := |cmd| - c.multibulklen;
    FirstBulk(cmd, j);
    BulksShrink(cmd, j);
  }

  lemma {:induction false} BulksShrink(cmd: seq<bytes>, j: nat)
    requires j <= |cmd|
    ensures |BulkTexts(cmd[j..])| <= |BulkTexts(cmd)|
  {
    if j == 0 {
      assert cmd[0..] == cmd;
    } else {
      assert cmd[1..][j - 1..] == cmd[j..];
      BulksShrink(cmd[1..], j - 1);
    }
  }

  lemma NothingLeft(c: Client, cmds: seq<seq<bytes>>, future: bytes)
    requires Expects(c, cmds, future) && c.buf == [] && Fits(c, 0)
    ensures Seen((c, []), cmds, future)
  {
    assert [] + future == future && cmds[0..] == cmds && StoredAll(cmds[..0]) == [];
    if cmds != [] && c.multibulklen == 0 { assert |Wire(cmds[0])| > 0; }
    if c.multibulklen != 0 { OwedShort(c, cmds[0]); }
  }

  lemma NotComplete(c: Client, cmds: seq<seq<bytes>>, future: bytes)
    requires cmds != [] && Expects(c, cmds, future) && |future| > |Wires(cmds[1..])| && Idle(c, 0)
    ensures Seen((c, []), cmds, future)
  {
    assert cmds[0..] == cmds && StoredAll(cmds[..0]) == [];
    if c.multibulklen != 0 { OwedShort(c, cmds[0]); }
  }

  /** Commands seen first, and then the ones seen of the rest. */
  lemma SeenAppend(k: nat, r: (Client, seq<seq<bytes>>), cmds: seq<seq<bytes>>, future: bytes)
    requires k <= |cmds| && (forall i :: 0 <= i < k ==> !QuitsAt(cmds, i)) && Seen(r, cmds[k..], future)
    ensures Seen((r.0, StoredAll(cmds[..k]) + r.1), cmds, future)
  {
    hide Expects, Stuck, Idle, QuitsAt, Wires, StoredArgs;
    var n := |r.1|;
    assert cmds[k..][n..] == cmds[k + n..];
    if n < |cmds[k..]| { assert cmds[k..][n + 1..] == cmds[k + n + 1..]; }
    StoredAppend(cmds, k, n);
    QuitsLater(cmds, k);
    forall i | 0 <= i < k + n - 1 ensures !QuitsAt(cmds, i) { if i >= k { assert !QuitsAt(cmds[k..], i - k); } }
    if n == 0 && k > 0 { assert !QuitsAt(cmds, k - 1) && !QuitsAt(cmds[k..], -1); }
  }

  lemma StoredAppend(cmds: seq<seq<bytes>>, k: nat, n: nat)
    requires k + n <= |cmds|
    ensures StoredAll(cmds[..k + n]) == StoredAll(cmds[..k]) + StoredAll(cmds[k..][..n])
  {
    assert cmds[..k + n] == cmds[..k] + cmds[k..][..n];
  }

  lemma QuitsLater(cmds: seq<seq<bytes>>, k: nat)
    requires k <= |cmds|
    ensures forall i :: -1 <= i < |cmds| - k && (i >= 0 || k == 0) ==> QuitsAt(cmds[k..], i) == QuitsAt(cmds, i + k)
    ensures !QuitsAt(cmds[k..], -1)
  {
    hide IsQuit;
  }

  lemma SeenNext(r: (Client, seq<seq<bytes>>), cmds: seq<seq<bytes>>, future: bytes)
    requires cmds != [] && !QuitsAt(cmds, 0) && Seen(r, cmds[1..], future)
    ensures Seen((r.0, [StoredArgs(cmds[0])] + r.1), cmds, future)
  {
    hide Seen, QuitsAt;
    assert StoredAll(cmds[..1]) == [StoredArgs(cmds[0])];
    SeenAppend(1, r, cmds, future);
  }

  /** What happens behind quit. */
  lemma QuitStops(c: Client, cmds: seq<seq<bytes>>, future: bytes)
    requires QuitsAt(cmds, 0) && c.argv == StoredArgs(cmds[0]) && c.room == |cmds[0]| && !c.failed
    requires c.multibulklen == 0 && c.bulklen == -1 && c.reqtype == MULTIBULK && c.buf + future == Wires(cmds[1..])
    ensures Seen((ProcessInput(c).0, [c.argv] + ProcessInput(c).1), cmds, future)
  {
    hide Wires, IsQuit;
    assert cmds[..1] == [cmds[0]] && StoredAll(cmds[..1]) == [StoredArgs(cmds[0])];
    assert ProcessInput(c) == (if c.buf == [] then c else c.(failed := true), []);
    assert [c.argv] + [] == [c.argv];
  }

  /** processInputBuffer executes the commands that are complete. */
  lemma {:induction false} InputProgress(c: Client, cmds: seq<seq<bytes>>, future: bytes)
    requires Expects(c, cmds, future) && AllSendable(cmds) && Fits(c, 0)
    ensures Seen(ProcessInput(c), cmds, future)
    decreases |c.buf|
  {
    hide Expects, Sendable, ProcessMultibulk, Classify, Fits, StoredArgs, Seen;
    if c.buf == [] {
      NothingLeft(c, cmds, future);
    } else {
      TurnProgress(c, cmds, future);
      NotFailed(c, cmds, future);
      var (c2, ok) := ProcessMultibulk(Classify(c));
      if ok {
        ExpectsBuffer(Reset(c2), cmds[1..], future);
        assert cmds[0] != [] && IsQuit(c2.argv[0]) == IsQuit(cmds[0][0]) by {
          assert Sendable(cmds[0]);
          SendableStarts(cmds[0]);
        }
        if QuitsAt(cmds, 0) {
          QuitStops(c2, cmds, future);
        } else {
          InputProgress(Reset(c2), cmds[1..], future);
          SeenNext(ProcessInput(Reset(c2)), cmds, future);
        }
      } else {
        NotComplete(c2, cmds, future);
      }
    }
  }

  lemma SendableStarts(cmd: seq<bytes>)
    requires Sendable(cmd)
    ensures cmd != [] && IsQuit(StoredArgs(cmd)[0]) == IsQuit(cmd[0])
  {
    StoredQuit(cmd[0]);
  }

  lemma NotFailed(c: Client, cmds: seq<seq<bytes>>, future: bytes)
    requires Expects(c, cmds, future)
    ensures !c.failed
  {
  }

  lemma ExpectsBuffer(c: Client, cmds: seq<seq<bytes>>, future: bytes)
    requires Expects(c, cmds, future) && c.multibulklen == 0
    ensures !c.failed && c.buf + future == Wires(cmds)
  {
  }

  // ---------- Many reads ----------

  lemma ReceiveProgress(c: Client, data: bytes, cmds: seq<seq<bytes>>, future: bytes)
    requires Expects(c, cmds, data + future) && AllSendable(cmds) && Idle(c, 0) && |data| <= ReadLimit(c)
    ensures Seen(Receive(c, data), cmds, future)
  {
    hide Seen, Sendable, BulkTexts, StoredArgs;
    assert c.buf + (data + future) == (c.buf + data) + future;
    assert c.multibulklen != 0 ==> Owed(c.(buf := c.buf + data), cmds[0]) == Owed(c, cmds[0]);
    InputProgress(c.(buf := c.buf + data), cmds, future);
  }

  lemma {:induction false} StuckReceives(c: Client, chunks: seq<bytes>)
    requires Stuck(c)
    ensures var (c', seen) := ReceiveAll(c, chunks);
      seen == [] && Stuck(c') && (c'.failed <==> c.failed || Concat(chunks) != [])
    decreases |chunks|
  {
    if chunks != [] {
      var (c1, seen) := Receive(c, chunks[0]);
      assert seen == [] && Stuck(c1) && (c1.failed <==> c.failed || chunks[0] != []);
      StuckReceives(c1, chunks[1..]);
    }
  }

  lemma SeenStuck(r: (Client, seq<seq<bytes>>), rest: bytes, cmds: seq<seq<bytes>>, future: bytes, c: Client)
    requires Seen(r, cmds, rest + future) && QuitsAt(cmds, |r.1| - 1)
    requires Stuck(c) && (c.failed <==> r.0.failed || rest != [])
    ensures Seen((c, r.1), cmds, future)
  {
    hide Wires, IsQuit, StoredAll;
  }

  /** After a quit nothing more is seen. */
  lemma SeenAfterQuit(c: Client, chunks: seq<bytes>, cmds: seq<seq<bytes>>, future: bytes)
    requires chunks != [] && Seen(Receive(c, chunks[0]), cmds, Concat(chunks[1..]) + future)
    requires QuitsAt(cmds, |Receive(c, chunks[0]).1| - 1)
    ensures Seen(ReceiveAll(c, chunks), cmds, future)
  {
    hide Seen, Stuck, Receive, StoredAll, IsQuit;
    var (c1, seen) := Receive(c, chunks[0]);
    SeenIsStuck((c1, seen), cmds, Concat(chunks[1..]) + future);
    StuckReceives(c1, chunks[1..]);
    assert seen + [] == seen;
    SeenStuck((c1, seen), Concat(chunks[1..]), cmds, future, ReceiveAll(c1, chunks[1..]).0);
  }

  lemma SeenIsStuck(r: (Client, seq<seq<bytes>>), cmds: seq<seq<bytes>>, future: bytes)
    requires Seen(r, cmds, future) && QuitsAt(cmds, |r.1| - 1)
    ensures Stuck(r.0)
  {
    hide Wires, IsQuit, StoredAll, Stuck;
  }

  lemma {:induction false} ReceiveAllProgress(c: Client, chunks: seq<bytes>, cmds: seq<seq<bytes>>, future: bytes)
    requires Expects(c, cmds, Concat(chunks) + future) && AllSendable(cmds) && Idle(c, 0) && Within(c, chunks)
    requires chunks == [] ==> Seen((c, []), cmds, future)
    ensures Seen(ReceiveAll(c, chunks), cmds, future)
    decreases |chunks|
  {
    hide Expects, Sendable, Receive, Stuck, Idle, StoredAll, IsQuit, ReadLimit;
    if chunks != [] {
      var data, rest := chunks[0], Concat(chunks[1..]);
      var later := rest + future;
      assert Concat(chunks) + future == data + later;
      ReceiveProgress(c, data, cmds, later);
      var (c1, seen) := Receive(c, data);
      var (c2, more) := ReceiveAll(c1, chunks[1..]);
      var k := |seen|;
      if QuitsAt(cmds, k - 1) {
        SeenAfterQuit(c, chunks, cmds, future);
      } else {
        var left := cmds[k..];
        assert AllSendable(left) by { assert forall i :: 0 <= i < |left| ==> left[i] == cmds[i + k]; }
        if chunks[1..] == [] {
          assert later == future;
          NoneSeen(c1, k, cmds, future);
        }
        ReceiveAllProgress(c1, chunks[1..], left, future);
        SeenAppend(k, (c2, more), cmds, future);
      }
    }
  }

  lemma NoneSeen(c: Client, k: nat, cmds: seq<seq<bytes>>, future: bytes)
    requires k <= |cmds| && Expects(c, cmds[k..], future) && Idle(c, 0) && |future| <= |Wires(cmds[k..])|
    requires if k < |cmds| then |future| > |Wires(cmds[k + 1..])| else future == []
    ensures Seen((c, []), cmds[k..], future)
  {
    hide Expects, Idle, Wires, IsQuit;
    assert cmds[k..][0..] == cmds[k..] && StoredAll(cmds[k..][..0]) == [];
    if k < |cmds| { assert cmds[k..][1..] == cmds[k + 1..]; }
  }

  lemma NewSees(cmds: seq<seq<bytes>>, chunks: seq<bytes>, missing: bytes)
    requires AllSendable(cmds) && Concat(chunks) + missing == Wires(cmds) && Within(NewClient(), chunks)
    ensures Seen(ReceiveAll(NewClient(), chunks), cmds, missing)
  {
    NewExpects(cmds);
    if chunks == [] {
      assert [] + missing == missing;
      NothingLeft(NewClient(), cmds, missing);
    }
    ReceiveAllProgress(NewClient(), chunks, cmds, missing);
  }

  lemma NewExpects(cmds: seq<seq<bytes>>)
    ensures Expects(NewClient(), cmds, Wires(cmds)) && Idle(NewClient(), 0)
  {
    assert [] + Wires(cmds) == Wires(cmds);
  }

  lemma {:induction false} WiresSplit(cmds: seq<seq<bytes>>, k: nat)
    requires k <= |cmds|
    ensures |Wires(cmds)| == |Wires(cmds[..k])| + |Wires(cmds[k..])|
  {
    if k == 0 {
      assert cmds[0..] == cmds;
    } else {
      assert cmds[..k][0] == cmds[0] && cmds[..k][1..] == cmds[1..][..k - 1] && cmds[1..][k - 1..] == cmds[k..];
      WiresSplit(cmds[1..], k - 1);
    }
  }

  lemma WiresGrow(cmds: seq<seq<bytes>>, i: nat, k: nat)
    requires i <= k <= |cmds|
    ensures |Wires(cmds[..i])| <= |Wires(cmds[..k])|
  {
    WiresSplit(cmds[..k], i);
    assert cmds[..k][..i] == cmds[..i];
  }

  // ---------- What the server sees ----------

  /** The command has come in whole in the first `n` bytes. */
  predicate Arrived(cmds: seq<seq<bytes>>, n: nat, i: nat)
    requires i < |cmds|
  {
    |Wires(cmds[..i + 1])| <= n
  }

  ghost predicate NoQuitBefore(cmds: seq<seq<bytes>>, i: nat) { forall h :: 0 <= h < i ==> !QuitsAt(cmds, h) }

  /**
    What processCommand gets, for any commands of 1 to 1048576 arguments of at most 512 MB and any
    cutting of their wire form into reads: the argument vector of each command whose bytes have all
    come, in order, up to the first quit, with the line end left on each argument of 32 KB and more.
    The assertion on the argument list fails exactly when a byte comes behind a quit.
   */
  lemma ParserSeesCommands(cmds: seq<seq<bytes>>, chunks: seq<bytes>, missing: bytes)
    requires AllSendable(cmds) && Concat(chunks) + missing == Wires(cmds) && Within(NewClient(), chunks)
    ensures var (c, seen) := ReceiveAll(NewClient(), chunks); var n := |Concat(chunks)|;
      && |c.argv| <= c.room && |seen| <= |cmds| && seen == StoredAll(cmds[..|seen|])
      && (forall i :: 0 <= i < |cmds| ==> (i < |seen| <==> Arrived(cmds, n, i) && NoQuitBefore(cmds, i)))
      && (c.failed <==> exists i :: 0 <= i < |cmds| && QuitsAt(cmds, i) && |Wires(cmds[..i + 1])| < n)
  {
    NewSees(cmds, chunks, missing);
    assert |Concat(chunks)| == |Wires(cmds)| - |missing|;
    hide IsQuit, StoredAll, ReceiveAll, Within, Seen, Wires, Arrived, NoQuitBefore, QuitsAt, Wire;
    var (c, seen) := ReceiveAll(NewClient(), chunks);
    AtRest(c, seen, cmds, missing);
    SeenArrived(c, seen, cmds, missing);
  }

  lemma SeenArrived(c: Client, seen: seq<seq<bytes>>, cmds: seq<seq<bytes>>, future: bytes)
    requires Seen((c, seen), cmds, future) && |future| <= |Wires(cmds)|
    ensures var n := |Wires(cmds)| - |future|;
      && |seen| <= |cmds| && seen == StoredAll(cmds[..|seen|])
      && (forall i :: 0 <= i < |cmds| ==> (i < |seen| <==> Arrived(cmds, n, i) && NoQuitBefore(cmds, i)))
      && (c.failed <==> exists i :: 0 <= i < |cmds| && QuitsAt(cmds, i) && |Wires(cmds[..i + 1])| < n)
  {
    hide Wires, IsQuit, StoredAll, Idle, Expects, Stuck;
    var n, k := |Wires(cmds)| - |future|, |seen|;
    if !QuitsAt(cmds, k - 1) { AtRest(c, seen, cmds, future); }
    WiresSplit(cmds, k);
    if k < |cmds| { WiresSplit(cmds, k + 1); }
    forall i | 0 <= i < |cmds|
      ensures i < k <==> Arrived(cmds, n, i) && NoQuitBefore(cmds, i)
      ensures QuitsAt(cmds, i) && |Wires(cmds[..i + 1])| < n ==> c.failed
    {
      if i < k { WiresGrow(cmds, i + 1, k); } else { WiresGrow(cmds, k + 1, i + 1); WiresGrow(cmds, k, i + 1); }
    }
    if c.failed { assert QuitsAt(cmds, k - 1) && |Wires(cmds[..k - 1 + 1])| < n; }
  }

  lemma AtRest(c: Client, seen: seq<seq<bytes>>, cmds: seq<seq<bytes>>, future: bytes)
    requires Seen((c, seen), cmds, future)
    ensures |c.argv| <= c.room
    ensures !QuitsAt(cmds, |seen| - 1) ==> !c.failed
    ensures !QuitsAt(cmds, |seen| - 1) && |seen| == |cmds| ==> c == NewClient().(room := c.room)
  {
  }

  /** The number of commands up to the first quit. */
  function Served(cmds: seq<seq<bytes>>): (n: nat)
    ensures n <= |cmds|
  {
    if cmds == [] then 0 else if QuitsAt(cmds, 0) then 1 else 1 + Served(cmds[1..])
  }

  lemma {:induction false} ServedIs(cmds: seq<seq<bytes>>, i: nat)
    requires i < |cmds|
    ensures i < Served(cmds) <==> NoQuitBefore(cmds, i)
  {
    hide IsQuit;
    if i > 0 {
      var rest := cmds[1..];
      ServedIs(rest, i - 1);
      assert forall h :: 0 <= h < |rest| ==> QuitsAt(rest, h) == QuitsAt(cmds, h + 1);
      if NoQuitBefore(rest, i - 1) && !QuitsAt(cmds, 0) {
        forall h | 0 <= h < i ensures !QuitsAt(cmds, h) { if h > 0 { assert !QuitsAt(rest, h - 1); } }
      }
    }
  }

  /**
    quit is not followed by a reset.  When all bytes have come, the commands up to the first quit
    have been seen, and the server has failed its assertion if and only if a command stands behind
    a quit.
   */
  lemma QuitFailsNext(cmds: seq<seq<bytes>>, chunks: seq<bytes>)
    requires AllSendable(cmds) && Concat(chunks) == Wires(cmds) && Within(NewClient(), chunks)
    ensures var (c, seen) := ReceiveAll(NewClient(), chunks);
      && seen == StoredAll(cmds[..Served(cmds)])
      && (c.failed <==> exists i :: 0 <= i < |cmds| - 1 && IsQuit(cmds[i][0]))
  {
    hide IsQuit, StoredAll, ReceiveAll, Within, Wires;
    assert Concat(chunks) + [] == Wires(cmds);
    ParserSeesCommands(cmds, chunks, []);
    var (c, seen) := ReceiveAll(NewClient(), chunks);
    assert |seen| == Served(cmds) by {
      var i, j := |seen|, Served(cmds);
      if i < |cmds| { AllArrived(cmds, i); ServedIs(cmds, i); }
      if j < |cmds| { AllArrived(cmds, j); ServedIs(cmds, j); }
    }
    forall i | 0 <= i < |cmds|
      ensures |Wires(cmds[..i + 1])| < |Wires(cmds)| <==> i < |cmds| - 1
      ensures QuitsAt(cmds, i) == IsQuit(cmds[i][0])
    {
      AllArrived(cmds, i);
    }
    if c.failed {
      var i :| 0 <= i < |cmds| && QuitsAt(cmds, i) && |Wires(cmds[..i + 1])| < |Wires(cmds)|;
      assert IsQuit(cmds[i][0]);
    }
  }

  lemma AllArrived(cmds: seq<seq<bytes>>, i: nat)
    requires i < |cmds| && AllSendable(cmds)
    ensures Arrived(cmds, |Wires(cmds)|, i) && QuitsAt(cmds, i) == IsQuit(cmds[i][0])
    ensures |Wires(cmds[..i + 1])| < |Wires(cmds)| <==> i < |cmds| - 1
  {
    hide Wires, IsQuit;
    assert Sendable(cmds[i]);
    WiresSplit(cmds, i + 1);
    WireNotEmpty(cmds[i + 1..]);
  }

  lemma WireNotEmpty(cmds: seq<seq<bytes>>)
    ensures |Wires(cmds)| > 0 <==> cmds != []
  {
  }

  /**
    An argument vector is seen as it was sent if and only if its arguments are below the big-argument
    limit: a big one keeps its CR LF, for the reads are cut so that it ends up alone in the buffer.
   */
  lemma ArgumentIsExact(cmds: seq<seq<bytes>>, chunks: seq<bytes>, i: nat)
    requires AllSendable(cmds) && Concat(chunks) == Wires(cmds) && Within(NewClient(), chunks)
    requires i < |cmds| && NoQuitBefore(cmds, i)
    ensures var seen := ReceiveAll(NewClient(), chunks).1;
      i < |seen| && (seen[i] == cmds[i] <==> forall j :: 0 <= j < |cmds[i]| ==> |cmds[i][j]| < 32768)
  {
    hide IsQuit, ReceiveAll, Within, Wires;
    QuitFailsNext(cmds, chunks);
    ServedIs(cmds, i);
    StoredExact(cmds[i]);
  }

  lemma StoredExact(cmd: seq<bytes>)
    ensures StoredArgs(cmd) == cmd <==> forall j :: 0 <= j < |cmd| ==> |cmd[j]| < BIG_ARG
  {
    forall j | 0 <= j < |cmd| ensures Stored(cmd[j]) == cmd[j] <==> |cmd[j]| < BIG_ARG {
      if |cmd[j]| >= BIG_ARG { assert |Stored(cmd[j])| == |cmd[j]| + 2; }
    }
  }

  // ---------- Which reads there are ----------

  lemma {:induction false} SmallWithin(c: Client, chunks: seq<bytes>, cmds: seq<seq<bytes>>, future: bytes)
    requires Expects(c, cmds, Concat(chunks) + future) && AllProper(cmds) && Idle(c, 0)
    requires forall i :: 0 <= i < |chunks| ==> |chunks[i]| <= 16384
    ensures Within(c, chunks)
    decreases |chunks|
  {
    hide Proper, Expects, Receive, Idle, IsQuit, StoredAll;
    if chunks != [] {
      var data, later := chunks[0], Concat(chunks[1..]) + future;
      assert Concat(chunks) + future == data + later;
      SmallLimit(c, cmds, data + later);
      ProperSends(cmds);
      ReceiveProgress(c, data, cmds, later);
      var (c1, seen) := Receive(c, data);
      var k := |seen|;
      if k > 0 { assert Proper(cmds[k - 1]); ProperStarts(cmds[k - 1]); }
      assert AllProper(cmds[k..]) by { assert forall i :: 0 <= i < |cmds| - k ==> cmds[k..][i] == cmds[i + k]; }
      SmallWithin(c1, chunks[1..], cmds[k..], future);
    }
  }

  lemma ProperStarts(cmd: seq<bytes>)
    requires Proper(cmd)
    ensures cmd != [] && !IsQuit(cmd[0])
  {
  }

  lemma ProperSends(cmds: seq<seq<bytes>>)
    requires AllProper(cmds)
    ensures AllSendable(cmds)
  {
    forall i | 0 <= i < |cmds| ensures Sendable(cmds[i]) { assert Proper(cmds[i]); }
  }

  lemma SmallLimit(c: Client, cmds: seq<seq<bytes>>, future: bytes)
    requires Expects(c, cmds, future) && AllProper(cmds)
    ensures ReadLimit(c) == IOBUF
  {
    if c.multibulklen != 0 { assert Proper(cmds[0]); }
  }

  /**
    The server sees the commands that the client formatted: for any commands of 1 to 1048576
    arguments below the big-argument limit, without quit, and any cutting of their wire form into
    reads of at most 16 KB, processCommand gets exactly their argument vectors, in order; each as
    soon as its last byte has come.  No assertion fails, and the parser never gives up on a command:
    when all bytes have come, it is back in its first state.
   */
  lemma ParserInvertsFormatter(cmds: seq<seq<bytes>>, chunks: seq<bytes>, missing: bytes)
    requires AllProper(cmds) && Concat(chunks) + missing == Wires(cmds)
    requires forall i :: 0 <= i < |chunks| ==> |chunks[i]| <= 16384
    ensures var (c, seen) := ReceiveAll(NewClient(), chunks);
      && !c.failed && |c.argv| <= c.room && |seen| <= |cmds| && seen == cmds[..|seen|]
      && (forall i :: 0 <= i < |cmds| ==> (i < |seen| <==> Arrived(cmds, |Concat(chunks)|, i)))
      && (missing == [] ==> seen == cmds && c == NewClient().(room := c.room))
  {
    NewExpects(cmds);
    hide Expects, Proper, ReceiveAll, Wires, IsQuit;
    SmallWithin(NewClient(), chunks, cmds, missing);
    ProperSends(cmds);
    ParserSeesCommands(cmds, chunks, missing);
    NewSees(cmds, chunks, missing);
    var (c, seen) := ReceiveAll(NewClient(), chunks);
    forall i | 0 <= i < |cmds| ensures StoredArgs(cmds[i]) == cmds[i] && !QuitsAt(cmds, i) {
      assert Proper(cmds[i]);
      ProperStores(cmds[i]);
    }
    if missing == [] {
      assert Concat(chunks) + [] == Concat(chunks);
      if cmds != [] { assert cmds[..|cmds| - 1 + 1] == cmds && Arrived(cmds, |Concat(chunks)|, |cmds| - 1); }
    }
    AtRest(c, seen, cmds, missing);
  }

  lemma ProperStores(cmd: seq<bytes>)
    requires Proper(cmd)
    ensures cmd != [] && StoredArgs(cmd) == cmd && !IsQuit(cmd[0])
  {
    StoredExact(cmd);
  }

  function Singles(s: bytes): (r: seq<bytes>)
    ensures |r| == |s| && forall i :: 0 <= i < |s| ==> r[i] == [s[i]]
  {
    seq(|s|, i requires 0 <= i < |s| => [s[i]])
  }

  lemma {:induction false} SinglesConcat(s: bytes)
    ensures Concat(Singles(s)) == s
  {
    if s != [] {
      assert Singles(s)[1..] == Singles(s[1..]);
      SinglesConcat(s[1..]);
    }
  }

  lemma {:induction false} StuckWithin(c: Client, s: bytes)
    requires Stuck(c)
    ensures Within(c, Singles(s))
    decreases |s|
  {
    if s != [] {
      assert Singles(s)[1..] == Singles(s[1..]);
      StuckWithin(Receive(c, [s[0]]).0, s[1..]);
    }
  }

  lemma {:induction false} SinglesWithin(c: Client, s: bytes, cmds: seq<seq<bytes>>, future: bytes)
    requires Expects(c, cmds, s + future) && AllSendable(cmds) && Idle(c, 0)
    ensures Within(c, Singles(s))
    decreases |s|
  {
    hide Sendable, Expects, Receive, IsQuit, StoredAll, Stuck;
    if s != [] {
      assert Singles(s)[1..] == Singles(s[1..]);
      var data, later := [s[0]], s[1..] + future;
      assert s + future == data + later;
      OneByteFits(c);
      ReceiveProgress(c, data, cmds, later);
      var (c1, seen) := Receive(c, data);
      var k := |seen|;
      if QuitsAt(cmds, k - 1) {
        StuckWithin(c1, s[1..]);
      } else {
        assert AllSendable(cmds[k..]) by { assert forall i :: 0 <= i < |cmds| - k ==> cmds[k..][i] == cmds[i + k]; }
        SinglesWithin(c1, s[1..], cmds[k..], future);
      }
    }
  }

  lemma OneByteFits(c: Client)
    requires Idle(c, 0)
    ensures ReadLimit(c) >= 1
  {
  }

  /** The bytes of any commands can be read: the server never asks for none while it waits for more. */
  lemma BytesCanBeRead(cmds: seq<seq<bytes>>)
    requires AllSendable(cmds)
    ensures Within(NewClient(), Singles(Wires(cmds))) && Concat(Singles(Wires(cmds))) == Wires(cmds)
  {
    NewExpects(cmds);
    assert Wires(cmds) + [] == Wires(cmds);
    SinglesWithin(NewClient(), Wires(cmds), cmds, []);
    SinglesConcat(Wires(cmds));
  }

  // ---------- Where the property ends ----------

  lemma OneArgument(arg: bytes)
    requires |arg| == 4
    ensures Wire([arg]) == [42, 49] + CRLF + [36, 52] + CRLF + arg + CRLF
  {
    assert [arg][1..] == [];
    assert Decimal(1) == [49] && Decimal(4) == [52];
    assert BulkTexts([arg]) == BulkText(arg) + [];
  }

  lemma QuitIsQuit()
    ensures IsQuit(Ascii("quit"))
  {
    var quit := Ascii("quit");
    assert quit == [113, 117, 105, 116];
    CStringEnds(quit, []);
    assert quit + [] == quit && CString([]) == [];
  }

  lemma QuitWire()
    ensures Wire([Ascii("quit")]) == Ascii("*1\r\n$4\r\nquit\r\n")
  {
    OneArgument(Ascii("quit"));
    hide Wire;
  }

  lemma PingWire()
    ensures Wire([Ascii("ping")]) == Ascii("*1\r\n$4\r\nping\r\n")
  {
    OneArgument(Ascii("ping"));
    hide Wire;
  }

  /** quit and ping in one read: the server fails its assertion, and ping is not seen. */
  lemma QuitExample()
    ensures var (c, seen) := ReceiveAll(NewClient(), [Ascii("*1\r\n$4\r\nquit\r\n") + Ascii("*1\r\n$4\r\nping\r\n")]);
            c.failed && seen == [[Ascii("quit")]]
  {
    hide Wire, Ascii, IsQuit, ReceiveAll;
    QuitIsQuit();
    QuitWire();
    PingWire();
    QuitThenPing(Ascii("quit"), Ascii("ping"), [Ascii("*1\r\n$4\r\nquit\r\n") + Ascii("*1\r\n$4\r\nping\r\n")]);
  }

  lemma QuitThenPing(quit: bytes, ping: bytes, chunks: seq<bytes>)
    requires |quit| == 4 == |ping| && IsQuit(quit)
    requires |chunks| == 1 && chunks[0] == Wire([quit]) + Wire([ping]) && |chunks[0]| <= IOBUF
    ensures var (c, seen) := ReceiveAll(NewClient(), chunks); c.failed && seen == [[quit]]
  {
    hide IsQuit, Wire, Receive, ReceiveAll;
    var cmds := [[quit], [ping]];
    assert cmds[1..] == [[ping]] && [[ping]][1..] == [];
    assert Wires([[ping]]) == Wire([ping]) + [] == Wire([ping]);
    assert Wires(cmds) == Wire(cmds[0]) + Wires(cmds[1..]);
    assert chunks[1..] == [] && Concat(chunks) == chunks[0] + [] == Wires(cmds);
    assert Within(Receive(NewClient(), chunks[0]).0, chunks[1..]);
    QuitFailsNext(cmds, chunks);
    assert IsQuit(cmds[0][0]) && Served(cmds) == 1;
    OneStored(quit);
    assert cmds[..1] == [[quit]];
  }

  lemma OneStored(arg: bytes)
    ensures StoredAll([[arg]]) == [[Stored(arg)]]
  {
    assert StoredArgs([arg]) == [Stored(arg)];
  }

  /** An argument of 32 KB, read byte by byte, is seen with its line end. */
  lemma BigArgumentExample()
    ensures var arg := seq(32768, _ => 97);
            ReceiveAll(NewClient(), Singles(Wires([[arg]]))).1 == [[arg + CRLF]] != [[arg]]
  {
    var arg: bytes := seq(32768, _ => 97);
    var cmds := [[arg]];
    BytesCanBeRead(cmds);
    hide ReceiveAll, Wires, Within;
    QuitFailsNext(cmds, Singles(Wires(cmds)));
    OneStored(arg);
    assert Served(cmds[1..]) == 0 && cmds[..1] == cmds;
    assert [[arg + CRLF]][0][0] != [[arg]][0][0];
  }
}
