/** The command formatter of hiredis.c: argument lists, and format strings with %s, %b and %%. */
module Format {
  import opened Bytes
  import opened CInt
  import opened Integers
  import opened Options
  import opened Resp

  // ---------- The wire form ----------

  function BulkText(arg: bytes): bytes { [36] + Decimal(|arg|) + CRLF + arg + CRLF }

  function BulkTexts(argv: seq<bytes>): bytes {
    if argv == [] then [] else BulkText(argv[0]) + BulkTexts(argv[1..])
  }

  /** A command on the wire. */
  function Wire(argv: seq<bytes>): bytes { [42] + Decimal(|argv|) + CRLF + BulkTexts(argv) }

  function Bulks(argv: seq<bytes>): (r: seq<Reply>)
    ensures |r| == |argv|
  {
    seq(|argv|, i requires 0 <= i < |argv| => Bulk(argv[i]))
  }

  lemma {:induction false} WireIsPrint(argv: seq<bytes>)
    ensures PrintAll(Bulks(argv)) == BulkTexts(argv) && forall depth :: AllPrintable(Bulks(argv), depth)
  {
    if argv != [] {
      WireIsPrint(argv[1..]);
      assert Bulks(argv)[1..] == Bulks(argv[1..]);
    }
  }

  /** The reply parser reads a formatted command back as the array of its arguments. */
  lemma ParserInvertsWire(argv: seq<bytes>, more: bytes)
    ensures ParseReply(false, 0, Wire(argv) + more) == Done(Array(Bulks(argv)), more)
  {
    WireIsPrint(argv);
    ParsePrint(false, Array(Bulks(argv)), 0, more);
  }

  /** Different argument lists have different wire forms, and no wire form is the start of another one. */
  lemma WireIsPrefixFree(a: seq<bytes>, b: seq<bytes>, x: bytes, y: bytes)
    requires Wire(a) + x == Wire(b) + y
    ensures a == b && x == y
  {
    ParserInvertsWire(a, x);
    ParserInvertsWire(b, y);
    assert forall i :: 0 <= i < |a| ==> Bulks(a)[i] == Bulk(a[i]);
    assert forall i :: 0 <= i < |b| ==> Bulks(b)[i] == Bulk(b[i]);
    assert forall i :: 0 <= i < |a| ==> a[i] == b[i];
  }

  // ---------- The length that is computed first ----------

  /** What the formatter does: a command, no memory for it, or a write that leaves the buffer; `Broken` is for an overflow of an int. */
  datatype Outcome = Formatted | Refused | Overrun | Broken

  /** intlen: as long as the printed number; the least int cannot be negated. */
  method IntLen(n: Int32) returns (len: Option<nat>)
    ensures len == if n == INT_MIN then None else Some(|Text(n)|)
  {
    var i: int := n;
    var l := 0;
    if i < 0 {
      if i == INT_MIN { return None; }
      l := 1;
      i := -i;
    }
    l, i := l + 1, i / 10;
    while i != 0
      invariant i >= 0 && |Text(n)| == l + (if i == 0 then 0 else |Decimal(i)|)
      decreases i
    {
      l, i := l + 1, i / 10;
    }
    return Some(l);
  }

  /** bulklen on a length, which intlen takes as an int. */
  function BulkSize(n: nat): Option<nat> {
    if ToInt(n) == INT_MIN then None else Some(1 + |Text(ToInt(n))| + 2 + n + 2)
  }

  /** The sum of the lengths of the arguments on the wire, as the code adds them up. */
  function BulkSizes(argv: seq<bytes>): Option<nat> {
    if argv == [] then Some(0)
    else match (BulkSizes(argv[..|argv| - 1]), BulkSize(|argv[|argv| - 1]|))
      case (Some(n), Some(k)) => Some(n + k)
      case _ => None
  }

  /** `totlen`, an int; None after an overflow. */
  function Totlen(argv: seq<bytes>): Option<Int32> {
    match BulkSizes(argv)
    case Some(n) => if |argv| <= INT_MAX then Some(ToInt(1 + |Decimal(|argv|)| + 2 + n)) else None
    case None => None
  }

  /** Below 2 GB bulklen is right. */
  lemma BulkSizeIs(arg: bytes)
    requires |arg| <= INT_MAX
    ensures BulkSize(|arg|) == Some(|BulkText(arg)|)
  {
    hide Decimal, ToInt;
    ToIntKeeps(|arg|);
  }

  lemma {:induction false} BulkSizesAre(argv: seq<bytes>)
    requires |BulkTexts(argv)| <= INT_MAX
    ensures BulkSizes(argv) == Some(|BulkTexts(argv)|) && |argv| <= |BulkTexts(argv)|
    decreases |argv|
  {
    if argv != [] {
      var last := argv[|argv| - 1];
      BulkTextsTake(argv, |argv| - 1);
      assert argv[..|argv|] == argv;
      BulkSizesAre(argv[..|argv| - 1]);
      BulkSizeIs(last);
    }
  }

  /** The length that the code computes is that of the command, if and only if it is less than 2 GB; it is never more. */
  lemma TotlenIff(argv: seq<bytes>)
    ensures Totlen(argv) == Some(|Wire(argv)|) <==> |Wire(argv)| <= INT_MAX
    ensures Totlen(argv).Some? ==> Totlen(argv).value <= |Wire(argv)|
  {
    hide Decimal, ToInt, BulkTexts, BulkSizes;
    ToIntKeeps(|Wire(argv)|);
    if |Wire(argv)| <= INT_MAX { BulkSizesAre(argv); }
  }

  lemma {:induction false} BulkTextsAppend(argv: seq<bytes>, arg: bytes)
    ensures BulkTexts(argv + [arg]) == BulkTexts(argv) + BulkText(arg)
  {
    if argv == [] {
      assert [arg][1..] == [] && BulkText(arg) + [] == BulkText(arg);
    } else {
      BulkTextsAppend(argv[1..], arg);
      assert (argv + [arg])[1..] == argv[1..] + [arg];
      assert BulkText(argv[0]) + (BulkTexts(argv[1..]) + BulkText(arg)) == BulkText(argv[0]) + BulkTexts(argv[1..]) + BulkText(arg);
    }
  }

  lemma BulkTextsTake(argv: seq<bytes>, j: nat)
    requires j < |argv|
    ensures BulkTexts(argv[..j + 1]) == BulkTexts(argv[..j]) + BulkText(argv[j])
  {
    BulkTextsAppend(argv[..j], argv[j]);
    assert argv[..j + 1] == argv[..j] + [argv[j]];
  }

  /** `totlen += bulklen(...)`. */
  method AddBulk(totlen: Int32, ghost sum: int, arg: bytes) returns (r: Option<Int32>)
    requires totlen == ToInt(sum)
    ensures r == match BulkSize(|arg|) case Some(n) => Some(ToInt(sum + n)) case None => None
  {
    var digits := IntLen(ToInt(|arg|));
    if digits.None? { return None; }
    ToIntSum(sum, 1 + digits.value + 2 + |arg| + 2);
    return Some(ToInt(totlen + (1 + digits.value + 2 + |arg| + 2)));
  }

  lemma BulkSizesTake(argv: seq<bytes>, j: nat)
    requires j < |argv|
    ensures BulkSizes(argv[..j + 1]) == match (BulkSizes(argv[..j]), BulkSize(|argv[j]|))
      case (Some(n), Some(k)) => Some(n + k)
      case _ => None
    ensures BulkSizes(argv[..j + 1]).None? ==> BulkSizes(argv).None?
    decreases |argv| - j
  {
    assert argv[..j + 1][..j] == argv[..j] && argv[..j + 1][j] == argv[j];
    if j + 1 < |argv| {
      BulkSizesTake(argv, j + 1);
    } else {
      assert argv[..j + 1] == argv;
    }
  }

  /** The first half of redisFormatCommandArgv. */
  method TotalLength(argv: seq<bytes>) returns (totlen: Option<Int32>)
    requires |argv| <= INT_MAX
    ensures totlen == Totlen(argv)
  {
    hide Decimal, ToInt, BulkSize;
    var digits := IntLen(|argv|);
    ghost var start := 1 + digits.value + 2;
    totlen := Some(ToInt(1 + digits.value + 2));
    for j := 0 to |argv|
      invariant BulkSizes(argv[..j]).Some? && totlen == Some(ToInt(start + BulkSizes(argv[..j]).value))
    {
      BulkSizesTake(argv, j);
      totlen := AddBulk(totlen.value, start + BulkSizes(argv[..j]).value, argv[j]);
      if totlen.None? { return None; }
    }
    assert argv[..|argv|] == argv;
  }

  // ---------- Writing ----------

  /** memcpy to position `pos`; false when it would leave the buffer. */
  method Copy(cmd: array<byte>, pos: nat, data: bytes) returns (ok: bool, pos': nat)
    modifies cmd
    ensures pos' == pos + |data| && (ok <==> pos' <= cmd.Length)
    ensures ok ==> cmd[..pos'] == old(cmd[..pos]) + data
  {
    pos' := pos + |data|;
    if pos' > cmd.Length { return false, pos'; }
    for i := 0 to |data|
      invariant cmd[..pos + i] == old(cmd[..pos]) + data[..i]
    {
      cmd[pos + i] := data[i];
      assert cmd[..pos + i + 1] == cmd[..pos + i] + [data[i]];
    }
    assert data[..|data|] == data;
    return true, pos';
  }

  /** sprintf to position `pos`: the text, and a NUL behind it. */
  method Sprintf(cmd: array<byte>, pos: nat, text: bytes) returns (ok: bool, pos': nat)
    modifies cmd
    ensures pos' == pos + |text| && (ok <==> pos' < cmd.Length)
    ensures ok ==> cmd[..pos'] == old(cmd[..pos]) + text
  {
    ok, pos' := Copy(cmd, pos, text);
    if pos' >= cmd.Length { return false, pos'; }
    cmd[pos'] := 0;
  }

  /** One turn of the loop that writes the arguments. */
  method WriteArg(cmd: array<byte>, pos: nat, arg: bytes) returns (ok: bool, pos': nat)
    modifies cmd
    ensures ok <==> pos + |BulkText(arg)| <= cmd.Length
    ensures ok ==> pos' == pos + |BulkText(arg)| && cmd[..pos'] == old(cmd[..pos]) + BulkText(arg)
  {
    hide Decimal;
    ok, pos' := Sprintf(cmd, pos, [36] + Decimal(|arg|) + CRLF);
    if !ok { return; }
    ok, pos' := Copy(cmd, pos', arg);
    if !ok { return; }
    ok, pos' := Copy(cmd, pos', CRLF);
    if !ok { return; }
    assert cmd[..pos'] == old(cmd[..pos]) + ([36] + Decimal(|arg|) + CRLF) + arg + CRLF;
  }

  /** The second half: the command and a NUL go into `totlen` + 1 bytes, if and only if they fit. */
  method Build(argv: seq<bytes>, totlen: int) returns (ok: bool, cmd: array<byte>)
    requires totlen >= -1
    ensures fresh(cmd) && cmd.Length == totlen + 1 && (ok <==> |Wire(argv)| <= totlen)
    ensures ok ==> cmd[..|Wire(argv)|] == Wire(argv) && cmd[|Wire(argv)|] == 0
  {
    hide Decimal, BulkTexts, BulkText;
    cmd := new byte[totlen + 1](_ => 0);
    assert argv[..0] == [] && BulkTexts([]) == [] by { NoBulks(); }
    var pos;
    ok, pos := Sprintf(cmd, 0, [42] + Decimal(|argv|) + CRLF);
    if !ok { return; }
    for j := 0 to |argv|
      invariant ok && pos == 1 + |Decimal(|argv|)| + 2 + |BulkTexts(argv[..j])| <= cmd.Length
      invariant cmd[..pos] == [42] + Decimal(|argv|) + CRLF + BulkTexts(argv[..j])
    {
      BulkTextsFit(argv, j);
      BulkTextsTake(argv, j);
      ok, pos := WriteArg(cmd, pos, argv[j]);
      if !ok { return; }
    }
    assert argv[..|argv|] == argv;
    ok := pos < cmd.Length;
    if ok { cmd[pos] := 0; }
  }

  lemma NoBulks()
    ensures BulkTexts([]) == []
  {
  }

  lemma BulkTextsFit(argv: seq<bytes>, j: nat)
    requires j <= |argv|
    ensures |BulkTexts(argv[..j])| + (if j < |argv| then |BulkText(argv[j])| else 0) <= |BulkTexts(argv)|
    decreases |argv| - j
  {
    if j == |argv| {
      assert argv[..j] == argv;
    } else {
      BulkTextsTake(argv, j);
      BulkTextsFit(argv, j + 1);
    }
  }

  /** What comes of a command: it needs `n` bytes, and room is made for `totlen` and a NUL. */
  function OutcomeFor(totlen: Option<Int32>, n: nat): Outcome {
    match totlen
    case None => Broken
    case Some(t) => if t == INT_MAX then Broken else if t < -1 then Refused else if n <= t then Formatted else Overrun
  }

  /** The allocation of `totlen` + 1 bytes, an int taken as a size, and the writing. */
  method Allocate(argv: seq<bytes>, totlen: Option<Int32>) returns (out: Outcome, cmd: array<byte>)
    ensures out == OutcomeFor(totlen, |Wire(argv)|) && fresh(cmd)
    ensures out.Formatted? ==> cmd.Length == totlen.value + 1 && cmd[..|Wire(argv)|] == Wire(argv) && cmd[|Wire(argv)|] == 0
  {
    cmd := new byte[0];
    if totlen.None? || totlen.value == INT_MAX { return Broken, cmd; }
    if totlen.value < -1 { return Refused, cmd; }
    var ok;
    ok, cmd := Build(argv, totlen.value);
    out := if ok then Formatted else Overrun;
  }

  /** A command is formatted, if and only if with its NUL it is less than 2 GB. */
  lemma FormattedIff(argv: seq<bytes>)
    ensures OutcomeFor(Totlen(argv), |Wire(argv)|) == Formatted <==> |Wire(argv)| < INT_MAX
    ensures |Wire(argv)| < INT_MAX ==> Totlen(argv) == Some(|Wire(argv)|)
  {
    TotlenIff(argv);
  }

  /**
    One long argument: of 2 GB, intlen negates the least int; of a byte more, a negative size is
    allocated; of 4 GB and a byte, the command is written into twelve bytes.
   */
  lemma LongArgument(arg: bytes)
    ensures |arg| == 0x8000_0000 ==> OutcomeFor(Totlen([arg]), |Wire([arg])|) == Broken
    ensures |arg| == 0x8000_0001 ==> OutcomeFor(Totlen([arg]), |Wire([arg])|) == Refused
    ensures |arg| == 0x1_0000_0001 ==> Totlen([arg]) == Some(11) && OutcomeFor(Totlen([arg]), |Wire([arg])|) == Overrun
  {
    hide Decimal, BulkSizes, BulkSize, Wire;
    OneArgument(arg);
    LongSizes();
  }

  lemma OneArgument(arg: bytes)
    ensures |Wire([arg])| >= |arg| && BulkSizes([arg]) == BulkSize(|arg|) && |Decimal(1)| == 1
  {
    assert BulkSizes([]) == Some(0) && [arg][..0] == [];
    hide BulkSize;
    assert BulkTexts([arg]) == BulkText(arg) + BulkTexts([arg][1..]);
  }

  lemma LongSizes()
    ensures BulkSize(0x8000_0000) == None
    ensures BulkSize(0x8000_0001) == Some(1 + 11 + 2 + 0x8000_0001 + 2)
    ensures BulkSize(0x1_0000_0001) == Some(1 + 1 + 2 + 0x1_0000_0001 + 2)
  {
    TenDigits();
    hide Decimal;
    assert ToInt(0x8000_0001) == -0x7FFF_FFFF && ToInt(0x1_0000_0001) == 1;
  }

  lemma TenDigits()
    ensures |Decimal(0x7FFF_FFFF)| == 10 && |Decimal(1)| == 1
  {
    assert |Decimal(21474)| == 5;
    assert |Decimal(2147483)| == 7;
  }

  /** redisFormatCommandArgv; its count of arguments is an int. */
  method FormatCommandArgv(argv: seq<bytes>) returns (out: Outcome, cmd: array<byte>)
    requires |argv| <= INT_MAX
    ensures out == OutcomeFor(Totlen(argv), |Wire(argv)|) && (out.Formatted? <==> |Wire(argv)| < INT_MAX) && fresh(cmd)
    ensures out.Formatted? ==> cmd.Length == |Wire(argv)| + 1 && cmd[..|Wire(argv)|] == Wire(argv) && cmd[|Wire(argv)|] == 0
  {
    hide Wire, Totlen;
    FormattedIff(argv);
    var totlen := TotalLength(argv);
    out, cmd := Allocate(argv, totlen);
  }

  // ---------- Format strings ----------

  /** What a place of the format string stands for. */
  datatype Piece = Space | Part(text: bytes)

  /**
    A format string that has been read to its end; or one with an invalid conversion, one that ends
    inside a conversion so that the code goes on behind its NUL, or too few arguments.
   */
  datatype Scan = Scanned(pieces: seq<Piece>) | Invalid | PastEnd | Missing

  const PERCENT: byte := 37
  const BLANK: byte := 32

  /** A byte of the format, with its NUL. */
  function At(f: bytes, p: nat): byte { if p < |f| then f[p] else 0 }

  function Skip(f: bytes, p: nat, b: byte): (r: nat)
    requires p <= |f|
    ensures p <= r <= |f|
  {
    if p < |f| && f[p] == b then p + 1 else p
  }

  function SkipDigits(f: bytes, p: nat): (r: nat)
    requires p <= |f|
    ensures p <= r <= |f|
    decreases |f| - p
  {
    if p < |f| && IsDigit(f[p]) then SkipDigits(f, p + 1) else p
  }

  /** The flags, in the order in which the code looks for them. */
  function SkipFlags(f: bytes): (r: nat)
    requires |f| >= 1
    ensures 1 <= r <= |f|
  {
    Skip(f, Skip(f, Skip(f, Skip(f, Skip(f, 1, 35), 48), 45), BLANK), 43)
  }

  /** Behind the flags, the width and the precision of a conversion that starts at place 1. */
  function SkipOptions(f: bytes): (r: nat)
    requires |f| >= 1
    ensures 1 <= r <= |f|
  {
    var p := SkipDigits(f, SkipFlags(f));
    if p < |f| && f[p] == 46 then SkipDigits(f, p + 1) else p
  }

  /** diouxX; strchr also finds the NUL. */
  predicate IsIntFormat(b: byte) { b == 0 || b in {100, 105, 111, 117, 120, 88} }

  /** eEfFgGaA. */
  predicate IsDoubleFormat(b: byte) { b in {101, 69, 102, 70, 103, 71, 97, 65} }

  /** The place of the conversion character, which is the end of the format when it is missing; None for an invalid conversion. */
  function Conversion(f: bytes): (r: Option<nat>)
    requires |f| >= 1
    ensures r.Some? ==> 1 <= r.value <= |f|
  {
    var p := SkipOptions(f);
    if IsIntFormat(At(f, p)) || IsDoubleFormat(At(f, p)) then Some(p)
    else
      var q :=
        if At(f, p) == 104 then (if At(f, p + 1) == 104 then p + 2 else p + 1)
        else if At(f, p) == 108 then (if At(f, p + 1) == 108 then p + 2 else p + 1)
        else |f|;
      if q < |f| && f[q] != 0 && IsIntFormat(f[q]) then Some(q) else None
  }

  /** The longest conversion that the code passes on to vsnprintf. */
  const SHORT: nat := 14

  /** The pieces of a format string; the argument of a printf conversion is what vsnprintf prints for it. */
  function Pieces(format: bytes, args: seq<bytes>): Scan
    decreases |format|
  {
    if format == [] then Scanned([])
    else if format[0] != PERCENT || |format| == 1 then
      Prepend(if format[0] == BLANK then Space else Part([format[0]]), Pieces(format[1..], args))
    else if format[1] == PERCENT then Prepend(Part([PERCENT]), Pieces(format[2..], args))
    else if format[1] == 115 then
      if args == [] then Missing else Prepend(Part(CString(args[0])), Pieces(format[2..], args[1..]))
    else if format[1] == 98 then
      if args == [] then Missing else Prepend(Part(args[0]), Pieces(format[2..], args[1..]))
    else
      match Conversion(format)
      case None => Invalid
      case Some(p) =>
        if args == [] then Missing
        else if p + 1 >= SHORT then Prepend(Part([]), Pieces(format[2..], args[1..]))
        else if p == |format| then PastEnd
        else Prepend(Part(args[0]), Pieces(format[p + 1..], args[1..]))
  }

  function Prepend(p: Piece, ps: Scan): Scan {
    if ps.Scanned? then Scanned([p] + ps.pieces) else ps
  }

  /** The runs of parts between the spaces. */
  function Runs(ps: seq<Piece>): (r: seq<seq<bytes>>)
    ensures |r| > 0
  {
    if ps == [] then [[]]
    else
      var rest := Runs(ps[1..]);
      if ps[0].Space? then [[]] + rest else [[ps[0].text] + rest[0]] + rest[1..]
  }

  function Concat(parts: seq<bytes>): bytes {
    if parts == [] then [] else parts[0] + Concat(parts[1..])
  }

  /** Each run that is not empty is an argument: its parts one after the other. */
  function Joined(runs: seq<seq<bytes>>): seq<bytes> {
    if runs == [] then [] else (if runs[0] == [] then [] else [Concat(runs[0])]) + Joined(runs[1..])
  }

  /** The arguments that a format string stands for. */
  function Arguments(ps: seq<Piece>): seq<bytes> { Joined(Runs(ps)) }

  /** The arguments from here on, when the parts `run` of the current one have been read. */
  function From(run: seq<bytes>, ps: seq<Piece>): seq<bytes> {
    var rest := Runs(ps);
    Joined([run + rest[0]] + rest[1..])
  }

  lemma FromSpace(run: seq<bytes>, ps: seq<Piece>)
    ensures From(run, [Space] + ps) == (if run == [] then [] else [Concat(run)]) + From([], ps)
  {
    var rest := Runs(ps);
    assert ([Space] + ps)[1..] == ps;
    assert Runs([Space] + ps) == [[]] + rest;
    assert run + [] == run && [] + rest[0] == rest[0] && [rest[0]] + rest[1..] == rest;
    assert ([[]] + rest)[1..] == rest;
    assert ([run] + rest)[1..] == rest;
  }

  lemma FromPart(run: seq<bytes>, text: bytes, ps: seq<Piece>)
    ensures From(run, [Part(text)] + ps) == From(run + [text], ps)
  {
    var rest := Runs(ps);
    assert ([Part(text)] + ps)[1..] == ps;
    assert run + ([text] + rest[0]) == run + [text] + rest[0];
    assert ([[text] + rest[0]] + rest[1..])[1..] == rest[1..];
  }

  lemma {:induction false} ConcatAppend(run: seq<bytes>, text: bytes)
    ensures Concat(run + [text]) == Concat(run) + text
  {
    if run == [] {
      assert [text][1..] == [] && Concat([text]) == text + [] == text == [] + text;
    } else {
      ConcatAppend(run[1..], text);
      assert (run + [text])[1..] == run[1..] + [text];
      assert run[0] + (Concat(run[1..]) + text) == run[0] + Concat(run[1..]) + text;
    }
  }

  lemma JoinedOne(run: seq<bytes>)
    ensures Joined([run]) == if run == [] then [] else [Concat(run)]
  {
    assert [run][1..] == [];
  }

  lemma FromEnd(run: seq<bytes>)
    ensures From(run, []) == if run == [] then [] else [Concat(run)]
  {
    var none: seq<Piece> := [];
    assert Runs(none) == [[]] && run + [] == run;
    assert [run + Runs(none)[0]] + Runs(none)[1..] == [run];
    JoinedOne(run);
  }

  /** Whether the format starts with an ordinary character: anything but a percent sign, or a percent sign at the end. */
  predicate Ordinary(format: bytes)
    requires format != []
  {
    format[0] != PERCENT || |format| == 1
  }

  /** What the code reads at a percent sign that starts a conversion: the text, and how far it goes. */
  function Taken(f: bytes, arg: bytes): (bytes, nat)
    requires |f| >= 2
  {
    if f[1] == 115 then (CString(arg), 2)
    else if f[1] == 98 then (arg, 2)
    else match Conversion(f)
      case Some(p) => if p + 1 >= SHORT then ([], 2) else (arg, p + 1)
      case None => ([], 2)
  }

  /** The conversion is one of the code's own, or a valid one that does not run into the end of the format. */
  predicate Readable(f: bytes)
    requires |f| >= 2
  {
    f[1] == 115 || f[1] == 98 || (Conversion(f).Some? && (Conversion(f).value + 1 >= SHORT || Conversion(f).value < |f|))
  }

  /** The text of the pieces from a place on, when the format can be read to its end. */
  function Rest(run: seq<bytes>, ps: Scan): seq<bytes> { if ps.Scanned? then From(run, ps.pieces) else [] }

  /** How the scan ends, apart from the pieces. */
  function End(ps: Scan): Scan { if ps.Scanned? then Scanned([]) else ps }

  /** What one turn of the loop of redisvFormatCommand reads. */
  lemma Turn(f: bytes, args: seq<bytes>, run: seq<bytes>)
    requires f != [] && !Pieces(f, args).Missing?
    ensures
      if Ordinary(f) then
        && End(Pieces(f, args)) == End(Pieces(f[1..], args))
        && (Pieces(f, args).Scanned? && f[0] != BLANK ==> Rest(run, Pieces(f, args)) == Rest(run + [[f[0]]], Pieces(f[1..], args)))
        && (Pieces(f, args).Scanned? && f[0] == BLANK ==>
             Rest(run, Pieces(f, args)) == (if run == [] then [] else [Concat(run)]) + Rest([], Pieces(f[1..], args)))
      else if f[1] == PERCENT then
        && End(Pieces(f, args)) == End(Pieces(f[2..], args))
        && Rest(run, Pieces(f, args)) == Rest(run + [[PERCENT]], Pieces(f[2..], args))
      else if !Readable(f) then
        Pieces(f, args) == if Conversion(f).None? then Invalid else PastEnd
      else
        && args != [] && var (text, n) := Taken(f, args[0]);
        && 2 <= n <= |f| && End(Pieces(f, args)) == End(Pieces(f[n..], args[1..]))
        && Rest(run, Pieces(f, args)) == Rest(run + [text], Pieces(f[n..], args[1..]))
  {
    hide From, Concat, CString, Conversion;
    if Ordinary(f) {
      TurnPiece(run, if f[0] == BLANK then Space else Part([f[0]]), Pieces(f[1..], args));
    } else if f[1] == PERCENT {
      TurnPiece(run, Part([PERCENT]), Pieces(f[2..], args));
    } else if Readable(f) {
      var (text, n) := Taken(f, args[0]);
      TurnPiece(run, Part(text), Pieces(f[n..], args[1..]));
    }
  }

  lemma TurnPiece(run: seq<bytes>, p: Piece, ps: Scan)
    ensures End(Prepend(p, ps)) == End(ps)
    ensures ps.Scanned? ==> Rest(run, Prepend(p, ps)) == match p
      case Space => (if run == [] then [] else [Concat(run)]) + Rest([], ps)
      case Part(text) => Rest(run + [text], ps)
    ensures !ps.Scanned? ==> Rest(run, Prepend(p, ps)) == []
  {
    hide From, Concat;
    if ps.Scanned? {
      match p
      case Space => FromSpace(run, ps.pieces);
      case Part(text) => FromPart(run, text, ps.pieces);
    }
  }

  lemma FromStart(ps: seq<Piece>)
    ensures From([], ps) == Arguments(ps)
  {
    assert [] + Runs(ps)[0] == Runs(ps)[0] && [Runs(ps)[0]] + Runs(ps)[1..] == Runs(ps);
  }

  method ReadFlags(f: bytes) returns (p: nat)
    requires |f| >= 1
    ensures p == SkipFlags(f)
  {
    p := 1;
    if p < |f| && f[p] == 35 { p := p + 1; }
    if p < |f| && f[p] == 48 { p := p + 1; }
    if p < |f| && f[p] == 45 { p := p + 1; }
    if p < |f| && f[p] == BLANK { p := p + 1; }
    if p < |f| && f[p] == 43 { p := p + 1; }
  }

  method ReadDigits(f: bytes, from: nat) returns (p: nat)
    requires from <= |f|
    ensures p == SkipDigits(f, from)
  {
    p := from;
    while p < |f| && IsDigit(f[p])
      invariant p <= |f| && SkipDigits(f, from) == SkipDigits(f, p)
    {
      p := p + 1;
    }
  }

  lemma NulAtEnd(f: bytes, p: nat)
    ensures At(f, p) == if p < |f| then f[p] else 0
  {
  }

  /** The detection of a printf format. */
  method ReadConversion(f: bytes) returns (r: Option<nat>)
    requires |f| >= 1
    ensures r == Conversion(f)
  {
    hide SkipFlags, SkipDigits, At, IsIntFormat, IsDoubleFormat;
    var p := ReadFlags(f);
    p := ReadDigits(f, p);
    if p < |f| && f[p] == 46 { p := ReadDigits(f, p + 1); }
    if IsIntFormat(At(f, p)) || IsDoubleFormat(At(f, p)) { return Some(p); }
    if At(f, p) == 104 {
      p := if At(f, p + 1) == 104 then p + 2 else p + 1;
    } else if At(f, p) == 108 {
      p := if At(f, p + 1) == 108 then p + 2 else p + 1;
    } else {
      return None;
    }
    NulAtEnd(f, p);
    return if At(f, p) != 0 && IsIntFormat(At(f, p)) then Some(p) else None;
  }

  /** The switch of the loop: the text for the current argument, how far the format has been read, and whether it can go on. */
  method ReadArgument(f: bytes, arg: bytes) returns (text: bytes, n: nat, end: Scan)
    requires |f| >= 2 && !Ordinary(f) && f[1] != PERCENT
    ensures Readable(f) ==> end == Scanned([]) && (text, n) == Taken(f, arg)
    ensures !Readable(f) ==> end == if Conversion(f).None? then Invalid else PastEnd
  {
    hide Conversion, CString;
    text, n, end := arg, 2, Scanned([]);
    if f[1] == 115 {
      text := CString(arg);
    } else if f[1] != 98 {
      var p := ReadConversion(f);
      if p.None? { return [], 2, Invalid; }
      if p.value + 1 < SHORT {
        n := p.value + 1;
        if p.value == |f| { end := PastEnd; }
      } else {
        text := [];
      }
    }
  }

  /** The arguments `argv` have been read, the parts `run` of the current one, and the format from `f` on is left. */
  ghost predicate Reading(all: Scan, f: bytes, args: seq<bytes>, run: seq<bytes>, argv: seq<bytes>) {
    && End(Pieces(f, args)) == End(all) && !all.Missing?
    && (all.Scanned? ==> Arguments(all.pieces) == argv + Rest(run, Pieces(f, args)))
  }

  lemma ReadSpace(all: Scan, f: bytes, args: seq<bytes>, run: seq<bytes>, argv: seq<bytes>)
    requires Reading(all, f, args, run, argv) && f != [] && Ordinary(f) && f[0] == BLANK
    ensures Reading(all, f[1..], args, [], if run == [] then argv else argv + [Concat(run)])
  {
    hide Pieces, From, Arguments, Concat;
    Turn(f, args, run);
    assert argv + ([] + Rest([], Pieces(f[1..], args))) == argv + Rest([], Pieces(f[1..], args));
    assert argv + ([Concat(run)] + Rest([], Pieces(f[1..], args))) == argv + [Concat(run)] + Rest([], Pieces(f[1..], args));
  }

  lemma ReadChar(all: Scan, f: bytes, args: seq<bytes>, run: seq<bytes>, argv: seq<bytes>)
    requires Reading(all, f, args, run, argv) && f != [] && Ordinary(f) && f[0] != BLANK
    ensures Reading(all, f[1..], args, run + [[f[0]]], argv)
  {
    hide Pieces, From, Arguments, Rest;
    Turn(f, args, run);
  }

  lemma ReadPercent(all: Scan, f: bytes, args: seq<bytes>, run: seq<bytes>, argv: seq<bytes>)
    requires Reading(all, f, args, run, argv) && |f| >= 2 && !Ordinary(f) && f[1] == PERCENT
    ensures Reading(all, f[2..], args, run + [[PERCENT]], argv)
  {
    hide Pieces, From, Arguments, Rest;
    Turn(f, args, run);
  }

  lemma ReadText(all: Scan, f: bytes, args: seq<bytes>, run: seq<bytes>, argv: seq<bytes>)
    requires Reading(all, f, args, run, argv) && |f| >= 2 && !Ordinary(f) && f[1] != PERCENT
    ensures if !Readable(f) then End(all) == if Conversion(f).None? then Invalid else PastEnd
      else args != [] && var (text, n) := Taken(f, args[0]); 2 <= n <= |f| && Reading(all, f[n..], args[1..], run + [text], argv)
  {
    hide Pieces, From, Arguments, Rest, Readable, Taken, Conversion;
    Turn(f, args, run);
  }

  lemma ReadStart(format: bytes, args: seq<bytes>)
    requires !Pieces(format, args).Missing?
    ensures Reading(Pieces(format, args), format, args, [], [])
  {
    hide Pieces, From, Arguments;
    var all := Pieces(format, args);
    if all.Scanned? {
      FromStart(all.pieces);
      assert [] + Rest([], all) == Rest([], all);
    }
  }

  lemma ReadEnd(all: Scan, args: seq<bytes>, run: seq<bytes>, argv: seq<bytes>)
    requires Reading(all, [], args, run, argv)
    ensures all.Scanned? && Arguments(all.pieces) == if run == [] then argv else argv + [Concat(run)]
  {
    hide From, Arguments, Concat;
    AtEnd(args);
    FromEnd(run);
    assert argv + [] == argv;
  }

  /** The loop of redisvFormatCommand that collects the arguments, and their total length. */
  method Collect(format: bytes, args: seq<bytes>) returns (end: Scan, argv: seq<bytes>, totlen: Option<Int32>)
    requires !Pieces(format, args).Missing?
    ensures end == End(Pieces(format, args))
    ensures end.Scanned? ==> argv == Arguments(Pieces(format, args).pieces) && totlen == Total(argv)
  {
    hide Pieces, Reading, Arguments, Total, CString, Taken, Readable, Concat;
    ghost var all := Pieces(format, args);
    ghost var run: seq<bytes> := [];
    var c, a, curarg, touched := 0, 0, [], false;
    ReadStart(format, args);
    NoText();
    argv, totlen := [], Some(0);
    while c < |format|
      invariant c <= |format| && a <= |args| && Reading(all, format[c..], args[a..], run, argv)
      invariant curarg == Concat(run) && (touched <==> run != []) && totlen == Total(argv)
      decreases |format| - c
    {
      ghost var f, rest := format[c..], args[a..];
      if format[c] != PERCENT || c + 1 == |format| {
        assert f[1..] == format[c + 1..];
        if format[c] == BLANK {
          ReadSpace(all, f, rest, run, argv);
          if touched { argv, totlen := Push(argv, totlen, curarg); }
          curarg, touched, run := [], false, [];
        } else {
          ReadChar(all, f, rest, run, argv);
          ConcatAppend(run, [format[c]]);
          curarg, touched, run := curarg + [format[c]], true, run + [[format[c]]];
        }
        c := c + 1;
      } else {
        var text, n := [PERCENT], 2;
        if format[c + 1] == PERCENT {
          ReadPercent(all, f, rest, run, argv);
        } else {
          ReadText(all, f, rest, run, argv);
          text, n, end := ReadArgument(format[c..], if a < |args| then args[a] else []);
          if !end.Scanned? { return; }
          assert rest[1..] == args[a + 1..];
          a := a + 1;
        }
        assert f[n..] == format[c + n..];
        ConcatAppend(run, text);
        curarg, touched, run := curarg + text, true, run + [text];
        c := c + n;
      }
    }
    assert format[c..] == [];
    ReadEnd(all, args[a..], run, argv);
    if touched { argv, totlen := Push(argv, totlen, curarg); }
    end := Scanned([]);
  }

  /** `totlen` while the arguments are collected. */
  function Total(argv: seq<bytes>): Option<Int32> {
    match BulkSizes(argv) case Some(n) => Some(ToInt(n)) case None => None
  }

  lemma NoText()
    ensures Total([]) == Some(0) && Concat([]) == []
  {
  }

  lemma AtEnd(args: seq<bytes>)
    ensures Pieces([], args) == Scanned([])
  {
  }

  /** The current argument goes to the list. */
  method Push(argv: seq<bytes>, totlen: Option<Int32>, curarg: bytes) returns (argv': seq<bytes>, totlen': Option<Int32>)
    requires totlen == Total(argv)
    ensures argv' == argv + [curarg] && totlen' == Total(argv')
  {
    hide ToInt, BulkSize;
    argv', totlen' := argv + [curarg], totlen;
    assert argv'[..|argv'| - 1] == argv;
    if totlen.Some? { totlen' := AddBulk(totlen.value, BulkSizes(argv).value, curarg); }
  }

  /** The bytes for the count of the arguments are added at the end. */
  method AddCount(argv: seq<bytes>, total: Option<Int32>) returns (totlen: Option<Int32>)
    requires total == Total(argv)
    ensures totlen == Totlen(argv)
  {
    hide ToInt, BulkSizes;
    if total.None? || |argv| > INT_MAX { return None; }
    var digits := IntLen(|argv|);
    ToIntSum(BulkSizes(argv).value, 1 + digits.value + 2);
    return Some(ToInt(total.value + (1 + digits.value + 2)));
  }

  /**
    redisvFormatCommand: the wire form of the arguments between the spaces, if it is less than 2 GB;
    -1 for an invalid conversion.
   */
  method FormatCommand(format: bytes, args: seq<bytes>) returns (out: Outcome, cmd: array<byte>)
    requires !Pieces(format, args).Missing?
    ensures match Pieces(format, args)
      case Scanned(ps) =>
        var argv := Arguments(ps);
        && out == OutcomeFor(Totlen(argv), |Wire(argv)|) && (out.Formatted? <==> |Wire(argv)| < INT_MAX)
        && (out.Formatted? ==> cmd.Length == |Wire(argv)| + 1 && cmd[..|Wire(argv)|] == Wire(argv) && cmd[|Wire(argv)|] == 0)
      case Invalid => out == Refused
      case PastEnd => out == Broken
    ensures fresh(cmd)
  {
    hide Pieces, Arguments, Wire, Totlen, Total;
    var end, argv, total := Collect(format, args);
    if !end.Scanned? {
      cmd := new byte[0];
      return if end.Invalid? then Refused else Broken, cmd;
    }
    FormattedIff(argv);
    var totlen := AddCount(argv, total);
    out, cmd := Allocate(argv, totlen);
  }

  // ---------- What the arguments are ----------

  /** A format without spaces is one argument, whatever the values contain: no value is split. */
  lemma {:induction false} NoSpaceOneArgument(ps: seq<Piece>)
    requires ps != [] && forall p :: p in ps ==> p.Part?
    ensures |Arguments(ps)| == 1 && Runs(ps)[1..] == [] && Runs(ps)[0] != []
    ensures Arguments(ps)[0] == ps[0].text + (if |ps| == 1 then [] else Arguments(ps[1..])[0])
  {
    if |ps| > 1 {
      NoSpaceOneArgument(ps[1..]);
      assert Runs(ps) == [[ps[0].text] + Runs(ps[1..])[0]];
      assert ([ps[0].text] + Runs(ps[1..])[0])[1..] == Runs(ps[1..])[0];
      JoinedOne(Runs(ps)[0]);
      assert Runs(ps[1..]) == [Runs(ps[1..])[0]];
      JoinedOne(Runs(ps[1..])[0]);
    } else {
      assert ps[1..] == [];
      assert Runs(ps[1..]) == [[]] && [ps[0].text] + [] == [ps[0].text];
      assert Runs(ps) == [[ps[0].text]];
      JoinedOne([ps[0].text]);
      assert Concat([ps[0].text]) == ps[0].text + Concat([]);
    }
  }

  /** Spaces in the format separate arguments. */
  lemma {:induction false} SpaceSeparates(ps: seq<Piece>, qs: seq<Piece>)
    ensures Arguments(ps + [Space] + qs) == Arguments(ps) + Arguments(qs)
  {
    SeparatesFrom([], ps, qs);
    FromStart(ps);
    FromStart(qs);
    FromStart(ps + [Space] + qs);
  }

  lemma {:induction false} SeparatesFrom(run: seq<bytes>, ps: seq<Piece>, qs: seq<Piece>)
    ensures From(run, ps + [Space] + qs) == From(run, ps) + From([], qs)
    decreases |ps|
  {
    var all := ps + [Space] + qs;
    if ps == [] {
      assert all == [Space] + qs;
      FromSpace(run, qs);
      FromEnd(run);
    } else {
      var p, rest := ps[0], ps[1..];
      assert ps == [p] + rest && all == [p] + (rest + [Space] + qs);
      match p
      case Space =>
        SeparatesFrom([], rest, qs);
        FromSpace(run, rest);
        FromSpace(run, rest + [Space] + qs);
      case Part(text) =>
        SeparatesFrom(run + [text], rest, qs);
        FromPart(run, text, rest);
        FromPart(run, text, rest + [Space] + qs);
    }
  }
}
