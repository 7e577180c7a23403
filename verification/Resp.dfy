/**
  The Redis serialization protocol, as the client library reads it: a recursive parser on a whole
  byte string, and the printer that it inverts.  The parser takes malformed numbers for -1, as the
  code does.  Its numbers have no bound; with the flag `bounded` it stops at a number that does not
  fit the C types of the client library.
 */
module Resp {
  import opened Bytes
  import opened CInt
  import opened Integers
  import opened Options

  datatype Kind = StatusKind | ErrorKind | IntegerKind | BulkKind | ArrayKind

  /** `Hollow` is the array without elements that a count below -1 makes. */
  datatype Reply = Nil | Integer(value: int) | Status(text: bytes) | Error(text: bytes) | Bulk(text: bytes)
                 | Array(elements: seq<Reply>) | Hollow(count: int)

  /** `Lost` is for the reader only: it has used a NULL pointer, or overflowed a signed number. */
  datatype Fault = BadType(b: byte) | TooDeep | OutOfRange | Lost

  /** The result of parsing: a value and what follows it, or the need for more bytes, or an error. */
  datatype Parse<+T> = Done(value: T, rest: bytes) | More | Fail(fault: Fault)

  const MAX_DEPTH: nat := 8
  const LONG_MAX: int := 0x7FFF_FFFF_FFFF_FFFF

  // ---------- Lines and numbers ----------

  /** The place of the first CR LF at or after `from`. */
  function Newline(s: bytes, from: nat): (r: Option<nat>)
    requires from <= |s|
    ensures r.Some? ==> from <= r.value && r.value + 1 < |s| && s[r.value] == CR && s[r.value + 1] == LF
    ensures forall j :: from <= j < (if r.Some? then r.value else |s| - 1) ==> !(s[j] == CR && s[j + 1] == LF)
    decreases |s| - from
  {
    if from + 1 >= |s| then None
    else if s[from] == CR && s[from + 1] == LF then Some(from)
    else Newline(s, from + 1)
  }

  /** The decimal digits up to a CR or the end; None when there is another character before. */
  function Digits(s: bytes, v: nat): Option<nat> {
    if s == [] || s[0] == CR then Some(v)
    else if IsDigit(s[0]) then Digits(s[1..], v * 10 + (s[0] - 48))
    else None
  }

  /** readLongLong on one line: -1 stands for a malformed number as well. */
  function Number(s: bytes): int {
    var sign := if s != [] && s[0] == 45 then -1 else 1;
    var digits := if s != [] && (s[0] == 45 || s[0] == 43) then s[1..] else s;
    match Digits(digits, 0)
    case Some(v) => sign * v
    case None => -1
  }

  /** No step of readLongLong overflows the 64-bit accumulator. */
  predicate DigitsFit(s: bytes, v: nat) {
    s == [] || s[0] == CR || !IsDigit(s[0]) ||
    (v * 10 + (s[0] - 48) <= LONG_MAX && DigitsFit(s[1..], v * 10 + (s[0] - 48)))
  }

  predicate NumberFits(s: bytes) {
    DigitsFit(if s != [] && (s[0] == 45 || s[0] == 43) then s[1..] else s, 0)
  }

  // ---------- The parser ----------

  function KindOf(b: byte): Option<Kind> {
    if b == 45 then Some(ErrorKind)
    else if b == 43 then Some(StatusKind)
    else if b == 58 then Some(IntegerKind)
    else if b == 36 then Some(BulkKind)
    else if b == 42 then Some(ArrayKind)
    else None
  }

  function LineValue(kind: Kind, line: bytes): Reply {
    match kind
    case IntegerKind => Integer(Number(line))
    case StatusKind => Status(line)
    case _ => Error(line)
  }

  /** The number of a line fits its C type: 64 bits, the length of a bulk string with its CR LF too, and an int for a count. */
  predicate Fits(kind: Kind, line: bytes) {
    match kind
    case IntegerKind => NumberFits(line)
    case BulkKind => NumberFits(line) && Number(line) + 2 <= LONG_MAX
    case ArrayKind => NumberFits(line) && INT_MIN <= Number(line) <= INT_MAX
    case _ => true
  }

  /** What a bulk string is, given the place of the first CR LF. */
  function ParseBulk(s: bytes, n: nat): (p: Parse<Reply>)
    requires n + 2 <= |s|
    ensures p.Done? ==> |p.rest| < |s|
  {
    var len := Number(s[..n]);
    if len < 0 then Done(Nil, s[n + 2..])
    else if n + 2 + len + 2 <= |s| then Done(Bulk(s[n + 2..n + 2 + len]), s[n + 2 + len + 2..])
    else More
  }

  /** What an array with a count that is not positive is. */
  function NoElements(count: int): Reply {
    if count == -1 then Nil else if count == 0 then Array([]) else Hollow(count)
  }

  /** The rest of a reply whose type byte has been read. */
  function ParseTyped(bounded: bool, depth: nat, kind: Kind, s: bytes): (p: Parse<Reply>)
    ensures p.Done? ==> |p.rest| < |s|
    decreases |s|, 0
  {
    if kind == ArrayKind && depth == MAX_DEPTH then Fail(TooDeep)
    else
      match Newline(s, 0)
      case None => More
      case Some(n) =>
        if bounded && !Fits(kind, s[..n]) then Fail(OutOfRange) else
        match kind
        case BulkKind => ParseBulk(s, n)
        case ArrayKind =>
          var count := Number(s[..n]);
          if count <= 0 then Done(NoElements(count), s[n + 2..])
          else
            (match ParseItems(bounded, depth + 1, count, s[n + 2..])
             case Done(vs, rest) => Done(Array(vs), rest)
             case More => More
             case Fail(e) => Fail(e))
        case _ => Done(LineValue(kind, s[..n]), s[n + 2..])
  }

  function ParseReply(bounded: bool, depth: nat, s: bytes): (p: Parse<Reply>)
    ensures p.Done? ==> |p.rest| < |s|
    decreases |s|, 0
  {
    if s == [] then More
    else
      match KindOf(s[0])
      case None => Fail(BadType(s[0]))
      case Some(kind) => ParseTyped(bounded, depth, kind, s[1..])
  }

  function ParseItems(bounded: bool, depth: nat, n: nat, s: bytes): (p: Parse<seq<Reply>>)
    ensures p.Done? ==> |p.rest| <= |s| && |p.value| == n
    decreases |s|, n + 1
  {
    if n == 0 then Done([], s)
    else
      match ParseReply(bounded, depth, s)
      case More => More
      case Fail(e) => Fail(e)
      case Done(v, rest) =>
        match ParseItems(bounded, depth, n - 1, rest)
        case More => More
        case Fail(e) => Fail(e)
        case Done(vs, rest') => Done([v] + vs, rest')
  }

  /** All replies in a byte string, and the error that stops the parser, if there is one. */
  function ParseAll(bounded: bool, s: bytes): (seq<Reply>, Option<Fault>)
    decreases |s|
  {
    match ParseReply(bounded, 0, s)
    case More => ([], None)
    case Fail(e) => ([], Some(e))
    case Done(v, rest) => var (vs, e) := ParseAll(bounded, rest); ([v] + vs, e)
  }

  // ---------- The printer ----------

  function Print(r: Reply): bytes {
    match r
    case Nil => Ascii("$-1") + CRLF
    case Integer(v) => [58] + (if v < 0 then [45] + Decimal(-v) else Decimal(v)) + CRLF
    case Status(t) => [43] + t + CRLF
    case Error(t) => [45] + t + CRLF
    case Bulk(t) => [36] + Decimal(|t|) + CRLF + t + CRLF
    case Array(rs) => [42] + Decimal(|rs|) + CRLF + PrintAll(rs)
    case Hollow(n) => [42, 45] + Decimal(if n < 0 then -n else n) + CRLF
  }

  function PrintAll(rs: seq<Reply>): bytes {
    if rs == [] then [] else Print(rs[0]) + PrintAll(rs[1..])
  }

  /** Replies that fit the protocol: no CR LF inside a line, and no more nesting than the reader takes. */
  predicate Printable(r: Reply, depth: nat) {
    match r
    case Status(t) => Newline(t + CRLF, 0) == Some(|t|)
    case Error(t) => Newline(t + CRLF, 0) == Some(|t|)
    case Array(rs) => depth < MAX_DEPTH && AllPrintable(rs, depth + 1)
    case Hollow(n) => depth < MAX_DEPTH && n < -1
    case _ => true
  }

  /** Replies whose numbers fit the C types. */
  predicate Ranged(r: Reply) {
    match r
    case Integer(v) => -LONG_MAX <= v <= LONG_MAX
    case Bulk(t) => |t| + 2 <= LONG_MAX
    case Array(rs) => |rs| <= INT_MAX && AllRanged(rs)
    case Hollow(n) => INT_MIN <= n
    case _ => true
  }

  predicate AllRanged(rs: seq<Reply>) { rs != [] ==> Ranged(rs[0]) && AllRanged(rs[1..]) }

  predicate AllPrintable(rs: seq<Reply>, depth: nat) {
    rs != [] ==> Printable(rs[0], depth) && AllPrintable(rs[1..], depth)
  }

  // ---------- Facts ----------

  /** A line ending once found stays the first one when more bytes arrive. */
  lemma {:induction false} NewlineStays(s: bytes, more: bytes, from: nat)
    requires from <= |s| && Newline(s, from).Some?
    ensures Newline(s + more, from) == Newline(s, from)
    decreases |s| - from
  {
    if !(s[from] == CR && s[from + 1] == LF) { NewlineStays(s, more, from + 1); }
  }

  lemma NewlineIs(s: bytes, from: nat, n: nat)
    requires from <= n && n + 1 < |s| && s[n] == CR && s[n + 1] == LF
    requires forall j :: from <= j < n ==> !(s[j] == CR && s[j + 1] == LF)
    ensures Newline(s, from) == Some(n)
  {
  }

  /** A line without CR, and what follows it. */
  lemma LineEnds(line: bytes, more: bytes)
    requires Newline(line + CRLF, 0) == Some(|line|)
    ensures Newline(line + CRLF + more, 0) == Some(|line|)
    ensures (line + CRLF + more)[..|line|] == line && (line + CRLF + more)[|line| + 2..] == more
  {
    NewlineStays(line + CRLF, more, 0);
  }

  lemma PlainLine(line: bytes)
    requires forall b :: b in line ==> b != CR
    ensures Newline(line + CRLF, 0) == Some(|line|)
  {
    var s := line + CRLF;
    forall j | 0 <= j < |line| ensures s[j] != CR { assert s[j] == line[j] && line[j] in line; }
    NewlineIs(s, 0, |line|);
  }

  lemma {:induction false} DigitsAppend(a: bytes, b: bytes, v: nat)
    requires forall x :: x in a ==> IsDigit(x)
    ensures Digits(a, v).Some? && Digits(a + b, v) == Digits(b, Digits(a, v).value)
  {
    if a == [] {
      assert a + b == b;
    } else {
      assert a[0] in a && forall x :: x in a[1..] ==> x in a;
      DigitsAppend(a[1..], b, v * 10 + (a[0] - 48));
      assert (a + b)[1..] == a[1..] + b;
    }
  }

  /** Reading back a printed number. */
  lemma {:induction false} DigitsOfDecimal(n: nat)
    ensures Digits(Decimal(n), 0) == Some(n)
  {
    if n >= 10 {
      DigitsOfDecimal(n / 10);
      DigitsAppend(Decimal(n / 10), [48 + n % 10], 0);
      assert Digits([48 + n % 10], n / 10) == Digits([], n / 10 * 10 + n % 10);
    } else {
      assert Digits([48 + n], 0) == Digits([], n);
    }
  }

  /** The accumulator does not overflow if and only if the number fits. */
  lemma {:induction false} DigitsFitIff(s: bytes, v: nat)
    requires Digits(s, v).Some? && v <= LONG_MAX
    ensures DigitsFit(s, v) <==> Digits(s, v).value <= LONG_MAX
    ensures Digits(s, v).value >= v
  {
    if s != [] && s[0] != CR {
      var w := v * 10 + (s[0] - 48);
      if w <= LONG_MAX { DigitsFitIff(s[1..], w); } else { DigitsGrow(s[1..], w); }
    }
  }

  lemma {:induction false} DigitsGrow(s: bytes, v: nat)
    requires Digits(s, v).Some?
    ensures Digits(s, v).value >= v
  {
    if s != [] && s[0] != CR { DigitsGrow(s[1..], v * 10 + (s[0] - 48)); }
  }

  lemma NumberOfDecimal(n: nat)
    ensures Number(Decimal(n)) == n && Number([45] + Decimal(n)) == -(n as int)
  {
    DigitsOfDecimal(n);
    assert Decimal(n)[0] in Decimal(n);
    assert ([45] + Decimal(n))[1..] == Decimal(n);
  }

  /** The first of several elements, and the others. */
  lemma ItemsStep(bounded: bool, d: nat, k: nat, s: bytes)
    requires k > 0
    ensures ParseItems(bounded, d, k, s) ==
      match ParseReply(bounded, d, s)
      case More => More
      case Fail(e) => Fail(e)
      case Done(w, rest) =>
        match ParseItems(bounded, d, k - 1, rest)
        case More => More
        case Fail(e) => Fail(e)
        case Done(ws, rest') => Done([w] + ws, rest')
  {
  }

  /** A bulk string whose line is complete. */
  lemma BulkLine(bounded: bool, depth: nat, s: bytes, n: nat)
    requires Newline(s, 0) == Some(n)
    ensures ParseTyped(bounded, depth, BulkKind, s) ==
      if bounded && !Fits(BulkKind, s[..n]) then Fail(OutOfRange) else ParseBulk(s, n)
  {
  }

  /** An array whose line is complete. */
  lemma ArrayLine(bounded: bool, depth: nat, s: bytes, n: nat)
    requires Newline(s, 0) == Some(n) && depth != MAX_DEPTH
    ensures var count := Number(s[..n]);
      ParseTyped(bounded, depth, ArrayKind, s) ==
        if bounded && !Fits(ArrayKind, s[..n]) then Fail(OutOfRange)
        else if count <= 0 then Done(NoElements(count), s[n + 2..])
        else match ParseItems(bounded, depth + 1, count, s[n + 2..])
          case Done(vs, rest) => Done(Array(vs), rest)
          case More => More
          case Fail(e) => Fail(e)
  {
  }

  /** A type byte and its line, with any bytes behind them. */
  lemma TypeAndLine(bounded: bool, b: byte, kind: Kind, depth: nat, line: bytes, more: bytes)
    requires KindOf(b) == Some(kind) && Newline(line + CRLF, 0) == Some(|line|)
    ensures var s := [b] + line + CRLF + more;
      && ParseReply(bounded, depth, s) == ParseTyped(bounded, depth, kind, line + CRLF + more)
      && Newline(line + CRLF + more, 0) == Some(|line|)
      && (line + CRLF + more)[..|line|] == line && (line + CRLF + more)[|line| + 2..] == more
  {
    assert ([b] + line + CRLF + more)[1..] == line + CRLF + more;
    LineEnds(line, more);
  }

  /** The replies that are a type byte and one line. */
  lemma OneLine(bounded: bool, b: byte, kind: Kind, depth: nat, line: bytes, more: bytes)
    requires KindOf(b) == Some(kind) && Newline(line + CRLF, 0) == Some(|line|)
    requires (kind == ArrayKind ==> depth < MAX_DEPTH && Number(line) <= 0) && (kind == BulkKind ==> Number(line) < 0)
    requires bounded ==> Fits(kind, line)
    ensures ParseReply(bounded, depth, [b] + line + CRLF + more) ==
      Done(if kind == ArrayKind then NoElements(Number(line)) else if kind == BulkKind then Nil else LineValue(kind, line), more)
  {
    TypeAndLine(bounded, b, kind, depth, line, more);
  }

  lemma NumberLine(v: int)
    ensures var line := if v < 0 then [45] + Decimal(-v) else Decimal(v);
      && Newline(line + CRLF, 0) == Some(|line|) && Number(line) == v
      && (-LONG_MAX <= v <= LONG_MAX ==> NumberFits(line))
  {
    var n := if v < 0 then -v else v;
    NumberOfDecimal(n);
    DigitsOfDecimal(n);
    if n <= LONG_MAX { DigitsFitIff(Decimal(n), 0); }
    assert Decimal(n)[0] in Decimal(n);
    assert ([45] + Decimal(n))[1..] == Decimal(n);
    PlainLine(Decimal(n));
    PlainLine([45] + Decimal(n));
  }

  lemma ParsePrintInteger(bounded: bool, v: int, depth: nat, more: bytes)
    requires bounded ==> -LONG_MAX <= v <= LONG_MAX
    ensures ParseReply(bounded, depth, Print(Integer(v)) + more) == Done(Integer(v), more)
  {
    hide ParseReply, Number, NumberFits, Newline, Decimal;
    NumberLine(v);
    OneLine(bounded, 58, IntegerKind, depth, if v < 0 then [45] + Decimal(-v) else Decimal(v), more);
  }

  lemma ParsePrintHollow(bounded: bool, n: int, depth: nat, more: bytes)
    requires depth < MAX_DEPTH && n < -1 && (bounded ==> INT_MIN <= n)
    ensures ParseReply(bounded, depth, Print(Hollow(n)) + more) == Done(Hollow(n), more)
  {
    hide ParseReply, Number, NumberFits, Newline, Decimal;
    NumberLine(n);
    assert Print(Hollow(n)) == [42] + ([45] + Decimal(-n)) + CRLF;
    OneLine(bounded, 42, ArrayKind, depth, [45] + Decimal(-n), more);
  }

  lemma ParsePrintNil(bounded: bool, depth: nat, more: bytes)
    ensures ParseReply(bounded, depth, Print(Nil) + more) == Done(Nil, more)
  {
    hide ParseReply, Number, NumberFits, Newline;
    NumberLine(-1);
    assert [45] + Decimal(1) == Ascii("-1");
    assert Print(Nil) + more == [36] + Ascii("-1") + CRLF + more;
    OneLine(bounded, 36, BulkKind, depth, Ascii("-1"), more);
  }

  /** Any printed reply, with any bytes behind it, is read back. */
  lemma {:induction false} ParsePrint(bounded: bool, r: Reply, depth: nat, more: bytes)
    requires Printable(r, depth) && (bounded ==> Ranged(r))
    ensures ParseReply(bounded, depth, Print(r) + more) == Done(r, more)
    decreases r, 0
  {
    hide ParseReply, Number, Newline, NumberFits, Decimal;
    match r
    case Array(rs) => ParsePrintArray(bounded, rs, depth, more);
    case Bulk(t) => ParsePrintBulk(bounded, t, depth, more);
    case Nil => ParsePrintNil(bounded, depth, more);
    case Integer(v) => ParsePrintInteger(bounded, v, depth, more);
    case Status(t) => OneLine(bounded, 43, StatusKind, depth, t, more);
    case Error(t) => OneLine(bounded, 45, ErrorKind, depth, t, more);
    case Hollow(n) => ParsePrintHollow(bounded, n, depth, more);
  }

  lemma CutBulk(line: bytes, t: bytes, more: bytes)
    ensures var s, n := line + CRLF + (t + CRLF + more), |line| + 2;
      n + |t| + 2 <= |s| && s[n..n + |t|] == t && s[n + |t| + 2..] == more && s[..|line|] == line
  {
  }

  lemma BulkBody(line: bytes, t: bytes, more: bytes)
    requires Number(line) == |t|
    ensures ParseBulk(line + CRLF + (t + CRLF + more), |line|) == Done(Bulk(t), more)
  {
    CutBulk(line, t, more);
    hide Number;
  }

  lemma ParsePrintBulk(bounded: bool, t: bytes, depth: nat, more: bytes)
    requires bounded ==> |t| + 2 <= LONG_MAX
    ensures ParseReply(bounded, depth, Print(Bulk(t)) + more) == Done(Bulk(t), more)
  {
    var d, tail := Decimal(|t|), t + CRLF + more;
    assert Print(Bulk(t)) + more == [36] + d + CRLF + tail;
    hide ParseReply, ParseTyped, Number, Newline, Decimal, ParseBulk, Print;
    NumberLine(|t|);
    TypeAndLine(bounded, 36, BulkKind, depth, d, tail);
    BulkLine(bounded, depth, d + CRLF + tail, |d|);
    BulkBody(d, t, more);
  }

  lemma ParsePrintArray(bounded: bool, rs: seq<Reply>, depth: nat, more: bytes)
    requires Printable(Array(rs), depth) && (bounded ==> Ranged(Array(rs)))
    ensures ParseReply(bounded, depth, Print(Array(rs)) + more) == Done(Array(rs), more)
    decreases rs, 2
  {
    hide ParseReply, ParseTyped, Number, NumberFits, Newline, Decimal, Print, PrintAll, Ranged;
    var d, tail := Decimal(|rs|), PrintAll(rs) + more;
    PrintArray(rs, more);
    RangedArray(rs);
    NumberLine(|rs|);
    TypeAndLine(bounded, 42, ArrayKind, depth, d, tail);
    ArrayLine(bounded, depth, d + CRLF + tail, |d|);
    if rs != [] { ParsePrintAll(bounded, rs, depth + 1, more); }
  }

  lemma PrintArray(rs: seq<Reply>, more: bytes)
    ensures Print(Array(rs)) + more == [42] + Decimal(|rs|) + CRLF + (PrintAll(rs) + more)
    ensures rs == [] ==> PrintAll(rs) + more == more
  {
  }

  lemma RangedArray(rs: seq<Reply>)
    ensures Ranged(Array(rs)) ==> |rs| <= INT_MAX && AllRanged(rs)
  {
  }

  lemma ItemsCons(bounded: bool, depth: nat, k: nat, s: bytes, r: Reply, x: bytes, rs: seq<Reply>, more: bytes)
    requires ParseReply(bounded, depth, s) == Done(r, x) && ParseItems(bounded, depth, k, x) == Done(rs, more)
    ensures ParseItems(bounded, depth, k + 1, s) == Done([r] + rs, more)
  {
  }

  lemma PrintAllCons(rs: seq<Reply>, depth: nat, more: bytes)
    requires rs != [] && AllPrintable(rs, depth)
    ensures PrintAll(rs) + more == Print(rs[0]) + (PrintAll(rs[1..]) + more) && [rs[0]] + rs[1..] == rs
    ensures Printable(rs[0], depth) && AllPrintable(rs[1..], depth)
    ensures AllRanged(rs) ==> Ranged(rs[0]) && AllRanged(rs[1..])
  {
    hide Print, Printable, Ranged;
  }

  lemma {:induction false} ParsePrintAll(bounded: bool, rs: seq<Reply>, depth: nat, more: bytes)
    requires AllPrintable(rs, depth) && (bounded ==> AllRanged(rs))
    ensures ParseItems(bounded, depth, |rs|, PrintAll(rs) + more) == Done(rs, more)
    decreases rs, 1
  {
    if rs == [] {
      assert PrintAll(rs) + more == more;
    } else {
      hide *;
      PrintAllCons(rs, depth, more);
      ParsePrint(bounded, rs[0], depth, PrintAll(rs[1..]) + more);
      ParsePrintAll(bounded, rs[1..], depth, more);
      ItemsCons(bounded, depth, |rs| - 1, PrintAll(rs) + more, rs[0], PrintAll(rs[1..]) + more, rs[1..], more);
    }
  }

  /** A concatenation of printed replies is read as exactly those replies, without an error. */
  lemma {:induction false} ParseAllPrinted(bounded: bool, rs: seq<Reply>)
    requires AllPrintable(rs, 0) && (bounded ==> AllRanged(rs))
    ensures ParseAll(bounded, PrintAll(rs)) == (rs, None)
  {
    if rs == [] {
      assert ParseReply(bounded, 0, []) == More;
    } else {
      ParsePrint(bounded, rs[0], 0, PrintAll(rs[1..]));
      ParseAllPrinted(bounded, rs[1..]);
      assert [rs[0]] + rs[1..] == rs;
    }
  }

  // ---------- Bounded and unbounded ----------

  /** Up to the first number that does not fit, the two parsers agree. */
  lemma {:induction false} BoundedTyped(depth: nat, kind: Kind, s: bytes)
    requires ParseTyped(true, depth, kind, s) != Fail(OutOfRange)
    ensures ParseTyped(true, depth, kind, s) == ParseTyped(false, depth, kind, s)
    decreases |s|, 0
  {
    if !(kind == ArrayKind && depth == MAX_DEPTH) && Newline(s, 0).Some? && kind == ArrayKind {
      var n := Newline(s, 0).value;
      if Number(s[..n]) > 0 { BoundedItems(depth + 1, Number(s[..n]), s[n + 2..]); }
    }
  }

  lemma {:induction false} BoundedReply(depth: nat, s: bytes)
    requires ParseReply(true, depth, s) != Fail(OutOfRange)
    ensures ParseReply(true, depth, s) == ParseReply(false, depth, s)
    decreases |s|, 0
  {
    if s != [] && KindOf(s[0]).Some? { BoundedTyped(depth, KindOf(s[0]).value, s[1..]); }
  }

  lemma {:induction false} BoundedItems(depth: nat, n: nat, s: bytes)
    requires ParseItems(true, depth, n, s) != Fail(OutOfRange)
    ensures ParseItems(true, depth, n, s) == ParseItems(false, depth, n, s)
    decreases |s|, n + 1
  {
    if n > 0 {
      BoundedReply(depth, s);
      var p := ParseReply(true, depth, s);
      if p.Done? { BoundedItems(depth, n - 1, p.rest); }
    }
  }

  /** When all numbers that the parser meets fit, the flag makes no difference. */
  lemma {:induction false} BoundedAll(s: bytes)
    requires ParseAll(true, s).1 != Some(OutOfRange)
    ensures ParseAll(true, s) == ParseAll(false, s)
    decreases |s|
  {
    BoundedReply(0, s);
    var p := ParseReply(true, 0, s);
    if p.Done? { BoundedAll(p.rest); }
  }
}
