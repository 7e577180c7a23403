/**
  Where the reader leaves the protocol: the count of an array is read as a long and kept as an int,
  so from 2^31 on the reader waits for another number of elements than the header promises.
 */
module ReaderLimits {
  import opened Bytes
  import opened CInt
  import opened Integers
  import opened Options
  import opened ReaderModel
  import opened Resp

  // ---------- One header ----------

  function Header(n: nat): bytes { [42] + Decimal(n) + CRLF }

  /** All numbers behind the header fit the C types. */
  predicate TailInRange(n: nat, tail: bytes) {
    match ParseItems(true, 1, n, tail)
    case Done(_, rest) => ReaderModel.InRange(rest)
    case More => true
    case Fail(e) => e != OutOfRange
  }

  /** The reader agrees with the parser on the header, for every tail and every way to cut it up. */
  ghost predicate HeaderAgrees(n: nat) {
    forall acts: seq<Action>, tail: bytes ::
      Calm(Start(), acts) && Fed(acts) == Header(n) + tail && TailInRange(n, tail) ==> AsParsed(acts)
  }

  lemma HeaderLine(bounded: bool, n: nat, tail: bytes)
    requires 0 < n
    ensures ParseReply(bounded, 0, Header(n) + tail) ==
      if bounded && n > INT_MAX then Fail(OutOfRange)
      else match ParseItems(bounded, 1, n, tail)
        case Done(vs, rest) => Done(Array(vs), rest)
        case More => More
        case Fail(e) => Fail(e)
  {
    var d := Decimal(n);
    hide ParseReply, ParseTyped, Number, NumberFits, Newline, Decimal;
    NumberLine(n);
    TypeAndLine(bounded, 42, ArrayKind, 0, d, tail);
    assert Header(n) + tail == [42] + d + CRLF + tail;
    ArrayLine(bounded, 0, d + CRLF + tail, |d|);
  }

  // ---------- One element ----------

  /** An integer reply. */
  const ONE: bytes := [58, 49, 13, 10]

  lemma OneReply(bounded: bool, depth: nat, s: bytes)
    ensures ParseReply(bounded, depth, ONE + s) == Done(Integer(1), s)
  {
    var line: bytes := [49];
    assert line == Decimal(1);
    NumberLine(1);
    assert ONE + s == [58] + line + CRLF + s;
    hide ParseReply, Number, NumberFits, Newline;
    OneLine(bounded, 58, IntegerKind, depth, line, s);
  }

  /** `k` elements. */
  function Ones(k: nat): bytes { if k == 0 then [] else ONE + Ones(k - 1) }

  /** Fewer elements than the count: the parser waits. */
  lemma {:induction false} FewOnes(bounded: bool, n: nat, k: nat)
    requires k < n
    ensures ParseItems(bounded, 1, n, Ones(k)) == More
  {
    if k > 0 {
      OneReply(bounded, 1, Ones(k - 1));
      FewOnes(bounded, n - 1, k - 1);
      hide ParseReply;
    }
  }

  // ---------- The reader on these bytes ----------

  /** A task that reads an element of an array opened with the count `c`; nothing is left to read. */
  ghost predicate Waiting(m: Machine, c: int, i: nat) {
    && |m.stack| == 2 && m.stack[1] == NewFrame(i)
    && m.stack[0].kind == Some(ArrayKind) && m.stack[0].elements == c
    && |m.stack[0].slots| == (if c > 0 then c else 0) && (c > 0 ==> i < c)
    && m.pos == |m.buf| < TRIM && m.reply.None? && m.err.None?
  }

  /** The line behind a type byte. */
  lemma LineOf(line: bytes, tail: bytes)
    requires Newline(line + CRLF, 0) == Some(|line|) && |line + CRLF + tail| < TWO_GB
    ensures LineEnd(line + CRLF + tail) == Some(|line|) && (line + CRLF + tail)[..|line|] == line
  {
    LineEnds(line, tail);
    LineEndIsNewline(line + CRLF + tail);
  }

  lemma CutLine(buf: bytes, pos: nat, b: byte, line: bytes, tail: bytes)
    requires pos <= |buf| && buf[pos..] == [b] + line + CRLF + tail
    ensures pos + 1 + |line| + 2 <= |buf| && buf[pos] == b
    ensures buf[pos + 1..] == line + CRLF + tail && buf[pos + 1 + |line| + 2..] == tail
  {
    assert buf[pos + 1..] == buf[pos..][1..] == line + CRLF + tail;
    assert buf[pos + 1 + |line| + 2..] == buf[pos + 1..][|line| + 2..];
  }

  lemma AfterType(m: Machine, b: byte, kind: Kind, line: bytes, tail: bytes)
    requires m.stack != [] && m.stack[|m.stack| - 1].kind.None? && m.pos <= |m.buf| < TWO_GB
    requires Rest(m) == [b] + line + CRLF + tail && KindOf(b) == Some(kind) && Newline(line + CRLF, 0) == Some(|line|)
    ensures ProcessItem(m) == ProcessTyped(TakeType(m, kind), kind)
    ensures var m' := TakeType(m, kind);
      LineEnd(Rest(m')) == Some(|line|) && Rest(m')[..|line|] == line && m'.pos + |line| + 2 <= |m.buf| && m.buf[m'.pos + |line| + 2..] == tail
  {
    hide ProcessTyped, Newline, LineEnd, KindOf;
    CutLine(m.buf, m.pos, b, line, tail);
    LineOf(line, tail);
  }

  /** processItem on an element. */
  lemma OneItem(m: Machine, tail: bytes)
    requires |m.stack| == 2 && m.stack[1].kind.None? && m.pos <= |m.buf| < TWO_GB && Rest(m) == ONE + tail
    ensures ProcessItem(m) == Completed(TakeType(m, IntegerKind), Integer(1), m.pos + 4)
    ensures m.pos + 4 <= |m.buf| && m.buf[m.pos + 4..] == tail
  {
    var line: bytes := [49];
    assert line == Decimal(1);
    NumberLine(1);
    assert Rest(m) == [58] + line + CRLF + tail;
    hide Number, NumberFits, Newline, LineEnd, Completed;
    AfterType(m, 58, IntegerKind, line, tail);
  }

  /** What the element makes of the stack. */
  lemma OneCompletes(m: Machine, c: int, i: nat, tail: bytes)
    requires |m.stack| == 2 && m.stack[1] == NewFrame(i) && m.stack[0].kind == Some(ArrayKind) && m.stack[0].elements == c
    requires |m.stack[0].slots| == (if c > 0 then c else 0) && (c > 0 ==> i < c) && m.reply.None? && m.err.None?
    requires m.pos <= |m.buf| < TWO_GB && Rest(m) == ONE + tail
    ensures var (m', ok) := ProcessItem(m); var slots := m.stack[0].slots;
      if c <= 0 then (m', ok) == (SetError(Lost), false)
      else
        && ok && m'.err.None? && m'.buf == m.buf && m'.pos == m.pos + 4 && Rest(m') == tail
        && if i == c - 1 then m'.stack == [] && m'.reply == Some(Array(Values(slots[i := Some(Integer(1))])))
           else m'.reply.None? && m'.stack == [m.stack[0].(slots := slots[i := Some(Integer(1))]), NewFrame(i + 1)]
  {
    OneItem(m, tail);
    hide ProcessItem, LineEnd, Number, Values;
    var m1 := TakeType(m, IntegerKind);
    assert m1.stack == [m.stack[0], m1.stack[1]] && m1.stack[1].idx == i;
    if c > 0 { FinishTwo(m1.stack, c, i); }
  }

  lemma FinishTwo(stack: seq<Frame>, c: nat, i: nat)
    requires |stack| == 2 && stack[1].idx == i < c == stack[0].elements == |stack[0].slots|
    ensures var filled := stack[0].(slots := stack[0].slots[i := Some(Integer(1))]);
      Finish(stack, Integer(1)) ==
        if i == c - 1 then ([], Some(Array(Values(filled.slots)))) else ([filled, NewFrame(i + 1)], None)
  {
    var filled := stack[0].(slots := stack[0].slots[i := Some(Integer(1))]);
    assert stack[..0] + [filled] == [filled] && stack[..0] + [filled, NewFrame(i + 1)] == [filled, NewFrame(i + 1)];
    assert Finish([filled], Array(Values(filled.slots))) == ([], Some(Array(Values(filled.slots))));
  }

  /** Nothing to read. */
  lemma LoopStops(m: Machine)
    requires m.stack != [] && m.stack[|m.stack| - 1].kind.None? && Rest(m) == []
    ensures Loop(m) == m
  {
  }

  /** The loop of one call. */
  lemma OneLoop(m: Machine, c: int, i: nat)
    requires |m.stack| == 2 && m.stack[1] == NewFrame(i) && m.stack[0].kind == Some(ArrayKind) && m.stack[0].elements == c
    requires |m.stack[0].slots| == (if c > 0 then c else 0) && (c > 0 ==> i < c) && m.reply.None? && m.err.None?
    requires m.pos <= |m.buf| < TWO_GB && Rest(m) == ONE
    ensures Loop(m) == ProcessItem(m).0
  {
    assert Rest(m) == ONE + [];
    OneCompletes(m, c, i, []);
    hide ProcessItem, Values;
    var (m', ok) := ProcessItem(m);
    if ok && m'.stack != [] { LoopStops(m'); }
  }

  lemma FeedOne(m: Machine, c: int, i: nat)
    requires Waiting(m, c, i)
    ensures var m0 := Feed(m, ONE);
      && m0.err.None? && m0.stack == m.stack && m0.reply.None? && m0.buf != [] && Rest(m0) == ONE == ONE + []
      && |m0.buf| < TWO_GB && m0.pos + 4 == |m0.buf|
  {
  }

  /** One element at a time: the reader counts to `c`, or loses its way when there is no element vector. */
  lemma OneCall(m: Machine, c: int, i: nat)
    requires Waiting(m, c, i)
    ensures var (m', out) := GetReply(Feed(m, ONE));
      if c <= 0 then out == Failed(Lost) else if i == c - 1 then out.Ready? else out.NoReply? && Waiting(m', c, i + 1)
  {
    var m0 := Feed(m, ONE);
    hide Feed;
    FeedOne(m, c, i);
    OneLoop(m0, c, i);
    OneCompletes(m0, c, i, []);
    hide Loop, ProcessItem, Values, Rest;
    TrimEmpty(Loop(m0));
  }

  /** Trimming when everything has been read. */
  lemma TrimEmpty(m: Machine)
    requires m.pos == |m.buf| < TWO_GB
    ensures var m' := Trim(m); m'.pos == |m'.buf| < TRIM && m' == m.(buf := m'.buf, pos := m'.pos)
  {
    TrimKeeps(m);
  }

  // ---------- The header ----------

  lemma {:induction false} FewDigits(n: nat, k: nat)
    requires n < Pow10(k) && k > 0
    ensures |Decimal(n)| <= k
  {
    if n >= 10 { FewDigits(n / 10, k - 1); }
  }

  lemma ShortHeader(n: nat)
    requires n <= LONG_MAX
    ensures |Header(n)| <= 22
  {
    Powers();
    FewDigits(n, 19);
  }

  /** The state in which the reader opens an array of `c` elements. */
  function Opened(m: Machine, c: int, pos: nat): Machine {
    m.(stack := [Frame(Some(ArrayKind), c, -1, seq(if c > 0 then c else 0, _ => None)), NewFrame(0)], pos := pos)
  }

  /** The line of the header. */
  lemma HeaderSplit(n: nat, tail: bytes)
    requires n <= LONG_MAX
    ensures var d := Decimal(n);
      && Header(n) + tail == [42] + d + CRLF + tail && |Header(n)| == |d| + 3 <= 22
      && Newline(d + CRLF, 0) == Some(|d|) && Number(d) == n && NumberFits(d)
  {
    hide Number, NumberFits, Newline, Decimal;
    NumberLine(n);
    ShortHeader(n);
  }

  /** processItem on the header: the count goes into an int. */
  lemma HeaderItem(m: Machine, n: nat, tail: bytes)
    requires m.stack == [NewFrame(-1)] && m.pos <= |m.buf| < TWO_GB && Rest(m) == Header(n) + tail && 0 < n <= LONG_MAX
    ensures var pos := m.pos + |Header(n)|;
      ProcessItem(m) == (Opened(m, ToInt(n), pos), true) && pos <= |m.buf| && m.buf[pos..] == tail
  {
    hide Number, NumberFits, Newline, LineEnd, Decimal, Header, ProcessItem, Rest, Open, ToInt;
    HeaderSplit(n, tail);
    AfterType(m, 42, ArrayKind, Decimal(n), tail);
    OpenFirst(TakeType(m, ArrayKind).stack, ToInt(n));
  }

  lemma OpenFirst(stack: seq<Frame>, c: int)
    requires stack == [NewFrame(-1).(kind := Some(ArrayKind))]
    ensures Open(stack, c) == [Frame(Some(ArrayKind), c, -1, seq(if c > 0 then c else 0, _ => None)), NewFrame(0)]
  {
  }

  lemma HeaderCall(n: nat)
    requires 0 < n <= LONG_MAX
    ensures var (m, out) := GetReply(Feed(Start(), Header(n)));
      out == NoReply && Waiting(m, ToInt(n), 0)
  {
    ShortHeader(n);
    var m := Machine([NewFrame(-1)], Header(n), 0, None, None);
    assert Feed(Start(), Header(n)).buf == Header(n) && Rest(m) == Header(n) + [];
    HeaderItem(m, n, []);
    var m' := Opened(m, ToInt(n), |Header(n)|);
    hide ProcessItem, Header, ToInt;
    LoopStops(m');
  }

  // ---------- A run that goes wrong ----------

  /** The elements one by one, with a call after each. */
  function OneByOne(k: nat): seq<Action> {
    if k == 0 then [] else [FeedBytes(ONE), AskReply] + OneByOne(k - 1)
  }

  lemma {:induction false} FedOnes(k: nat)
    ensures Fed(OneByOne(k)) == Ones(k)
  {
    if k > 0 {
      FedTwo(ONE, OneByOne(k - 1));
      FedOnes(k - 1);
    }
  }

  lemma FedTwo(data: bytes, acts: seq<Action>)
    ensures Fed([FeedBytes(data), AskReply] + acts) == data + Fed(acts)
  {
    var all := [FeedBytes(data), AskReply] + acts;
    assert all[1..] == [AskReply] + acts && all[1..][1..] == acts;
  }

  /** One element and its call first. */
  lemma RunTwo(m: Machine, data: bytes, acts: seq<Action>)
    ensures var all := [FeedBytes(data), AskReply] + acts; var (m1, out) := GetReply(Feed(m, data));
      && Run(m, all) == (Run(m1, acts).0, [out] + Run(m1, acts).1)
      && (Calm(m, all) <==> |Feed(m, data).buf| < TWO_GB && Calm(m1, acts))
  {
    hide GetReply, Feed;
    var all := [FeedBytes(data), AskReply] + acts;
    assert all[1..] == [AskReply] + acts && all[1..][1..] == acts;
  }

  /** An outcome that no parser gives while it waits for more bytes. */
  predicate Wrong(outs: seq<Outcome>) {
    outs != [] && (outs[|outs| - 1].Ready? || outs[|outs| - 1] == Failed(Lost))
  }

  lemma {:induction false} CountsTo(m: Machine, c: int, i: nat, k: nat)
    requires Waiting(m, c, i) && i + k == (if c > 0 then c else 1) && k > 0
    ensures Calm(m, OneByOne(k)) && Wrong(Run(m, OneByOne(k)).1)
    decreases k
  {
    hide GetReply, Feed;
    var (m1, out) := GetReply(Feed(m, ONE));
    FeedOne(m, c, i);
    OneCall(m, c, i);
    hide Waiting;
    RunTwo(m, ONE, OneByOne(k - 1));
    if k > 1 { CountsTo(m1, c, i + 1, k - 1); }
  }

  /** The header, a call, and the elements one by one. */
  function HeaderThenOnes(n: nat, k: nat): seq<Action> { [FeedBytes(Header(n)), AskReply] + OneByOne(k) }

  lemma {:induction false} EndsWithCall(first: seq<Action>, k: nat)
    requires k > 0
    ensures var acts := first + OneByOne(k); acts != [] && acts[|acts| - 1].AskReply?
    decreases k
  {
    if k > 1 {
      EndsWithCall(first + [FeedBytes(ONE), AskReply], k - 1);
      assert first + OneByOne(k) == first + [FeedBytes(ONE), AskReply] + OneByOne(k - 1);
    }
  }

  /** With such an outcome at its end a run has returned a reply or has failed. */
  lemma {:induction false} WrongOutcome(first: seq<Outcome>, outs: seq<Outcome>)
    requires Wrong(outs)
    ensures Wrong(first + outs) && (outs[|outs| - 1].Ready? ==> Replies(first + outs) != [])
    decreases |first| + |outs|
  {
    var all := first + outs;
    if first != [] {
      assert all[1..] == first[1..] + outs;
      WrongOutcome(first[1..], outs);
    } else {
      assert all == outs;
      if |outs| > 1 {
        assert [] + outs[1..] == outs[1..];
        WrongOutcome([], outs[1..]);
      }
    }
  }

  /** What the reader makes of the header and the elements that it counts to. */
  lemma WrongRun(n: nat, k: nat)
    requires 0 < n <= LONG_MAX && k == if ToInt(n) > 0 then ToInt(n) else 1
    ensures var acts := HeaderThenOnes(n, k); var outs := Run(Start(), acts).1;
      && Calm(Start(), acts) && Fed(acts) == Header(n) + Ones(k)
      && Wrong(outs) && (outs[|outs| - 1].Ready? ==> Replies(outs) != [])
  {
    hide Header, Ones, OneByOne, GetReply, Run, Calm, Replies, Fed, Waiting, ToInt;
    ShortHeader(n);
    FedTwo(Header(n), OneByOne(k));
    FedOnes(k);
    HeaderCall(n);
    var (m, out) := GetReply(Feed(Start(), Header(n)));
    CountsTo(m, ToInt(n), 0, k);
    RunTwo(Start(), Header(n), OneByOne(k));
    WrongOutcome([out], Run(m, OneByOne(k)).1);
  }

  /** The parser waits for the elements that are missing. */
  lemma ParserWaits(n: nat, k: nat)
    requires k < n
    ensures TailInRange(n, Ones(k)) && ParseAll(false, Header(n) + Ones(k)) == ([], None)
  {
    hide Header, Ones, ParseReply, ParseItems;
    FewOnes(true, n, k);
    FewOnes(false, n, k);
    HeaderLine(false, n, Ones(k));
  }

  lemma WrongDisagrees(acts: seq<Action>)
    requires ParseAll(false, Fed(acts)) == ([], None) && acts != [] && acts[|acts| - 1].AskReply?
    requires var outs := Run(Start(), acts).1; Wrong(outs) && (outs[|outs| - 1].Ready? ==> Replies(outs) != [])
    ensures !AsParsed(acts)
  {
    hide ParseAll, Run, Fed, Replies;
  }

  /** For a count from 2^31 on: the elements that the reader counts to, and the parser waits for more. */
  lemma HeaderFails(n: nat)
    requires TWO_GB <= n <= LONG_MAX
    ensures var k := if ToInt(n) > 0 then ToInt(n) else 1; var acts := HeaderThenOnes(n, k);
      Calm(Start(), acts) && Fed(acts) == Header(n) + Ones(k) && TailInRange(n, Ones(k)) && !AsParsed(acts)
  {
    var k := if ToInt(n) > 0 then ToInt(n) else 1;
    hide Header, Ones, OneByOne, Calm, Replies, Run, TailInRange, ParseAll, Wrong, AsParsed, Fed;
    WrongRun(n, k);
    ParserWaits(n, k);
    EndsWithCall([FeedBytes(Header(n)), AskReply], k);
    WrongDisagrees(HeaderThenOnes(n, k));
  }

  /** The numbers of the whole string are in range when the count is an int and those of the tail are. */
  lemma HeaderInRange(n: nat, tail: bytes)
    requires 0 < n < TWO_GB && TailInRange(n, tail)
    ensures ReaderModel.InRange(Header(n) + tail)
  {
    hide ParseItems, ParseReply;
    HeaderLine(true, n, tail);
  }

  /**
    For one array header with a positive count that fits a long: the reader agrees with the parser,
    for every tail in range and every way to cut it up, if and only if the count is less than 2^31.
   */
  lemma HeaderAgreesIff(n: nat)
    requires 0 < n <= LONG_MAX
    ensures HeaderAgrees(n) <==> n < TWO_GB
  {
    hide Header, TailInRange, Calm, AsParsed, Fed;
    if n < TWO_GB {
      forall acts: seq<Action>, tail: bytes
        | Calm(Start(), acts) && Fed(acts) == Header(n) + tail && TailInRange(n, tail)
        ensures AsParsed(acts)
      {
        HeaderInRange(n, tail);
        ReaderRefinesParser(acts);
      }
    } else {
      HeaderFails(n);
    }
  }

  // ---------- Concrete streams ----------

  lemma CountDigits()
    ensures Decimal(429496729) == [52, 50, 57, 52, 57, 54, 55, 50, 57]
  {
    assert Decimal(4294) == [52, 50, 57, 52];
    assert Decimal(42949672) == Decimal(429496) + [55, 50];
  }

  lemma CountAscii()
    ensures Ascii("*4294967297") == [42, 52, 50, 57, 52, 57, 54, 55, 50, 57, 55]
    ensures Ascii("*4294967296") == [42, 52, 50, 57, 52, 57, 54, 55, 50, 57, 54]
  {
  }

  lemma CountText()
    ensures Header(4294967297) == Ascii("*4294967297") + CRLF && Header(4294967296) == Ascii("*4294967296") + CRLF
  {
    CountDigits();
    assert Decimal(4294967297) == Decimal(429496729) + [55] && Decimal(4294967296) == Decimal(429496729) + [54];
    CountAscii();
    hide Decimal, Ascii;
  }

  /** The reader on the header and one element in one buffer. */
  lemma BufferLoop(m: Machine, n: nat)
    requires m == Machine([NewFrame(-1)], Header(n) + ONE, 0, None, None) && 1 < n <= LONG_MAX && ToInt(n) <= 1
    ensures Loop(m).err == (if ToInt(n) == 1 then None else Some(Lost))
    ensures ToInt(n) == 1 ==> Loop(m).stack == [] && Loop(m).reply == Some(Array([Integer(1)]))
  {
    hide Header, ProcessItem, ToInt, Values;
    HeaderSplit(n, ONE);
    assert Rest(m) == m.buf;
    HeaderItem(m, n, ONE);
    var m' := Opened(m, ToInt(n), |Header(n)|);
    assert Rest(m') == ONE == ONE + [];
    OneLoop(m', ToInt(n), 0);
    OneCompletes(m', ToInt(n), 0, []);
    OneValue(m'.stack[0].slots);
  }

  lemma OneValue(slots: seq<Option<Reply>>)
    ensures |slots| == 1 ==> Values(slots[0 := Some(Integer(1))]) == [Integer(1)]
  {
  }

  lemma OneBuffer(n: nat)
    requires 1 < n <= LONG_MAX && ToInt(n) <= 1
    ensures var s := Header(n) + ONE;
      && GetReply(Feed(Start(), s)).1 == (if ToInt(n) == 1 then Ready(Array([Integer(1)])) else Failed(Lost))
      && ParseAll(false, s) == ([], None)
  {
    hide Header, Ones, Loop, ToInt, ParseAll;
    var s := Header(n) + ONE;
    OnesOne();
    ParserWaits(n, 1);
    assert Feed(Start(), s).buf == s;
    BufferLoop(Machine([NewFrame(-1)], s, 0, None, None), n);
  }

  lemma OnesOne()
    ensures Ones(1) == ONE
  {
    assert Ones(0) == [];
  }

  lemma OneAsk(s: bytes)
    ensures Run(Start(), [FeedBytes(s), AskReply]).1 == [GetReply(Feed(Start(), s)).1]
  {
    hide GetReply, Feed;
    RunTwo(Start(), s, []);
    assert [FeedBytes(s), AskReply] + [] == [FeedBytes(s), AskReply];
  }

  /** On these seventeen bytes the reader returns an array of one element where 4294967297 are announced. */
  lemma TruncatedCount()
    ensures var s := Ascii("*4294967297") + CRLF + Ascii(":1") + CRLF;
      && Run(Start(), [FeedBytes(s), AskReply]).1 == [Ready(Array([Integer(1)]))]
      && ParseAll(false, s) == ([], None)
  {
    var s := Ascii("*4294967297") + CRLF + Ascii(":1") + CRLF;
    CountText();
    assert s == Header(4294967297) + ONE;
    hide Run, GetReply, Feed, ParseAll, Header, Ascii;
    OneAsk(s);
    OneBuffer(4294967297);
  }

  /** On these the array gets no element vector, and its first element is stored through a NULL pointer. */
  lemma LostCount()
    ensures var s := Ascii("*4294967296") + CRLF + Ascii(":1") + CRLF;
      && Run(Start(), [FeedBytes(s), AskReply]).1 == [Failed(Lost)]
      && ParseAll(false, s) == ([], None)
  {
    var s := Ascii("*4294967296") + CRLF + Ascii(":1") + CRLF;
    CountText();
    assert s == Header(4294967296) + ONE;
    hide Run, GetReply, Feed, ParseAll, Header, Ascii;
    OneAsk(s);
    OneBuffer(4294967296);
  }

  // ---------- Long strings ----------

  function Zeros(k: nat): bytes { seq(k, _ => 0) }

  lemma ZerosLine(k: nat)
    ensures Newline(Zeros(k) + CRLF, 0) == Some(k)
  {
    PlainLine(Zeros(k));
  }

  /** seekNewline finds the first CR LF in all strings of `n` bytes, if and only if they are at most 2 GB. */
  lemma SeekLimitIff(n: nat)
    ensures (forall s: bytes :: |s| == n ==> LineEnd(s) == Newline(s, 0)) <==> n <= TWO_GB
  {
    if n <= TWO_GB {
      forall s: bytes | |s| == n ensures LineEnd(s) == Newline(s, 0) { LineEndIsNewline(s); }
    } else {
      ZerosLine(n - 2);
      var s := Zeros(n - 2) + CRLF;
      assert |s| == n && ToInt(|s| - 1) < n - 2;
    }
  }

  /** A status line of 2 GB is complete, and the reader does not find its end. */
  lemma LongLineMissed()
    ensures var line := Zeros(TWO_GB); var s := [43] + line + CRLF;
      && Run(Start(), [FeedBytes(s), AskReply]).1 == [NoReply]
      && ParseAll(false, s) == ([Status(line)], None)
  {
    var line := Zeros(TWO_GB);
    var s := [43] + line + CRLF;
    ZerosLine(TWO_GB);
    ParseLong(line);
    hide Newline, ParseAll, Zeros, Run, Seek;
    OneAsk(s);
    NoEnd(line + CRLF);
    assert s[1..] == line + CRLF;
    LongLoop(Machine([NewFrame(-1)], s, 0, None, None));
    assert Feed(Start(), s).buf == s;
  }

  lemma PrintLong(line: bytes)
    requires Newline(line + CRLF, 0) == Some(|line|)
    ensures PrintAll([Status(line)]) == [43] + line + CRLF && AllPrintable([Status(line)], 0)
  {
    hide Newline;
    assert [Status(line)][1..] == [] && PrintAll([]) == [];
    assert Print(Status(line)) + [] == [43] + line + CRLF;
  }

  lemma ParseLong(line: bytes)
    requires Newline(line + CRLF, 0) == Some(|line|)
    ensures ParseAll(false, [43] + line + CRLF) == ([Status(line)], None)
  {
    hide *;
    PrintLong(line);
    ParseAllPrinted(false, [Status(line)]);
  }

  lemma NoEnd(s: bytes)
    requires |s| == TWO_GB + 2
    ensures LineEnd(s) == None
  {
  }

  /** The type byte is read, and the line has no end. */
  lemma LongLoop(m: Machine)
    requires m.stack == [NewFrame(-1)] && m.pos == 0 && m.buf != [] && m.buf[0] == 43 && LineEnd(m.buf[1..]) == None
    ensures Loop(m) == TakeType(m, StatusKind)
  {
    hide LineEnd;
    var m' := TakeType(m, StatusKind);
    assert Rest(m') == m.buf[1..] && Rest(m) == m.buf;
    assert ProcessItem(m) == (m', false);
  }

  // ---------- Numbers and nesting ----------

  /** The line of an integer. */
  lemma IntegerLine(v: int)
    ensures var line := if v < 0 then [45] + Decimal(-v) else Decimal(v);
      && Print(Integer(v)) == [58] + line + CRLF && Newline(line + CRLF, 0) == Some(|line|) && Number(line) == v
      && (NumberFits(line) <==> -0x7FFF_FFFF_FFFF_FFFF <= v <= 0x7FFF_FFFF_FFFF_FFFF)
  {
    var n := if v < 0 then -v else v;
    NumberLine(v);
    DigitsOfDecimal(n);
    DigitsFitIff(Decimal(n), 0);
    assert Decimal(n)[0] in Decimal(n);
    assert ([45] + Decimal(n))[1..] == Decimal(n);
    hide Decimal, Newline, Number, Digits, DigitsFit;
  }

  /** An integer reply is returned, if and only if its digits fit a signed 64-bit accumulator. */
  lemma IntegerIff(v: int)
    requires |Print(Integer(v))| < TWO_GB
    ensures Run(Start(), [FeedBytes(Print(Integer(v))), AskReply]).1 ==
      [if -0x7FFF_FFFF_FFFF_FFFF <= v <= 0x7FFF_FFFF_FFFF_FFFF then Ready(Integer(v)) else Failed(Lost)]
  {
    hide Decimal, Newline, Number, NumberFits, LineEnd, Run, Print, ProcessItem;
    var s, line := Print(Integer(v)), if v < 0 then [45] + Decimal(-v) else Decimal(v);
    IntegerLine(v);
    OneAsk(s);
    var m := Machine([NewFrame(-1)], s, 0, None, None);
    assert Rest(m) == s == [58] + line + CRLF + [];
    AfterType(m, 58, IntegerKind, line, []);
    IntegerStep(TakeType(m, IntegerKind), line, v);
    assert Feed(Start(), s).buf == s;
  }

  lemma IntegerStep(m: Machine, line: bytes, v: int)
    requires |m.stack| == 1 && m.reply.None? && m.err.None? && m.pos <= |m.buf|
    requires LineEnd(Rest(m)) == Some(|line|) && Rest(m)[..|line|] == line && Number(line) == v && |m.buf| < TWO_GB
    ensures var (m', ok) := ProcessTyped(m, IntegerKind);
      if NumberFits(line) then ok && m'.stack == [] && m'.reply == Some(Integer(v)) && m'.err.None?
      else !ok && m' == SetError(Lost)
  {
    hide Number, NumberFits, Seek;
  }

  /** `d` arrays in each other, with an integer inside. */
  function Nested(d: nat): Reply { if d == 0 then Integer(1) else Array([Nested(d - 1)]) }

  lemma {:induction false} NestedPrints(d: nat, depth: nat)
    ensures Printable(Nested(d), depth) <==> depth + d <= 8 || d == 0
    ensures Ranged(Nested(d))
  {
    if d > 0 {
      NestedPrints(d - 1, depth + 1);
      var rs := [Nested(d - 1)];
      assert rs[1..] == [] && AllPrintable([], depth + 1) && AllRanged([]);
    }
  }

  lemma NestedText(d: nat)
    requires d > 0
    ensures Print(Nested(d)) == [42, 49] + CRLF + Print(Nested(d - 1))
  {
    var rs := [Nested(d - 1)];
    assert rs[1..] == [] && PrintAll([]) == [];
    assert PrintAll(rs) == Print(rs[0]) + [];
    assert Decimal(1) == [49];
    assert Print(Array(rs)) == [42] + Decimal(|rs|) + CRLF + PrintAll(rs);
  }

  /** The parser gives up at the ninth array. */
  lemma {:induction false} TooDeeplyNested(bounded: bool, d: nat, depth: nat)
    requires depth <= 8 < depth + d
    ensures ParseReply(bounded, depth, Print(Nested(d))) == Fail(TooDeep)
    decreases d
  {
    hide ParseReply, ParseTyped, Number, Newline, NumberFits, Print, Decimal, Nested, ParseItems;
    var tail := Print(Nested(d - 1));
    NestedText(d);
    OneLineOf(tail);
    TypeAndLine(bounded, 42, ArrayKind, depth, [49], tail);
    if depth == 8 {
      AtTheLimit(bounded, [49] + CRLF + tail);
    } else {
      ArrayLine(bounded, depth, [49] + CRLF + tail, 1);
      TooDeeplyNested(bounded, d - 1, depth + 1);
      ItemsStep(bounded, depth + 1, 1, tail);
    }
  }

  lemma OneLineOf(tail: bytes)
    ensures [42, 49] + CRLF + tail == [42] + [49] + CRLF + tail
    ensures Newline([49] + CRLF, 0) == Some(1) && Number([49]) == 1 && NumberFits([49])
  {
    assert Decimal(1) == [49];
    NumberLine(1);
    hide Number, Newline, NumberFits;
  }

  lemma AtTheLimit(bounded: bool, s: bytes)
    ensures ParseTyped(bounded, 8, ArrayKind, s) == Fail(TooDeep)
  {
  }

  /** Arrays in each other are returned up to eight, seven inside the first one; with nine the reader reports an error. */
  lemma NestingIff(d: nat)
    requires |Print(Nested(d))| < TWO_GB
    ensures Run(Start(), [FeedBytes(Print(Nested(d))), AskReply]).1 == [if d <= 8 then Ready(Nested(d)) else Failed(TooDeep)]
  {
    var s := Print(Nested(d));
    var acts := [FeedBytes(s), AskReply];
    OneFed(s);
    hide Print, Nested, Run, GetReply, ParseReply;
    OneAsk(s);
    FewBytesAreCalm(Start(), acts);
    NestingParsed(d);
    ReaderRefinesParser(acts);
    var out := GetReply(Feed(Start(), s)).1;
    OnlyReply(out);
    assert acts[1].AskReply? && Run(Start(), acts).1[0] == out;
    if out.Ready? && d <= 8 { assert [out.reply][0] == [Nested(d)][0]; }
  }

  lemma OnlyReply(out: Outcome)
    ensures Replies([out]) == if out.Ready? then [out.reply] else []
  {
    assert [out][1..] == [] && Replies([]) == [];
  }

  lemma OneFed(s: bytes)
    ensures Fed([FeedBytes(s), AskReply]) == s
  {
    FedTwo(s, []);
    assert [FeedBytes(s), AskReply] + [] == [FeedBytes(s), AskReply] && Fed([]) == [];
  }

  lemma NestingParsed(d: nat)
    ensures var s := Print(Nested(d));
      ReaderModel.InRange(s) && ParseAll(false, s) == if d <= 8 then ([Nested(d)], None) else ([], Some(TooDeep))
  {
    var rs := [Nested(d)];
    NestedPrints(d, 0);
    assert rs[1..] == [] && PrintAll([]) == [];
    assert PrintAll(rs) == Print(Nested(d)) + [] == Print(Nested(d));
    if d <= 8 {
      assert AllPrintable(rs, 0) && AllRanged(rs);
      hide ParseAll, Print, Nested;
      ParseAllPrinted(true, rs);
      ParseAllPrinted(false, rs);
    } else {
      hide ParseReply, Print, Nested;
      TooDeeplyNested(true, d, 0);
      TooDeeplyNested(false, d, 0);
    }
  }
}
