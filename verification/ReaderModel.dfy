/**
  The reply reader of hiredis.c as a value: a stack of at most nine tasks that can stop at any
  byte and go on when more bytes come, with its numbers in the C types of the code.  The later
  parts prove that, however the bytes are cut up and whenever the caller asks, it returns the
  replies of the recursive parser in `Resp`, as long as the numbers and the buffer fit these types.
 */
module ReaderModel {
  import opened Bytes
  import opened CInt
  import opened Options
  import opened Resp
  import Sds

  const SLOTS: nat := 9
  const TRIM: nat := 1024

  /**
    redisReadTask: `kind` is None before the type byte has been read; `idx` is the task's place in
    its parent; the slots are the elements of the array that the task builds.
   */
  datatype Frame = Frame(kind: Option<Kind>, elements: int, idx: int, slots: seq<Option<Reply>>)

  /** redisReader: the stack holds the tasks up to `ridx`, and the length of `buf` is `len`. */
  datatype Machine = Machine(stack: seq<Frame>, buf: bytes, pos: nat, reply: Option<Reply>, err: Option<Fault>)

  datatype Outcome = NoReply | Ready(reply: Reply) | Failed(fault: Fault)

  function Start(): Machine { Machine([], [], 0, None, None) }

  function NewFrame(idx: int): Frame { Frame(None, -1, idx, []) }

  function Rest(m: Machine): bytes { if m.pos <= |m.buf| then m.buf[m.pos..] else [] }

  // ---------- Lines ----------

  /** seekNewline, with the length as it converts it: the outer loop at `pos`. */
  function Seek(s: bytes, pos: nat, len: int): (r: Option<nat>)
    requires len < |s|
    ensures r.Some? ==> pos <= r.value <= len && r.value + 1 < |s| && s[r.value] == CR && s[r.value + 1] == LF
    decreases |s| - pos, 1
  {
    if pos >= len then None else SeekCr(s, pos, len)
  }

  /** Its inner loop, and the test behind it. */
  function SeekCr(s: bytes, pos: nat, len: int): (r: Option<nat>)
    requires pos <= len < |s|
    ensures r.Some? ==> pos <= r.value <= len && r.value + 1 < |s| && s[r.value] == CR && s[r.value + 1] == LF
    decreases |s| - pos, 0
  {
    if s[pos] != CR then (if pos < len then SeekCr(s, pos + 1, len) else None)
    else if pos + 1 < |s| && s[pos + 1] == LF then Some(pos)
    else Seek(s, pos + 1, len)
  }

  function LineEnd(s: bytes): (r: Option<nat>)
    ensures r.Some? ==> r.value + 1 < |s| && s[r.value] == CR && s[r.value + 1] == LF
  {
    Seek(s, 0, ToInt(|s| - 1))
  }

  lemma {:induction false} SeekIsNewline(s: bytes, pos: nat)
    requires pos <= |s|
    ensures Seek(s, pos, |s| - 1) == Newline(s, pos)
    ensures pos < |s| ==> SeekCr(s, pos, |s| - 1) == Newline(s, pos)
    decreases |s| - pos
  {
    if pos < |s| { SeekIsNewline(s, pos + 1); }
  }

  /** Up to 2 GB seekNewline finds the first CR LF. */
  lemma LineEndIsNewline(s: bytes)
    requires |s| <= TWO_GB
    ensures LineEnd(s) == Newline(s, 0)
  {
    SeekIsNewline(s, 0);
  }

  // ---------- Steps ----------

  function Values(slots: seq<Option<Reply>>): (r: seq<Reply>)
    ensures |r| == |slots|
  {
    seq(|slots|, i requires 0 <= i < |slots| => match slots[i] case Some(v) => v case None => Nil)
  }

  /** The new object goes into its parent, and moveToNextTask; the second result is the reply when it is complete. */
  function Finish(stack: seq<Frame>, v: Reply): (r: (seq<Frame>, Option<Reply>))
    ensures |r.0| <= |stack|
    decreases |stack|
  {
    var n := |stack|;
    if n <= 1 then ([], Some(v))
    else
      var cur, prv := stack[n - 1], stack[n - 2];
      if !(0 <= cur.idx < |prv.slots|) then (stack, None)
      else
        var filled := prv.(slots := prv.slots[cur.idx := Some(v)]);
        if cur.idx == prv.elements - 1 then Finish(stack[..n - 2] + [filled], Array(Values(filled.slots)))
        else (stack[..n - 2] + [filled, NewFrame(cur.idx + 1)], None)
  }

  function SetError(e: Fault): Machine { Machine([], [], 0, None, Some(e)) }

  /** The parent of the current task has a place for its object: its element vector is not NULL. */
  predicate Placed(stack: seq<Frame>) {
    var n := |stack|;
    n <= 1 || 0 <= stack[n - 1].idx < |stack[n - 2].slots|
  }

  /** A complete object, and the position behind it. */
  function Complete(m: Machine, v: Reply, pos: nat): Machine {
    if !Placed(m.stack) then SetError(Lost)
    else
      var (stack, reply) := Finish(m.stack, v);
      m.(stack := stack, pos := pos, reply := if reply.Some? then reply else m.reply)
  }

  /** The end of an item. */
  function Completed(m: Machine, v: Reply, pos: nat): (Machine, bool) {
    (Complete(m, v, pos), Complete(m, v, pos).err.None?)
  }

  /** processLineItem. */
  function ProcessLine(m: Machine, kind: Kind): (Machine, bool) {
    match LineEnd(Rest(m))
    case None => (m, false)
    case Some(n) =>
      var line := Rest(m)[..n];
      if n + 2 > INT_MAX || (kind == IntegerKind && !NumberFits(line)) then (SetError(Lost), false)
      else Completed(m, LineValue(kind, line), m.pos + n + 2)
  }

  /** processBulkItem. */
  function ProcessBulk(m: Machine): (Machine, bool) {
    var s := Rest(m);
    match LineEnd(s)
    case None => (m, false)
    case Some(n) =>
      var len := Number(s[..n]);
      if !Fits(BulkKind, s[..n]) then (SetError(Lost), false)
      else if len < 0 then Completed(m, Nil, m.pos + n + 2)
      else if m.pos + n + 2 + len + 2 <= |m.buf| then
        Completed(m, Bulk(m.buf[m.pos + n + 2..m.pos + n + 2 + len]), m.pos + n + 2 + len + 2)
      else (m, false)
  }

  /**
    The task opens an array of `count` elements, and a task for its first element comes on top.  No
    element vector is allocated for a count that is not positive.
   */
  function Open(stack: seq<Frame>, count: int): seq<Frame>
    requires stack != []
  {
    var top := stack[|stack| - 1];
    stack[..|stack| - 1] + [top.(elements := count, slots := seq(if count > 0 then count else 0, _ => None)), NewFrame(0)]
  }

  /** The array that createArray makes and that gets no elements; its count is an int. */
  function Unfilled(count: Int32): Reply { if count == 0 then Array([]) else Hollow(count) }

  /** processMultiBulkItem: the number is a long, the count of the task and of the array is an int. */
  function ProcessArray(m: Machine): (Machine, bool)
    requires m.stack != []
  {
    if |m.stack| == SLOTS then (SetError(TooDeep), false)
    else
      match LineEnd(Rest(m))
      case None => (m, false)
      case Some(n) =>
        var line := Rest(m)[..n];
        var elements := Number(line);
        if n + 2 > INT_MAX || !NumberFits(line) then (SetError(Lost), false)
        else if elements == -1 then Completed(m, Nil, m.pos + n + 2)
        else if elements <= 0 then Completed(m, Unfilled(ToInt(elements)), m.pos + n + 2)
        else if !Placed(m.stack) then (SetError(Lost), false)
        else (m.(stack := Open(m.stack, ToInt(elements)), pos := m.pos + n + 2), true)
  }

  function ProcessTyped(m: Machine, kind: Kind): (Machine, bool)
    requires m.stack != []
  {
    match kind
    case BulkKind => ProcessBulk(m)
    case ArrayKind => ProcessArray(m)
    case _ => ProcessLine(m, kind)
  }

  /** processItem; the flag is false for REDIS_ERR. */
  function ProcessItem(m: Machine): (Machine, bool) {
    if m.stack == [] then (m, false)
    else
      var top := m.stack[|m.stack| - 1];
      if top.kind.Some? then ProcessTyped(m, top.kind.value)
      else if Rest(m) == [] then (m, false)
      else
        match KindOf(Rest(m)[0])
        case None => (SetError(BadType(Rest(m)[0])), false)
        case Some(kind) => ProcessTyped(TakeType(m, kind), kind)
  }

  /** The state after the type byte. */
  function TakeType(m: Machine, kind: Kind): Machine
    requires m.stack != []
  {
    var i := |m.stack| - 1;
    m.(stack := m.stack[i := m.stack[i].(kind := Some(kind))], pos := m.pos + 1)
  }

  /** The loop of redisReaderGetReply. */
  function Loop(m: Machine): Machine
    decreases |Rest(m)|
  {
    var (m', ok) := ProcessItem(m);
    if !ok || |Rest(m')| >= |Rest(m)| then m' else if m'.stack == [] then m' else Loop(m')
  }

  function Trim(m: Machine): Machine {
    if m.pos >= TRIM then m.(buf := Sds.IntRange(m.buf, ToInt(m.pos), -1), pos := 0) else m
  }

  /** redisReaderFeed. */
  function Feed(m: Machine, data: bytes): Machine {
    if m.err.Some? then m else m.(buf := m.buf + data)
  }

  /** redisReaderGetReply. */
  function GetReply(m: Machine): (Machine, Outcome) {
    if m.err.Some? then (m, Failed(m.err.value))
    else if m.buf == [] then (m, NoReply)
    else
      var m1 := Loop(if m.stack == [] then m.(stack := [NewFrame(-1)]) else m);
      if m1.err.Some? then (m1, Failed(m1.err.value))
      else
        var m2 := Trim(m1);
        if m2.stack == [] && m2.reply.Some? then (m2.(reply := None), Ready(m2.reply.value)) else (m2, NoReply)
  }

  // ---------- The invariant ----------

  /** A task that waits for its element `idx`: the elements before it are filled, the others are not. */
  ghost predicate Waits(p: Frame, idx: int) {
    && p.kind == Some(ArrayKind) && 0 <= idx < p.elements == |p.slots|
    && forall j :: 0 <= j < |p.slots| ==> (p.slots[j].Some? <==> j < idx)
  }

  /** The stack fits its nine slots, and each task waits for the element that the task above it reads. */
  ghost predicate GoodStack(stack: seq<Frame>) {
    && |stack| <= SLOTS
    && forall i :: 0 < i < |stack| ==> Waits(stack[i - 1], stack[i].idx)
  }

  /** Between calls. */
  ghost predicate Good(m: Machine) {
    m.pos <= |m.buf| && GoodStack(m.stack) && m.reply.None? && (m.err.Some? ==> m.stack == [])
  }

  /** During a call: a task is being read. */
  ghost predicate Busy(m: Machine) {
    m.pos <= |m.buf| && GoodStack(m.stack) && m.stack != [] && m.reply.None? && m.err.None?
  }

  /** During a call, after a step. */
  ghost predicate Stepped(m: Machine) {
    Busy(m) || (m.stack == [] && m.pos <= |m.buf| && (m.reply.Some? <==> m.err.None?))
  }

  // ---------- What a state will return ----------

  /** What becomes of the whole reply when the item of the top task gives `p`. */
  function Unwind(stack: seq<Frame>, p: Parse<Reply>): Parse<Reply>
    decreases |stack|
  {
    var n := |stack|;
    if n <= 1 || !p.Done? then p
    else
      var cur, prv := stack[n - 1], stack[n - 2];
      if !(0 <= cur.idx < prv.elements == |prv.slots|) then p
      else
        match ParseItems(true, n - 1, prv.elements - cur.idx - 1, p.rest)
        case More => More
        case Fail(e) => Fail(e)
        case Done(vs, rest) => Unwind(stack[..n - 1], Done(Array(Values(prv.slots[..cur.idx]) + [p.value] + vs), rest))
  }

  /** The reply that the stack will complete on the bytes `s`. */
  function Resume(stack: seq<Frame>, s: bytes): Parse<Reply>
    requires stack != []
  {
    var d := |stack| - 1;
    Unwind(stack, match stack[d].kind case None => ParseReply(true, d, s) case Some(kind) => ParseTyped(true, d, kind, s))
  }

  /** What the state gives if the bytes `more` come next, with a parser that stops at numbers out of range. */
  function Ahead(m: Machine, more: bytes): Parse<Reply> {
    if m.err.Some? then Fail(m.err.value)
    else if m.stack != [] then Resume(m.stack, Rest(m) + more)
    else if m.reply.Some? then Done(m.reply.value, Rest(m) + more)
    else ParseReply(true, 0, Rest(m) + more)
  }

  lemma {:induction false} UnwindTop(a: seq<Frame>, f: Frame, g: Frame, p: Parse<Reply>)
    requires f.idx == g.idx
    ensures Unwind(a + [f], p) == Unwind(a + [g], p)
  {
    assert (a + [f])[..|a|] == a == (a + [g])[..|a|];
  }

  lemma UnwindFails(stack: seq<Frame>, p: Parse<Reply>)
    requires !p.Done?
    ensures Unwind(stack, p) == p
  {
  }

  /** A stack stays good when the task below the top one gets another element, and the top one is for the next. */
  lemma GoodNext(base: seq<Frame>, prv: Frame, cur: Frame, filled: Frame, top: seq<Frame>)
    requires GoodStack(base + [prv, cur]) && filled.idx == prv.idx
    requires |top| <= 1 && (top != [] ==> Waits(filled, top[0].idx))
    ensures GoodStack(base + [filled] + top)
  {
    var before, stack := base + [prv, cur], base + [filled] + top;
    forall i | 0 < i < |stack|
      ensures Waits(stack[i - 1], stack[i].idx)
    {
      if i <= |base| { assert Waits(before[i - 1], before[i].idx); }
    }
  }

  /** One level up: the elements that are there, the one just read, and the rest. */
  lemma UnwindStep(base: seq<Frame>, prv: Frame, cur: Frame, v: Reply, s: bytes)
    requires Waits(prv, cur.idx)
    ensures Unwind(base + [prv, cur], Done(v, s)) ==
      match ParseItems(true, |base| + 1, prv.elements - cur.idx - 1, s)
      case More => More
      case Fail(e) => Fail(e)
      case Done(vs, rest) => Unwind(base + [prv], Done(Array(Values(prv.slots[..cur.idx]) + [v] + vs), rest))
  {
    assert (base + [prv, cur])[..|base| + 1] == base + [prv];
  }

  lemma FilledWaits(p: Frame, i: int, v: Reply)
    requires Waits(p, i) && i < p.elements - 1
    ensures 0 <= i < |p.slots| == p.elements && Waits(p.(slots := p.slots[i := Some(v)]), i + 1)
    ensures Values(p.slots[i := Some(v)][..i + 1]) == Values(p.slots[..i]) + [v]
  {
    FillValues(p.slots, i, v);
  }

  lemma FillValues(slots: seq<Option<Reply>>, i: nat, v: Reply)
    requires i < |slots|
    ensures Values(slots[i := Some(v)][..i + 1]) == Values(slots[..i]) + [v]
  {
    assert slots[i := Some(v)][..i + 1] == slots[..i] + [Some(v)];
  }

  lemma SameValues(base: seq<Frame>, f: Frame, g: Frame, a: seq<Reply>, v: Reply, w: Reply, ws: seq<Reply>, rest: bytes)
    requires f.idx == g.idx
    ensures Unwind(base + [f], Done(Array(a + [v] + ([w] + ws)), rest)) == Unwind(base + [g], Done(Array(a + [v] + [w] + ws), rest))
  {
    assert a + [v] + ([w] + ws) == a + [v] + [w] + ws;
    UnwindTop(base, f, g, Done(Array(a + [v] + [w] + ws), rest));
  }

  /** The next element, read on its own, and the elements after it. */
  lemma UnwindNext(base: seq<Frame>, prv: Frame, cur: Frame, v: Reply, s: bytes)
    requires Waits(prv, cur.idx) && cur.idx < prv.elements - 1
    ensures var filled := prv.(slots := prv.slots[cur.idx := Some(v)]);
      Unwind(base + [prv, cur], Done(v, s)) == Unwind(base + [filled, NewFrame(cur.idx + 1)], ParseReply(true, |base| + 1, s))
  {
    hide Unwind, ParseReply, ParseItems, Values, Waits;
    FilledWaits(prv, cur.idx, v);
    var filled, top, d := prv.(slots := prv.slots[cur.idx := Some(v)]), NewFrame(cur.idx + 1), |base| + 1;
    var k: nat := prv.elements - cur.idx - 1;
    UnwindStep(base, prv, cur, v, s);
    ItemsStep(true, d, k, s);
    match ParseReply(true, d, s)
    case Done(w, rest) =>
      UnwindStep(base, filled, top, w, rest);
      match ParseItems(true, d, k - 1, rest) {
        case Done(ws, rest') =>
          SameValues(base, prv, filled, Values(prv.slots[..cur.idx]), v, w, ws, rest');
        case _ =>
      }
    case More => UnwindFails(base + [filled, top], More);
    case Fail(e) => UnwindFails(base + [filled, top], Fail(e));
  }

  /** Filling in an object keeps what the stack will return, and fills the slots in order. */
  lemma {:induction false} FinishKeeps(stack: seq<Frame>, v: Reply, s: bytes)
    requires GoodStack(stack) && stack != []
    ensures var (stack', reply) := Finish(stack, v);
      && GoodStack(stack')
      && (if reply.Some? then stack' == [] && Unwind(stack, Done(v, s)) == Done(reply.value, s)
          else stack' != [] && Unwind(stack, Done(v, s)) == Resume(stack', s))
    decreases |stack|
  {
    var n := |stack|;
    if n > 1 {
      var cur, prv, base := stack[n - 1], stack[n - 2], stack[..n - 2];
      assert stack == base + [prv, cur];
      assert Waits(prv, cur.idx);
      var filled := prv.(slots := prv.slots[cur.idx := Some(v)]);
      if cur.idx == prv.elements - 1 {
        GoodNext(base, prv, cur, filled, []);
        assert base + [filled] + [] == base + [filled];
        UnwindStep(base, prv, cur, v, s);
        assert Values(filled.slots) == Values(prv.slots[..cur.idx]) + [v] + [];
        UnwindTop(base, filled, prv, Done(Array(Values(filled.slots)), s));
        FinishKeeps(base + [filled], Array(Values(filled.slots)), s);
      } else {
        var top := NewFrame(cur.idx + 1);
        assert Waits(filled, top.idx);
        GoodNext(base, prv, cur, filled, [top]);
        assert base + [filled] + [top] == base + [filled, top];
        UnwindNext(base, prv, cur, v, s);
      }
    }
  }

  // ---------- Steps agree ----------

  /** The buffer fits an int, and the parser will meet no number out of range. */
  ghost predicate Within(m: Machine, more: bytes) {
    |m.buf| < TWO_GB && Ahead(m, more) != Fail(OutOfRange)
  }

  lemma GoodIsPlaced(stack: seq<Frame>)
    requires GoodStack(stack)
    ensures Placed(stack)
  {
    if |stack| > 1 { assert Waits(stack[|stack| - 2], stack[|stack| - 1].idx); }
  }

  /** A complete object: the state goes on behind it. */
  lemma CompleteKeeps(m: Machine, v: Reply, pos: nat, more: bytes)
    requires Busy(m) && m.pos <= pos <= |m.buf|
    ensures var m' := Complete(m, v, pos);
      Stepped(m') && m'.err.None? && m'.buf == m.buf && Rest(m') == m.buf[pos..] && Ahead(m', more) == Unwind(m.stack, Done(v, m.buf[pos..] + more))
  {
    hide GoodStack, Unwind, Resume;
    GoodIsPlaced(m.stack);
    FinishKeeps(m.stack, v, m.buf[pos..] + more);
  }

  /** The step agrees with the parser, whatever bytes come next. */
  ghost predicate Agrees(m: Machine, r: (Machine, bool), more: bytes) {
    var (m', ok) := r;
    && Stepped(m')
    && (ok ==> m'.err.None? && |Rest(m')| < |Rest(m)| && Ahead(m', more) == Ahead(m, more))
    && m'.buf == (if m'.err.None? then m.buf else [])
    && (!ok ==> if m'.err.Some? then Ahead(m, more) == Fail(m'.err.value)
                else Busy(m') && |Rest(m')| <= |Rest(m)| && Ahead(m', more) == Ahead(m, more) && Ahead(m', []) == More)
  }

  ghost predicate Typed(m: Machine, kind: Kind) {
    Busy(m) && m.stack[|m.stack| - 1].kind == Some(kind)
  }

  lemma AheadTyped(m: Machine, kind: Kind, more: bytes)
    requires Typed(m, kind)
    ensures Ahead(m, more) == Unwind(m.stack, ParseTyped(true, |m.stack| - 1, kind, Rest(m) + more))
  {
  }

  /** There is no complete line yet. */
  lemma NoLine(m: Machine, kind: Kind, more: bytes)
    requires Typed(m, kind) && Newline(Rest(m), 0).None? && !(kind == ArrayKind && |m.stack| == SLOTS)
    ensures Agrees(m, (m, false), more)
  {
    AheadTyped(m, kind, []);
    assert Rest(m) + [] == Rest(m);
    UnwindFails(m.stack, More);
  }

  /** There is a complete line. */
  lemma HasLine(m: Machine, n: nat, more: bytes)
    requires m.pos <= |m.buf| && Newline(Rest(m), 0) == Some(n)
    ensures Newline(Rest(m) + more, 0) == Some(n) && (Rest(m) + more)[..n] == Rest(m)[..n]
    ensures m.pos + n + 2 <= |m.buf| && (Rest(m) + more)[n + 2..] == m.buf[m.pos + n + 2..] + more
  {
    NewlineStays(Rest(m), more, 0);
  }

  lemma LineAgrees(m: Machine, kind: Kind, more: bytes)
    requires Typed(m, kind) && kind != BulkKind && kind != ArrayKind && Within(m, more)
    ensures Agrees(m, ProcessLine(m, kind), more)
  {
    hide Newline, LineEnd, Number, NumberFits, Unwind, Resume, GoodStack, Complete, ParseItems;
    LineEndIsNewline(Rest(m));
    match Newline(Rest(m), 0)
    case None => NoLine(m, kind, more);
    case Some(n) =>
      HasLine(m, n, more);
      LineFits(m, kind, n, more);
      AheadTyped(m, kind, more);
      CompleteKeeps(m, LineValue(kind, Rest(m)[..n]), m.pos + n + 2, more);
  }

  /** The number of the line is in range, or the parser would have stopped at it. */
  lemma LineFits(m: Machine, kind: Kind, n: nat, more: bytes)
    requires Typed(m, kind) && Within(m, more) && Newline(Rest(m), 0) == Some(n) && !(kind == ArrayKind && |m.stack| == SLOTS)
    ensures Fits(kind, Rest(m)[..n]) && n + 2 <= INT_MAX
  {
    HasLine(m, n, more);
    AheadTyped(m, kind, more);
    hide Fits, Newline, Ahead;
    UnwindFails(m.stack, Fail(OutOfRange));
  }

  /** The same bulk string with more bytes behind it. */
  lemma BulkMore(m: Machine, n: nat, len: nat, more: bytes)
    requires m.pos + n + 2 + len + 2 <= |m.buf|
    ensures var s := Rest(m) + more;
      && s[n + 2..n + 2 + len] == m.buf[m.pos + n + 2..m.pos + n + 2 + len]
      && s[n + 2 + len + 2..] == m.buf[m.pos + n + 2 + len + 2..] + more
  {
  }

  /** What the parser makes of a bulk string whose line is complete. */
  lemma BulkAhead(m: Machine, n: nat, more: bytes)
    requires Typed(m, BulkKind) && Within(m, more) && Newline(Rest(m), 0) == Some(n)
    ensures m.pos <= |m.buf| && Fits(BulkKind, Rest(m)[..n]) && Ahead(m, more) == Unwind(m.stack, ParseBulk(Rest(m) + more, n))
  {
    hide Newline, Number, Fits, Unwind, Resume, GoodStack, ParseTyped, ParseBulk, Ahead;
    LineFits(m, BulkKind, n, more);
    HasLine(m, n, more);
    AheadTyped(m, BulkKind, more);
    BulkLine(true, |m.stack| - 1, Rest(m) + more, n);
  }

  /** The bulk string is nil, or its bytes are there. */
  lemma BulkEnds(m: Machine, n: nat, more: bytes)
    requires m.pos <= |m.buf| && Newline(Rest(m), 0) == Some(n)
    ensures var len, p := Number(Rest(m)[..n]), ParseBulk(Rest(m) + more, n);
      && m.pos + n + 2 <= |m.buf|
      && (len < 0 ==> p == Done(Nil, m.buf[m.pos + n + 2..] + more))
      && (len >= 0 && m.pos + n + 2 + len + 2 <= |m.buf| ==>
           p == Done(Bulk(m.buf[m.pos + n + 2..m.pos + n + 2 + len]), m.buf[m.pos + n + 2 + len + 2..] + more))
  {
    hide Number, Newline;
    HasLine(m, n, more);
    var len := Number(Rest(m)[..n]);
    if len >= 0 && m.pos + n + 2 + len + 2 <= |m.buf| { BulkMore(m, n, len, more); }
  }

  lemma BulkAgrees(m: Machine, more: bytes)
    requires Typed(m, BulkKind) && Within(m, more)
    ensures Agrees(m, ProcessBulk(m), more)
  {
    hide Newline, LineEnd, Number, Fits, Unwind, Resume, GoodStack, Complete, ParseTyped, ParseBulk, Ahead, Stepped;
    LineEndIsNewline(Rest(m));
    match Newline(Rest(m), 0)
    case None => NoLine(m, BulkKind, more);
    case Some(n) =>
      BulkAhead(m, n, more);
      BulkEnds(m, n, more);
      var len := Number(Rest(m)[..n]);
      if len < 0 {
        CompleteKeeps(m, Nil, m.pos + n + 2, more);
      } else if m.pos + n + 2 + len + 2 <= |m.buf| {
        CompleteKeeps(m, Bulk(m.buf[m.pos + n + 2..m.pos + n + 2 + len]), m.pos + n + 2 + len + 2, more);
      } else {
        BulkWaits(m, n, more);
      }
  }

  /** The line of the bulk string is there, and its bytes are not. */
  lemma BulkWaits(m: Machine, n: nat, more: bytes)
    requires Typed(m, BulkKind) && Newline(Rest(m), 0) == Some(n) && Fits(BulkKind, Rest(m)[..n])
    requires Number(Rest(m)[..n]) >= 0 && m.pos + n + 2 + Number(Rest(m)[..n]) + 2 > |m.buf|
    ensures Agrees(m, (m, false), more)
  {
    hide Newline, Number, Fits, Unwind, Resume, GoodStack, ParseTyped, Ahead;
    AheadTyped(m, BulkKind, []);
    assert Rest(m) + [] == Rest(m);
    BulkLine(true, |m.stack| - 1, Rest(m), n);
    UnwindFails(m.stack, More);
  }

  /** What the parser makes of an array that has been opened. */
  lemma OpenKeeps(base: seq<Frame>, top: Frame, count: nat, s: bytes)
    requires GoodStack(base + [top]) && |base| + 1 < SLOTS && count > 0 && top.kind == Some(ArrayKind)
    ensures GoodStack(Open(base + [top], count))
    ensures Resume(Open(base + [top], count), s) == Unwind(base + [top],
      match ParseItems(true, |base| + 1, count, s)
      case Done(vs, rest) => Done(Array(vs), rest)
      case More => More
      case Fail(e) => Fail(e))
  {
    var stack, stack' := base + [top], Open(base + [top], count);
    var full := top.(elements := count, slots := seq(count, _ => None));
    assert stack' == base + [full, NewFrame(0)];
    forall i | 0 < i < |stack'| ensures Waits(stack'[i - 1], stack'[i].idx) {
      if i <= |base| { assert Waits(stack[i - 1], stack[i].idx); }
    }
    assert Waits(full, 0);
    hide GoodStack, Waits, ParseReply, ParseItems, Unwind;
    ItemsStep(true, |base| + 1, count, s);
    UnwindFails(stack, More);
    match ParseReply(true, |base| + 1, s)
    case Done(w, rest) =>
      UnwindOpened(base, top, full, w, rest);
    case More => UnwindFails(stack', More);
    case Fail(e) =>
      UnwindFails(stack', Fail(e));
      UnwindFails(stack, Fail(e));
  }

  lemma UnwindOpened(base: seq<Frame>, top: Frame, full: Frame, w: Reply, s: bytes)
    requires Waits(full, 0) && full.idx == top.idx
    ensures Unwind(base + [full, NewFrame(0)], Done(w, s)) == Unwind(base + [top],
      match ParseItems(true, |base| + 1, full.elements - 1, s)
      case Done(ws, rest) => Done(Array([w] + ws), rest)
      case More => More
      case Fail(e) => Fail(e))
  {
    UnwindStep(base, full, NewFrame(0), w, s);
    hide Unwind;
    match ParseItems(true, |base| + 1, full.elements - 1, s)
    case Done(ws, rest) =>
      assert Values(full.slots[..0]) + [w] + ws == [w] + ws;
      UnwindTop(base, full, top, Done(Array([w] + ws), rest));
    case More => UnwindFails(base + [top], More);
    case Fail(e) => UnwindFails(base + [top], Fail(e));
  }

  lemma OpenAgrees(m: Machine, n: nat, count: nat, more: bytes)
    requires Typed(m, ArrayKind) && |m.stack| < SLOTS && m.pos + n + 2 <= |m.buf| && count > 0
    ensures var m' := m.(stack := Open(m.stack, count), pos := m.pos + n + 2);
      Busy(m') && |Rest(m')| < |Rest(m)| &&
      Ahead(m', more) == Unwind(m.stack,
        match ParseItems(true, |m.stack|, count, m.buf[m.pos + n + 2..] + more)
        case Done(vs, rest) => Done(Array(vs), rest)
        case More => More
        case Fail(e) => Fail(e))
  {
    var d := |m.stack| - 1;
    assert m.stack == m.stack[..d] + [m.stack[d]];
    OpenKeeps(m.stack[..d], m.stack[d], count, m.buf[m.pos + n + 2..] + more);
  }

  /** Below the greatest depth. */
  lemma ArrayFits(m: Machine, more: bytes)
    requires Typed(m, ArrayKind) && |m.stack| < SLOTS && Within(m, more)
    ensures Agrees(m, ProcessArray(m), more)
  {
    hide Newline, LineEnd, Number, NumberFits, Unwind, Resume, GoodStack, Complete, ParseItems, ParseTyped, Ahead;
    LineEndIsNewline(Rest(m));
    AheadTyped(m, ArrayKind, more);
    match Newline(Rest(m), 0)
    case None => NoLine(m, ArrayKind, more);
    case Some(n) =>
      HasLine(m, n, more);
      LineFits(m, ArrayKind, n, more);
      GoodIsPlaced(m.stack);
      var count := Number(Rest(m)[..n]);
      ToIntKeeps(count);
      ArrayLine(true, |m.stack| - 1, Rest(m) + more, n);
      if count <= 0 {
        CompleteKeeps(m, NoElements(count), m.pos + n + 2, more);
      } else {
        OpenAgrees(m, n, count, more);
      }
  }

  lemma ArrayAgrees(m: Machine, more: bytes)
    requires Typed(m, ArrayKind) && Within(m, more)
    ensures Agrees(m, ProcessArray(m), more)
  {
    if |m.stack| == SLOTS {
      AheadTyped(m, ArrayKind, more);
      UnwindFails(m.stack, Fail(TooDeep));
    } else {
      ArrayFits(m, more);
    }
  }

  lemma TypedAgrees(m: Machine, kind: Kind, more: bytes)
    requires Typed(m, kind) && Within(m, more)
    ensures Agrees(m, ProcessTyped(m, kind), more)
  {
    match kind
    case BulkKind => BulkAgrees(m, more);
    case ArrayKind => ArrayAgrees(m, more);
    case _ => LineAgrees(m, kind, more);
  }

  /** Reading the type byte changes nothing that the state will return. */
  lemma TypeKeeps(m: Machine, kind: Kind, more: bytes)
    requires Busy(m) && m.stack[|m.stack| - 1].kind.None? && Rest(m) != [] && KindOf(Rest(m)[0]) == Some(kind)
    ensures Typed(TakeType(m, kind), kind) && |Rest(TakeType(m, kind))| < |Rest(m)| && TakeType(m, kind).buf == m.buf
    ensures Ahead(TakeType(m, kind), more) == Ahead(m, more)
  {
    var m', d := TakeType(m, kind), |m.stack| - 1;
    forall i | 0 < i < |m'.stack| ensures Waits(m'.stack[i - 1], m'.stack[i].idx) {
      assert Waits(m.stack[i - 1], m.stack[i].idx);
    }
    assert (Rest(m) + more)[1..] == Rest(m') + more;
    assert m.stack == m.stack[..d] + [m.stack[d]] && m'.stack == m.stack[..d] + [m'.stack[d]];
    UnwindTop(m.stack[..d], m.stack[d], m'.stack[d], ParseTyped(true, d, kind, Rest(m') + more));
  }

  /** There is no type byte yet. */
  lemma NoType(m: Machine, more: bytes)
    requires Busy(m) && m.stack[|m.stack| - 1].kind.None? && Rest(m) == []
    ensures Agrees(m, (m, false), more)
  {
    hide GoodStack;
    assert Rest(m) + [] == [];
    UnwindFails(m.stack, More);
  }

  lemma BadTypeAgrees(m: Machine, more: bytes)
    requires Busy(m) && m.stack[|m.stack| - 1].kind.None? && Rest(m) != [] && KindOf(Rest(m)[0]).None?
    ensures Agrees(m, (SetError(BadType(Rest(m)[0])), false), more)
  {
    hide GoodStack;
    assert (Rest(m) + more)[0] == Rest(m)[0];
    UnwindFails(m.stack, Fail(BadType(Rest(m)[0])));
  }

  /** processItem agrees with the parser. */
  lemma ItemAgrees(m: Machine, more: bytes)
    requires Busy(m) && Within(m, more)
    ensures Agrees(m, ProcessItem(m), more)
  {
    hide GoodStack, Ahead, ProcessTyped, TakeType, Stepped;
    var top := m.stack[|m.stack| - 1];
    if top.kind.Some? {
      TypedAgrees(m, top.kind.value, more);
    } else if Rest(m) == [] {
      NoType(m, more);
    } else {
      match KindOf(Rest(m)[0])
      case None => BadTypeAgrees(m, more);
      case Some(kind) =>
        TypeKeeps(m, kind, more);
        TypeKeeps(m, kind, []);
        TypedAgrees(TakeType(m, kind), kind, more);
    }
  }

  // ---------- Calls ----------

  /** The loop stops at an error, at a complete reply, or when the parser needs more bytes. */
  lemma {:induction false} LoopAgrees(m: Machine, more: bytes)
    requires Busy(m) && Within(m, more)
    ensures var m' := Loop(m);
      if m'.err.Some? then m'.stack == [] && Good(m') && Ahead(m, more) == Fail(m'.err.value)
      else if m'.stack == [] then
        m'.pos <= |m'.buf| && m'.buf == m.buf && m'.reply.Some? && Ahead(m, more) == Done(m'.reply.value, Rest(m') + more)
      else m'.buf == m.buf && Busy(m') && Ahead(m', more) == Ahead(m, more) && Ahead(m', []) == More
    decreases |Rest(m)|
  {
    hide Busy, ProcessItem, Ahead;
    ItemAgrees(m, more);
    var (m', ok) := ProcessItem(m);
    AfterStep(m', more);
    if ok && m'.stack != [] { LoopAgrees(m', more); }
  }

  lemma AfterStep(m: Machine, more: bytes)
    requires Stepped(m)
    ensures m.err.Some? ==> m.stack == [] && Good(m)
    ensures m.stack != [] ==> Busy(m)
    ensures m.stack == [] && m.err.None? ==> m.pos <= |m.buf| && m.reply.Some? && Ahead(m, more) == Done(m.reply.value, Rest(m) + more)
    ensures Busy(m) ==> m.stack != [] && m.err.None?
  {
  }

  /** Dropping the bytes that have been read changes nothing that is left. */
  lemma TrimKeeps(m: Machine)
    requires m.pos <= |m.buf| < TWO_GB
    ensures Rest(Trim(m)) == Rest(m) && Trim(m).pos <= |Trim(m).buf| && Trim(m).(buf := m.buf, pos := m.pos) == m
  {
    Sds.RangeIsSlice(m.buf);
    ToIntKeeps(m.pos);
    assert Sds.IntRange(m.buf, ToInt(m.pos), -1) == Sds.Slice(m.buf, m.pos, -1);
  }

  /** Between calls the state asks for more when its buffer is empty. */
  ghost predicate Idle(m: Machine) {
    Good(m) && (m.err.None? && m.buf == [] ==> Ahead(m, []) == More)
  }

  /** redisReaderGetReply answers as the parser does on the bytes that are left and whatever comes next. */
  lemma GetReplyAgrees(m: Machine, more: bytes)
    requires Idle(m) && Within(m, more)
    ensures var (m', out) := GetReply(m);
      && Idle(m')
      && match out
         case NoReply => m'.err.None? && Ahead(m', more) == Ahead(m, more) && Ahead(m', []) == More
         case Ready(r) => m'.err.None? && m'.stack == [] && Ahead(m, more) == Done(r, Rest(m') + more)
         case Failed(e) => m'.err == Some(e) && Ahead(m, more) == Fail(e)
  {
    if m.err.None? && m.buf != [] {
      var m0 := if m.stack == [] then m.(stack := [NewFrame(-1)]) else m;
      assert Ahead(m0, more) == Ahead(m, more);
      LoopAgrees(m0, more);
      SettleAgrees(m0, Loop(m0), more);
    }
  }

  /** The end of the call. */
  lemma SettleAgrees(m: Machine, m1: Machine, more: bytes)
    requires m.buf != [] && |m.buf| < TWO_GB
    requires m1.err.None? ==> m1.buf == m.buf
    requires if m1.err.Some? then m1.stack == [] && Good(m1) && Ahead(m, more) == Fail(m1.err.value)
      else if m1.stack == [] then
        m1.pos <= |m1.buf| && m1.reply.Some? && Ahead(m, more) == Done(m1.reply.value, Rest(m1) + more)
      else Busy(m1) && Ahead(m1, more) == Ahead(m, more) && Ahead(m1, []) == More
    ensures m1.err.Some? ==> Idle(m1)
    ensures m1.err.None? ==>
      var m2 := Trim(m1);
      if m1.stack == [] then Idle(m2.(reply := None)) && Ahead(m, more) == Done(m1.reply.value, Rest(m2) + more)
      else Idle(m2) && m2.err.None? && Ahead(m2, more) == Ahead(m, more) && Ahead(m2, []) == More
  {
    if m1.err.None? {
      TrimKeeps(m1);
      hide Trim, ParseReply, GoodStack, Resume;
      var m2 := Trim(m1);
      assert m2.buf == [] ==> Rest(m2) + [] == [];
      if m1.stack == [] && m2.buf == [] { NoBytes(); }
      assert m1.stack != [] ==> Ahead(m2, more) == Ahead(m1, more) && Ahead(m2, []) == Ahead(m1, []);
    }
  }

  lemma NoBytes()
    ensures ParseReply(true, 0, []) == More
  {
  }

  lemma FeedAgrees(m: Machine, data: bytes, more: bytes)
    requires Idle(m)
    ensures Idle(Feed(m, data)) && Ahead(Feed(m, data), more) == Ahead(m, data + more)
  {
    if m.err.None? {
      assert Rest(Feed(m, data)) + more == Rest(m) + (data + more);
      if data == [] { assert Feed(m, data) == m; }
    }
  }

  // ---------- Runs ----------

  datatype Action = FeedBytes(data: bytes) | AskReply

  /** The state after a run, and what the calls of redisReaderGetReply returned. */
  function Run(m: Machine, acts: seq<Action>): (Machine, seq<Outcome>)
    decreases |acts|
  {
    if acts == [] then (m, [])
    else
      match acts[0]
      case FeedBytes(data) => Run(Feed(m, data), acts[1..])
      case AskReply =>
        var (m1, out) := GetReply(m);
        var (m2, outs) := Run(m1, acts[1..]);
        (m2, [out] + outs)
  }

  /** At each call of redisReaderGetReply the buffer is shorter than 2 GB. */
  ghost predicate Calm(m: Machine, acts: seq<Action>)
    decreases |acts|
  {
    acts != [] ==>
      match acts[0]
      case FeedBytes(data) => Calm(Feed(m, data), acts[1..])
      case AskReply => |m.buf| < TWO_GB && Calm(GetReply(m).0, acts[1..])
  }

  /** All bytes that a run feeds. */
  function Fed(acts: seq<Action>): bytes {
    if acts == [] then [] else (if acts[0].FeedBytes? then acts[0].data else []) + Fed(acts[1..])
  }

  /** The replies among the outcomes. */
  function Replies(outs: seq<Outcome>): seq<Reply> {
    if outs == [] then [] else (if outs[0].Ready? then [outs[0].reply] else []) + Replies(outs[1..])
  }

  /** All replies and the error that a state will give if the bytes `more` come next. */
  function AllAhead(m: Machine, more: bytes): (seq<Reply>, Option<Fault>) {
    match Ahead(m, more)
    case More => ([], None)
    case Fail(e) => ([], Some(e))
    case Done(v, rest) => var (vs, e) := ParseAll(true, rest); ([v] + vs, e)
  }

  /** The replies that a run returns, followed by those that the state still has, are those of the parser. */
  ghost predicate RunOk(m: Machine, acts: seq<Action>, more: bytes) {
    var (m', outs) := Run(m, acts);
    && Idle(m')
    && AllAhead(m, Fed(acts) + more) == (Replies(outs) + AllAhead(m', more).0, AllAhead(m', more).1)
    && (acts != [] && acts[|acts| - 1].AskReply? ==> outs != [] && Settled(m', outs[|outs| - 1]))
  }

  /** After a call without a reply nothing more comes, but the error of the call. */
  ghost predicate Settled(m: Machine, out: Outcome) {
    match out
    case NoReply => AllAhead(m, []) == ([], None)
    case Failed(e) => AllAhead(m, []) == ([], Some(e))
    case Ready(_) => true
  }

  lemma {:induction false} RunAgrees(m: Machine, acts: seq<Action>, more: bytes)
    requires Idle(m) && Calm(m, acts) && AllAhead(m, Fed(acts) + more).1 != Some(OutOfRange)
    ensures RunOk(m, acts, more)
    decreases |acts|
  {
    hide RunOk, Idle, AllAhead, GetReply, Feed;
    if acts == [] {
      NothingRun(m, more);
    } else {
      match acts[0]
      case FeedBytes(data) =>
        RunFeed(m, data, acts, more);
        RunAgrees(Feed(m, data), acts[1..], more);
        FeedFirst(m, data, acts, more);
      case AskReply =>
        RunAsk(m, Fed(acts) + more);
        assert Fed(acts) == Fed(acts[1..]);
        RunAgrees(GetReply(m).0, acts[1..], more);
        AskFirst(m, acts, more);
    }
  }

  lemma NothingRun(m: Machine, more: bytes)
    requires Idle(m)
    ensures RunOk(m, [], more)
  {
    hide AllAhead, Idle;
    assert Fed([]) + more == more && Replies([]) + AllAhead(m, more).0 == AllAhead(m, more).0;
  }

  lemma FeedFirst(m: Machine, data: bytes, acts: seq<Action>, more: bytes)
    requires Idle(m) && acts != [] && acts[0] == FeedBytes(data) && RunOk(Feed(m, data), acts[1..], more)
    ensures RunOk(m, acts, more)
  {
    hide Idle, AllAhead, GetReply, Feed, Settled;
    RunFeed(m, data, acts, more);
  }

  lemma AskFirst(m: Machine, acts: seq<Action>, more: bytes)
    requires Idle(m) && acts != [] && acts[0].AskReply? && RunOk(GetReply(m).0, acts[1..], more)
    requires |m.buf| < TWO_GB && AllAhead(m, Fed(acts) + more).1 != Some(OutOfRange)
    ensures RunOk(m, acts, more)
  {
    hide Idle, AllAhead, GetReply, Replies;
    RunAsk(m, Fed(acts) + more);
    RunOutcomes(m, acts);
    assert Fed(acts) == Fed(acts[1..]);
    var (m1, out) := GetReply(m);
    var (m', outs) := Run(m1, acts[1..]);
    var first := if out.Ready? then [out.reply] else [];
    assert first + (Replies(outs) + AllAhead(m', more).0) == (first + Replies(outs)) + AllAhead(m', more).0;
  }

  lemma RunFeed(m: Machine, data: bytes, acts: seq<Action>, more: bytes)
    requires Idle(m) && acts != [] && acts[0] == FeedBytes(data)
    ensures Idle(Feed(m, data)) && AllAhead(Feed(m, data), Fed(acts[1..]) + more) == AllAhead(m, Fed(acts) + more)
  {
    hide Idle, Ahead, Feed;
    FeedAgrees(m, data, Fed(acts[1..]) + more);
    assert data + (Fed(acts[1..]) + more) == Fed(acts) + more;
  }

  lemma RunAsk(m: Machine, more: bytes)
    requires Idle(m) && |m.buf| < TWO_GB && AllAhead(m, more).1 != Some(OutOfRange)
    ensures var (m', out) := GetReply(m);
      && Idle(m')
      && AllAhead(m, more) == ((if out.Ready? then [out.reply] else []) + AllAhead(m', more).0, AllAhead(m', more).1)
      && (out.NoReply? ==> AllAhead(m', []) == ([], None)) && (out.Failed? ==> AllAhead(m', []) == ([], Some(out.fault)))
  {
    hide Idle, Ahead, GetReply, ParseAll;
    GetReplyAgrees(m, more);
    var (m', out) := GetReply(m);
    assert [] + AllAhead(m', more).0 == AllAhead(m', more).0;
    if out.Ready? {
      AllFresh(m', more);
    } else if out.Failed? {
      FailedAhead(m', more);
      FailedAhead(m', []);
    }
  }

  lemma AllFresh(m: Machine, more: bytes)
    requires Idle(m) && m.stack == [] && m.err.None?
    ensures AllAhead(m, more) == ParseAll(true, Rest(m) + more)
  {
  }

  lemma FailedAhead(m: Machine, more: bytes)
    requires m.err.Some?
    ensures Ahead(m, more) == Fail(m.err.value)
  {
  }

  lemma RunOutcomes(m: Machine, acts: seq<Action>)
    requires acts != [] && acts[0].AskReply?
    ensures var (m1, out) := GetReply(m); Run(m, acts) == (Run(m1, acts[1..]).0, [out] + Run(m1, acts[1..]).1)
    ensures Replies([GetReply(m).1] + Run(GetReply(m).0, acts[1..]).1) ==
      (if GetReply(m).1.Ready? then [GetReply(m).1.reply] else []) + Replies(Run(GetReply(m).0, acts[1..]).1)
  {
    var outs := Run(GetReply(m).0, acts[1..]).1;
    assert ([GetReply(m).1] + outs)[1..] == outs;
  }

  /** All numbers that the parser meets in the bytes fit the C types. */
  predicate InRange(s: bytes) { ParseAll(true, s).1 != Some(OutOfRange) }

  /** What the reader has returned is what the parser without bounds finds in all the bytes. */
  ghost predicate AsParsed(acts: seq<Action>) {
    var outs := Run(Start(), acts).1; var (all, fault) := ParseAll(false, Fed(acts));
    && Replies(outs) <= all
    && (acts != [] && acts[|acts| - 1].AskReply? ==> outs != [] && match outs[|outs| - 1]
          case NoReply => Replies(outs) == all && fault == None
          case Failed(e) => Replies(outs) == all && fault == Some(e)
          case Ready(_) => true)
  }

  /**
    For any bytes whose numbers are in range, cut up in any way, with calls in between and a buffer
    below 2 GB at each of them: the replies that the reader has returned are the first ones of the
    recursive parser on all the bytes, and when a call returns no reply or an error, they are all of
    them, and the error is the parser's.
   */
  lemma ReaderRefinesParser(acts: seq<Action>)
    requires Calm(Start(), acts) && InRange(Fed(acts))
    ensures AsParsed(acts)
  {
    hide Idle, AllAhead, ParseAll, Run, Replies, Calm, Fed, Start;
    StartIsFresh(Fed(acts));
    assert Fed(acts) + [] == Fed(acts);
    BoundedAll(Fed(acts));
    RunAgrees(Start(), acts, []);
    var (m, outs) := Run(Start(), acts);
    assert Replies(outs) + [] == Replies(outs);
  }

  /** The buffer is short enough when less than 2 GB are fed in all. */
  lemma {:induction false} FewBytesAreCalm(m: Machine, acts: seq<Action>)
    requires |m.buf| + |Fed(acts)| < TWO_GB
    ensures Calm(m, acts)
    decreases |acts|
  {
    if acts != [] {
      match acts[0]
      case FeedBytes(data) => FewBytesAreCalm(Feed(m, data), acts[1..]);
      case AskReply =>
        BufferShrinks(m);
        FewBytesAreCalm(GetReply(m).0, acts[1..]);
    }
  }

  lemma BufferShrinks(m: Machine)
    ensures |GetReply(m).0.buf| <= |m.buf|
  {
    hide Loop;
    var m0 := if m.stack == [] then m.(stack := [NewFrame(-1)]) else m;
    LoopShrinks(m0);
    TrimShrinks(Loop(m0));
  }

  lemma TrimShrinks(m: Machine)
    ensures |Trim(m).buf| <= |m.buf|
  {
  }

  lemma {:induction false} LoopShrinks(m: Machine)
    ensures |Loop(m).buf| <= |m.buf|
    decreases |Rest(m)|
  {
    ItemShrinks(m);
    hide ProcessItem;
    var (m', ok) := ProcessItem(m);
    if ok && |Rest(m')| < |Rest(m)| && m'.stack != [] { LoopShrinks(m'); }
  }

  ghost predicate Shrinks(m: Machine, m': Machine) { m'.buf == m.buf || m'.buf == [] }

  lemma ItemShrinks(m: Machine)
    ensures Shrinks(m, ProcessItem(m).0)
  {
    hide ProcessTyped;
    if m.stack != [] {
      var top := m.stack[|m.stack| - 1];
      if top.kind.Some? {
        TypedShrinks(m, top.kind.value);
      } else if Rest(m) != [] && KindOf(Rest(m)[0]).Some? {
        TypedShrinks(TakeType(m, KindOf(Rest(m)[0]).value), KindOf(Rest(m)[0]).value);
      }
    }
  }

  lemma TypedShrinks(m: Machine, kind: Kind)
    requires m.stack != []
    ensures Shrinks(m, ProcessTyped(m, kind).0)
  {
    hide Finish, LineEnd, Number, Fits, NumberFits, Open;
  }

  lemma StartIsFresh(s: bytes)
    ensures Idle(Start()) && AllAhead(Start(), s) == ParseAll(true, s)
  {
    assert Rest(Start()) + s == s && Rest(Start()) + [] == [];
  }

  // ---------- Any bytes at all ----------

  /** An array that has been opened without an element vector; its first element cannot be stored. */
  ghost predicate NoRoom(p: Frame, idx: int) { p.kind == Some(ArrayKind) && p.slots == [] && idx == 0 }

  /** Each task waits for the element that the task above it reads; only the last one may have no room for it. */
  ghost predicate SafeStack(stack: seq<Frame>) {
    && |stack| <= SLOTS
    && forall i :: 0 < i < |stack| ==>
         Waits(stack[i - 1], stack[i].idx) || (i == |stack| - 1 && NoRoom(stack[i - 1], stack[i].idx))
  }

  ghost predicate Safe(m: Machine) {
    m.pos <= |m.buf| && SafeStack(m.stack) && m.reply.None? && (m.err.Some? ==> m.stack == [])
  }

  ghost predicate SafeBusy(m: Machine) {
    m.pos <= |m.buf| && SafeStack(m.stack) && m.stack != [] && m.reply.None? && m.err.None?
  }

  ghost predicate SafeTyped(m: Machine, kind: Kind) {
    SafeBusy(m) && m.stack[|m.stack| - 1].kind == Some(kind)
  }

  /** A step goes on behind what it has read, or stops with an error, or waits for more bytes. */
  ghost predicate SafeStep(m: Machine, r: (Machine, bool)) {
    var (m', ok) := r;
    && (SafeBusy(m') || (m'.stack == [] && m'.pos <= |m'.buf| && (m'.reply.Some? <==> m'.err.None?)))
    && (ok ==> m'.err.None? && |Rest(m')| < |Rest(m)|)
    && (!ok && m'.err.None? ==> SafeBusy(m') && |Rest(m')| <= |Rest(m)|)
  }

  lemma PlacedIsGood(stack: seq<Frame>)
    requires SafeStack(stack) && Placed(stack)
    ensures GoodStack(stack)
  {
  }

  lemma GoodIsSafe(stack: seq<Frame>)
    requires GoodStack(stack)
    ensures SafeStack(stack)
  {
  }

  lemma CompletedIsSafe(m: Machine, v: Reply, pos: nat)
    requires SafeBusy(m) && m.pos < pos <= |m.buf|
    ensures SafeStep(m, Completed(m, v, pos))
  {
    if Placed(m.stack) {
      PlacedIsGood(m.stack);
      FinishKeeps(m.stack, v, []);
      GoodIsSafe(Finish(m.stack, v).0);
      hide SafeStack, GoodStack, Placed, Finish, Unwind, Resume;
    }
  }

  lemma OpenIsSafe(stack: seq<Frame>, count: int)
    requires SafeStack(stack) && Placed(stack) && 0 < |stack| < SLOTS && stack[|stack| - 1].kind == Some(ArrayKind)
    ensures SafeStack(Open(stack, count))
  {
    var stack' := Open(stack, count);
    PlacedIsGood(stack);
    forall i | 0 < i < |stack'|
      ensures Waits(stack'[i - 1], stack'[i].idx) || (i == |stack'| - 1 && NoRoom(stack'[i - 1], stack'[i].idx))
    {
      if i < |stack| { assert Waits(stack[i - 1], stack[i].idx); }
    }
  }

  lemma LineIsSafe(m: Machine, kind: Kind)
    requires SafeBusy(m)
    ensures SafeStep(m, ProcessLine(m, kind))
  {
    hide Number, NumberFits, SafeStack, Seek;
    if LineEnd(Rest(m)).Some? {
      var n := LineEnd(Rest(m)).value;
      CompletedIsSafe(m, LineValue(kind, Rest(m)[..n]), m.pos + n + 2);
      hide Completed;
      SetErrorIsSafe(m, Lost);
    }
  }

  lemma SetErrorIsSafe(m: Machine, e: Fault)
    ensures SafeStep(m, (SetError(e), false))
  {
  }

  lemma BulkIsSafe(m: Machine)
    requires SafeBusy(m)
    ensures SafeStep(m, ProcessBulk(m))
  {
    hide Number, Fits, SafeStack, Seek, Completed;
    SetErrorIsSafe(m, Lost);
    if LineEnd(Rest(m)).Some? {
      var n := LineEnd(Rest(m)).value;
      var len := Number(Rest(m)[..n]);
      if len < 0 {
        CompletedIsSafe(m, Nil, m.pos + n + 2);
      } else if m.pos + n + 2 + len + 2 <= |m.buf| {
        CompletedIsSafe(m, Bulk(m.buf[m.pos + n + 2..m.pos + n + 2 + len]), m.pos + n + 2 + len + 2);
      }
    }
  }

  lemma ArrayIsSafe(m: Machine)
    requires SafeTyped(m, ArrayKind)
    ensures SafeStep(m, ProcessArray(m))
  {
    hide Number, NumberFits, SafeStack, Seek, Completed, Placed, Open;
    FewTasks(m.stack);
    SetErrorIsSafe(m, TooDeep);
    SetErrorIsSafe(m, Lost);
    if |m.stack| < SLOTS && LineEnd(Rest(m)).Some? {
      var n := LineEnd(Rest(m)).value;
      var elements := Number(Rest(m)[..n]);
      CompletedIsSafe(m, if elements == -1 then Nil else Unfilled(ToInt(elements)), m.pos + n + 2);
      if Placed(m.stack) {
        OpenIsSafe(m.stack, ToInt(elements));
        OpenNotEmpty(m.stack, ToInt(elements));
      }
    }
  }

  lemma FewTasks(stack: seq<Frame>)
    requires SafeStack(stack)
    ensures |stack| <= SLOTS
  {
  }

  lemma OpenNotEmpty(stack: seq<Frame>, count: int)
    requires stack != []
    ensures Open(stack, count) != []
  {
  }

  lemma TypeIsSafe(m: Machine, kind: Kind)
    requires SafeBusy(m) && Rest(m) != []
    ensures SafeTyped(TakeType(m, kind), kind) && |Rest(TakeType(m, kind))| < |Rest(m)|
  {
    var m' := TakeType(m, kind);
    forall i | 0 < i < |m'.stack|
      ensures Waits(m'.stack[i - 1], m'.stack[i].idx) || (i == |m'.stack| - 1 && NoRoom(m'.stack[i - 1], m'.stack[i].idx))
    {
      assert m'.stack[i - 1] == m.stack[i - 1] && m'.stack[i].idx == m.stack[i].idx;
    }
  }

  lemma TypedIsSafe(m: Machine, kind: Kind)
    requires SafeTyped(m, kind)
    ensures SafeStep(m, ProcessTyped(m, kind))
  {
    match kind
    case BulkKind => BulkIsSafe(m);
    case ArrayKind => ArrayIsSafe(m);
    case _ => LineIsSafe(m, kind);
  }

  lemma ItemIsSafe(m: Machine)
    requires SafeBusy(m)
    ensures SafeStep(m, ProcessItem(m))
  {
    hide SafeStack, ProcessTyped, TakeType;
    var top := m.stack[|m.stack| - 1];
    if top.kind.Some? {
      TypedIsSafe(m, top.kind.value);
    } else if Rest(m) != [] {
      match KindOf(Rest(m)[0])
      case None => SetErrorIsSafe(m, BadType(Rest(m)[0]));
      case Some(kind) =>
        TypeIsSafe(m, kind);
        TypedIsSafe(TakeType(m, kind), kind);
    }
  }

  lemma {:induction false} LoopIsSafe(m: Machine)
    requires SafeBusy(m)
    ensures var m' := Loop(m);
      SafeBusy(m') || (m'.stack == [] && m'.pos <= |m'.buf| && (m'.reply.Some? <==> m'.err.None?))
    decreases |Rest(m)|
  {
    hide SafeBusy, ProcessItem;
    ItemIsSafe(m);
    var (m', ok) := ProcessItem(m);
    BusyHasTask(m');
    if ok && m'.stack != [] { LoopIsSafe(m'); }
  }

  lemma BusyHasTask(m: Machine)
    ensures SafeBusy(m) ==> m.stack != [] && m.err.None?
  {
  }

  lemma GetReplyIsSafe(m: Machine)
    requires Safe(m)
    ensures Safe(GetReply(m).0)
  {
    hide Loop, SafeStack;
    if m.err.None? && m.buf != [] {
      var m0 := if m.stack == [] then m.(stack := [NewFrame(-1)]) else m;
      OneTask();
      LoopIsSafe(m0);
    }
  }

  lemma OneTask()
    ensures SafeStack([NewFrame(-1)]) && SafeStack([])
  {
  }

  /**
    On any bytes, cut up in any way: the stack stays within its nine slots, no place outside an
    element vector is written, and each opened array is filled element by element, in order.
   */
  lemma {:induction false} RunIsSafe(m: Machine, acts: seq<Action>)
    requires Safe(m)
    ensures Safe(Run(m, acts).0) && |Run(m, acts).0.stack| <= SLOTS
    decreases |acts|
  {
    hide GetReply;
    if acts != [] {
      match acts[0]
      case FeedBytes(data) => RunIsSafe(Feed(m, data), acts[1..]);
      case AskReply =>
        GetReplyIsSafe(m);
        RunIsSafe(GetReply(m).0, acts[1..]);
    }
  }
}
