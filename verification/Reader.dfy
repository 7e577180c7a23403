/**
  The reply reader of hiredis.c in place: a buffer with a read position and an array of nine tasks.
  Where the C code would use a NULL pointer or overflow a signed number, it stops with `Lost`.
 */
module Reader {
  import opened Bytes
  import opened CInt
  import opened Integers
  import opened Options
  import opened Resp
  import opened ReaderModel
  import Sds

  /** A byte of a string, with the terminating NUL behind the last one. */
  function ByteAt(s: bytes, i: nat): byte
    requires i <= |s|
  {
    if i < |s| then s[i] else 0
  }

  /** seekNewline; it may look at the terminating NUL, and never beyond. */
  method SeekNewline(s: bytes) returns (r: Option<nat>)
    ensures r == LineEnd(s)
  {
    var pos := 0;
    var len := ToInt(|s| - 1);
    while pos < len
      invariant 0 <= pos <= |s| && len < |s| && LineEnd(s) == Seek(s, pos, len)
      decreases |s| - pos
    {
      pos := SkipTo(s, pos, len);
      if s[pos] != CR {
        return None;
      } else if ByteAt(s, pos + 1) == LF {
        return Some(pos);
      } else {
        pos := pos + 1;
      }
    }
    return None;
  }

  /** The inner loop of seekNewline: on to the next CR, or to the last byte. */
  method SkipTo(s: bytes, from: nat, len: int) returns (pos: nat)
    requires from < len < |s|
    ensures from <= pos <= len && SeekCr(s, from, len) == SeekCr(s, pos, len)
    ensures s[pos] != CR ==> pos == len
  {
    pos := from;
    while pos < len && s[pos] != CR
      invariant from <= pos <= len && SeekCr(s, from, len) == SeekCr(s, pos, len)
    {
      pos := pos + 1;
    }
  }

  /** readLongLong on a text that has a CR at place `n`; None when the accumulator overflows. */
  method ReadLongLong(s: bytes, ghost n: nat) returns (v: Option<int>)
    requires n < |s| && s[n] == CR
    ensures v == if NumberFits(s[..n]) then Some(Number(s[..n])) else None
  {
    var mult, i := 1, 0;
    if s[0] == 45 {
      mult, i := -1, 1;
    } else if s[0] == 43 {
      i := 1;
    }
    ghost var digits := s[i..n];
    assert digits == if i == 1 then s[..n][1..] else s[..n];
    var acc := 0;
    while s[i] != CR
      invariant i <= n && acc >= 0 && Digits(s[i..n], acc) == Digits(digits, 0)
      invariant DigitsFit(s[i..n], acc) == DigitsFit(digits, 0)
      decreases n - i
    {
      if !IsDigit(s[i]) { return Some(-1); }
      assert s[i..n][1..] == s[i + 1..n];
      if acc * 10 + (s[i] - 48) > LONG_MAX { return None; }
      acc := acc * 10 + (s[i] - 48);
      i := i + 1;
    }
    return Some(mult * acc);
  }

  /** The length of a bulk string, when it and the sum with its CR LF fit a long. */
  method ReadLength(s: bytes, ghost n: nat) returns (v: Option<int>)
    requires n < |s| && s[n] == CR
    ensures v == if Fits(BulkKind, s[..n]) then Some(Number(s[..n])) else None
  {
    v := ReadLongLong(s, n);
    if v.Some? && v.value + 2 > LONG_MAX { v := None; }
  }

  /** The position that an item leaves behind is its own, wherever the state stood before. */
  lemma CompletedMoved(m: Machine, v: Reply, pos: nat)
    ensures Completed(m.(pos := pos), v, pos) == Completed(m, v, pos)
  {
    hide Finish, Placed;
  }

  class Reader {
    var buf: bytes
    var pos: nat
    var len: nat
    const rstack: array<Frame>
    var ridx: int
    var reply: Option<Reply>
    var err: Option<Fault>

    ghost predicate Shape()
      reads this, rstack
    {
      rstack.Length == SLOTS && -1 <= ridx < SLOTS && len == |buf|
    }

    ghost function State(): Machine
      requires Shape()
      reads this, rstack
    {
      Machine(rstack[..ridx + 1], buf, pos, reply, err)
    }

    ghost predicate Valid()
      reads this, rstack
    {
      Shape() && Safe(State())
    }

    /** redisReaderCreate. */
    constructor ()
      ensures Valid() && fresh(rstack) && State() == Start()
    {
      buf, pos, len := [], 0, 0;
      rstack := new Frame[SLOTS](_ => NewFrame(-1));
      ridx, reply, err := -1, None, None;
    }

    /** redisReaderFeed. */
    method Feed(data: bytes)
      requires Valid()
      modifies this
      ensures Valid() && State() == ReaderModel.Feed(old(State()), data)
    {
      if err.Some? { return; }
      if |data| >= 1 {
        buf := buf + data;
        len := |buf|;
      }
    }

    /** __redisReaderSetError. */
    method SetError(e: Fault)
      requires Shape()
      modifies this
      ensures Shape() && State() == ReaderModel.SetError(e)
    {
      reply := None;
      buf, pos, len := [], 0, 0;
      ridx := -1;
      err := Some(e);
    }

    /** The object goes into its parent, and moveToNextTask. */
    method PutObject(v: Reply) returns (ok: bool)
      requires Shape() && SafeBusy(State())
      modifies this, rstack
      ensures Shape() && (State(), ok) == Completed(old(State()), v, old(pos))
    {
      if ridx > 0 && !(0 <= rstack[ridx].idx < |rstack[ridx - 1].slots|) {
        SetError(Lost);
        return false;
      }
      PlacedIsGood(State().stack);
      MoveToNextTask(v);
      return true;
    }

    method MoveToNextTask(v: Reply)
      requires Shape() && Busy(State())
      modifies this`ridx, this`reply, rstack
      ensures Shape() && State() == Complete(old(State()), v, pos)
    {
      GoodIsPlaced(State().stack);
      var obj := v;
      while ridx > 0
        invariant Shape() && ridx >= 0 && GoodStack(rstack[..ridx + 1]) && reply.None?
        invariant Finish(rstack[..ridx + 1], obj) == Finish(old(rstack[..ridx + 1]), v)
      {
        var done := PutElement(obj);
        if !done { return; }
        obj := Array(Values(rstack[ridx].slots));
      }
      reply := Some(obj);
      ridx := -1;
    }

    /** One turn of moveToNextTask: `last` tells that the parent is complete. */
    method PutElement(obj: Reply) returns (last: bool)
      requires Shape() && ridx > 0 && GoodStack(rstack[..ridx + 1])
      modifies this`ridx, rstack
      ensures Shape() && ridx == old(ridx) - (if last then 1 else 0)
      ensures last ==> GoodStack(rstack[..ridx + 1])
      ensures last ==> Finish(old(rstack[..ridx + 1]), obj) == Finish(rstack[..ridx + 1], Array(Values(rstack[ridx].slots)))
      ensures !last ==> Finish(old(rstack[..ridx + 1]), obj) == (rstack[..ridx + 1], None)
    {
      ghost var stack := rstack[..ridx + 1];
      ghost var base := rstack[..ridx - 1];
      var cur, prv := rstack[ridx], rstack[ridx - 1];
      assert stack == base + [prv, cur];
      assert Waits(stack[ridx - 1], stack[ridx].idx);
      assert prv.slots[cur.idx].None?;
      var filled := prv.(slots := prv.slots[cur.idx := Some(obj)]);
      rstack[ridx - 1] := filled;
      last := cur.idx == prv.elements - 1;
      if last {
        GoodNext(base, prv, cur, filled, []);
        ridx := ridx - 1;
        assert rstack[..ridx + 1] == base + [filled] == base + [filled] + [];
      } else {
        rstack[ridx] := NewFrame(cur.idx + 1);
        assert rstack[..ridx + 1] == base + [filled, NewFrame(cur.idx + 1)];
      }
    }

    /** readLine: the bytes from the position on, and the length of the line; its length with CR LF is an int. */
    method ReadLine() returns (p: bytes, l: Option<nat>)
      requires Shape() && pos <= len
      modifies this`pos
      ensures p == old(Rest(State())) && l == LineEnd(p)
      ensures pos == old(pos) + (if l.Some? && l.value + 2 <= INT_MAX then l.value + 2 else 0) <= len
    {
      p := buf[pos..];
      l := SeekNewline(p);
      if l.Some? && l.value + 2 <= INT_MAX { pos := pos + l.value + 2; }
    }

    /** processLineItem. */
    method ProcessLineItem(kind: Kind) returns (ok: bool)
      requires Shape() && SafeTyped(State(), kind) && kind != BulkKind && kind != ArrayKind
      modifies this, rstack
      ensures Shape() && (State(), ok) == ProcessLine(old(State()), kind)
    {
      hide Finish, SafeStack, Seek, Number, NumberFits, Completed;
      var p, l := ReadLine();
      if l.None? { return false; }
      var line := p[..l.value];
      var obj := Error(line);
      if kind == IntegerKind {
        var v := ReadLongLong(p, l.value);
        if v.None? {
          SetError(Lost);
          return false;
        }
        obj := Integer(v.value);
      } else if kind == StatusKind {
        obj := Status(line);
      }
      if l.value + 2 > INT_MAX {
        SetError(Lost);
        return false;
      }
      CompletedMoved(old(State()), obj, pos);
      ok := PutObject(obj);
    }

    /** processBulkItem. */
    method ProcessBulkItem() returns (ok: bool)
      requires Shape() && SafeTyped(State(), BulkKind)
      modifies this, rstack
      ensures Shape() && (State(), ok) == ProcessBulk(old(State()))
    {
      hide Finish, SafeStack, LineEnd, Number, Fits, Completed;
      var p := buf[pos..];
      var s := SeekNewline(p);
      if s.None? { return false; }
      var bytelen := s.value + 2;
      var size := ReadLength(p, s.value);
      if size.None? {
        SetError(Lost);
        return false;
      }
      var obj := Nil;
      if size.value >= 0 {
        bytelen := bytelen + size.value + 2;
        if pos + bytelen > len { return false; }
        obj := Bulk(buf[pos + s.value + 2..pos + s.value + 2 + size.value]);
      }
      pos := pos + bytelen;
      CompletedMoved(old(State()), obj, pos);
      ok := PutObject(obj);
    }

    /** processMultiBulkItem: `elements` is a long, and createArray and the task take it as an int. */
    method ProcessMultiBulkItem() returns (ok: bool)
      requires Shape() && SafeTyped(State(), ArrayKind)
      modifies this, rstack
      ensures Shape() && (State(), ok) == ProcessArray(old(State()))
    {
      hide Finish, SafeStack, Seek, Number, NumberFits, Completed, Open;
      if ridx == 8 {
        SetError(TooDeep);
        return false;
      }
      var p, l := ReadLine();
      if l.None? { return false; }
      var elements := ReadLongLong(p, l.value);
      if elements.None? || l.value + 2 > INT_MAX {
        SetError(Lost);
        return false;
      }
      if elements.value > 0 {
        ok := OpenArray(ToInt(elements.value));
        return;
      }
      var obj := if elements.value == -1 then Nil else Unfilled(ToInt(elements.value));
      CompletedMoved(old(State()), obj, pos);
      ok := PutObject(obj);
    }

    /** The new array goes into its parent, and its task on the stack. */
    method OpenArray(count: Int32) returns (ok: bool)
      requires Shape() && 0 <= ridx < 8
      modifies this, rstack
      ensures Shape() && (State(), ok) ==
        if Placed(old(State()).stack) then (old(State()).(stack := Open(old(State()).stack, count)), true)
        else (ReaderModel.SetError(Lost), false)
    {
      if ridx > 0 && !(0 <= rstack[ridx].idx < |rstack[ridx - 1].slots|) {
        SetError(Lost);
        return false;
      }
      PushTask(count);
      return true;
    }

    /** The current task opens an array, and a task for its first element comes on top. */
    method PushTask(elements: Int32)
      requires Shape() && 0 <= ridx < 8
      modifies this`ridx, rstack
      ensures Shape() && State() == old(State()).(stack := Open(old(State()).stack, elements))
    {
      ghost var base := rstack[..ridx];
      var cur := rstack[ridx].(elements := elements, slots := seq(if elements > 0 then elements else 0, _ => None));
      assert rstack[..ridx + 1][..ridx] == base;
      rstack[ridx] := cur;
      ridx := ridx + 1;
      rstack[ridx] := NewFrame(0);
      assert rstack[..ridx + 1] == base + [cur, NewFrame(0)];
    }

    /** processItem. */
    method ProcessItem() returns (ok: bool)
      requires Shape() && SafeBusy(State())
      modifies this, rstack
      ensures Shape() && (State(), ok) == ReaderModel.ProcessItem(old(State()))
    {
      if rstack[ridx].kind.None? {
        if len - pos < 1 { return false; }
        var kind := KindOf(buf[pos]);
        if kind.None? {
          SetError(BadType(buf[pos]));
          return false;
        }
        TakeTypeByte(kind.value);
      }
      ok := ProcessKind(rstack[ridx].kind.value);
    }

    /** The type byte goes into the current task. */
    method TakeTypeByte(kind: Kind)
      requires Shape() && SafeBusy(State()) && rstack[ridx].kind.None? && pos < len && KindOf(buf[pos]) == Some(kind)
      modifies this`pos, rstack
      ensures Shape() && SafeTyped(State(), kind) && State() == TakeType(old(State()), kind)
    {
      TypeIsSafe(State(), kind);
      ghost var stack := rstack[..ridx + 1];
      pos := pos + 1;
      rstack[ridx] := rstack[ridx].(kind := Some(kind));
      assert rstack[..ridx + 1] == stack[ridx := stack[ridx].(kind := Some(kind))];
    }

    method ProcessKind(kind: Kind) returns (ok: bool)
      requires Shape() && SafeTyped(State(), kind)
      modifies this, rstack
      ensures Shape() && (State(), ok) == ProcessTyped(old(State()), kind)
    {
      match kind
      case BulkKind => ok := ProcessBulkItem();
      case ArrayKind => ok := ProcessMultiBulkItem();
      case _ => ok := ProcessLineItem(kind);
    }

    /** The loop of redisReaderGetReply. */
    method ProcessItems()
      requires Shape() && SafeBusy(State())
      modifies this, rstack
      ensures Shape() && State() == Loop(old(State()))
    {
      hide SafeStack, ReaderModel.ProcessItem;
      while ridx >= 0
        invariant Shape() && (ridx >= 0 ==> SafeBusy(State()))
        invariant if ridx >= 0 then Loop(State()) == Loop(old(State())) else State() == Loop(old(State()))
        decreases |Rest(State())|
      {
        ItemIsSafe(State());
        var ok := ProcessItem();
        if !ok { return; }
      }
    }

    /** The first task, when the stack is empty. */
    method Begin()
      requires Shape()
      modifies this`ridx, rstack
      ensures Shape() && State() == if old(ridx) == -1 then old(State()).(stack := [NewFrame(-1)]) else old(State())
    {
      if ridx == -1 {
        rstack[0] := NewFrame(-1);
        ridx := 0;
        assert rstack[..1] == [NewFrame(-1)];
      }
    }

    /** The end of redisReaderGetReply: the buffer is trimmed, and the reply is handed out if it is complete. */
    method Settle() returns (out: Outcome)
      requires Shape() && pos <= len && (ridx == -1 ==> reply.Some?)
      modifies this
      ensures Shape()
      ensures var m := Trim(old(State()));
        (State(), out) == if m.stack == [] && m.reply.Some? then (m.(reply := None), Ready(m.reply.value)) else (m, NoReply)
    {
      if pos >= TRIM {
        buf := Sds.IntRange(buf, ToInt(pos), -1);
        pos, len := 0, |buf|;
      }
      if ridx == -1 {
        out := Ready(reply.value);
        reply := None;
      } else {
        out := NoReply;
      }
    }

    /** redisReaderGetReply: nothing, a reply or the error. */
    method GetReply() returns (out: Outcome)
      requires Valid()
      modifies this, rstack
      ensures Valid() && (State(), out) == ReaderModel.GetReply(old(State()))
    {
      GetReplyIsSafe(State());
      if err.Some? { return Failed(err.value); }
      if len == 0 { return NoReply; }
      OneTask();
      LoopIsSafe(if State().stack == [] then State().(stack := [NewFrame(-1)]) else State());
      hide Loop, Trim, SafeStack;
      Begin();
      ProcessItems();
      if err.Some? { return Failed(err.value); }
      out := Settle();
    }
  }
}
