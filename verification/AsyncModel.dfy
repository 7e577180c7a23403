/**
  The callback queue of hiredis/async.c as a value, for plain commands: which callbacks run, with
  which replies, when callbacks issue commands or free the context themselves.
 */
module AsyncModel {
  import opened Options
  import Resp

  /** A callback as the caller gave it; `hasFn` is false for a NULL function. */
  datatype Callback = Callback(id: int, hasFn: bool)

  /** What a callback function does with the context. */
  datatype Action = Issue(cb: Callback) | Release

  /** The behaviour of the callback functions: any actions, that depend on the callback, its reply and how many have run. */
  type Behaviour = (Callback, Option<Resp.Reply>, nat) -> seq<Action>

  /**
    The context: the queue of pending callbacks and the flags.  The last four fields are a record of
    what happened: the accepted commands' callbacks, the answer with which each one left the queue,
    the calls of callback functions, and each command with the status that its caller got.
   */
  datatype Context = Context(
    queue: seq<Callback>, disconnecting: bool, freeing: bool, inCallback: bool, freed: bool, failed: bool,
    accepted: seq<Callback>, answers: seq<Option<Resp.Reply>>, calls: seq<(Callback, Option<Resp.Reply>)>,
    issued: seq<(Callback, bool)>)

  function NewContext(): Context { Context([], false, false, false, false, false, [], [], [], []) }

  /** No new commands are taken. */
  predicate Closing(c: Context) { c.disconnecting || c.freeing }

  // ---------- The operations ----------

  /** __redisAsyncCommand for a plain command; the flag is false for REDIS_ERR. */
  function AsyncCommand(c: Context, cb: Callback): (Context, bool) {
    if Closing(c) then (c, false) else (c.(queue := c.queue + [cb], accepted := c.accepted + [cb]), true)
  }

  /** A caller issues a command and notes the status. */
  function Issued(c: Context, cb: Callback): Context {
    var (c', ok) := AsyncCommand(c, cb);
    c'.(issued := c'.issued + [(cb, ok)])
  }

  /** What the actions of a callback function do; redisAsyncFree only sets its flag inside a callback. */
  function RunScript(c: Context, script: seq<Action>): (r: Context)
    ensures Closing(c) ==> r.queue == c.queue && r.accepted == c.accepted && Closing(r)
    ensures r == c.(queue := r.queue, freeing := r.freeing, accepted := r.accepted, issued := r.issued)
    decreases |script|
  {
    if script == [] then c
    else
      match script[0]
      case Issue(cb) => RunScript(Issued(c, cb), script[1..])
      case Release => RunScript(c.(freeing := true), script[1..])
  }

  /** __redisShiftCallback, with the answer that the callback gets. */
  function Shift(c: Context, answer: Option<Resp.Reply>): (r: Context)
    requires c.queue != []
    ensures |r.queue| < |c.queue|
  {
    c.(queue := c.queue[1..], answers := c.answers + [answer])
  }

  /** __redisRunCallback. */
  function RunCallback(b: Behaviour, c: Context, cb: Callback, answer: Option<Resp.Reply>): (r: Context)
    ensures Closing(c) ==> r.queue == c.queue && r.accepted == c.accepted && Closing(r)
    ensures r.answers == c.answers && r.disconnecting == c.disconnecting && r.freed == c.freed && r.failed == c.failed
    ensures r.calls == if cb.hasFn then c.calls + [(cb, answer)] else c.calls
  {
    if !cb.hasFn then c
    else RunScript(c.(inCallback := true, calls := c.calls + [(cb, answer)]), b(cb, answer, |c.calls|)).(inCallback := false)
  }

  /** The loop of __redisAsyncFree: the pending callbacks run with NULL. */
  function Drain(b: Behaviour, c: Context): (r: Context)
    requires Closing(c)
    ensures r.queue == [] && Closing(r)
    decreases |c.queue|
  {
    if c.queue == [] then c else Drain(b, RunCallback(b, Shift(c, None), c.queue[0], None))
  }

  /** __redisAsyncFree. */
  function Destroy(b: Behaviour, c: Context): Context
    requires Closing(c)
  {
    Drain(b, c).(freed := true)
  }

  /** redisAsyncFree. */
  function AsyncFree(b: Behaviour, c: Context): Context {
    var c1 := c.(freeing := true);
    if c1.inCallback then c1 else Destroy(b, c1)
  }

  /** __redisAsyncDisconnect after an error. */
  function Disconnect(b: Behaviour, c: Context): Context { Destroy(b, c.(disconnecting := true)) }

  /**
    redisProcessCallbacks, when redisGetReply returns `replies` one by one and then NULL, or an error
    if `error` is set.  A reply without a pending callback disconnects if it is an error reply, and
    fails an assertion otherwise.
   */
  function ProcessCallbacks(b: Behaviour, c: Context, replies: seq<Resp.Reply>, error: bool): Context
    decreases |replies|
  {
    if replies == [] then (if error then Disconnect(b, c) else c)
    else if c.queue == [] then (if replies[0].Error? then Disconnect(b, c) else c.(failed := true))
    else
      var c1 := RunCallback(b, Shift(c, Some(replies[0])), c.queue[0], Some(replies[0]));
      if c.queue[0].hasFn && c1.freeing then Destroy(b, c1)
      else ProcessCallbacks(b, c1, replies[1..], error)
  }

  // ---------- Runs ----------

  /** What the program and the event loop do with the context from outside. */
  datatype Event = Send(cb: Callback) | Receive(replies: seq<Resp.Reply>, error: bool) | Free

  function Handle(b: Behaviour, c: Context, e: Event): Context {
    if c.freed || c.failed then c
    else
      match e
      case Send(cb) => Issued(c, cb)
      case Receive(replies, error) => ProcessCallbacks(b, c, replies, error)
      case Free => AsyncFree(b, c)
  }

  function Run(b: Behaviour, c: Context, es: seq<Event>): Context
    decreases |es|
  {
    if es == [] then c else Run(b, Handle(b, c, es[0]), es[1..])
  }

  /** All replies that a run delivers. */
  function Delivered(es: seq<Event>): seq<Resp.Reply> {
    if es == [] then [] else (if es[0].Receive? then es[0].replies else []) + Delivered(es[1..])
  }

  // ---------- What must have happened ----------

  /** The calls that the accepted callbacks and their answers make: the k-th answer goes to the k-th callback. */
  function Calls(accepted: seq<Callback>, answers: seq<Option<Resp.Reply>>): seq<(Callback, Option<Resp.Reply>)>
    requires |answers| <= |accepted|
  {
    if answers == [] then []
    else (if accepted[0].hasFn then [(accepted[0], answers[0])] else []) + Calls(accepted[1..], answers[1..])
  }

  /** The replies among the answers. */
  function Replies(answers: seq<Option<Resp.Reply>>): seq<Resp.Reply> {
    if answers == [] then [] else (if answers[0].Some? then [answers[0].value] else []) + Replies(answers[1..])
  }

  ghost predicate AllSome(answers: seq<Option<Resp.Reply>>) { forall i :: 0 <= i < |answers| ==> answers[i].Some? }

  /** First replies, then NULLs. */
  ghost predicate NullsLast(answers: seq<Option<Resp.Reply>>) {
    forall i, j :: 0 <= i < j < |answers| && answers[i].None? ==> answers[j].None?
  }

  /** The queue holds the accepted callbacks that have no answer yet, and each answered callback has run once, in order. */
  ghost predicate InOrder(c: Context) {
    && |c.answers| <= |c.accepted| && c.queue == c.accepted[|c.answers|..]
    && c.calls == Calls(c.accepted, c.answers) && NullsLast(c.answers) && Noted(c)
  }

  /** The accepted commands are those with a good status, and none is refused before the context closes. */
  ghost predicate Noted(c: Context) {
    c.accepted == Granted(c.issued) && RefusedLast(c.issued) && (!Closing(c) ==> AllGranted(c.issued))
  }

  /** The commands that were answered with REDIS_OK. */
  function Granted(issued: seq<(Callback, bool)>): seq<Callback> {
    if issued == [] then [] else (if issued[0].1 then [issued[0].0] else []) + Granted(issued[1..])
  }

  /** Once a command has been refused, all later ones are. */
  ghost predicate RefusedLast(issued: seq<(Callback, bool)>) {
    forall i, j :: 0 <= i < j < |issued| && !issued[i].1 ==> !issued[j].1
  }

  ghost predicate AllGranted(issued: seq<(Callback, bool)>) { forall i :: 0 <= i < |issued| ==> issued[i].1 }

  lemma GrantedHead(issued: seq<(Callback, bool)>)
    ensures Granted(issued) == if issued == [] then [] else (if issued[0].1 then [issued[0].0] else []) + Granted(issued[1..])
  {
  }

  lemma {:induction false} GrantedAppend(issued: seq<(Callback, bool)>, cb: Callback, ok: bool)
    ensures Granted(issued + [(cb, ok)]) == Granted(issued) + (if ok then [cb] else [])
    decreases |issued|
  {
    hide Granted;
    var all, last := issued + [(cb, ok)], if ok then [cb] else [];
    GrantedHead(issued);
    GrantedHead(all);
    if issued == [] {
      assert all[1..] == [] && last + [] == last == [] + last;
      GrantedHead([]);
    } else {
      GrantedAppend(issued[1..], cb, ok);
      assert all[1..] == issued[1..] + [(cb, ok)];
      var first := if issued[0].1 then [issued[0].0] else [];
      assert first + (Granted(issued[1..]) + last) == first + Granted(issued[1..]) + last;
    }
  }

  /** Between events. */
  ghost predicate Good(c: Context) {
    && InOrder(c) && !c.inCallback
    && (if c.freed then c.queue == [] else AllSome(c.answers) && !Closing(c))
  }

  lemma {:induction false} CallsAccept(accepted: seq<Callback>, more: seq<Callback>, answers: seq<Option<Resp.Reply>>)
    requires |answers| <= |accepted|
    ensures Calls(accepted + more, answers) == Calls(accepted, answers)
    decreases |answers|
  {
    if answers != [] {
      assert (accepted + more)[1..] == accepted[1..] + more;
      CallsAccept(accepted[1..], more, answers[1..]);
    }
  }

  lemma {:induction false} CallsAnswer(accepted: seq<Callback>, answers: seq<Option<Resp.Reply>>, a: Option<Resp.Reply>)
    requires |answers| < |accepted|
    ensures Calls(accepted, answers + [a]) ==
      Calls(accepted, answers) + (if accepted[|answers|].hasFn then [(accepted[|answers|], a)] else [])
    decreases |answers|
  {
    if answers == [] {
      assert [a][1..] == [] && Calls(accepted[1..], []) == [];
    } else {
      assert (answers + [a])[1..] == answers[1..] + [a];
      CallsAnswer(accepted[1..], answers[1..], a);
      var first := if accepted[0].hasFn then [(accepted[0], answers[0])] else [];
      var last := if accepted[|answers|].hasFn then [(accepted[|answers|], a)] else [];
      assert first + (Calls(accepted[1..], answers[1..]) + last) == first + Calls(accepted[1..], answers[1..]) + last;
    }
  }

  lemma RepliesHead(xs: seq<Option<Resp.Reply>>)
    ensures Replies(xs) == if xs == [] then [] else (if xs[0].Some? then [xs[0].value] else []) + Replies(xs[1..])
  {
  }

  lemma {:induction false} RepliesAppend(xs: seq<Option<Resp.Reply>>, ys: seq<Option<Resp.Reply>>)
    ensures Replies(xs + ys) == Replies(xs) + Replies(ys)
    decreases |xs|
  {
    hide Replies;
    RepliesHead(xs);
    if xs == [] {
      assert xs + ys == ys && [] + Replies(ys) == Replies(ys);
    } else {
      RepliesHead(xs + ys);
      assert (xs + ys)[1..] == xs[1..] + ys;
      RepliesAppend(xs[1..], ys);
      var first := if xs[0].Some? then [xs[0].value] else [];
      assert first + (Replies(xs[1..]) + Replies(ys)) == first + Replies(xs[1..]) + Replies(ys);
    }
  }

  lemma {:induction false} RepliesAll(answers: seq<Option<Resp.Reply>>)
    requires AllSome(answers)
    ensures |Replies(answers)| == |answers|
  {
    if answers != [] { RepliesAll(answers[1..]); }
  }

  lemma {:induction false} ScriptKeeps(c: Context, script: seq<Action>)
    requires InOrder(c)
    ensures InOrder(RunScript(c, script))
    decreases |script|
  {
    if script != [] {
      match script[0]
      case Issue(cb) =>
        CommandKeeps(c, cb);
        ScriptKeeps(Issued(c, cb), script[1..]);
      case Release => ScriptKeeps(c.(freeing := true), script[1..]);
    }
  }

  /**
    A command gets REDIS_OK if and only if neither flag of the context is set; exactly then its
    callback goes to the end of the queue, and otherwise nothing changes.
   */
  lemma CommandStatus(c: Context, cb: Callback)
    ensures var (c', ok) := AsyncCommand(c, cb);
      && (ok <==> !c.disconnecting && !c.freeing)
      && c'.queue == (if ok then c.queue + [cb] else c.queue) && c'.accepted == (if ok then c.accepted + [cb] else c.accepted)
      && c' == c.(queue := c'.queue, accepted := c'.accepted)
  {
  }

  lemma CommandNoted(c: Context, cb: Callback)
    requires Noted(c)
    ensures Noted(Issued(c, cb))
  {
    hide AsyncCommand, Granted;
    CommandStatus(c, cb);
    GrantedAppend(c.issued, cb, AsyncCommand(c, cb).1);
  }

  lemma CommandKeeps(c: Context, cb: Callback)
    requires InOrder(c)
    ensures InOrder(Issued(c, cb))
  {
    hide AsyncCommand, Calls, Noted, NullsLast;
    CommandStatus(c, cb);
    CommandNoted(c, cb);
    CallsAccept(c.accepted, [cb], c.answers);
    assert (c.accepted + [cb])[|c.answers|..] == c.accepted[|c.answers|..] + [cb];
  }

  /** The release that a callback asks for is the one of redisAsyncFree, and it closes the context for the rest of the script. */
  lemma {:induction false} ReleaseCloses(b: Behaviour, c: Context, script: seq<Action>)
    ensures c.inCallback ==> RunScript(c, [Release]) == AsyncFree(b, c)
    ensures RunScript(c, script).freeing <==> c.freeing || Release in script
    decreases |script|
  {
    assert [Release][1..] == [];
    if script != [] {
      var c1 := if script[0].Issue? then Issued(c, script[0].cb) else c.(freeing := true);
      ReleaseCloses(b, c1, script[1..]);
      assert Release in script <==> script[0] == Release || Release in script[1..];
    }
  }

  /** A reply that is not awaited: an error reply frees the context, any other one fails the assertion. */
  lemma Unawaited(b: Behaviour, c: Context, r: Resp.Reply, later: seq<Resp.Reply>, error: bool)
    requires c.queue == [] && !c.freed && !c.failed
    ensures var c' := ProcessCallbacks(b, c, [r] + later, error);
      && (c'.freed <==> r.Error?) && (c'.failed <==> !r.Error?)
      && c'.calls == c.calls && c'.accepted == c.accepted && c'.answers == c.answers
  {
    assert Drain(b, c.(disconnecting := true)) == c.(disconnecting := true);
  }

  /** The callback of an awaited reply runs with it; when it releases the context, the context is freed. */
  lemma Awaited(b: Behaviour, c: Context, r: Resp.Reply, later: seq<Resp.Reply>, error: bool)
    requires Good(c) && !c.freed && !c.failed && c.queue != [] && c.queue[0].hasFn
    ensures var cb, c' := c.queue[0], ProcessCallbacks(b, c, [r] + later, error);
      && |c'.calls| > |c.calls| && c'.calls[|c.calls|] == (cb, Some(r)) && c'.calls[..|c.calls|] == c.calls
      && (Release in b(cb, Some(r), |c.calls|) ==> c'.freed && !c'.failed)
  {
    var cb, answer: Option<Resp.Reply> := c.queue[0], Some(r);
    assert ([r] + later)[1..] == later;
    var c0 := Shift(c, answer);
    var c1 := RunCallback(b, c0, cb, answer);
    AnswerKeeps(b, c, answer);
    ReleaseCloses(b, c0.(inCallback := true, calls := c0.calls + [(cb, answer)]), b(cb, answer, |c.calls|));
    if c1.freeing {
      DestroyKeeps(b, c1);
      DrainCalls(b, c1);
    } else {
      ProcessCalls(b, c1, later, error);
    }
  }

  /** Calls that have happened stay in the record. */
  lemma {:induction false} DrainCalls(b: Behaviour, c: Context)
    requires Closing(c)
    ensures c.calls <= Drain(b, c).calls && Drain(b, c).failed == c.failed
    decreases |c.queue|
  {
    if c.queue != [] { DrainCalls(b, RunCallback(b, Shift(c, None), c.queue[0], None)); }
  }

  lemma {:induction false} ProcessCalls(b: Behaviour, c: Context, replies: seq<Resp.Reply>, error: bool)
    ensures c.calls <= ProcessCallbacks(b, c, replies, error).calls
    decreases |replies|
  {
    if replies == [] || c.queue == [] {
      DrainCalls(b, c.(disconnecting := true));
    } else {
      var a: Option<Resp.Reply> := Some(replies[0]);
      var c1 := RunCallback(b, Shift(c, a), c.queue[0], a);
      if c.queue[0].hasFn && c1.freeing { DrainCalls(b, c1); } else { ProcessCalls(b, c1, replies[1..], error); }
    }
  }

  /** Taking the first callback from the queue and running it. */
  lemma AnswerKeeps(b: Behaviour, c: Context, a: Option<Resp.Reply>)
    requires InOrder(c) && c.queue != [] && (a.Some? ==> AllSome(c.answers))
    ensures InOrder(RunCallback(b, Shift(c, a), c.queue[0], a))
    ensures RunCallback(b, Shift(c, a), c.queue[0], a).answers == c.answers + [a]
    ensures c.inCallback == false ==> RunCallback(b, Shift(c, a), c.queue[0], a).inCallback == false
    ensures !Closing(c) && RunCallback(b, Shift(c, a), c.queue[0], a).freeing ==> c.queue[0].hasFn
  {
    hide Granted, RefusedLast, AllGranted, Calls;
    var cb, n := c.queue[0], |c.answers|;
    CallsAnswer(c.accepted, c.answers, a);
    assert c.accepted[n..][1..] == c.accepted[n + 1..] && c.accepted[n] == cb;
    var c1 := Shift(c, a).(inCallback := true, calls := Calls(c.accepted, c.answers + [a]));
    if cb.hasFn {
      assert InOrder(c1);
      ScriptKeeps(c1, b(cb, a, |c.calls|));
    }
  }

  /** Every callback that is left runs once with NULL, in order. */
  lemma {:induction false} DrainKeeps(b: Behaviour, c: Context)
    requires InOrder(c) && Closing(c)
    ensures InOrder(Drain(b, c)) && Drain(b, c).accepted == c.accepted && Drain(b, c).failed == c.failed
    ensures Replies(Drain(b, c).answers) == Replies(c.answers)
    ensures !c.inCallback ==> !Drain(b, c).inCallback
    decreases |c.queue|
  {
    if c.queue != [] {
      AnswerKeeps(b, c, None);
      RepliesAppend(c.answers, [None]);
      DrainKeeps(b, RunCallback(b, Shift(c, None), c.queue[0], None));
    }
  }

  lemma DestroyKeeps(b: Behaviour, c: Context)
    requires InOrder(c) && Closing(c) && !c.inCallback
    ensures Good(Destroy(b, c)) && Destroy(b, c).accepted == c.accepted && Destroy(b, c).freed
    ensures Replies(Destroy(b, c).answers) == Replies(c.answers) && Destroy(b, c).failed == c.failed
  {
    DrainKeeps(b, c);
  }

  /** Each reply goes to the next callback; what comes after a release or an error is dropped. */
  lemma {:induction false} ProcessKeeps(b: Behaviour, c: Context, replies: seq<Resp.Reply>, error: bool)
    requires Good(c) && !c.freed && !c.failed
    ensures var c' := ProcessCallbacks(b, c, replies, error);
      && Good(c') && (c'.failed ==> !c'.freed)
      && Replies(c'.answers) <= Replies(c.answers) + replies
      && (!c'.freed && !c'.failed ==> !error && Replies(c'.answers) == Replies(c.answers) + replies)
      && (c'.failed ==> |c'.accepted| < |Replies(c.answers)| + |replies|)
    decreases |replies|
  {
    hide Granted, RefusedLast, AllGranted, Calls;
    if replies == [] {
      assert Replies(c.answers) + replies == Replies(c.answers);
      if error { DestroyKeeps(b, c.(disconnecting := true)); }
    } else if c.queue == [] {
      RepliesAll(c.answers);
      if replies[0].Error? { DestroyKeeps(b, c.(disconnecting := true)); }
    } else {
      var a: Option<Resp.Reply> := Some(replies[0]);
      var c1 := RunCallback(b, Shift(c, a), c.queue[0], a);
      AnswerKeeps(b, c, a);
      RepliesAppend(c.answers, [a]);
      assert [a][1..] == [] && Replies([a]) == [replies[0]];
      assert Replies(c.answers) + replies == Replies(c1.answers) + replies[1..];
      if c1.freeing { DestroyKeeps(b, c1); } else { ProcessKeeps(b, c1, replies[1..], error); }
    }
  }

  /** What every event keeps, when it delivers `delivered`. */
  ghost predicate Kept(c: Context, c': Context, delivered: seq<Resp.Reply>) {
    && Good(c') && (c'.failed ==> !c'.freed)
    && Replies(c'.answers) <= Replies(c.answers) + delivered
    && (!c'.freed && !c'.failed ==> Replies(c'.answers) == Replies(c.answers) + delivered)
    && (c'.failed && !c.failed ==> |c'.accepted| < |Replies(c.answers)| + |delivered|)
  }

  /** The event that frees the context, or the read that ends in an I/O or protocol error. */
  predicate Ends(e: Event) { e.Free? || (e.Receive? && e.error) }

  lemma HandleKeeps(b: Behaviour, c: Context, e: Event)
    requires Good(c) && (c.failed ==> !c.freed)
    ensures Kept(c, Handle(b, c, e), if e.Receive? then e.replies else [])
    ensures c.freed || c.failed ==> Handle(b, c, e) == c
    ensures Ends(e) ==> Handle(b, c, e).freed || Handle(b, c, e).failed
  {
    assert Replies(c.answers) + [] == Replies(c.answers);
    if !c.freed && !c.failed {
      match e
      case Send(cb) => CommandKeeps(c, cb);
      case Receive(replies, error) => ProcessKeeps(b, c, replies, error);
      case Free => DestroyKeeps(b, c.(freeing := true));
    }
  }

  lemma {:induction false} RunKeeps(b: Behaviour, c: Context, es: seq<Event>)
    requires Good(c) && (c.failed ==> !c.freed)
    ensures Kept(c, Run(b, c, es), Delivered(es))
    ensures c.freed || c.failed ==> Run(b, c, es) == c
    ensures (exists i :: 0 <= i < |es| && Ends(es[i])) ==> Run(b, c, es).freed || Run(b, c, es).failed
    decreases |es|
  {
    hide Good, Replies, Handle, Ends;
    if es == [] {
      assert Replies(c.answers) + [] == Replies(c.answers);
    } else {
      HandleKeeps(b, c, es[0]);
      var c1 := Handle(b, c, es[0]);
      RunKeeps(b, c1, es[1..]);
      var first := if es[0].Receive? then es[0].replies else [];
      KeptChain(c, c1, Run(b, c1, es[1..]), first, Delivered(es[1..]));
      assert forall i :: 1 <= i < |es| ==> es[1..][i - 1] == es[i];
    }
  }

  lemma KeptChain(c: Context, c1: Context, c2: Context, first: seq<Resp.Reply>, rest: seq<Resp.Reply>)
    requires Kept(c, c1, first) && Kept(c1, c2, rest) && (c1.freed || c1.failed ==> c2 == c1)
    ensures Kept(c, c2, first + rest)
  {
    hide Good, Replies;
    assert Replies(c.answers) + (first + rest) == Replies(c.answers) + first + rest;
  }

  /**
    Whatever the callbacks do: in every run the calls of callback functions are those of the first
    accepted commands, each once and in the order of acceptance, the k-th with the k-th reply.  The
    accepted commands are those that were answered with REDIS_OK, and once one is refused all later ones
    are.  The assertion on the queue fails only when more replies come than commands were accepted; and unless
    it has failed, redisAsyncFree or an error in reading frees the context, and then every accepted
    command's callback has been called, the ones without a reply with NULL.
   */
  lemma EachCallbackOnce(b: Behaviour, es: seq<Event>)
    ensures var c := Run(b, NewContext(), es);
      && |c.answers| <= |c.accepted| && c.calls == Calls(c.accepted, c.answers) && NullsLast(c.answers)
      && c.accepted == Granted(c.issued) && RefusedLast(c.issued) && (c.freed || AllGranted(c.issued))
      && Replies(c.answers) <= Delivered(es)
      && (!c.freed && !c.failed ==> Replies(c.answers) == Delivered(es) && AllSome(c.answers))
      && (c.freed ==> |c.answers| == |c.accepted|)
      && (c.failed ==> |Delivered(es)| > |c.accepted|)
      && ((exists i :: 0 <= i < |es| && Ends(es[i])) ==> c.freed || c.failed)
  {
    RunKeeps(b, NewContext(), es);
    assert [] + Delivered(es) == Delivered(es);
  }

  /**
    In plain mode, with no more replies than commands, a run that frees the context or meets an error
    calls the callback of every accepted command exactly once.
   */
  lemma AllAnsweredAtEnd(b: Behaviour, es: seq<Event>)
    requires |Delivered(es)| <= |Run(b, NewContext(), es).accepted|
    requires exists i :: 0 <= i < |es| && Ends(es[i])
    ensures var c := Run(b, NewContext(), es);
      && c.freed && !c.failed && |c.answers| == |c.accepted| && c.calls == Calls(c.accepted, c.answers)
      && NullsLast(c.answers) && Replies(c.answers) <= Delivered(es)
  {
    EachCallbackOnce(b, es);
  }

  // ---------- Why a context is freed ----------

  /** A callback that has run has released the context. */
  ghost predicate Released(b: Behaviour, calls: seq<(Callback, Option<Resp.Reply>)>) {
    exists k :: 0 <= k < |calls| && Release in b(calls[k].0, calls[k].1, k)
  }

  lemma ReleasedStays(b: Behaviour, calls: seq<(Callback, Option<Resp.Reply>)>, more: seq<(Callback, Option<Resp.Reply>)>)
    requires Released(b, calls) && calls <= more
    ensures Released(b, more)
  {
    var k :| 0 <= k < |calls| && Release in b(calls[k].0, calls[k].1, k);
    assert more[k] == calls[k];
  }

  lemma CallReleases(b: Behaviour, c: Context, cb: Callback, answer: Option<Resp.Reply>)
    requires !c.freeing
    ensures RunCallback(b, c, cb, answer).freeing ==> Released(b, RunCallback(b, c, cb, answer).calls)
  {
    if cb.hasFn {
      var c1 := c.(inCallback := true, calls := c.calls + [(cb, answer)]);
      ReleaseCloses(b, c1, b(cb, answer, |c.calls|));
      if RunCallback(b, c, cb, answer).freeing { assert c1.calls[|c.calls|] == (cb, answer); }
    }
  }

  /** Replies free the context only after a read error, an error reply or a release by a callback. */
  lemma {:induction false} ProcessFrees(b: Behaviour, c: Context, replies: seq<Resp.Reply>, error: bool)
    requires Good(c) && !c.freed && !c.failed && !error && forall r :: r in replies ==> !r.Error?
    ensures var c' := ProcessCallbacks(b, c, replies, error); c'.freed ==> Released(b, c'.calls)
    decreases |replies|
  {
    hide Released, InOrder;
    if replies != [] && c.queue != [] {
      var a: Option<Resp.Reply> := Some(replies[0]);
      var c1 := RunCallback(b, Shift(c, a), c.queue[0], a);
      AnswerKeeps(b, c, a);
      CallReleases(b, Shift(c, a), c.queue[0], a);
      if c1.freeing {
        DrainCalls(b, c1);
        ReleasedStays(b, c1.calls, Destroy(b, c1).calls);
      } else {
        ProcessFrees(b, c1, replies[1..], error);
      }
    }
  }

  /**
    A context that nobody frees stays usable: without redisAsyncFree, a read error, an error reply or
    a release by a callback, no run frees it, and all commands are accepted.
   */
  lemma {:induction false} FreedHasCause(b: Behaviour, es: seq<Event>)
    requires forall i :: 0 <= i < |es| ==> !Ends(es[i])
    requires forall r :: r in Delivered(es) ==> !r.Error?
    ensures var c := Run(b, NewContext(), es);
      c.freed ==> Released(b, c.calls)
    ensures var c := Run(b, NewContext(), es);
      !Released(b, c.calls) ==> AllGranted(c.issued)
  {
    hide Released;
    RunFrees(b, NewContext(), es);
    EachCallbackOnce(b, es);
  }

  lemma {:induction false} RunFrees(b: Behaviour, c: Context, es: seq<Event>)
    requires Good(c) && (c.failed ==> !c.freed) && (c.freed ==> Released(b, c.calls))
    requires forall i :: 0 <= i < |es| ==> !Ends(es[i])
    requires forall r :: r in Delivered(es) ==> !r.Error?
    ensures Run(b, c, es).freed ==> Released(b, Run(b, c, es).calls)
    decreases |es|
  {
    hide Released, Good, ProcessCallbacks;
    if es != [] {
      var c1 := Handle(b, c, es[0]);
      HandleKeeps(b, c, es[0]);
      var first := if es[0].Receive? then es[0].replies else [];
      assert forall r :: r in first ==> r in Delivered(es);
      assert forall r :: r in Delivered(es[1..]) ==> r in Delivered(es);
      assert !Ends(es[0]) && forall i :: 0 <= i < |es[1..]| ==> es[1..][i] == es[i + 1];
      if !c.freed && !c.failed && es[0].Receive? { ProcessFrees(b, c, es[0].replies, es[0].error); }
      RunFrees(b, c1, es[1..]);
    }
  }

  /** The first command of a new context, and its reply. */
  lemma FirstCommand(b: Behaviour, cb: Callback, r: Resp.Reply)
    requires cb.hasFn
    ensures var c := Run(b, NewContext(), [Send(cb), Receive([r], false)]);
      && !c.failed && c.issued != [] && c.issued[0] == (cb, true)
      && c.calls != [] && c.calls[0] == (cb, Some(r))
  {
    hide Run, ProcessCallbacks, Calls;
    var c0 := Issued(NewContext(), cb);
    TwoEvents(b, NewContext(), Send(cb), Receive([r], false));
    SendStarts(cb);
    var none: seq<Resp.Reply> := [];
    assert [r] + none == [r];
    Awaited(b, c0, r, none, false);
    ProcessKeeps(b, c0, [r], false);
    IssuedGrows(b, c0, [r]);
    assert ProcessCallbacks(b, c0, [r], false).issued[0] == c0.issued[0];
  }

  lemma TwoEvents(b: Behaviour, c: Context, e0: Event, e1: Event)
    ensures Run(b, c, [e0, e1]) == Handle(b, Handle(b, c, e0), e1)
  {
    hide Handle;
    var es, c1 := [e0, e1], Handle(b, c, e0);
    var c2 := Handle(b, c1, e1);
    assert es[1..] == [e1] && [e1][1..] == [];
    assert Run(b, c2, []) == c2;
    assert Run(b, c1, [e1]) == Run(b, c2, []);
  }

  /** The first command of a new context is accepted and waits. */
  lemma SendStarts(cb: Callback)
    ensures var c := Issued(NewContext(), cb);
      Good(c) && c.queue == [cb] && c.calls == [] && c.issued == [(cb, true)] && c.accepted == [cb] && c.answers == [] && !c.freed && !c.failed
  {
    CommandKeeps(NewContext(), cb);
    assert [] + [cb] == [cb];
  }

  /** What has been issued stays in the record. */
  lemma {:induction false} ScriptIssues(c: Context, script: seq<Action>)
    ensures c.issued <= RunScript(c, script).issued
    decreases |script|
  {
    if script != [] {
      match script[0]
      case Issue(cb) => ScriptIssues(Issued(c, cb), script[1..]);
      case Release => ScriptIssues(c.(freeing := true), script[1..]);
    }
  }

  lemma {:induction false} DrainIssues(b: Behaviour, c: Context)
    requires Closing(c)
    ensures c.issued <= Drain(b, c).issued
    decreases |c.queue|
  {
    if c.queue != [] {
      CallbackIssues(b, Shift(c, None), c.queue[0], None);
      DrainIssues(b, RunCallback(b, Shift(c, None), c.queue[0], None));
    }
  }

  lemma CallbackIssues(b: Behaviour, c: Context, cb: Callback, answer: Option<Resp.Reply>)
    ensures c.issued <= RunCallback(b, c, cb, answer).issued
  {
    if cb.hasFn { ScriptIssues(c.(inCallback := true, calls := c.calls + [(cb, answer)]), b(cb, answer, |c.calls|)); }
  }

  lemma {:induction false} IssuedGrows(b: Behaviour, c: Context, replies: seq<Resp.Reply>)
    ensures c.issued <= ProcessCallbacks(b, c, replies, false).issued
    decreases |replies|
  {
    if replies != [] && c.queue == [] {
      DrainIssues(b, c.(disconnecting := true));
    } else if replies != [] {
      var a: Option<Resp.Reply> := Some(replies[0]);
      var c1 := RunCallback(b, Shift(c, a), c.queue[0], a);
      CallbackIssues(b, Shift(c, a), c.queue[0], a);
      if c.queue[0].hasFn && c1.freeing { DrainIssues(b, c1); } else { IssuedGrows(b, c1, replies[1..]); }
    }
  }
}
