/** The asynchronous context of hiredis/async.c in place, with its linked list of pending callbacks. */
module Async {
  import opened AsyncModel
  import opened Options
  import Resp

  class Node {
    const cb: Callback
    var next: Node?

    constructor (cb: Callback)
      ensures this.cb == cb && next == null
    {
      this.cb, next := cb, null;
    }
  }

  /** redisCallbackList. */
  class CallbackList {
    var head: Node?
    var tail: Node?
    ghost var nodes: seq<Node>
    ghost var Repr: set<object>

    ghost predicate Valid()
      reads this, Repr
      ensures Valid() ==> this in Repr
    {
      && this in Repr && (forall i :: 0 <= i < |nodes| ==> nodes[i] in Repr)
      && (forall i, j :: 0 <= i < j < |nodes| ==> nodes[i] != nodes[j])
      && head == (if nodes == [] then null else nodes[0])
      && tail == (if nodes == [] then null else nodes[|nodes| - 1])
      && (forall i {:trigger nodes[i].next} :: 0 <= i < |nodes| ==> nodes[i].next == if i + 1 < |nodes| then nodes[i + 1] else null)
    }

    ghost function Queue(): (q: seq<Callback>)
      reads this
      ensures |q| == |nodes|
    {
      seq(|nodes|, i requires 0 <= i < |nodes| reads this => nodes[i].cb)
    }

    constructor ()
      ensures Valid() && fresh(Repr) && Queue() == []
    {
      head, tail, nodes := null, null, [];
      new;
      Repr := {this};
    }

    /** __redisPushCallback. */
    method Push(source: Callback)
      requires Valid()
      modifies Repr
      ensures Valid() && fresh(Repr - old(Repr)) && Queue() == old(Queue()) + [source]
    {
      var cb := new Node(source);
      if head == null { head := cb; }
      if tail != null { tail.next := cb; }
      tail := cb;
      nodes, Repr := nodes + [cb], Repr + {cb};
    }

    /** __redisShiftCallback. */
    method Shift() returns (target: Option<Callback>)
      requires Valid()
      modifies this
      ensures Valid() && Repr == old(Repr)
      ensures if old(Queue()) == [] then target == None && Queue() == []
              else target == Some(old(Queue())[0]) && Queue() == old(Queue())[1..]
    {
      var cb := head;
      if cb == null { return None; }
      head := cb.next;
      if cb == tail { tail := null; }
      nodes := nodes[1..];
      return Some(cb.cb);
    }
  }

  class AsyncContext {
    const behave: Behaviour
    const replies: CallbackList
    var disconnecting: bool
    var freeing: bool
    var inCallback: bool
    var freed: bool
    var failed: bool
    var calls: seq<(Callback, Option<Resp.Reply>)>
    ghost var accepted: seq<Callback>
    ghost var answers: seq<Option<Resp.Reply>>
    ghost var issued: seq<(Callback, bool)>

    ghost predicate Valid()
      reads this, replies, replies.Repr
    {
      replies.Valid() && this !in replies.Repr
    }

    ghost function State(): Context
      reads this, replies
    {
      Context(replies.Queue(), disconnecting, freeing, inCallback, freed, failed, accepted, answers, calls, issued)
    }

    constructor (behave: Behaviour)
      ensures Valid() && fresh(replies.Repr) && State() == NewContext() && this.behave == behave
    {
      this.behave := behave;
      replies := new CallbackList();
      disconnecting, freeing, inCallback, freed, failed := false, false, false, false, false;
      calls, accepted, answers, issued := [], [], [], [];
    }

    /** __redisAsyncCommand. */
    method Command(cb: Callback) returns (ok: bool)
      requires Valid()
      modifies this, replies.Repr
      ensures Valid() && fresh(replies.Repr - old(replies.Repr)) && (State(), ok) == AsyncCommand(old(State()), cb)
    {
      if disconnecting || freeing { return false; }
      replies.Push(cb);
      accepted := accepted + [cb];
      return true;
    }

    /** A caller issues a command and notes the status. */
    method Send(cb: Callback) returns (ok: bool)
      requires Valid()
      modifies this, replies.Repr
      ensures Valid() && fresh(replies.Repr - old(replies.Repr)) && State() == Issued(old(State()), cb)
      ensures ok <==> !old(disconnecting) && !old(freeing)
    {
      ok := Command(cb);
      issued := issued + [(cb, ok)];
    }

    /** The actions of a callback function. */
    method Perform(script: seq<Action>)
      requires Valid()
      modifies this, replies.Repr
      ensures Valid() && fresh(replies.Repr - old(replies.Repr)) && State() == RunScript(old(State()), script)
    {
      var i := 0;
      assert script[0..] == script;
      while i < |script|
        invariant i <= |script| && Valid() && fresh(replies.Repr - old(replies.Repr))
        invariant RunScript(State(), script[i..]) == RunScript(old(State()), script)
      {
        assert script[i..][1..] == script[i + 1..];
        match script[i] {
          case Issue(cb) => var ok := Send(cb);
          case Release => freeing := true;
        }
        i := i + 1;
      }
    }

    /** __redisRunCallback. */
    method RunOne(cb: Callback, reply: Option<Resp.Reply>)
      requires Valid()
      modifies this, replies.Repr
      ensures Valid() && fresh(replies.Repr - old(replies.Repr))
      ensures State() == RunCallback(behave, old(State()), cb, reply)
    {
      if cb.hasFn {
        var script := behave(cb, reply, |calls|);
        inCallback := true;
        calls := calls + [(cb, reply)];
        Perform(script);
        inCallback := false;
      }
    }

    /** Takes the first callback from the queue, with the answer that it will get. */
    method Next(ghost answer: Option<Resp.Reply>) returns (cb: Option<Callback>)
      requires Valid()
      modifies this, replies
      ensures Valid() && replies.Repr == old(replies.Repr)
      ensures if old(replies.Queue()) == [] then cb == None && State() == old(State())
              else cb == Some(old(replies.Queue())[0]) && State() == Shift(old(State()), answer)
    {
      cb := replies.Shift();
      if cb.Some? { answers := answers + [answer]; }
    }

    /** One turn of the loop of __redisAsyncFree. */
    method DrainOne(cb: Callback) returns (next: Option<Callback>)
      requires Valid() && Closing(State())
      modifies this, replies.Repr
      ensures Valid() && Closing(State()) && fresh(replies.Repr - old(replies.Repr))
      ensures var c := RunCallback(behave, old(State()), cb, None);
        if c.queue == [] then next == None && State() == c
        else next == Some(c.queue[0]) && State() == Shift(c, None)
    {
      hide RunCallback;
      RunOne(cb, None);
      next := Next(None);
    }

    /** The loop of __redisAsyncFree: the pending callbacks run with NULL. */
    method RunPending()
      requires Valid() && Closing(State())
      modifies this, replies.Repr
      ensures Valid() && State() == Drain(behave, old(State()))
    {
      ghost var end := Drain(behave, State());
      hide RunCallback;
      var cb := Next(None);
      ghost var c := State();
      while cb.Some?
        invariant Valid() && State() == c && Closing(c) && fresh(replies.Repr - old(replies.Repr))
        invariant end == if cb.Some? then Drain(behave, RunCallback(behave, c, cb.value, None)) else c
        decreases |c.queue| + (if cb.Some? then 1 else 0)
      {
        cb := DrainOne(cb.value);
        c := State();
      }
    }

    /** __redisAsyncFree. */
    method DestroyContext()
      requires Valid() && (disconnecting || freeing)
      modifies this, replies.Repr
      ensures Valid() && State() == Destroy(behave, old(State()))
    {
      hide Drain;
      RunPending();
      freed := true;
    }

    /** redisAsyncFree. */
    method Free()
      requires Valid() && !freed
      modifies this, replies.Repr
      ensures Valid() && State() == AsyncFree(behave, old(State()))
    {
      freeing := true;
      if !inCallback { DestroyContext(); }
    }

    /** __redisAsyncDisconnect after an error. */
    method DisconnectOnError()
      requires Valid()
      modifies this, replies.Repr
      ensures Valid() && State() == Disconnect(behave, old(State()))
    {
      disconnecting := true;
      DestroyContext();
    }

    /** One turn of redisProcessCallbacks, for a reply with the replies `later` behind it. */
    method ProcessOne(r: Resp.Reply, ghost later: seq<Resp.Reply>, ghost error: bool) returns (go: bool)
      requires Valid() && !freed
      modifies this, replies.Repr
      ensures Valid() && (go ==> !freed && fresh(replies.Repr - old(replies.Repr)))
      ensures ProcessCallbacks(behave, old(State()), [r] + later, error) ==
        if go then ProcessCallbacks(behave, State(), later, error) else State()
    {
      assert ([r] + later)[1..] == later;
      hide Drain, RunCallback;
      var cb := Next(Some(r));
      if cb.None? {
        if r.Error? { DisconnectOnError(); } else { failed := true; }
        return false;
      }
      RunOne(cb.value, Some(r));
      if cb.value.hasFn && freeing {
        DestroyContext();
        return false;
      }
      return true;
    }

    /** redisProcessCallbacks. */
    method Process(rs: seq<Resp.Reply>, error: bool)
      requires Valid() && !freed
      modifies this, replies.Repr
      ensures Valid() && State() == ProcessCallbacks(behave, old(State()), rs, error)
    {
      hide Drain, RunCallback, Disconnect, CallbackList.Valid;
      var i := 0;
      assert rs[0..] == rs;
      while i < |rs|
        invariant i <= |rs| && Valid() && !freed && fresh(replies.Repr - old(replies.Repr))
        invariant ProcessCallbacks(behave, State(), rs[i..], error) == ProcessCallbacks(behave, old(State()), rs, error)
      {
        assert rs[i..] == [rs[i]] + rs[i + 1..];
        var go := ProcessOne(rs[i], rs[i + 1..], error);
        if !go { return; }
        i := i + 1;
      }
      assert rs[i..] == [];
      if error { DisconnectOnError(); }
    }
  }
}
