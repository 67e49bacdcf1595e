/**
 The asynchronous context of hiredis/async.c on plain commands: the linked list of pending
 callbacks, the flags that stop new commands, and the re-entrant callbacks themselves.
 What a callback does is not known: it runs any number of library calls of its choice.
 */
module Async {
  import opened ByteStrings

  type Reply = nat

  /** `redisCallback`: function 0 is the NULL function. */
  datatype Callback = Callback(fn: nat, privdata: nat)

  // ---- the list of pending callbacks ----

  class Node {
    var cb: Callback
    var next: Node?

    constructor (cb: Callback)
      ensures this.cb == cb && next == null
    {
      this.cb := cb;
      next := null;
    }
  }

  class CallbackList {
    var head: Node?
    var tail: Node?
    ghost var nodes: seq<Node>
    ghost var Contents: seq<Callback>
    ghost var Repr: set<object>

    ghost predicate Valid()
      reads this, Repr
      ensures Valid() ==> this in Repr
    {
      && this in Repr && (forall i | 0 <= i < |nodes| :: nodes[i] in Repr)
      && |Contents| == |nodes| && (forall i | 0 <= i < |nodes| :: nodes[i].cb == Contents[i])
      && (nodes == [] ==> head == null && tail == null)
      && (nodes != [] ==> head == nodes[0] && tail == nodes[|nodes| - 1] && nodes[|nodes| - 1].next == null)
      && (forall i | 0 <= i < |nodes| - 1 :: nodes[i].next == nodes[i + 1])
      && (forall i, j | 0 <= i < j < |nodes| :: nodes[i] != nodes[j])
    }

    constructor ()
      ensures Valid() && Contents == [] && fresh(Repr)
    {
      head, tail := null, null;
      nodes, Contents, Repr := [], [], {this};
    }

    /** `__redisPushCallback`. */
    method Push(source: Callback)
      requires Valid()
      modifies Repr
      ensures Valid() && Contents == old(Contents) + [source] && fresh(Repr - old(Repr)) && old(Repr) <= Repr
    {
      var cb := new Node(source);
      if head == null {
        head := cb;
      }
      if tail != null {
        tail.next := cb;
      }
      tail := cb;
      nodes, Contents, Repr := nodes + [cb], Contents + [source], Repr + {cb};
    }

    /** `__redisShiftCallback`: None stands for REDIS_ERR. */
    method Shift() returns (target: Option<Callback>)
      requires Valid()
      modifies this
      ensures Valid() && Repr == old(Repr)
      ensures target == if old(Contents) == [] then None else Some(old(Contents)[0])
      ensures Contents == if old(Contents) == [] then [] else old(Contents)[1..]
    {
      var cb := head;
      if cb != null {
        head := cb.next;
        if cb == tail {
          tail := null;
        }
        nodes, Contents := nodes[1..], Contents[1..];
        return Some(cb.cb);
      }
      return None;
    }

    method IsEmpty() returns (r: bool)
      requires Valid()
      ensures r <==> Contents == []
    {
      r := head == null;
    }
  }

  // ---- what runs ----

  /** A call of a user's callback, with the reply or with NULL. */
  datatype Call = Call(cb: Callback, reply: Option<Reply>)

  /** The calls due for callbacks taken off the list with these outcomes: NULL functions are skipped. */
  function Calls(cbs: seq<Callback>, outcomes: seq<Option<Reply>>): seq<Call>
    requires |cbs| == |outcomes|
  {
    if cbs == [] then []
    else
      var n := |cbs| - 1;
      Calls(cbs[..n], outcomes[..n]) + if cbs[n].fn == 0 then [] else [Call(cbs[n], outcomes[n])]
  }

  lemma CallsSnoc(cbs: seq<Callback>, outcomes: seq<Option<Reply>>, cb: Callback, o: Option<Reply>)
    requires |cbs| == |outcomes|
    ensures Calls(cbs + [cb], outcomes + [o]) == Calls(cbs, outcomes) + if cb.fn == 0 then [] else [Call(cb, o)]
  {
    assert (cbs + [cb])[..|cbs|] == cbs && (outcomes + [o])[..|cbs|] == outcomes;
  }

  /** The callbacks already taken off the list. */
  function Taken(accepted: seq<Callback>, outcomes: seq<Option<Reply>>): seq<Callback> {
    if |outcomes| <= |accepted| then accepted[..|outcomes|] else []
  }

  /** The k-th callback got the k-th reply received; those without one got NULL. */
  ghost predicate InTurn(outcomes: seq<Option<Reply>>, received: seq<Reply>) {
    && |received| <= |outcomes|
    && (forall k | 0 <= k < |received| :: outcomes[k] == Some(received[k]))
    && (forall k | |received| <= k < |outcomes| :: outcomes[k] == None)
  }

  /** Accepted commands are the ones taken, followed by the ones pending. */
  ghost predicate Ledger(accepted: seq<Callback>, outcomes: seq<Option<Reply>>, pending: seq<Callback>,
                         received: seq<Reply>) {
    && |outcomes| <= |accepted|
    && accepted == Taken(accepted, outcomes) + pending
    && InTurn(outcomes, received)
  }

  /** The calls due for all callbacks taken so far. */
  ghost function Due(accepted: seq<Callback>, outcomes: seq<Option<Reply>>): seq<Call> {
    if |outcomes| <= |accepted| then Calls(accepted[..|outcomes|], outcomes) else []
  }

  lemma LedgerPush(accepted: seq<Callback>, outcomes: seq<Option<Reply>>, pending: seq<Callback>,
                   received: seq<Reply>, cb: Callback)
    requires Ledger(accepted, outcomes, pending, received)
    ensures Ledger(accepted + [cb], outcomes, pending + [cb], received)
    ensures Due(accepted + [cb], outcomes) == Due(accepted, outcomes)
  {
    assert (accepted + [cb])[..|outcomes|] == accepted[..|outcomes|];
  }

  /** `received` with the reply of `o`, if it is one. */
  function Received(received: seq<Reply>, o: Option<Reply>): seq<Reply> {
    match o
    case Some(reply) => received + [reply]
    case None => received
  }

  lemma LedgerShift(accepted: seq<Callback>, outcomes: seq<Option<Reply>>, pending: seq<Callback>,
                    received: seq<Reply>, o: Option<Reply>)
    requires Ledger(accepted, outcomes, pending, received) && pending != [] && (o.Some? ==> |received| == |outcomes|)
    ensures Ledger(accepted, outcomes + [o], pending[1..], Received(received, o))
    ensures Due(accepted, outcomes + [o])
         == Due(accepted, outcomes) + if pending[0].fn == 0 then [] else [Call(pending[0], o)]
  {
    hide Calls, InTurn;
    var n := |outcomes|;
    assert accepted[n] == pending[0];
    assert accepted[..n + 1] == accepted[..n] + [pending[0]];
    assert accepted == accepted[..n + 1] + pending[1..];
    CallsSnoc(accepted[..n], outcomes, pending[0], o);
    TurnShift(outcomes, received, o);
  }

  lemma TurnShift(outcomes: seq<Option<Reply>>, received: seq<Reply>, o: Option<Reply>)
    requires InTurn(outcomes, received) && (o.Some? ==> |received| == |outcomes|)
    ensures InTurn(outcomes + [o], Received(received, o))
  {
  }

  lemma LedgerDone(accepted: seq<Callback>, outcomes: seq<Option<Reply>>, received: seq<Reply>)
    requires Ledger(accepted, outcomes, [], received)
    ensures |outcomes| == |accepted| && Due(accepted, outcomes) == Calls(accepted, outcomes) && InTurn(outcomes, received)
  {
    assert accepted[..|outcomes|] == accepted;
  }

  /** A call of the library; a command is `len` bytes long. */
  datatype Action = Command(cb: Callback, len: nat) | Disconnect | Free

  const REDIS_ERR_OTHER: int := 2

  class AsyncContext {
    var connected: bool
    var disconnecting: bool
    var freeing: bool
    var inCallback: bool
    var err: int
    var obuf: nat                // bytes waiting to be written
    var freed: bool              // redisFree was reached
    var aborted: bool            // an assert of the source failed
    var onDisconnect: nat        // calls of the disconnect callback
    const replies: CallbackList
    ghost var accepted: seq<Callback>
    ghost var outcomes: seq<Option<Reply>>
    ghost var calls: seq<Call>
    ghost var received: seq<Reply>    // the replies that went to a callback

    ghost function Repr(): set<object>
      reads this, replies
    {
      {this} + replies.Repr
    }

    /** Everything that holds at all times; what has been called is compared separately. */
    ghost predicate Core()
      reads this, replies, replies.Repr
    {
      && this as object !in replies.Repr && replies.Valid()
      && Ledger(accepted, outcomes, replies.Contents, received)
      && (freed ==> replies.Contents == [])
      && onDisconnect == (if freed && connected then 1 else 0)
    }

    ghost predicate Valid()
      reads this, replies, replies.Repr
    {
      Core() && calls == Due(accepted, outcomes)
    }

    /** Callback `cb` was just taken off the list with outcome `o`, and has not been called. */
    ghost predicate Shifted(cb: Callback, o: Option<Reply>)
      reads this, replies, replies.Repr
    {
      Core() && calls + (if cb.fn == 0 then [] else [Call(cb, o)]) == Due(accepted, outcomes)
    }

    /** Between two events of the event loop: in particular no free that a callback asked for is outstanding. */
    ghost predicate Live()
      reads this, replies, replies.Repr
    {
      Valid() && !freed && !aborted && !inCallback && !freeing && err == 0 && |received| == |outcomes|
    }

    /** Every accepted command has been answered. */
    ghost predicate Starved()
      reads this, replies
    {
      replies.Contents == [] && |received| == |outcomes|
    }

    /** A disconnect was asked for, and nothing is left to wait for. */
    ghost predicate Drained()
      reads this, replies
    {
      disconnecting && obuf == 0 && replies.Contents == []
    }

    constructor ()
      ensures Valid() && accepted == [] && calls == [] && !freed && !inCallback && fresh(Repr())
      ensures !disconnecting && !freeing && !aborted && err == 0 && Live() && received == []
    {
      connected, disconnecting, freeing, inCallback := false, false, false, false;
      err, obuf, freed, aborted, onDisconnect := 0, 0, false, false, 0;
      replies := new CallbackList();
      accepted, outcomes, calls, received := [], [], [], [];
    }

    /** Does nothing but call the library: what a callback may do between its start and its end. */
    method UserCode()
      requires Valid() && !freed && inCallback
      modifies Repr()
      decreases 1
      ensures Valid() && !freed && inCallback && fresh(Repr() - old(Repr()))
      ensures Kept(old(outcomes), old(received), old(calls), old(err), old(aborted), old(onDisconnect), old(connected))
      ensures old(disconnecting) ==> disconnecting
      ensures old(freeing) ==> freeing
      ensures old(accepted) <= accepted
      ensures old(disconnecting || freeing) ==> Closing(old(accepted), old(replies.Contents), old(obuf))
    {
      hide Ledger, Due, CallbackList.Valid;
      var n: nat := *;
      while n > 0
        invariant Valid() && !freed && inCallback && fresh(Repr() - old(Repr()))
        invariant Kept(old(outcomes), old(received), old(calls), old(err), old(aborted), old(onDisconnect), old(connected))
        invariant old(disconnecting) ==> disconnecting
        invariant old(freeing) ==> freeing
        invariant old(accepted) <= accepted
        invariant old(disconnecting || freeing) ==> Closing(old(accepted), old(replies.Contents), old(obuf))
      {
        var action: Action := *;
        match action {
          case Command(cb, len) =>
            var ok := AsyncCommand(cb, len);
          case Disconnect =>
            AsyncDisconnect();
          case Free =>
            AsyncFree();
        }
        n := n - 1;
      }
    }

    /** Nothing has been accepted or written since. */
    ghost predicate Closing(accepted': seq<Callback>, pending: seq<Callback>, obuf': nat)
      reads this, replies
    {
      accepted == accepted' && replies.Contents == pending && obuf == obuf'
    }

    ghost predicate Kept(outcomes': seq<Option<Reply>>, received': seq<Reply>, calls': seq<Call>, err': int,
                         aborted': bool, down: nat, up: bool)
      reads this
    {
      && outcomes == outcomes' && received == received' && calls == calls' && err == err' && aborted == aborted'
      && onDisconnect == down && connected == up
    }

    /** `__redisAsyncCommand` for a plain command. */
    method AsyncCommand(cb: Callback, len: nat) returns (ok: bool)
      requires Valid() && !freed
      modifies Repr()
      ensures Valid() && !freed && fresh(Repr() - old(Repr()))
      ensures ok == !old(disconnecting || freeing)
      ensures accepted == if ok then old(accepted) + [cb] else old(accepted)
      ensures replies.Contents == if ok then old(replies.Contents) + [cb] else old(replies.Contents)
      ensures Kept(old(outcomes), old(received), old(calls), old(err), old(aborted), old(onDisconnect), old(connected))
      ensures disconnecting == old(disconnecting) && freeing == old(freeing) && inCallback == old(inCallback)
      ensures obuf == old(obuf) + if ok then len else 0
    {
      hide Ledger, Due, CallbackList.Valid;
      if disconnecting || freeing {
        return false;
      }
      LedgerPush(accepted, outcomes, replies.Contents, received, cb);
      replies.Push(cb);
      accepted := accepted + [cb];
      obuf := obuf + len;
      return true;
    }

    /** Takes the first pending callback off the list, to be called with `o`. */
    method ShiftPending(ghost o: Option<Reply>) returns (cb: Option<Callback>)
      requires Valid() && !freed && (o.Some? ==> |received| == |outcomes|)
      modifies this`outcomes, this`received, replies
      ensures old(replies.Contents) == [] ==> cb == None && Valid() && outcomes == old(outcomes) && received == old(received)
      ensures old(replies.Contents) == [] ==> replies.Contents == []
      ensures old(replies.Contents) != [] ==>
                && cb.Some? && Shifted(cb.value, o) && outcomes == old(outcomes) + [o]
                && received == Received(old(received), o)
                && replies.Contents == old(replies.Contents)[1..]
      ensures Repr() == old(Repr())
    {
      hide Ledger, Due, CallbackList.Valid;
      if replies.Contents != [] {
        LedgerShift(accepted, outcomes, replies.Contents, received, o);
      }
      cb := replies.Shift();
      if cb.Some? {
        outcomes := outcomes + [o];
        received := Received(received, o);
      }
    }

    /** `__redisRunCallback`: calls the function, unless it is NULL, with the IN_CALLBACK flag set. */
    method RunCallback(cb: Callback, reply: Option<Reply>)
      requires Shifted(cb, reply) && !freed && !inCallback
      modifies Repr()
      decreases 2
      ensures Valid() && !freed && !inCallback && fresh(Repr() - old(Repr()))
      ensures outcomes == old(outcomes) && received == old(received) && err == old(err) && aborted == old(aborted)
      ensures onDisconnect == old(onDisconnect) && connected == old(connected)
      ensures old(disconnecting) ==> disconnecting
      ensures old(freeing) ==> freeing
      ensures old(accepted) <= accepted
      ensures old(disconnecting || freeing) ==> Closing(old(accepted), old(replies.Contents), old(obuf))
      ensures cb.fn == 0 ==> freeing == old(freeing)
    {
      hide Ledger, Due, CallbackList.Valid;
      if cb.fn != 0 {
        inCallback := true;
        calls := calls + [Call(cb, reply)];
        UserCode();
        inCallback := false;
      }
    }

    /** `__redisAsyncFree`: every pending callback gets NULL, then the context is gone. */
    method FreeContext()
      requires Valid() && !freed && !inCallback && (disconnecting || freeing)
      modifies Repr()
      decreases 3
      ensures Valid() && freed && !inCallback && fresh(Repr() - old(Repr()))
      ensures accepted == old(accepted) && |outcomes| == |accepted|
      ensures received == old(received)
      ensures aborted == old(aborted) && onDisconnect == old(onDisconnect) + if connected then 1 else 0
      ensures connected == old(connected) && err == old(err)
      ensures old(freeing) ==> freeing
      ensures old(disconnecting) ==> disconnecting
    {
      hide Ledger, Due, CallbackList.Valid;
      var more := true;
      while more
        invariant Valid() && !freed && !inCallback && (disconnecting || freeing) && fresh(Repr() - old(Repr()))
        invariant accepted == old(accepted) && received == old(received)
        invariant !more ==> replies.Contents == []
        invariant aborted == old(aborted) && onDisconnect == old(onDisconnect) && connected == old(connected)
        invariant err == old(err) && (old(freeing) ==> freeing) && (old(disconnecting) ==> disconnecting)
        decreases |replies.Contents|, more
      {
        var cb := ShiftPending(None);
        if cb.Some? {
          RunCallback(cb.value, None);
        } else {
          more := false;
        }
      }
      LedgerDone(accepted, outcomes, received);
      if connected {
        onDisconnect := onDisconnect + 1;
      }
      freed := true;
    }

    /** `redisAsyncFree`: inside a callback it only leaves a note. */
    method AsyncFree()
      requires Valid() && !freed
      modifies Repr()
      decreases if inCallback then 0 else 4
      ensures Valid() && freeing == (old(inCallback) || freeing) && fresh(Repr() - old(Repr()))
      ensures inCallback == old(inCallback) && accepted == old(accepted) && aborted == old(aborted)
      ensures if old(inCallback) then
                && !freed && replies.Contents == old(replies.Contents) && disconnecting == old(disconnecting)
                && freeing && obuf == old(obuf)
                && Kept(old(outcomes), old(received), old(calls), old(err), old(aborted), old(onDisconnect), old(connected))
              else freed && |outcomes| == |accepted| && received == old(received)
    {
      hide Ledger, Due, CallbackList.Valid;
      freeing := true;
      if !inCallback {
        FreeContext();
      }
    }

    /** `__redisAsyncDisconnect`. */
    method DisconnectContext()
      requires Valid() && !freed && !aborted && !inCallback
      requires err == 0 ==> disconnecting && replies.Contents == []
      modifies Repr()
      decreases 4
      ensures Valid() && freed && !aborted && !inCallback && fresh(Repr() - old(Repr()))
      ensures accepted == old(accepted) && |outcomes| == |accepted| && received == old(received)
      ensures onDisconnect == old(onDisconnect) + if old(connected) then 1 else 0
      ensures err == old(err) && disconnecting && (old(freeing) ==> freeing) && connected == old(connected)
    {
      hide Ledger, Due, CallbackList.Valid;
      if err == 0 {
        var pending := replies.IsEmpty();
        assert pending;
      } else {
        disconnecting := true;
      }
      FreeContext();
    }

    /** `redisAsyncDisconnect`: at once only when nothing is pending and no callback is running. */
    method AsyncDisconnect()
      requires Valid() && !freed && (!inCallback ==> !aborted)
      modifies Repr()
      decreases if inCallback then 0 else 5
      ensures Valid() && fresh(Repr() - old(Repr()))
      ensures inCallback == old(inCallback) && accepted == old(accepted) && aborted == old(aborted)
      ensures freed <==> !old(inCallback) && old(replies.Contents) == []
      ensures !freed ==>
                && disconnecting && freeing == old(freeing) && Closing(old(accepted), old(replies.Contents), old(obuf))
                && Kept(old(outcomes), old(received), old(calls), old(err), old(aborted), old(onDisconnect), old(connected))
      ensures freed ==> |outcomes| == |accepted| && received == old(received)
    {
      hide Ledger, Due, CallbackList.Valid;
      disconnecting := true;
      var idle := replies.IsEmpty();
      if !inCallback && idle {
        LedgerDone(accepted, outcomes, received);
        DisconnectContext();
      }
    }

    /**
     `redisProcessCallbacks` on the replies that have been parsed; `failing` says that the
     reader then reports an error instead of "no reply yet".  The reader is `Reader.RedisReader`.
     */
    method ProcessCallbacks(incoming: seq<Incoming>, failing: bool) returns (ghost m: nat)
      requires Live()
      modifies Repr()
      ensures Valid() && !inCallback && fresh(Repr() - old(Repr())) && m <= |incoming|
      ensures old(accepted) <= accepted
      ensures received == old(received) + Replies(incoming[..m])
      ensures !freed && !aborted ==> Live() && m == |incoming| && !failing
      ensures freed ==> |outcomes| == |accepted|
      ensures freed ==>
                || freeing
                || (m == |incoming| && (failing || (disconnecting && err == 0)))
                || (m < |incoming| && incoming[m].isError && err == REDIS_ERR_OTHER)
      ensures aborted ==> !freed && m < |incoming| && !incoming[m].isError && Starved()
      ensures connected == old(connected)
      ensures !freed && !aborted ==> !Drained()
      ensures old(disconnecting) ==> disconnecting
      ensures old(disconnecting) && !freed && !aborted ==>
                |incoming| <= |old(replies.Contents)| && Closing(old(accepted), old(replies.Contents)[|incoming|..], old(obuf))
    {
      hide Ledger, Due, CallbackList.Valid, Replies;
      NoReplies(incoming);
      var done;
      m, done := DispatchAll(incoming);
      if done {
        return;
      }
      if failing {
        err := REDIS_ERR_PROTOCOL;
        DisconnectContext();
        return;
      }
      var idle := replies.IsEmpty();
      if disconnecting && obuf == 0 && idle {
        DisconnectContext();
      }
    }

    /** The replies one after the other, until none is left or the function returns. */
    method DispatchAll(incoming: seq<Incoming>) returns (ghost m: nat, done: bool)
      requires Live()
      modifies Repr()
      ensures Valid() && !inCallback && fresh(Repr() - old(Repr())) && m <= |incoming| && old(accepted) <= accepted
      ensures received == old(received) + Replies(incoming[..m])
      ensures connected == old(connected) && (old(disconnecting) ==> disconnecting)
      ensures !done ==> Live() && m == |incoming|
      ensures !done && old(disconnecting) ==>
                m <= |old(replies.Contents)| && Closing(old(accepted), old(replies.Contents)[m..], old(obuf))
      ensures done ==>
                if freed then |outcomes| == |accepted| && (freeing || RefusedAt(incoming, m))
                else aborted && m < |incoming| && !incoming[m].isError && Starved()
      ensures aborted ==> !freed && done
    {
      hide Ledger, Due, CallbackList.Valid, Replies;
      NoReplies(incoming);
      m, done := 0, false;
      var i := 0;
      while i < |incoming| && !done
        invariant Valid() && !inCallback && fresh(Repr() - old(Repr())) && m <= i <= |incoming|
        invariant old(accepted) <= accepted && received == old(received) + Replies(incoming[..m])
        invariant connected == old(connected) && (old(disconnecting) ==> disconnecting)
        invariant !done ==> Live() && m == i
        invariant !done && old(disconnecting) ==>
                    m <= |old(replies.Contents)| && Closing(old(accepted), old(replies.Contents)[m..], old(obuf))
        invariant done ==>
                    if freed then |outcomes| == |accepted| && (freeing || RefusedAt(incoming, m))
                    else aborted && m < |incoming| && !incoming[m].isError && Starved()
        invariant aborted ==> !freed && done
        decreases |incoming| - i, !done
      {
        var answered;
        answered, done := Dispatch(incoming[i]);
        if answered {
          RepliesSnoc(incoming, i);
          OneLess(old(replies.Contents), i);
          i := i + 1;
          m := i;
        }
      }
    }

    /** Reply `m` is an error that no command waits for. */
    predicate RefusedAt(incoming: seq<Incoming>, m: nat)
      reads this
    {
      m < |incoming| && incoming[m].isError && err == REDIS_ERR_OTHER
    }

    /** One reply of that loop: `answered` if a pending callback took it, `done` if the loop returns. */
    method Dispatch(reply: Incoming) returns (answered: bool, done: bool)
      requires Live()
      modifies Repr()
      ensures Valid() && !inCallback && fresh(Repr() - old(Repr())) && old(accepted) <= accepted
      ensures answered <==> old(replies.Contents) != []
      ensures received == if answered then old(received) + [reply.reply] else old(received)
      ensures !done ==> Live() && answered
      ensures done ==>
                if freed then |outcomes| == |accepted|
                else aborted && !answered && !reply.isError && Starved()
      ensures connected == old(connected)
      ensures freed ==> if answered then freeing else reply.isError && err == REDIS_ERR_OTHER
      ensures aborted ==> !freed && done
      ensures old(disconnecting) ==> disconnecting
      ensures old(disconnecting) && !done ==> Closing(old(accepted), old(replies.Contents)[1..], old(obuf))
    {
      hide Ledger, Due, CallbackList.Valid;
      var cb := ShiftPending(Some(reply.reply));
      if cb.None? {
        if reply.isError {
          err := REDIS_ERR_OTHER;
          DisconnectContext();
          return false, true;
        }
        aborted := true;
        return false, true;
      }
      RunCallback(cb.value, Some(reply.reply));
      if cb.value.fn != 0 && freeing {
        FreeContext();
        return true, true;
      }
      return true, false;
    }

    /** `redisAsyncHandleRead`: what the socket reports is an input. */
    method HandleRead(connect: ConnectResult, readError: bool, incoming: seq<Incoming>, failing: bool)
      returns (ghost m: nat)
      requires Live()
      modifies Repr()
      ensures Valid() && !inCallback && fresh(Repr() - old(Repr())) && old(accepted) <= accepted
      ensures m <= |incoming| && received == old(received) + Replies(incoming[..m])
      ensures freed ==> |outcomes| == |accepted|
      ensures !freed && !aborted ==> Live()
      ensures !old(connected) && connect.ConnectFailed? ==> freed && m == 0
      ensures !old(connected) && connect.StillConnecting? ==> !freed && !aborted && accepted == old(accepted) && m == 0
      ensures (old(connected) || connect.Connected?) && readError ==> freed && m == 0
      ensures (old(connected) || connect.Connected?) && !readError ==>
                if freed then
                  || freeing
                  || (m == |incoming| && (failing || (disconnecting && err == 0)))
                  || (m < |incoming| && incoming[m].isError)
                else if aborted then m < |incoming| && !incoming[m].isError
                else m == |incoming| && !failing
      ensures !freed ==> connected == (old(connected) || connect.Connected?)
      ensures aborted ==> !freed && m < |incoming| && Starved()
      ensures connected && !freed && !aborted ==> !Drained()
      ensures old(disconnecting) ==> disconnecting
      ensures old(disconnecting) && connected && !freed && !aborted ==>
                |incoming| <= |old(replies.Contents)| && Closing(old(accepted), old(replies.Contents)[|incoming|..], old(obuf))
    {
      hide Ledger, Due, CallbackList.Valid;
      m := 0;
      if !connected {
        var up := HandleConnect(connect);
        if !up || !connected {
          return;
        }
      }
      if readError {
        err := REDIS_ERR_IO;
        DisconnectContext();
      } else {
        m := ProcessCallbacks(incoming, failing);
      }
    }

    /** `redisAsyncHandleWrite`; `written` bytes of the output buffer went out. */
    method HandleWrite(connect: ConnectResult, writeError: bool, written: nat)
      requires Live()
      modifies Repr()
      ensures Valid() && !inCallback && !aborted && fresh(Repr() - old(Repr())) && accepted == old(accepted)
      ensures received == old(received)
      ensures freed ==> |outcomes| == |accepted|
      ensures !freed ==> Live()
      ensures freed <==> if old(connected) || connect.Connected? then writeError else connect.ConnectFailed?
      ensures !freed && (old(connected) || connect.Connected?) ==>
                obuf == if written <= old(obuf) then old(obuf) - written else 0
      ensures old(disconnecting) ==> disconnecting
      ensures !freed ==> Closing(old(accepted), old(replies.Contents), obuf)
    {
      hide Ledger, Due, CallbackList.Valid;
      if !connected {
        var up := HandleConnect(connect);
        if !up || !connected {
          return;
        }
      }
      if writeError {
        err := REDIS_ERR_IO;
        DisconnectContext();
      } else {
        obuf := if written <= obuf then obuf - written else 0;
      }
    }

    /** `__redisAsyncHandleConnect`. */
    method HandleConnect(result: ConnectResult) returns (ok: bool)
      requires Live() && !connected
      modifies Repr()
      ensures Valid() && !inCallback && !aborted && fresh(Repr() - old(Repr())) && accepted == old(accepted)
      ensures received == old(received)
      ensures ok ==> Live() && connected == result.Connected?
      ensures ok ==> Closing(old(accepted), old(replies.Contents), old(obuf))
      ensures old(disconnecting) ==> disconnecting
      ensures !ok ==> freed && |outcomes| == |accepted| && onDisconnect == old(onDisconnect)
      ensures ok <==> !result.ConnectFailed?
    {
      hide Ledger, Due, CallbackList.Valid;
      match result {
        case ConnectFailed(soError, errno) =>
          // redisCheckSocketError: the socket's error, or else what connect left in errno
          if soError != 0 || errno != 0 {
            err := REDIS_ERR_IO;
          }
          DisconnectContext();
          return false;
        case Connected =>
          connected := true;
          return true;
        case StillConnecting =>
          return true;
      }
    }
  }

  /** The accepted commands that have a callback. */
  function WithCallback(cbs: seq<Callback>): seq<Callback> {
    if cbs == [] then []
    else WithCallback(cbs[..|cbs| - 1]) + if cbs[|cbs| - 1].fn == 0 then [] else [cbs[|cbs| - 1]]
  }

  /** Callback `k`, if it is one, is called with outcome `k`, behind the calls of the callbacks before it. */
  ghost predicate CalledWith(calls: seq<Call>, cbs: seq<Callback>, outcomes: seq<Option<Reply>>, k: nat) {
    && k < |cbs| && k < |outcomes|
    && (cbs[k].fn != 0 ==>
          var j := |WithCallback(cbs[..k])|; j < |calls| && calls[j] == Call(cbs[k], outcomes[k]))
  }

  lemma {:induction false} CallsInOrder(cbs: seq<Callback>, outcomes: seq<Option<Reply>>)
    requires |cbs| == |outcomes|
    ensures |Calls(cbs, outcomes)| == |WithCallback(cbs)|
    ensures forall k | 0 <= k < |WithCallback(cbs)| :: Calls(cbs, outcomes)[k].cb == WithCallback(cbs)[k]
    ensures forall k | 0 <= k < |cbs| :: CalledWith(Calls(cbs, outcomes), cbs, outcomes, k)
  {
    if cbs != [] {
      var n := |cbs| - 1;
      CallsInOrder(cbs[..n], outcomes[..n]);
      forall k | 0 <= k < |cbs| ensures CalledWith(Calls(cbs, outcomes), cbs, outcomes, k) {
        if k < n {
          assert CalledWith(Calls(cbs[..n], outcomes[..n]), cbs[..n], outcomes[..n], k);
          assert cbs[..n][..k] == cbs[..k];
        }
      }
    }
  }

  /**
   Once the context is gone, every accepted command's callback has run exactly once, in the
   order of acceptance: the first ones with their replies, all later ones with NULL.
   */
  lemma EveryCallbackOnce(ac: AsyncContext)
    requires ac.Valid() && ac.freed
    ensures |ac.outcomes| == |ac.accepted| && InTurn(ac.outcomes, ac.received)
    ensures ac.calls == Calls(ac.accepted, ac.outcomes)
    ensures |ac.calls| == |WithCallback(ac.accepted)|
    ensures forall k | 0 <= k < |ac.calls| :: ac.calls[k].cb == WithCallback(ac.accepted)[k]
    ensures forall k | 0 <= k < |ac.accepted| :: CalledWith(ac.calls, ac.accepted, ac.outcomes, k)
  {
    LedgerDone(ac.accepted, ac.outcomes, ac.received);
    CallsInOrder(ac.accepted, ac.outcomes);
  }

  function Replies(incoming: seq<Incoming>): (r: seq<Reply>)
    ensures |r| == |incoming|
  {
    seq(|incoming|, k requires 0 <= k < |incoming| => incoming[k].reply)
  }

  lemma NoReplies(incoming: seq<Incoming>)
    ensures Replies(incoming[..0]) == [] && incoming[..|incoming|] == incoming
  {
  }

  lemma OneLess<T>(s: seq<T>, i: nat)
    ensures i < |s| ==> s[i..][1..] == s[i + 1..] && |s[i..]| == |s| - i
  {
  }

  lemma RepliesSnoc(incoming: seq<Incoming>, i: nat)
    requires i < |incoming|
    ensures Replies(incoming[..i + 1]) == Replies(incoming[..i]) + [incoming[i].reply]
  {
  }

  /** A parsed reply; only its being an error reply matters to the callback queue. */
  datatype Incoming = Incoming(reply: Reply, isError: bool)

  /** An error number of a system call that failed. */
  type Errno = n: int | n > 0 witness 1

  datatype ConnectResult = ConnectFailed(soError: nat, errno: Errno) | Connected | StillConnecting

  const REDIS_ERR_IO: int := 1
  const REDIS_ERR_PROTOCOL: int := 4

  // ---- whole runs ----

  /** What happens to a context from outside: library calls, and what the event loop reports of its socket. */
  datatype Event =
    | Do(action: Action)
    | Readable(connect: ConnectResult, readError: bool, n: nat, failing: bool)   // up to n further replies can be parsed
    | Writable(connect: ConnectResult, writeError: bool, written: nat)

  /** Of `n` commands, the first `m` get the replies of the stream, one each, and the others NULL. */
  function Outcomes(n: nat, stream: seq<Incoming>, m: nat): seq<Option<Reply>>
    requires m <= |stream|
  {
    seq(n, k => if 0 <= k < m then Some(stream[k].reply) else None)
  }

  /**
   The life of a context, up to its end or to the failed assertion of `redisProcessCallbacks`. The replies of the
   server are `stream`. When the context is gone every accepted command's callback has been called exactly once, in
   the order of acceptance, the k-th with the k-th reply of the stream as long as there is one, then with NULL.
   */
  method RunEvents(events: seq<Event>, stream: seq<Incoming>) returns (ac: AsyncContext)
    ensures fresh(ac) && ac.Valid() && |ac.received| <= |stream|
    ensures |ac.outcomes| <= |ac.accepted| && ac.outcomes == Outcomes(|ac.outcomes|, stream, |ac.received|)
    ensures ac.calls == Calls(ac.accepted[..|ac.outcomes|], ac.outcomes)
    ensures ac.freed ==> ac.calls == Calls(ac.accepted, Outcomes(|ac.accepted|, stream, |ac.received|))
    ensures ac.freed ==> |ac.calls| == |WithCallback(ac.accepted)|
    ensures ac.freed ==> forall k | 0 <= k < |ac.calls| :: ac.calls[k].cb == WithCallback(ac.accepted)[k]
    ensures ac.freed ==> forall k | 0 <= k < |ac.accepted| :: CalledWith(ac.calls, ac.accepted, ac.outcomes, k)
    ensures ac.aborted ==> |ac.outcomes| == |ac.accepted| == |ac.received| < |stream|
    ensures !ac.freed && !ac.aborted ==> ac.Live() && |ac.outcomes| == |ac.received|
    ensures ac.onDisconnect == if ac.freed && ac.connected then 1 else 0
    ensures Do(Free) in events ==> ac.freed || ac.aborted
    ensures Do(Disconnect) in events ==> ac.freed || ac.aborted || ac.disconnecting
    ensures forall cb, len | Do(Command(cb, len)) in events :: cb in ac.accepted || ac.freed || ac.aborted || ac.disconnecting
    ensures events != [] && events[|events| - 1].Readable? && ac.connected && ac.Drained() ==> ac.freed || ac.aborted
  {
    hide Ledger, Due, CallbackList.Valid, Calls, WithCallback;
    ac := new AsyncContext();
    var pos := 0;
    ghost var taken: nat := 0;
    var i := 0;
    while i < |events| && !ac.freed && !ac.aborted
      invariant fresh(ac) && fresh(ac.Repr()) && ac.Valid() && taken <= |stream| && ac.received == Replies(stream[..taken])
      invariant !ac.freed && !ac.aborted ==> ac.Live() && pos == taken
      invariant ac.aborted ==> !ac.freed && taken < |stream| && ac.Starved()
      invariant ac.freed ==> |ac.outcomes| == |ac.accepted|
      invariant i <= |events| && (ac.freed || ac.aborted || Heard(events[..i], ac.accepted, ac.disconnecting))
      invariant i > 0 && events[i - 1].Readable? && ac.connected && ac.Drained() ==> ac.freed || ac.aborted
      decreases |events| - i
    {
      ghost var accepted, disconnecting := ac.accepted, ac.disconnecting;
      var m: nat;
      m, taken := Happen(ac, events[i], stream, pos);
      pos := pos + m;
      if !ac.freed && !ac.aborted {
        HeardMore(events, i, accepted, disconnecting, ac.accepted, ac.disconnecting);
      }
      i := i + 1;
    }
    assert i == |events| ==> events[..i] == events;
    RunDone(ac, stream, taken);
  }

  /** One event: `seen` further replies were parsed, and the first `taken` of the stream went to callbacks. */
  method Happen(ac: AsyncContext, event: Event, stream: seq<Incoming>, pos: nat) returns (seen: nat, ghost taken: nat)
    requires ac.Live() && pos <= |stream| && ac.received == Replies(stream[..pos])
    modifies ac.Repr()
    ensures ac.Valid() && fresh(ac.Repr() - old(ac.Repr())) && taken <= |stream| && ac.received == Replies(stream[..taken])
    ensures !ac.freed && !ac.aborted ==> ac.Live() && pos + seen == taken
    ensures ac.aborted ==> !ac.freed && taken < |stream| && ac.Starved()
    ensures ac.freed ==> |ac.outcomes| == |ac.accepted|
    ensures !ac.freed && !ac.aborted ==>
              && old(ac.accepted) <= ac.accepted && (old(ac.disconnecting) ==> ac.disconnecting)
              && event != Do(Free) && (event == Do(Disconnect) ==> ac.disconnecting)
              && (event.Do? && event.action.Command? ==> event.action.cb in ac.accepted || ac.disconnecting)
    ensures event.Readable? && ac.connected && ac.Drained() ==> ac.freed || ac.aborted
  {
    hide Ledger, Due, CallbackList.Valid;
    seen := 0;
    taken := pos;
    match event {
      case Do(Command(cb, len)) =>
        var _ := ac.AsyncCommand(cb, len);
      case Do(Disconnect) =>
        ac.AsyncDisconnect();
      case Do(Free) =>
        ac.AsyncFree();
      case Readable(connect, readError, n, failing) =>
        var k := if n <= |stream| - pos then n else |stream| - pos;
        ghost var m := ac.HandleRead(connect, readError, stream[pos..pos + k], failing);
        RepliesJoin(stream, pos, k, m);
        taken := pos + m;
        if ac.connected {
          seen := k;
        }
      case Writable(connect, writeError, written) =>
        ac.HandleWrite(connect, writeError, written);
    }
  }

  /** What the calls from outside have done to a context that is still there. */
  ghost predicate Heard(events: seq<Event>, accepted: seq<Callback>, disconnecting: bool) {
    && Do(Free) !in events
    && (Do(Disconnect) in events ==> disconnecting)
    && forall cb, len | Do(Command(cb, len)) in events :: cb in accepted || disconnecting
  }

  lemma HeardMore(events: seq<Event>, i: nat, accepted: seq<Callback>, disconnecting: bool,
                  accepted': seq<Callback>, disconnecting': bool)
    requires i < |events| && Heard(events[..i], accepted, disconnecting)
    requires accepted <= accepted' && (disconnecting ==> disconnecting') && events[i] != Do(Free)
    requires events[i] == Do(Disconnect) ==> disconnecting'
    requires events[i].Do? && events[i].action.Command? ==> events[i].action.cb in accepted' || disconnecting'
    ensures Heard(events[..i + 1], accepted', disconnecting')
  {
    assert events[..i + 1] == events[..i] + [events[i]];
    assert accepted' == accepted + accepted'[|accepted|..];
  }

  lemma RepliesJoin(stream: seq<Incoming>, pos: nat, k: nat, m: nat)
    requires m <= k && pos + k <= |stream|
    ensures Replies(stream[..pos]) + Replies(stream[pos..pos + k][..m]) == Replies(stream[..pos + m])
  {
  }

  lemma RunDone(ac: AsyncContext, stream: seq<Incoming>, taken: nat)
    requires ac.Valid() && taken <= |stream| && ac.received == Replies(stream[..taken])
    ensures |ac.received| == taken && |ac.received| <= |ac.outcomes| <= |ac.accepted|
    ensures ac.outcomes == Outcomes(|ac.outcomes|, stream, taken)
    ensures ac.calls == Calls(ac.accepted[..|ac.outcomes|], ac.outcomes)
    ensures ac.freed || ac.replies.Contents == [] ==> |ac.outcomes| == |ac.accepted|
    ensures ac.freed ==> ac.calls == Calls(ac.accepted, ac.outcomes)
    ensures ac.freed ==> |ac.calls| == |WithCallback(ac.accepted)|
    ensures ac.freed ==> forall k | 0 <= k < |ac.calls| :: ac.calls[k].cb == WithCallback(ac.accepted)[k]
    ensures ac.freed ==> forall k | 0 <= k < |ac.accepted| :: CalledWith(ac.calls, ac.accepted, ac.outcomes, k)
  {
    hide CallbackList.Valid, Calls, WithCallback;
    if ac.freed {
      EveryCallbackOnce(ac);
    }
  }
}
