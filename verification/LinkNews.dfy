/**
 What the connections of LinkIds.dfy are told: every worker hears of every connection that is gone, every block a
 worker pulls reaches its plugin, and what a plugin sends or closes has its effect.
 */
module LinkNews {
  import opened ByteStrings
  import opened LinkIds

  // ---- workers hear of connections that are gone ----

  /** The connection holds its descriptor and is not being shut. */
  predicate IsOpen(s: State, fd: Fd, id: int, serial: nat) {
    fd in s.handlers && s.handlers[fd] == Socket(id, serial, false)
  }

  ghost predicate Heard(st: seq<Request>, q: Request) {
    exists j :: 0 <= j < |st| && st[j] == q
  }

  /** Of each connection that the stream tells of, it also tells the end, if that has come. */
  ghost predicate EndsTold(s: State, st: seq<Request>) {
    forall i | 0 <= i < |st| && st[i].kind.Login? ::
      IsOpen(s, st[i].fd, st[i].id, st[i].serial) || Heard(st, st[i].(kind := Close))
  }

  ghost predicate AllTold(s: State) {
    forall c | 0 <= c < |s.workers| :: EndsTold(s, Stream(s.workers[c]))
  }

  lemma HeardLater(st: seq<Request>, more: seq<Request>, q: Request)
    requires Heard(st, q)
    ensures Heard(st + more, q)
  {
    var j :| 0 <= j < |st| && st[j] == q;
    assert (st + more)[j] == q;
  }

  /** Block `q` is appended; the connections that were open still are, or `q` tells the end. */
  lemma ToldAppend(s: State, t: State, st: seq<Request>, q: Request)
    requires EndsTold(s, st)
    requires forall fd, id, serial | IsOpen(s, fd, id, serial) ::
               IsOpen(t, fd, id, serial) || q == Request(fd, id, serial, Close)
    requires q.kind.Login? ==> IsOpen(t, q.fd, q.id, q.serial)
    ensures EndsTold(t, st + [q])
  {
    hide IsOpen;
    var st' := st + [q];
    assert st'[|st|] == q;
    forall i | 0 <= i < |st'| && st'[i].kind.Login?
      ensures IsOpen(t, st'[i].fd, st'[i].id, st'[i].serial) || Heard(st', st'[i].(kind := Close))
    {
      if i < |st| {
        assert st'[i] == st[i];
        if Heard(st, st[i].(kind := Close)) {
          HeardLater(st, [q], st[i].(kind := Close));
        }
      }
    }
  }

  lemma ToldKept(s: State, t: State, st: seq<Request>)
    requires EndsTold(s, st)
    requires forall fd, id, serial | IsOpen(s, fd, id, serial) :: IsOpen(t, fd, id, serial)
    ensures EndsTold(t, st)
  {
    hide IsOpen;
  }

  lemma ToldNotify(s: State, t: State, q: Request, kept: seq<bool>)
    requires AllTold(s) && |kept| == |s.workers| && (forall c | 0 <= c < |kept| :: kept[c])
    requires t.workers == Notify(s, q, kept).workers
    requires forall fd, id, serial | IsOpen(s, fd, id, serial) ::
               IsOpen(t, fd, id, serial) || q == Request(fd, id, serial, Close)
    requires q.kind.Login? ==> IsOpen(t, q.fd, q.id, q.serial)
    ensures AllTold(t)
  {
    hide IsOpen, EndsTold;
    forall c | 0 <= c < |t.workers| ensures EndsTold(t, Stream(t.workers[c])) {
      ToldAppend(s, t, Stream(s.workers[c]), q);
      assert Stream(t.workers[c]) == Stream(s.workers[c]) + [q];
    }
  }

  /** Steps that leave every stream as it is, and every open connection open. */
  lemma ToldQuiet(s: State, t: State)
    requires AllTold(s) && |t.workers| == |s.workers|
    requires forall c | 0 <= c < |s.workers| :: Stream(t.workers[c]) == Stream(s.workers[c])
    requires forall fd, id, serial | IsOpen(s, fd, id, serial) :: IsOpen(t, fd, id, serial)
    ensures AllTold(t)
  {
    hide IsOpen, EndsTold;
    forall c | 0 <= c < |t.workers| ensures EndsTold(t, Stream(t.workers[c])) {
      ToldKept(s, t, Stream(s.workers[c]));
    }
  }

  lemma ToldFini(s: State, fd: Fd, kept: seq<bool>)
    requires AllTold(s) && !s.lossy && KeptOk(s, kept) && fd in s.handlers && s.handlers[fd].Socket?
    ensures AllTold(Fini(s, fd, kept))
  {
    hide AllTold;
    var h := s.handlers[fd];
    if h.closing {
      ToldQuiet(s, Fini(s, fd, kept));
    } else {
      ToldNotify(s, Fini(s, fd, kept), Request(fd, h.id, h.serial, Close), kept);
    }
  }

  lemma ToldConn(s: State, t: State, step: Step)
    requires AllTold(s) && !s.lossy && ConnStep(s, t, step)
    ensures AllTold(t)
  {
    hide AllTold, IdOf, Wrapped;
    match step
    case Accept(fd, kept) =>
      var n := s.accepted + 1;
      ToldNotify(s, t, Request(fd, IdOf(n), n, Login), kept);
    case Packet(fd, c, ok) =>
      if ok {
        var h := s.handlers[fd];
        ToldPacket(s, t, c, Request(fd, h.id, h.serial, Proto));
      }
    case Fail(fd, kept) =>
      ToldFini(s, fd, kept);
    case HandOut(c, pending, broken, kept) =>
      ToldHandOut(s, t, step);
    case _ =>
      ToldQuiet(s, t);
  }

  lemma ToldPacket(s: State, t: State, c: nat, q: Request)
    requires AllTold(s) && c < |s.workers| && q.kind.Proto?
    requires t == SetWorker(s, c, s.workers[c].(incoming := s.workers[c].incoming + [q]))
    ensures AllTold(t)
  {
    hide EndsTold;
    forall i | 0 <= i < |t.workers| ensures EndsTold(t, Stream(t.workers[i])) {
      var st := Stream(s.workers[i]);
      if i == c {
        ToldAppend(s, t, st, q);
        assert Stream(t.workers[i]) == st + [q];
      } else {
        ToldKept(s, t, st);
      }
    }
  }

  lemma ToldHandOut(s: State, t: State, step: Step)
    requires AllTold(s) && !s.lossy && step.HandOut? && ConnStep(s, t, step)
    ensures AllTold(t)
  {
    hide AllTold;
    var w := s.workers[step.c];
    var a := w.outgoing[0];
    var s' := SetWorker(s, step.c, w.(outgoing := w.outgoing[1..]));
    ToldQuiet(s, s');
    if a.fd in s.handlers && LinkId(s.handlers[a.fd]) == a.id && LinkId(s.handlers[a.fd]) != 0 {
      var h := s.handlers[a.fd];
      if a.kind.Close? {
        ToldNotify(s', t, Request(a.fd, h.id, h.serial, Close), step.kept);
      } else {
        var d := s'.(delivered := s'.delivered + [Delivery(h.serial, a.serial, a.origin)]);
        ToldQuiet(s', d);
        if step.broken {
          ToldFini(d, a.fd, step.kept);
        }
      }
    }
  }

  lemma ToldWorker(s: State, t: State, step: Step)
    requires AllTold(s) && WorkerStep(s, t, step)
    ensures AllTold(t)
  {
    hide AllTold;
    forall c | 0 <= c < |s.workers| ensures Stream(t.workers[c]) == Stream(s.workers[c]) {
    }
    ToldQuiet(s, t);
  }

  lemma ToldInit(s: State)
    requires Init(s)
    ensures AllTold(s)
  {
  }

  lemma {:induction false} RunTold(trace: seq<State>)
    requires Run(trace) && !trace[|trace| - 1].lossy
    ensures AllTold(trace[|trace| - 1])
    decreases |trace|
  {
    hide AllTold, ConnStep, WorkerStep, Init;
    var n := |trace| - 1;
    if n == 0 {
      ToldInit(trace[0]);
    } else {
      var before := trace[..n];
      var s, t := trace[n - 1], trace[n];
      assert before[n - 1] == s && Next(s, t);
      AcceptedGrows(s, t);
      RunTold(before);
      var step :| ConnStep(s, t, step) || WorkerStep(s, t, step);
      if ConnStep(s, t, step) {
        ToldConn(s, t, step);
      } else {
        ToldWorker(s, t, step);
      }
    }
  }

  /**
   In every run without lost blocks: of each connection that a worker was told of, and that is not open any more, its
   stream has the close; and once it has pulled all there is and no callback runs, its flag does not stand for it.
   */
  lemma GoneIsTold(trace: seq<State>, c: nat, i: nat)
    requires Run(trace) && !trace[|trace| - 1].lossy && c < |trace[|trace| - 1].workers|
    requires var w := trace[|trace| - 1].workers[c]; i < |Stream(w)| && Stream(w)[i].kind.Login?
    ensures var s := trace[|trace| - 1];
            var w := s.workers[c];
            var q := Stream(w)[i];
            !IsOpen(s, q.fd, q.id, q.serial) ==>
              && Heard(Stream(w), q.(kind := Close))
              && (w.incoming == [] && w.handling.None? ==>
                    FlagOf(w, q.fd).id == 0 || FlagOf(w, q.fd).serial != q.serial)
  {
    hide Next, Init, IsOpen, Current, LoginsFirst, CallbacksOk;
    var s := trace[|trace| - 1];
    var w := s.workers[c];
    var q := Stream(w)[i];
    RunTold(trace);
    RunViews(trace);
    assert EndsTold(s, Stream(w)) && WorkerView(s, w);
    if !IsOpen(s, q.fd, q.id, q.serial) && w.incoming == [] && w.handling.None? {
      assert Stream(w) == w.seen;
      FlagLowered(w, q.(kind := Close));
    }
  }

  lemma FlagLowered(w: Worker, q: Request)
    requires Heard(w.seen, q) && q.kind.Close? && w.handling.None? && FlagsFresh(w) && Ordered(w.seen)
    ensures FlagOf(w, q.fd).id == 0 || FlagOf(w, q.fd).serial != q.serial
  {
    var j :| 0 <= j < |w.seen| && w.seen[j] == q;
    if FlagOf(w, q.fd).id != 0 {
      var m := w.flags[q.fd];
      assert j < m.at;
      assert w.seen[j].fd == w.seen[m.at].fd;
    }
  }

  // ---- plugins hear of every block, and their closes close ----

  predicate IsClose(q: Request, fd: Fd, serial: nat) {
    q.fd == fd && q.serial == serial && q.kind.Close?
  }

  /** The plugin closed the connection itself. */
  ghost predicate HungUp(w: Worker, fd: Fd, serial: nat) {
    exists i :: 0 <= i < |w.sent| && w.sent[i].kind.Close? && w.sent[i].fd == fd && w.sent[i].serial == serial
  }

  ghost predicate HasClose(st: seq<Request>, fd: Fd, serial: nat) {
    exists j :: 0 <= j < |st| && IsClose(st[j], fd, serial)
  }

  ghost predicate Later(st: seq<Request>, fd: Fd, serial: nat) {
    exists j :: 0 <= j < |st| && st[j].fd == fd && st[j].serial > serial
  }

  predicate Raised(w: Worker, fd: Fd, serial: nat) {
    FlagOf(w, fd).id != 0 && FlagOf(w, fd).serial == serial
  }

  /** Of each connection that sent something: the flag stands for it, or it was closed, or it was followed by another. */
  ghost predicate FlagsExplained(w: Worker) {
    forall i | 0 <= i < |w.seen| && !w.seen[i].kind.Close? ::
      var fd, serial := w.seen[i].fd, w.seen[i].serial;
      Raised(w, fd, serial) || HungUp(w, fd, serial) || HasClose(w.seen, fd, serial) || Later(w.seen, fd, serial)
  }

  predicate Called(w: Worker, k: nat) {
    k in w.callbacks
  }

  /** Logins and packets reach the plugin; so does the first close of a connection unless the plugin asked for it. */
  ghost predicate BlocksReach(w: Worker, lossy: bool) {
    && (forall k | 0 <= k < |w.seen| && !w.seen[k].kind.Close? :: Called(w, k))
    && (!lossy ==> forall k | 0 <= k < |w.seen| && w.seen[k].kind.Close? ::
          var fd, serial := w.seen[k].fd, w.seen[k].serial;
          Called(w, k) || HungUp(w, fd, serial) || HasClose(w.seen[..k], fd, serial))
  }

  /** What was sent is what was pulled by the connection process, then what waits. */
  predicate SentOk(w: Worker) {
    |w.outgoing| <= |w.sent| && w.outgoing == w.sent[|w.sent| - |w.outgoing|..]
  }

  /** The connections whose close was handed over are not open. */
  ghost predicate ClosesDone(s: State, w: Worker) {
    forall i | 0 <= i < |w.sent| ::
      && w.sent[i].serial <= s.accepted
      && (i < |w.sent| - |w.outgoing| && w.sent[i].kind.Close? ==>
            !IsOpen(s, w.sent[i].fd, w.sent[i].id, w.sent[i].serial))
  }

  /** The block being handled is the last one pulled. */
  predicate HandlesLast(w: Worker) {
    w.handling.Some? ==> w.seen != [] && w.seen[|w.seen| - 1] == w.handling.value
  }

  ghost predicate Tells(s: State, w: Worker) {
    FlagsExplained(w) && BlocksReach(w, s.lossy) && SentOk(w) && ClosesDone(s, w) && HandlesLast(w)
  }

  ghost predicate AllTell(s: State) {
    forall c | 0 <= c < |s.workers| :: Tells(s, s.workers[c])
  }

  lemma HungUpMore(w: Worker, v: Worker, fd: Fd, serial: nat)
    requires HungUp(w, fd, serial) && w.sent <= v.sent
    ensures HungUp(v, fd, serial)
  {
    var i :| 0 <= i < |w.sent| && w.sent[i].kind.Close? && w.sent[i].fd == fd && w.sent[i].serial == serial;
    assert v.sent[i] == w.sent[i];
  }

  lemma SeenMore(st: seq<Request>, q: Request, fd: Fd, serial: nat)
    ensures HasClose(st, fd, serial) ==> HasClose(st + [q], fd, serial)
    ensures Later(st, fd, serial) ==> Later(st + [q], fd, serial)
    ensures IsClose(q, fd, serial) ==> HasClose(st + [q], fd, serial)
    ensures q.fd == fd && q.serial > serial ==> Later(st + [q], fd, serial)
  {
    var st' := st + [q];
    assert st'[|st|] == q;
    if HasClose(st, fd, serial) {
      var j :| 0 <= j < |st| && IsClose(st[j], fd, serial);
      assert st'[j] == st[j];
    }
    if Later(st, fd, serial) {
      var j :| 0 <= j < |st| && st[j].fd == fd && st[j].serial > serial;
      assert st'[j] == st[j];
    }
  }

  /** A block is pulled. */
  lemma TakeExplained(w: Worker, v: Worker, q: Request)
    requires FlagsExplained(w) && Ordered(w.seen + [q]) && v.seen == w.seen + [q] && v.sent == w.sent
    requires v.flags == if q.kind.Close? then w.flags else w.flags[q.fd := Mark(q.id, q.serial, |w.seen|)]
    requires !q.kind.Close? ==> q.id != 0
    ensures FlagsExplained(v)
  {
    hide HungUp, HasClose, Later;
    var st := v.seen;
    forall i | 0 <= i < |st| && !st[i].kind.Close?
      ensures var fd, serial := st[i].fd, st[i].serial;
              Raised(v, fd, serial) || HungUp(v, fd, serial) || HasClose(st, fd, serial) || Later(st, fd, serial)
    {
      var fd, serial := st[i].fd, st[i].serial;
      SeenMore(w.seen, q, fd, serial);
      if i < |w.seen| {
        assert st[i] == w.seen[i] && st[|w.seen|] == q;
        if HungUp(w, fd, serial) {
          HungUpMore(w, v, fd, serial);
        }
      }
    }
  }

  lemma TakeReaches(s: State, w: Worker, v: Worker, q: Request)
    requires BlocksReach(w, s.lossy) && FlagsExplained(w) && v.seen == w.seen + [q] && v.sent == w.sent
    requires w.incoming != [] && w.incoming[0] == q && WorkerView(s, w)
    requires v.callbacks == if !q.kind.Close? || FlagOf(w, q.fd).id != 0 then w.callbacks + [|w.seen|] else w.callbacks
    ensures BlocksReach(v, s.lossy)
  {
    hide HungUp, HasClose, Later, FlagsFresh, CallbacksOk, Current, Ordered, LoginsFirst, FlagsExplained;
    var st, n := v.seen, |w.seen|;
    forall k | 0 <= k < |st| && !st[k].kind.Close? ensures Called(v, k) {
      if k < n {
        assert Called(w, k) && st[k] == w.seen[k];
      }
    }
    if !s.lossy {
      forall k | 0 <= k < |st| && st[k].kind.Close?
        ensures var fd, serial := st[k].fd, st[k].serial;
                Called(v, k) || HungUp(v, fd, serial) || HasClose(st[..k], fd, serial)
      {
        var fd, serial := st[k].fd, st[k].serial;
        if k < n {
          assert st[k] == w.seen[k] && st[..k] == w.seen[..k];
          if HungUp(w, fd, serial) {
            HungUpMore(w, v, fd, serial);
          }
        } else {
          assert st[..k] == w.seen;
          if FlagOf(w, fd).id == 0 {
            FirstClose(s, w, q);
            if HungUp(w, fd, serial) {
              HungUpMore(w, v, fd, serial);
            }
          }
        }
      }
    }
  }

  /** A close that finds no flag raised: the plugin hung up, or has heard of the close before. */
  lemma FirstClose(s: State, w: Worker, q: Request)
    requires WorkerView(s, w) && !s.lossy && FlagsExplained(w)
    requires w.incoming != [] && w.incoming[0] == q && q.kind.Close? && FlagOf(w, q.fd).id == 0
    ensures HungUp(w, q.fd, q.serial) || HasClose(w.seen, q.fd, q.serial)
  {
    hide HungUp, HasClose, Later, WorkerView;
    var i := LoginBefore(s, w, q);
    NotLater(s, w, q);
    assert !w.seen[i].kind.Close?;
  }

  lemma LoginBefore(s: State, w: Worker, q: Request) returns (i: nat)
    requires WorkerView(s, w) && !s.lossy && w.incoming != [] && w.incoming[0] == q && q.kind.Close?
    ensures i < |w.seen| && w.seen[i].fd == q.fd && w.seen[i].serial == q.serial && w.seen[i].kind.Login?
  {
    hide Ordered, FlagsFresh, CallbacksOk, Current, LoginsFirst;
    var st, n := Stream(w), |w.seen|;
    assert st[n] == q;
    LoginOf(s, st, n);
    i :| 0 <= i < n + 1 && i < |st| && st[i] == Request(q.fd, st[i].id, q.serial, Login);
    assert st[i] == w.seen[i];
  }

  lemma NotLater(s: State, w: Worker, q: Request)
    requires WorkerView(s, w) && w.incoming != [] && w.incoming[0] == q
    ensures !Later(w.seen, q.fd, q.serial)
  {
    hide Ordered, FlagsFresh, CallbacksOk, Current, LoginsFirst;
    if Later(w.seen, q.fd, q.serial) {
      var j :| 0 <= j < |w.seen| && w.seen[j].fd == q.fd && w.seen[j].serial > q.serial;
      var st := Stream(w);
      assert st[j] == w.seen[j] && st[|w.seen|] == q;
      OrderedAt(st, j, |w.seen|);
    }
  }

  /** A callback ends, or the plugin hangs up: the flag goes down, for a reason. */
  lemma LowerExplained(w: Worker, v: Worker, fd: Fd)
    requires FlagsExplained(w) && v.seen == w.seen && w.sent <= v.sent && v.flags == w.flags[fd := UNLINKED]
    requires var serial := FlagOf(w, fd).serial;
             FlagOf(w, fd).id == 0 || HungUp(v, fd, serial) || HasClose(v.seen, fd, serial) || Later(v.seen, fd, serial)
    ensures FlagsExplained(v)
  {
    hide HungUp, HasClose, Later;
    forall i | 0 <= i < |v.seen| && !v.seen[i].kind.Close?
      ensures var f, serial := v.seen[i].fd, v.seen[i].serial;
              Raised(v, f, serial) || HungUp(v, f, serial) || HasClose(v.seen, f, serial) || Later(v.seen, f, serial)
    {
      if HungUp(w, v.seen[i].fd, v.seen[i].serial) {
        HungUpMore(w, v, v.seen[i].fd, v.seen[i].serial);
      }
    }
  }

  lemma SameExplained(w: Worker, v: Worker)
    requires FlagsExplained(w) && v.seen == w.seen && w.sent <= v.sent && v.flags == w.flags
    ensures FlagsExplained(v)
  {
    hide HungUp, HasClose, Later;
    forall i | 0 <= i < |v.seen| && !v.seen[i].kind.Close?
      ensures var f, serial := v.seen[i].fd, v.seen[i].serial;
              Raised(v, f, serial) || HungUp(v, f, serial) || HasClose(v.seen, f, serial) || Later(v.seen, f, serial)
    {
      if HungUp(w, v.seen[i].fd, v.seen[i].serial) {
        HungUpMore(w, v, v.seen[i].fd, v.seen[i].serial);
      }
    }
  }

  lemma SameReaches(w: Worker, v: Worker, lossy: bool)
    requires BlocksReach(w, lossy) && v.seen == w.seen && w.sent <= v.sent && v.callbacks == w.callbacks
    ensures BlocksReach(v, lossy)
  {
    hide HungUp, HasClose;
    forall k | 0 <= k < |v.seen|
      ensures !v.seen[k].kind.Close? ==> Called(v, k)
      ensures !lossy && v.seen[k].kind.Close? ==>
                var fd, serial := v.seen[k].fd, v.seen[k].serial;
                Called(v, k) || HungUp(v, fd, serial) || HasClose(v.seen[..k], fd, serial)
    {
      if !v.seen[k].kind.Close? {
        assert Called(w, k);
      } else if HungUp(w, v.seen[k].fd, v.seen[k].serial) {
        HungUpMore(w, v, v.seen[k].fd, v.seen[k].serial);
      } else if Called(w, k) {
        assert Called(v, k);
      }
    }
  }

  // ---- every step keeps it ----

  /** Whatever is open after a step was open before, or is new. */
  ghost predicate OpensOnlyNew(s: State, t: State) {
    && s.accepted <= t.accepted && s.lossy == t.lossy
    && forall fd, id, serial: nat | IsOpen(t, fd, id, serial) :: IsOpen(s, fd, id, serial) || serial > s.accepted
  }

  lemma ClosesStay(s: State, t: State, w: Worker)
    requires ClosesDone(s, w) && OpensOnlyNew(s, t)
    ensures ClosesDone(t, w)
  {
    hide IsOpen;
  }

  /** The connection process: what the worker has seen and sent does not change. */
  lemma TellsConn(s: State, t: State, w: Worker, v: Worker)
    requires Tells(s, w) && OpensOnlyNew(s, t)
    requires v.(incoming := w.incoming) == w
    ensures Tells(t, v)
  {
    hide FlagsExplained, BlocksReach, ClosesDone, SentOk, IsOpen;
    ClosesStay(s, t, w);
    SameExplained(w, v);
    SameReaches(w, v, s.lossy);
    SameCloses(t, w, v);
  }

  lemma SameCloses(t: State, w: Worker, v: Worker)
    requires ClosesDone(t, w) && v.sent == w.sent && v.outgoing == w.outgoing
    ensures ClosesDone(t, v) && (SentOk(w) ==> SentOk(v))
  {
  }

  /** The front of what waits is pulled; a close among it has closed its connection. */
  lemma TellsPulled(s: State, t: State, w: Worker, v: Worker)
    requires Tells(s, w) && OpensOnlyNew(s, t) && w.outgoing != []
    requires v.(incoming := w.incoming) == w.(outgoing := w.outgoing[1..])
    requires var a := w.outgoing[0]; a.kind.Close? ==> !IsOpen(t, a.fd, a.id, a.serial)
    ensures Tells(t, v)
  {
    hide FlagsExplained, BlocksReach, IsOpen;
    ClosesStay(s, t, w);
    SameExplained(w, v);
    SameReaches(w, v, s.lossy);
    var n := |w.sent| - |w.outgoing|;
    assert w.sent[n] == w.outgoing[0];
    assert w.sent[n..][1..] == w.sent[n + 1..];
  }

  lemma ConnOpens(s: State, t: State, step: Step)
    requires ConnStep(s, t, step) && !step.HandOut?
    ensures OpensOnlyNew(s, t) && |t.workers| == |s.workers|
    ensures forall c | 0 <= c < |s.workers| :: t.workers[c].(incoming := s.workers[c].incoming) == s.workers[c]
  {
    hide IdOf, Wrapped;
  }

  lemma HandOutOpens(s: State, t: State, step: Step)
    requires ConnStep(s, t, step) && step.HandOut?
    ensures OpensOnlyNew(s, t) && step.c < |t.workers| == |s.workers|
    ensures forall c | 0 <= c < |s.workers| && c != step.c ::
              t.workers[c].(incoming := s.workers[c].incoming) == s.workers[c]
    ensures var w := s.workers[step.c];
            && w.outgoing != [] && t.workers[step.c].(incoming := w.incoming) == w.(outgoing := w.outgoing[1..])
            && var a := w.outgoing[0];
               a.kind.Close? && a.id != 0 ==> !IsOpen(t, a.fd, a.id, a.serial)
  {
    hide IdOf, Wrapped;
  }

  lemma TellConn(s: State, t: State, step: Step)
    requires AllTell(s) && AllNamed(s) && ConnStep(s, t, step)
    ensures AllTell(t)
  {
    hide ConnStep, Tells, OpensOnlyNew, IsOpen, IdOf;
    if step.HandOut? {
      HandOutOpens(s, t, step);
      OutgoingNamed(s, step.c);
    } else {
      ConnOpens(s, t, step);
    }
    forall c | 0 <= c < |t.workers| ensures Tells(t, t.workers[c]) {
      if step.HandOut? && c == step.c {
        TellsPulled(s, t, s.workers[c], t.workers[c]);
      } else {
        TellsConn(s, t, s.workers[c], t.workers[c]);
      }
    }
  }

  lemma OutgoingNamed(s: State, c: nat)
    requires AllNamed(s) && c < |s.workers|
    ensures forall i | 0 <= i < |s.workers[c].outgoing| ::
              s.workers[c].outgoing[i].id != 0 && s.workers[c].outgoing[i].serial <= s.accepted
  {
    assert WorkerNamed(s.workers[c], s.accepted);
  }

  /** Only worker `c` changes, and nothing about the connections. */
  ghost predicate Alone(s: State, t: State, c: nat) {
    && c < |s.workers| == |t.workers| && t == s.(workers := t.workers)
    && forall i | 0 <= i < |s.workers| && i != c :: t.workers[i] == s.workers[i]
  }

  lemma StepAlone(s: State, t: State, step: Step)
    requires WorkerStep(s, t, step)
    ensures Alone(s, t, step.c) && (step.Take? || step.Send? || step.Hangup? || step.EndCallback?)
  {
  }

  lemma Elsewhere(s: State, t: State, c: nat)
    requires AllTell(s) && Alone(s, t, c) && Tells(t, t.workers[c])
    ensures AllTell(t)
  {
    hide FlagsExplained, BlocksReach, SentOk;
    forall i | 0 <= i < |t.workers| ensures Tells(t, t.workers[i]) {
      if i != c {
        ClosesStay(s, t, s.workers[i]);
      }
    }
  }

  lemma SameConnections(s: State, t: State, w: Worker)
    requires t == s.(workers := t.workers) && ClosesDone(s, w)
    ensures ClosesDone(t, w)
  {
  }

  lemma TellTake(s: State, t: State, c: nat)
    requires AllTell(s) && AllNamed(s) && Views(s) && WorkerStep(s, t, Take(c))
    ensures Tells(t, t.workers[c])
  {
    hide FlagsExplained, BlocksReach, ClosesDone, SentOk, WorkerView, IdOf;
    var w, v := s.workers[c], t.workers[c];
    var q := w.incoming[0];
    assert WorkerNamed(w, s.accepted) && Tells(s, w) && WorkerView(s, w);
    PulledOrdered(s, w, q);
    TakeExplained(w, v, q);
    TakeReaches(s, w, v, q);
    SameConnections(s, t, w);
    SameCloses(t, w, v);
  }

  lemma PulledOrdered(s: State, w: Worker, q: Request)
    requires WorkerView(s, w) && w.incoming != [] && w.incoming[0] == q
    ensures Ordered(w.seen + [q])
  {
    hide Ordered;
    assert Stream(w)[..|w.seen| + 1] == w.seen + [q];
    OrderedPrefix(Stream(w), |w.seen| + 1);
  }

  lemma SentMore(t: State, w: Worker, v: Worker, a: Answer)
    requires ClosesDone(t, w) && SentOk(w) && v.sent == w.sent + [a] && v.outgoing == w.outgoing + [a]
    requires a.serial <= t.accepted
    ensures ClosesDone(t, v) && SentOk(v) && w.sent <= v.sent
    ensures a.kind.Close? ==> HungUp(v, a.fd, a.serial)
  {
    hide IsOpen;
    assert v.sent[|w.sent|] == a;
  }

  lemma TellSend(s: State, t: State, step: Step)
    requires AllTell(s) && AllNamed(s) && (step.Send? || step.Hangup?) && WorkerStep(s, t, step)
    ensures Tells(t, t.workers[step.c])
  {
    hide FlagsExplained, BlocksReach, ClosesDone, SentOk, HungUp, HasClose, Later, IdOf;
    var w, v := s.workers[step.c], t.workers[step.c];
    assert WorkerNamed(w, s.accepted) && Tells(s, w);
    SameConnections(s, t, w);
    var m := FlagOf(w, step.fd);
    if m.id != 0 {
      SentMore(t, w, v, v.sent[|w.sent|]);
      SameReaches(w, v, s.lossy);
      if step.Hangup? {
        LowerExplained(w, v, step.fd);
      } else {
        SameExplained(w, v);
      }
    }
  }

  lemma TellEnd(s: State, t: State, c: nat)
    requires AllTell(s) && Views(s) && WorkerStep(s, t, EndCallback(c))
    ensures Tells(t, t.workers[c])
  {
    hide FlagsExplained, BlocksReach, ClosesDone, SentOk, HungUp, WorkerView;
    var w, v := s.workers[c], t.workers[c];
    assert Tells(s, w) && WorkerView(s, w);
    SameConnections(s, t, w);
    SameCloses(t, w, v);
    SameReaches(w, v, s.lossy);
    var q := w.handling.value;
    if q.kind.Close? {
      if FlagOf(w, q.fd).id != 0 {
        ClearedFor(s, w, q);
      }
      LowerExplained(w, v, q.fd);
    } else {
      SameExplained(w, v);
    }
  }

  /** A callback for a close that clears a flag: it is the close of that connection, or of a later one. */
  lemma ClearedFor(s: State, w: Worker, q: Request)
    requires WorkerView(s, w) && HandlesLast(w) && w.handling == Some(q) && q.kind.Close? && FlagOf(w, q.fd).id != 0
    ensures HasClose(w.seen, q.fd, FlagOf(w, q.fd).serial) || Later(w.seen, q.fd, FlagOf(w, q.fd).serial)
  {
    hide Ordered, Current, LoginsFirst, CallbacksOk;
    var m, n := w.flags[q.fd], |w.seen| - 1;
    var st := Stream(w);
    assert st[m.at] == w.seen[m.at] && st[n] == w.seen[n] == q;
    assert m.at < n;
    OrderedAt(st, m.at, n);
    assert q.serial == m.serial ==> IsClose(w.seen[n], q.fd, m.serial);
  }

  lemma TellWorker(s: State, t: State, step: Step)
    requires AllTell(s) && AllNamed(s) && Views(s) && WorkerStep(s, t, step)
    ensures AllTell(t)
  {
    hide AllTell, Tells, Views, AllNamed, WorkerStep;
    StepAlone(s, t, step);
    match step {
      case Take(c) => TellTake(s, t, c);
      case EndCallback(c) => TellEnd(s, t, c);
      case _ => TellSend(s, t, step);
    }
    Elsewhere(s, t, step.c);
  }

  lemma TellInit(s: State)
    requires Init(s)
    ensures AllTell(s)
  {
  }

  lemma {:induction false} RunNamed(trace: seq<State>)
    requires Run(trace)
    ensures AllNamed(trace[|trace| - 1])
    decreases |trace|
  {
    hide AllNamed, DeliveredRight, ConnStep, WorkerStep, Init;
    var n := |trace| - 1;
    if n == 0 {
      InitNamed(trace[0]);
    } else {
      var before := trace[..n];
      var s, t := trace[n - 1], trace[n];
      assert before[n - 1] == s && Next(s, t);
      RunNamed(before);
      var step :| ConnStep(s, t, step) || WorkerStep(s, t, step);
      if ConnStep(s, t, step) {
        ConnNamed(s, t, step);
      } else {
        WorkerNames(s, t, step);
      }
    }
  }

  lemma WorkerNames(s: State, t: State, step: Step)
    requires AllNamed(s) && WorkerStep(s, t, step)
    ensures AllNamed(t)
  {
    hide Wrapped, IdOf;
  }

  lemma {:induction false} RunTells(trace: seq<State>)
    requires Run(trace)
    ensures AllTell(trace[|trace| - 1])
    decreases |trace|
  {
    hide AllTell, AllNamed, Views, ConnStep, WorkerStep, Init;
    var n := |trace| - 1;
    if n == 0 {
      TellInit(trace[0]);
    } else {
      var before := trace[..n];
      var s, t := trace[n - 1], trace[n];
      assert before[n - 1] == s && Next(s, t);
      RunTells(before);
      RunNamed(before);
      RunViews(before);
      var step :| ConnStep(s, t, step) || WorkerStep(s, t, step);
      if ConnStep(s, t, step) {
        TellConn(s, t, step);
      } else {
        TellWorker(s, t, step);
      }
    }
  }

  /**
   In every run: every login and packet that a worker pulled has been given to its plugin; without lost blocks so has
   the first close of every connection, unless the plugin had closed it; and every close that a plugin sent is still
   on its way or has taken effect.
   */
  lemma PluginsHear(trace: seq<State>, c: nat)
    requires Run(trace) && c < |trace[|trace| - 1].workers|
    ensures var s := trace[|trace| - 1];
            var w := s.workers[c];
            && (forall k | 0 <= k < |w.seen| && !w.seen[k].kind.Close? :: Called(w, k))
            && (!s.lossy ==> forall k | 0 <= k < |w.seen| && w.seen[k].kind.Close? ::
                  var fd, serial := w.seen[k].fd, w.seen[k].serial;
                  Called(w, k) || HungUp(w, fd, serial) || HasClose(w.seen[..k], fd, serial))
            && |w.outgoing| <= |w.sent| && w.outgoing == w.sent[|w.sent| - |w.outgoing|..]
            && (forall i | 0 <= i < |w.sent| - |w.outgoing| && w.sent[i].kind.Close? ::
                  !IsOpen(s, w.sent[i].fd, w.sent[i].id, w.sent[i].serial))
  {
    hide Next, Init, FlagsExplained, HungUp, HasClose, IsOpen;
    RunTells(trace);
    assert Tells(trace[|trace| - 1], trace[|trace| - 1].workers[c]);
  }

  // ---- and a packet can be answered ----

  /**
   From every reachable state: a packet of an open connection can go to any idle worker, reach its plugin, be
   answered from within the callback, and the answer be delivered to that connection.
   */
  lemma AnswerArrives(trace: seq<State>, fd: Fd, c: nat) returns (longer: seq<State>)
    requires Run(trace) && c < |trace[|trace| - 1].workers|
    requires var s := trace[|trace| - 1];
             && fd in s.handlers && s.handlers[fd].Socket? && !s.handlers[fd].closing
             && var w := s.workers[c]; w.incoming == [] && w.handling.None? && w.outgoing == []
    ensures Run(longer)
    ensures var s, t := trace[|trace| - 1], longer[|longer| - 1];
            var serial := s.handlers[fd].serial;
            && t.delivered == s.delivered + [Delivery(serial, serial, serial)] && t.handlers == s.handlers
            && |t.workers| == |s.workers|
            && t.workers[c].seen == s.workers[c].seen + [Request(fd, s.handlers[fd].id, serial, Proto)]
            && t.workers[c].callbacks == s.workers[c].callbacks + [|s.workers[c].seen|]
  {
    hide Init, IdOf, Wrapped, Run;
    var s := LastOf(trace);
    RunNamed(trace);
    var h, w := s.handlers[fd], s.workers[c];
    var q := Request(fd, h.id, h.serial, Proto);
    assert h.id == IdOf(h.serial) > 0;
    var s1 := SetWorker(s, c, w.(incoming := w.incoming + [q]));
    Extend(trace, s1, Packet(fd, c, true));
    var w2 := w.(seen := w.seen + [q], flags := w.flags[fd := Mark(h.id, h.serial, |w.seen|)], handling := Some(q),
                 callbacks := w.callbacks + [|w.seen|]);
    var s2 := SetWorker(s, c, w2);
    assert (w.incoming + [q])[1..] == [] && (w.incoming + [q])[0] == q;
    assert s1.workers[c := w2] == s.workers[c := w2];
    Extend(trace + [s1], s2, Take(c));
    var a := Answer(fd, h.id, Proto, h.serial, h.serial);
    var w3 := w2.(outgoing := w2.outgoing + [a], sent := w2.sent + [a]);
    var s3 := SetWorker(s, c, w3);
    assert s2.workers[c := w3] == s.workers[c := w3];
    Extend(trace + [s1] + [s2], s3, Send(c, fd));
    var w4 := w3.(outgoing := []);
    var s4 := SetWorker(s, c, w4).(delivered := s.delivered + [Delivery(h.serial, h.serial, h.serial)]);
    assert w3.outgoing[1..] == [] && w3.outgoing[0] == a;
    assert s3.workers[c := w4] == s.workers[c := w4];
    Extend(trace + [s1] + [s2] + [s3], s4, HandOut(c, false, false, seq(|s.workers|, _ => true)));
    longer := trace + [s1] + [s2] + [s3] + [s4];
  }

  lemma LastOf(trace: seq<State>) returns (s: State)
    requires Run(trace)
    ensures trace != [] && s == trace[|trace| - 1]
  {
    s := trace[|trace| - 1];
  }
}
