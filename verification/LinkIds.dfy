/**
 The link-id guard of the async-server.  File descriptors are reused, so the connection
 process gives every client connection an id, stamps it on every block it sends to a
 worker, the worker stamps it on its answers, and an answer is handed out only if the
 descriptor still belongs to that id.

 The queues between the processes are plain FIFO lists here (what `RingProtocol` proves of
 the rings); `lossy` says whether a push may also be lost for want of memory.  A
 connection is identified by its serial number, which the program does not have: ids
 are 32-bit counters, and repeat.
 */
module LinkIds {
  import opened ByteStrings

  type Fd = nat

  // ---- ids ----

  const INT_RANGE: nat := 0x1_0000_0000
  const INT_HALF: nat := 0x8000_0000

  /** The value of a wrapping `int` counter after `n` increments from 0. */
  function Wrapped(n: nat): int {
    var m := n % INT_RANGE;
    if m < INT_HALF then m else m - INT_RANGE
  }

  /** `make_id`, for the `n`-th connection. */
  function IdOf(n: nat): (id: int)
    ensures id > 0
  {
    if Wrapped(n) > 0 then Wrapped(n) else 1
  }

  ghost predicate AllDistinct(n: nat) {
    forall i, j | 1 <= i < j <= n :: IdOf(i) != IdOf(j)
  }

  /** Ids tell the first `n` connections apart exactly as long as the counter has not overflowed. */
  lemma IdsDistinct(n: nat)
    ensures AllDistinct(n) <==> n < INT_HALF
  {
    if n >= INT_HALF {
      assert IdOf(1) == 1 && IdOf(INT_HALF) == 1;
    }
  }

  lemma IdInjective(m: nat, n: nat)
    requires 1 <= m < INT_HALF && 1 <= n < INT_HALF && IdOf(m) == IdOf(n)
    ensures m == n
  {}

  // ---- state ----

  datatype Kind = Login | Proto | Close

  /** A block from the connection process to a worker. */
  datatype Request = Request(fd: Fd, id: int, serial: nat, kind: Kind)

  /** A block from a worker: `serial` is the connection the worker's flag stood for,
      `origin` the connection whose request on this very descriptor was being handled (0: none). */
  datatype Answer = Answer(fd: Fd, id: int, kind: Kind, serial: nat, origin: nat)

  datatype Handler = Other | Socket(id: int, serial: nat, closing: bool)

  /** An entry of `g_link_flags`: id 0 means no link; `at` is the block in `seen` that set it. */
  datatype Mark = Mark(id: int, serial: nat, at: nat)

  const UNLINKED := Mark(0, 0, 0)

  /** `seen` are the blocks already pulled; `callbacks` the positions of those for which a plugin callback ran;
      `sent` everything ever pushed to the connection process, `outgoing` what of it was not pulled yet. */
  datatype Worker = Worker(
    incoming: seq<Request>,
    seen: seq<Request>,
    flags: map<Fd, Mark>,
    handling: Option<Request>,
    outgoing: seq<Answer>,
    callbacks: seq<nat>,
    sent: seq<Answer>)

  const NEW: Worker := Worker([], [], map[], None, [], [], [])

  datatype Delivery = Delivery(receiver: nat, serial: nat, origin: nat)

  datatype State = State(
    lossy: bool,
    counter: int,                   // m_id
    accepted: nat,                  // connections ever accepted
    handlers: map<Fd, Handler>,
    workers: seq<Worker>,
    delivered: seq<Delivery>)

  function FlagOf(w: Worker, fd: Fd): Mark {
    if fd in w.flags then w.flags[fd] else UNLINKED
  }

  function LinkId(h: Handler): int {
    if h.Socket? then h.id else 0
  }

  datatype Step =
    | Accept(fd: Fd, kept: seq<bool>)
    | Refuse
    | Packet(fd: Fd, c: nat, ok: bool)
    | Fail(fd: Fd, kept: seq<bool>)
    | OpenOther(fd: Fd)
    | CloseOther(fd: Fd)
    | HandOut(c: nat, pending: bool, broken: bool, kept: seq<bool>)
    | Take(c: nat)
    | Send(c: nat, fd: Fd)
    | Hangup(c: nat, fd: Fd)
    | EndCallback(c: nat)

  // ---- the connection process ----

  /** Pushes `q` to every worker (`safe=true`): only a lossy system can lose a copy. */
  function Notify(s: State, q: Request, kept: seq<bool>): State
    requires |kept| == |s.workers|
  {
    s.(workers := seq(|s.workers|, c requires 0 <= c < |s.workers| =>
         if kept[c] then s.workers[c].(incoming := s.workers[c].incoming + [q]) else s.workers[c]))
  }

  predicate KeptOk(s: State, kept: seq<bool>) {
    |kept| == |s.workers| && (!s.lossy ==> forall c | 0 <= c < |kept| :: kept[c])
  }

  /** `handle_error`: one last notice unless it was already given, and the descriptor is free. */
  function Fini(s: State, fd: Fd, kept: seq<bool>): State
    requires fd in s.handlers && s.handlers[fd].Socket? && |kept| == |s.workers|
  {
    var h := s.handlers[fd];
    var t := if h.closing then s else Notify(s, Request(fd, h.id, h.serial, Close), kept);
    t.(handlers := t.handlers - {fd})
  }

  /** `shut`: notice first, then the descriptor stays only while output is pending. */
  function Shut(s: State, fd: Fd, pending: bool, kept: seq<bool>): State
    requires fd in s.handlers && s.handlers[fd].Socket? && |kept| == |s.workers|
  {
    var h := s.handlers[fd];
    var t := Notify(s, Request(fd, h.id, h.serial, Close), kept);
    if pending then t.(handlers := t.handlers[fd := h.(closing := true)])
    else t.(handlers := t.handlers - {fd})
  }

  function SetWorker(s: State, c: nat, w: Worker): State
    requires c < |s.workers|
  {
    s.(workers := s.workers[c := w])
  }

  ghost predicate ConnStep(s: State, t: State, step: Step) {
    match step
    case Accept(fd, kept) =>
      && fd !in s.handlers && KeptOk(s, kept)
      && var n := s.accepted + 1;
         var id := IdOf(n);
         t == Notify(s.(counter := Wrapped(n), accepted := n, handlers := s.handlers[fd := Socket(id, n, false)]),
                     Request(fd, id, n, Login), kept)
    case Refuse =>
      t == s.(counter := Wrapped(s.accepted + 1), accepted := s.accepted + 1)
    case Packet(fd, c, ok) =>
      && fd in s.handlers && s.handlers[fd].Socket? && !s.handlers[fd].closing && c < |s.workers|
      && var h := s.handlers[fd];
         var w := s.workers[c];
         t == if ok then SetWorker(s, c, w.(incoming := w.incoming + [Request(fd, h.id, h.serial, Proto)])) else s
    case Fail(fd, kept) =>
      && fd in s.handlers && s.handlers[fd].Socket? && KeptOk(s, kept)
      && t == Fini(s, fd, kept)
    case OpenOther(fd) =>
      fd !in s.handlers && t == s.(handlers := s.handlers[fd := Other])
    case CloseOther(fd) =>
      fd in s.handlers && s.handlers[fd].Other? && t == s.(handlers := s.handlers - {fd})
    case HandOut(c, pending, broken, kept) =>
      && c < |s.workers| && s.workers[c].outgoing != [] && KeptOk(s, kept)
      && var a := s.workers[c].outgoing[0];
         var s' := SetWorker(s, c, s.workers[c].(outgoing := s.workers[c].outgoing[1..]));
         t == if a.fd !in s.handlers then s'
              else if LinkId(s.handlers[a.fd]) != a.id || LinkId(s.handlers[a.fd]) == 0 then s'
              else if a.kind.Close? then Shut(s', a.fd, pending, kept)
              else
                var d := s'.(delivered := s'.delivered + [Delivery(s.handlers[a.fd].serial, a.serial, a.origin)]);
                if broken then Fini(d, a.fd, kept) else d
    case _ => false
  }

  // ---- a worker ----

  function OriginOf(w: Worker, fd: Fd): nat {
    match w.handling
    case Some(q) => if q.fd == fd && !q.kind.Close? then q.serial else 0
    case None => 0
  }

  ghost predicate WorkerStep(s: State, t: State, step: Step) {
    match step
    case Take(c) =>
      && c < |s.workers| && s.workers[c].incoming != [] && s.workers[c].handling.None?
      && var w := s.workers[c];
         var q := w.incoming[0];
         var w' := w.(incoming := w.incoming[1..], seen := w.seen + [q]);
         t == SetWorker(s, c,
           if !q.kind.Close? then
             w'.(flags := w.flags[q.fd := Mark(q.id, q.serial, |w.seen|)], handling := Some(q),
                 callbacks := w.callbacks + [|w.seen|])
           else if FlagOf(w, q.fd).id != 0 then
             w'.(handling := Some(q), callbacks := w.callbacks + [|w.seen|])
           else w')
    case Send(c, fd) =>
      && c < |s.workers|
      && var w := s.workers[c];
         var m := FlagOf(w, fd);
         t == if m.id == 0 then s
              else
                var a := Answer(fd, m.id, Proto, m.serial, OriginOf(w, fd));
                SetWorker(s, c, w.(outgoing := w.outgoing + [a], sent := w.sent + [a]))
    case Hangup(c, fd) =>
      && c < |s.workers|
      && var w := s.workers[c];
         var m := FlagOf(w, fd);
         t == if m.id == 0 then s
              else
                var a := Answer(fd, m.id, Close, m.serial, OriginOf(w, fd));
                SetWorker(s, c, w.(outgoing := w.outgoing + [a], sent := w.sent + [a], flags := w.flags[fd := UNLINKED]))
    case EndCallback(c) =>
      && c < |s.workers| && s.workers[c].handling.Some?
      && var w := s.workers[c];
         var q := w.handling.value;
         t == SetWorker(s, c, w.(handling := None,
                                 flags := if q.kind.Close? then w.flags[q.fd := UNLINKED] else w.flags))
    case _ => false
  }

  ghost predicate Init(s: State) {
    && s.counter == 0 && s.accepted == 0 && s.delivered == []
    && (forall fd | fd in s.handlers :: s.handlers[fd].Other?)
    && (forall c | 0 <= c < |s.workers| :: s.workers[c] == NEW)
  }

  ghost predicate Next(s: State, t: State) {
    exists step :: ConnStep(s, t, step) || WorkerStep(s, t, step)
  }

  // ---- who is who ----

  predicate Named(id: int, serial: nat, accepted: nat) {
    1 <= serial <= accepted && id == IdOf(serial)
  }

  /** Every id that travels is the id of the connection it travels for. */
  ghost predicate WorkerNamed(w: Worker, n: nat) {
    && (forall i | 0 <= i < |w.incoming| :: Named(w.incoming[i].id, w.incoming[i].serial, n))
    && (forall fd | fd in w.flags && w.flags[fd].id != 0 :: Named(w.flags[fd].id, w.flags[fd].serial, n))
    && (w.handling.Some? ==> Named(w.handling.value.id, w.handling.value.serial, n))
    && (w.handling.Some? && !w.handling.value.kind.Close? ==>
          var m := FlagOf(w, w.handling.value.fd);
          m.id == 0 || m.serial == w.handling.value.serial)
    && (forall i | 0 <= i < |w.outgoing| ::
          && Named(w.outgoing[i].id, w.outgoing[i].serial, n)
          && (w.outgoing[i].origin != 0 ==> w.outgoing[i].origin == w.outgoing[i].serial))
  }

  ghost predicate AllNamed(s: State) {
    && s.counter == Wrapped(s.accepted)
    && (forall fd | fd in s.handlers && s.handlers[fd].Socket? ::
          Named(s.handlers[fd].id, s.handlers[fd].serial, s.accepted))
    && (forall c | 0 <= c < |s.workers| :: WorkerNamed(s.workers[c], s.accepted))
  }

  ghost predicate DeliveredRight(s: State) {
    forall i | 0 <= i < |s.delivered| ::
      && s.delivered[i].receiver == s.delivered[i].serial
      && (s.delivered[i].origin != 0 ==> s.delivered[i].origin == s.delivered[i].receiver)
  }

  // ---- answers reach the connection they were meant for ----

  lemma NotifyNamed(s: State, q: Request, kept: seq<bool>)
    requires AllNamed(s) && |kept| == |s.workers| && Named(q.id, q.serial, s.accepted)
    ensures AllNamed(Notify(s, q, kept))
  {}

  lemma MoreNamed(s: State, t: State)
    requires AllNamed(s) && t.accepted == s.accepted + 1 && t.counter == Wrapped(t.accepted)
    requires t.workers == s.workers && t.handlers == s.handlers
    ensures AllNamed(t)
  {}

  lemma ConnNamed(s: State, t: State, step: Step)
    requires AllNamed(s) && ConnStep(s, t, step)
    ensures AllNamed(t)
  {
    hide Wrapped, IdOf;
    match step
    case Accept(fd, kept) =>
      var n := s.accepted + 1;
      var s' := s.(counter := Wrapped(n), accepted := n);
      MoreNamed(s, s');
      var s'' := s'.(handlers := s.handlers[fd := Socket(IdOf(n), n, false)]);
      assert AllNamed(s'');
      NotifyNamed(s'', Request(fd, IdOf(n), n, Login), kept);
    case Refuse =>
      MoreNamed(s, t);
    case Fail(fd, kept) =>
      FiniNamed(s, fd, kept);
    case HandOut(c, pending, broken, kept) =>
      HandOutNamed(s, t, step);
    case _ =>
  }

  lemma FiniNamed(s: State, fd: Fd, kept: seq<bool>)
    requires AllNamed(s) && fd in s.handlers && s.handlers[fd].Socket? && |kept| == |s.workers|
    ensures AllNamed(Fini(s, fd, kept))
  {
    var h := s.handlers[fd];
    NotifyNamed(s, Request(fd, h.id, h.serial, Close), kept);
  }

  lemma HandOutNamed(s: State, t: State, step: Step)
    requires AllNamed(s) && step.HandOut? && ConnStep(s, t, step)
    ensures AllNamed(t)
  {
    hide Wrapped, IdOf;
    var w := s.workers[step.c];
    var a := w.outgoing[0];
    var s' := SetWorker(s, step.c, w.(outgoing := w.outgoing[1..]));
    assert AllNamed(s');
    if a.fd in s.handlers && s.handlers[a.fd].Socket? {
      var h := s.handlers[a.fd];
      NotifyNamed(s', Request(a.fd, h.id, h.serial, Close), step.kept);
    }
  }

  lemma InitNamed(s: State)
    requires Init(s)
    ensures AllNamed(s) && DeliveredRight(s)
  {}

  lemma WorkerNamedStep(s: State, t: State, step: Step)
    requires AllNamed(s) && DeliveredRight(s) && WorkerStep(s, t, step)
    ensures AllNamed(t) && DeliveredRight(t)
  {
    hide Wrapped, IdOf;
  }

  lemma StepDelivers(s: State, t: State, step: Step)
    requires AllNamed(s) && ConnStep(s, t, step) && s.accepted < INT_HALF && DeliveredRight(s)
    ensures DeliveredRight(t)
  {
    if step.HandOut? && t.delivered != s.delivered {
      var a := s.workers[step.c].outgoing[0];
      IdInjective(s.handlers[a.fd].serial, a.serial);
      assert WorkerNamed(s.workers[step.c], s.accepted);
      assert forall i | 0 <= i < |s.delivered| :: t.delivered[i] == s.delivered[i];
    }
  }

  ghost predicate Run(trace: seq<State>) {
    && trace != [] && Init(trace[0])
    && forall i | 0 < i < |trace| :: Next(trace[i - 1], trace[i])
  }

  lemma AcceptedGrows(s: State, t: State)
    requires Next(s, t)
    ensures s.accepted <= t.accepted && s.lossy == t.lossy
  {}

  /** While fewer than 2^31 connections were accepted, every answer went to the connection it was sent for. */
  lemma {:induction false} AnswersReachTheirConnection(trace: seq<State>)
    requires Run(trace) && trace[|trace| - 1].accepted < INT_HALF
    ensures AllNamed(trace[|trace| - 1]) && DeliveredRight(trace[|trace| - 1])
    decreases |trace|
  {
    hide AllNamed, DeliveredRight, ConnStep, WorkerStep, Init;
    var n := |trace| - 1;
    if n == 0 {
      InitNamed(trace[0]);
    } else {
      var before := trace[..n];
      var s, t := trace[n - 1], trace[n];
      assert before[n - 1] == s && Next(s, t);
      AcceptedGrows(s, t);
      AnswersReachTheirConnection(before);
      var step :| ConnStep(s, t, step) || WorkerStep(s, t, step);
      if ConnStep(s, t, step) {
        ConnNamed(s, t, step);
        StepDelivers(s, t, step);
      } else {
        WorkerNamedStep(s, t, step);
      }
    }
  }

  /** The descriptor of an answer still belongs to the connection the answer is for. */
  predicate StillThere(s: State, a: Answer) {
    a.fd in s.handlers && s.handlers[a.fd].Socket? && s.handlers[a.fd].serial == a.serial
  }

  /**
   After any run with fewer than 2^31 connections the guard is exact: an answer is handed to its connection, or that
   connection is closed, iff it still has the descriptor; otherwise the answer is dropped and nothing else changes.
   */
  lemma GuardExact(trace: seq<State>, t: State, step: Step)
    requires Run(trace) && trace[|trace| - 1].accepted < INT_HALF
    requires step.HandOut? && ConnStep(trace[|trace| - 1], t, step)
    ensures var s := trace[|trace| - 1];
            var a := s.workers[step.c].outgoing[0];
            && t.delivered == s.delivered
                 + (if StillThere(s, a) && !a.kind.Close? then [Delivery(a.serial, a.serial, a.origin)] else [])
            && (StillThere(s, a) && a.kind.Close? ==>
                  if step.pending then a.fd in t.handlers && t.handlers[a.fd] == s.handlers[a.fd].(closing := true)
                  else a.fd !in t.handlers)
            && (forall fd | fd != a.fd :: fd in t.handlers <==> fd in s.handlers)
            && (forall fd | fd != a.fd && fd in s.handlers :: t.handlers[fd] == s.handlers[fd])
            && (!StillThere(s, a) ==>
                  t == SetWorker(s, step.c, s.workers[step.c].(outgoing := s.workers[step.c].outgoing[1..])))
  {
    var s := trace[|trace| - 1];
    AnswersReachTheirConnection(trace);
    hide Run, Wrapped, IdOf;
    var a := s.workers[step.c].outgoing[0];
    assert WorkerNamed(s.workers[step.c], s.accepted);
    if a.fd in s.handlers && s.handlers[a.fd].Socket? && s.handlers[a.fd].id == a.id {
      IdInjective(s.handlers[a.fd].serial, a.serial);
    }
  }

  // ---- and the bound is sharp ----

  lemma Extend(trace: seq<State>, t: State, step: Step)
    requires Run(trace) && (ConnStep(trace[|trace| - 1], t, step) || WorkerStep(trace[|trace| - 1], t, step))
    ensures Run(trace + [t])
  {
    hide Init, ConnStep, WorkerStep;
    var longer := trace + [t];
    assert Next(trace[|trace| - 1], t);
    forall i | 0 < i < |longer| ensures Next(longer[i - 1], longer[i]) {
      if i < |trace| {
        assert Next(trace[i - 1], trace[i]);
      }
    }
  }

  /** Connections that the plugin turns away still use up ids. */
  lemma {:induction false} RefuseMany(trace: seq<State>, k: nat) returns (longer: seq<State>)
    requires Run(trace) && trace[|trace| - 1].counter == Wrapped(trace[|trace| - 1].accepted)
    ensures Run(longer)
    ensures var s := trace[|trace| - 1];
            longer[|longer| - 1] == s.(counter := Wrapped(s.accepted + k), accepted := s.accepted + k)
    decreases k
  {
    hide Wrapped, Init;
    if k == 0 {
      longer := trace;
    } else {
      var s := trace[|trace| - 1];
      var t := s.(counter := Wrapped(s.accepted + 1), accepted := s.accepted + 1);
      Extend(trace, t, Refuse);
      longer := RefuseMany(trace + [t], k - 1);
    }
  }

  const FIRST: Worker :=
    NEW.(seen := [Request(0, 1, 1, Login)], flags := map[0 := Mark(1, 1, 0)], handling := Some(Request(0, 1, 1, Login)),
         callbacks := [0])

  /** The first connection is accepted. */
  lemma FirstAccepted() returns (trace: seq<State>)
    ensures Run(trace)
    ensures trace[|trace| - 1]
         == State(false, 1, 1, map[0 := Socket(1, 1, false)], [NEW.(incoming := [Request(0, 1, 1, Login)])], [])
  {
    var s := State(false, 0, 0, map[], [NEW], []);
    trace := [s];
    var login := Request(0, 1, 1, Login);
    var t := State(false, 1, 1, map[0 := Socket(1, 1, false)], [NEW.(incoming := [login])], []);
    assert [] + [login] == [login];
    assert t.workers == Notify(s, login, [true]).workers;
    Extend(trace, t, Accept(0, [true]));
    trace := trace + [t];
  }

  /** It logs in, and its block reaches the worker. */
  lemma FirstLogin() returns (trace: seq<State>)
    ensures Run(trace)
    ensures trace[|trace| - 1] == State(false, 1, 1, map[0 := Socket(1, 1, false)], [FIRST], [])
  {
    hide Init;
    trace := FirstAccepted();
    var s := trace[|trace| - 1];
    var t := SetWorker(s, 0, FIRST);
    var zero: nat := 0;
    var login := Request(0, 1, 1, Login);
    assert s.workers[0].incoming[1..] == [] && [] + [zero] == [zero] && [] + [login] == [login];
    Extend(trace, t, Take(0));
    trace := trace + [t];
    assert t.workers == [FIRST];
  }

  /** It is answered, and goes away before the answer is handed out. */
  lemma FirstConnection() returns (trace: seq<State>)
    ensures Run(trace)
    ensures var s := trace[|trace| - 1];
            && s.accepted == 1 && s.counter == Wrapped(1) && s.handlers == map[] && s.delivered == []
            && |s.workers| == 1 && s.workers[0].outgoing == [Answer(0, 1, Proto, 1, 1)]
  {
    trace := FirstLogin();
    var s2 := trace[|trace| - 1];
    var answer := Answer(0, 1, Proto, 1, 1);
    var s3 := SetWorker(s2, 0, FIRST.(outgoing := [answer], sent := [answer]));
    assert [] + [answer] == [answer];
    Extend(trace, s3, Send(0, 0));
    trace := trace + [s3];
    var s4 := Fini(s3, 0, [true]);
    Extend(trace, s4, Fail(0, [true]));
    trace := trace + [s4];
  }

  /** With 2^31 connections an answer can reach a stranger: the last one has the id of the first. */
  lemma OverflowMisdelivers() returns (trace: seq<State>)
    ensures Run(trace) && trace[|trace| - 1].accepted == INT_HALF && !DeliveredRight(trace[|trace| - 1])
  {
    trace := FirstConnection();
    // the counter comes round
    trace := RefuseMany(trace, INT_HALF - 2);
    var s5 := trace[|trace| - 1];
    var again := Request(0, 1, INT_HALF, Login);
    var s6 := Notify(s5.(counter := Wrapped(INT_HALF), accepted := INT_HALF,
                         handlers := s5.handlers[0 := Socket(1, INT_HALF, false)]), again, [true]);
    assert IdOf(INT_HALF) == 1;
    Extend(trace, s6, Accept(0, [true]));
    trace := trace + [s6];
    var s7 := SetWorker(s6, 0, s6.workers[0].(outgoing := s6.workers[0].outgoing[1..]));
    var s8 := s7.(delivered := s7.delivered + [Delivery(INT_HALF, 1, 1)]);
    assert s6.workers[0].outgoing[0] == Answer(0, 1, Proto, 1, 1);
    Extend(trace, s8, HandOut(0, false, false, [true]));
    trace := trace + [s8];
    assert s8.delivered[0].receiver != s8.delivered[0].serial;
  }

  // ---- a worker's view of a descriptor ----

  function Stream(w: Worker): seq<Request> { w.seen + w.incoming }

  /** On one descriptor connections come one after the other, and nothing follows a close but a repeated close. */
  ghost predicate Ordered(st: seq<Request>) {
    forall i, j | 0 <= i < j < |st| && st[i].fd == st[j].fd ::
      && st[i].serial <= st[j].serial
      && (st[i].kind.Close? ==> st[j].kind.Close? || st[i].serial < st[j].serial)
  }

  ghost predicate HasLogin(st: seq<Request>, fd: Fd, serial: nat, before: nat) {
    exists i :: 0 <= i < before && i < |st| && st[i] == Request(fd, st[i].id, serial, Login)
  }

  /** A descriptor's open connection is the latest one in every worker's stream. */
  ghost predicate Current(s: State, st: seq<Request>) {
    forall i | 0 <= i < |st| ::
      && st[i].serial <= s.accepted
      && (st[i].fd in s.handlers && s.handlers[st[i].fd].Socket? ==>
            var h := s.handlers[st[i].fd];
            st[i].serial <= h.serial && (st[i].serial == h.serial && st[i].kind.Close? ==> h.closing))
  }

  /** Nothing is lost: every stream has a connection's login before anything else of it. */
  ghost predicate LoginsFirst(s: State, st: seq<Request>) {
    && (forall i | 0 <= i < |st| :: HasLogin(st, st[i].fd, st[i].serial, i + 1))
    && (forall fd | fd in s.handlers && s.handlers[fd].Socket? :: HasLogin(st, fd, s.handlers[fd].serial, |st|))
  }

  /** A raised flag was set by the last block pulled for that descriptor, or a callback is about to clear it. */
  ghost predicate FlagsFresh(w: Worker) {
    forall fd | fd in w.flags && w.flags[fd].id != 0 ::
      var m := w.flags[fd];
      && m.at < |w.seen| && w.seen[m.at].fd == fd && w.seen[m.at].serial == m.serial && !w.seen[m.at].kind.Close?
      && forall j | m.at < j < |w.seen| && w.seen[j].fd == fd ::
           j == |w.seen| - 1 && w.handling == Some(w.seen[j]) && w.seen[j].kind.Close?
  }

  ghost predicate CallbacksOk(w: Worker) {
    && (forall i | 0 <= i < |w.callbacks| :: w.callbacks[i] < |w.seen|)
    && (forall i, j | 0 <= i < j < |w.callbacks| :: w.callbacks[i] < w.callbacks[j])
    && (forall i, j | 0 <= i < j < |w.callbacks| && w.seen[w.callbacks[i]].fd == w.seen[w.callbacks[j]].fd ::
          w.seen[w.callbacks[i]].kind.Close? ==>
            w.seen[w.callbacks[i]].serial < w.seen[w.callbacks[j]].serial)
  }

  ghost predicate WorkerView(s: State, w: Worker) {
    && Ordered(Stream(w))
    && Current(s, Stream(w))
    && (!s.lossy ==> LoginsFirst(s, Stream(w)))
    && FlagsFresh(w)
    && CallbacksOk(w)
  }

  ghost predicate Views(s: State) {
    && (forall fd | fd in s.handlers && s.handlers[fd].Socket? :: s.handlers[fd].serial <= s.accepted)
    && forall c | 0 <= c < |s.workers| :: WorkerView(s, s.workers[c])
  }

  /** How the descriptor table may move around one notice: only `fd` changes, and it never forgets a close. */
  ghost predicate TableMoves(s: State, t: State, fd: Fd) {
    && t.lossy == s.lossy && s.accepted <= t.accepted
    && (forall f | f in t.handlers && t.handlers[f].Socket? && f != fd ::
          f in s.handlers && t.handlers[f] == s.handlers[f])
  }

  /** The connection process may append `q`: a new connection's login, or news of the open connection. */
  ghost predicate MaySend(s: State, t: State, q: Request) {
    && TableMoves(s, t, q.fd)
    && q.serial <= t.accepted
    && (if q.kind.Login? then s.accepted < q.serial
        else
          && q.fd in s.handlers && s.handlers[q.fd].Socket? && s.handlers[q.fd].serial == q.serial
          && (q.kind.Close? || !s.handlers[q.fd].closing))
    && (q.fd in t.handlers && t.handlers[q.fd].Socket? ==>
          && t.handlers[q.fd].serial == q.serial
          && (q.kind.Close? ==> t.handlers[q.fd].closing)
          && ((q.fd in s.handlers && s.handlers[q.fd].Socket? && s.handlers[q.fd].serial == q.serial
               && s.handlers[q.fd].closing) ==> t.handlers[q.fd].closing))
  }

  ghost predicate StreamOk(s: State, st: seq<Request>) {
    Ordered(st) && Current(s, st) && (!s.lossy ==> LoginsFirst(s, st))
  }

  lemma Appended(s: State, t: State, st: seq<Request>, q: Request)
    requires StreamOk(s, st) && MaySend(s, t, q)
    ensures StreamOk(t, st + [q])
  {
    AppendedOrdered(s, t, st, q);
    AppendedCurrent(s, t, st, q);
    if !s.lossy {
      AppendedLogins(s, t, st, q);
    }
  }

  lemma AppendedOrdered(s: State, t: State, st: seq<Request>, q: Request)
    requires Ordered(st) && Current(s, st) && MaySend(s, t, q)
    ensures Ordered(st + [q])
  {}

  lemma AppendedCurrent(s: State, t: State, st: seq<Request>, q: Request)
    requires Current(s, st) && MaySend(s, t, q)
    ensures Current(t, st + [q])
  {}

  lemma HasLoginStays(st: seq<Request>, q: Request, fd: Fd, serial: nat, n: nat, m: nat)
    requires HasLogin(st, fd, serial, n) && n <= m
    ensures HasLogin(st + [q], fd, serial, m)
  {
    var i :| 0 <= i < n && i < |st| && st[i] == Request(fd, st[i].id, serial, Login);
    assert (st + [q])[i] == st[i];
  }

  lemma LoginSent(st: seq<Request>, q: Request)
    requires q.kind.Login?
    ensures HasLogin(st + [q], q.fd, q.serial, |st| + 1)
  {
    assert (st + [q])[|st|] == Request(q.fd, q.id, q.serial, Login);
  }

  /** Block `q` itself comes after its connection's login. */
  lemma SentLogin(s: State, t: State, st: seq<Request>, q: Request)
    requires LoginsFirst(s, st) && MaySend(s, t, q)
    ensures HasLogin(st + [q], q.fd, q.serial, |st| + 1)
  {
    hide HasLogin;
    if q.kind.Login? {
      LoginSent(st, q);
    } else {
      assert HasLogin(st, q.fd, s.handlers[q.fd].serial, |st|);
      HasLoginStays(st, q, q.fd, q.serial, |st|, |st| + 1);
    }
  }

  lemma AppendedLogins(s: State, t: State, st: seq<Request>, q: Request)
    requires LoginsFirst(s, st) && MaySend(s, t, q)
    ensures LoginsFirst(t, st + [q])
  {
    hide HasLogin;
    var st' := st + [q];
    SentLogin(s, t, st, q);
    forall i | 0 <= i < |st'| ensures HasLogin(st', st'[i].fd, st'[i].serial, i + 1) {
      if i < |st| {
        assert HasLogin(st, st[i].fd, st[i].serial, i + 1);
        HasLoginStays(st, q, st[i].fd, st[i].serial, i + 1, i + 1);
      }
    }
    forall fd | fd in t.handlers && t.handlers[fd].Socket?
      ensures HasLogin(st', fd, t.handlers[fd].serial, |st'|)
    {
      if fd != q.fd {
        assert HasLogin(st, fd, s.handlers[fd].serial, |st|);
        HasLoginStays(st, q, fd, s.handlers[fd].serial, |st|, |st'|);
      }
    }
  }

  /** A worker that gets no copy: nothing was sent to it, or the copy was lost. */
  lemma NotAppended(s: State, t: State, st: seq<Request>, q: Request)
    requires StreamOk(s, st) && MaySend(s, t, q) && (s.lossy || q.kind.Proto?)
    ensures StreamOk(t, st)
  {}

  lemma StreamKept(s: State, t: State, st: seq<Request>)
    requires StreamOk(s, st) && t.lossy == s.lossy && s.accepted <= t.accepted
    requires forall f | f in t.handlers && t.handlers[f].Socket? :: f in s.handlers && t.handlers[f] == s.handlers[f]
    ensures StreamOk(t, st)
  {}

  lemma NotifyViews(s: State, t: State, q: Request, kept: seq<bool>)
    requires Views(s) && KeptOk(s, kept) && MaySend(s, t, q) && q.serial <= t.accepted
    requires t.workers == Notify(s, q, kept).workers
    ensures Views(t)
  {
    hide StreamOk, MaySend, Ordered, Current, LoginsFirst, FlagsFresh, CallbacksOk;
    forall c | 0 <= c < |t.workers| ensures WorkerView(t, t.workers[c]) {
      ViewStream(s, s.workers[c]);
      if kept[c] {
        Appended(s, t, Stream(s.workers[c]), q);
        assert Stream(t.workers[c]) == Stream(s.workers[c]) + [q];
      } else {
        NotAppended(s, t, Stream(s.workers[c]), q);
        assert Stream(t.workers[c]) == Stream(s.workers[c]);
      }
      SameFlags(s.workers[c], t.workers[c]);
      StreamView(t, t.workers[c]);
    }
    TableSerials(s, t, q);
  }

  lemma ViewStream(s: State, w: Worker)
    requires WorkerView(s, w)
    ensures StreamOk(s, Stream(w)) && FlagsFresh(w) && CallbacksOk(w)
  {}

  lemma StreamView(s: State, w: Worker)
    requires StreamOk(s, Stream(w)) && FlagsFresh(w) && CallbacksOk(w)
    ensures WorkerView(s, w)
  {}

  lemma SameFlags(w: Worker, v: Worker)
    requires FlagsFresh(w) && CallbacksOk(w)
    requires v.seen == w.seen && v.flags == w.flags && v.handling == w.handling && v.callbacks == w.callbacks
    ensures FlagsFresh(v) && CallbacksOk(v)
  {}

  lemma TableSerials(s: State, t: State, q: Request)
    requires MaySend(s, t, q)
    requires forall fd | fd in s.handlers && s.handlers[fd].Socket? :: s.handlers[fd].serial <= s.accepted
    ensures forall fd | fd in t.handlers && t.handlers[fd].Socket? :: t.handlers[fd].serial <= t.accepted
  {}

  /** Steps of the connection process that send nothing. */
  lemma QuietViews(s: State, t: State)
    requires Views(s) && t.lossy == s.lossy && s.accepted <= t.accepted && |t.workers| == |s.workers|
    requires forall f | f in t.handlers && t.handlers[f].Socket? :: f in s.handlers && t.handlers[f] == s.handlers[f]
    requires forall c | 0 <= c < |s.workers| :: t.workers[c].(outgoing := s.workers[c].outgoing) == s.workers[c]
    ensures Views(t)
  {
    hide StreamOk, Ordered, Current, LoginsFirst, FlagsFresh, CallbacksOk;
    forall c | 0 <= c < |t.workers| ensures WorkerView(t, t.workers[c]) {
      ViewStream(s, s.workers[c]);
      StreamKept(s, t, Stream(s.workers[c]));
      SameFlags(s.workers[c], t.workers[c]);
      StreamView(t, t.workers[c]);
    }
  }

  lemma ConnViews(s: State, t: State, step: Step)
    requires Views(s) && ConnStep(s, t, step)
    ensures Views(t)
  {
    hide WorkerView, IdOf, Wrapped;
    match step
    case Accept(fd, kept) =>
      var n := s.accepted + 1;
      NotifyViews(s, t, Request(fd, IdOf(n), n, Login), kept);
    case Packet(fd, c, ok) =>
      if ok {
        var h := s.handlers[fd];
        var kept := seq(|s.workers|, i => i == c);
        PacketViews(s, t, Request(fd, h.id, h.serial, Proto), c);
      }
    case Fail(fd, kept) =>
      FailViews(s, t, fd, kept);
    case HandOut(c, pending, broken, kept) =>
      HandOutViews(s, t, step);
    case _ =>
      QuietViews(s, t);
  }

  lemma PacketViews(s: State, t: State, q: Request, c: nat)
    requires Views(s) && MaySend(s, t, q) && q.kind.Proto? && c < |s.workers|
    requires t == SetWorker(s, c, s.workers[c].(incoming := s.workers[c].incoming + [q]))
    ensures Views(t)
  {
    hide StreamOk, Ordered, Current, LoginsFirst, FlagsFresh, CallbacksOk;
    forall i | 0 <= i < |t.workers| ensures WorkerView(t, t.workers[i]) {
      ViewStream(s, s.workers[i]);
      if i == c {
        Appended(s, t, Stream(s.workers[i]), q);
        assert Stream(t.workers[i]) == Stream(s.workers[i]) + [q];
      } else {
        NotAppended(s, t, Stream(s.workers[i]), q);
      }
      SameFlags(s.workers[i], t.workers[i]);
      StreamView(t, t.workers[i]);
    }
  }

  lemma FailViews(s: State, t: State, fd: Fd, kept: seq<bool>)
    requires Views(s) && KeptOk(s, kept) && fd in s.handlers && s.handlers[fd].Socket? && t == Fini(s, fd, kept)
    ensures Views(t)
  {
    hide WorkerView;
    var h := s.handlers[fd];
    if h.closing {
      QuietViews(s, t);
    } else {
      NotifyViews(s, t, Request(fd, h.id, h.serial, Close), kept);
    }
  }

  lemma HandOutViews(s: State, t: State, step: Step)
    requires Views(s) && step.HandOut? && ConnStep(s, t, step)
    ensures Views(t)
  {
    hide WorkerView, IdOf, Wrapped;
    var w := s.workers[step.c];
    var a := w.outgoing[0];
    var s' := SetWorker(s, step.c, w.(outgoing := w.outgoing[1..]));
    QuietViews(s, s');
    if a.fd in s.handlers && LinkId(s.handlers[a.fd]) == a.id && LinkId(s.handlers[a.fd]) != 0 {
      var h := s.handlers[a.fd];
      if a.kind.Close? {
        NotifyViews(s', t, Request(a.fd, h.id, h.serial, Close), step.kept);
      } else {
        var d := s'.(delivered := s'.delivered + [Delivery(h.serial, a.serial, a.origin)]);
        QuietViews(s', d);
        if step.broken {
          FailViews(d, t, a.fd, step.kept);
        }
      }
    }
  }

  // ---- worker steps ----

  lemma TakeFlags(w: Worker, v: Worker, q: Request)
    requires FlagsFresh(w) && w.handling.None? && v.seen == w.seen + [q]
    requires if !q.kind.Close? then v.flags == w.flags[q.fd := Mark(q.id, q.serial, |w.seen|)] && v.handling == Some(q)
             else v.flags == w.flags && (FlagOf(w, q.fd).id != 0 ==> v.handling == Some(q))
    ensures FlagsFresh(v)
  {}

  lemma TakeCallbacks(w: Worker, v: Worker, q: Request)
    requires FlagsFresh(w) && w.handling.None? && CallbacksOk(w) && Ordered(w.seen + [q]) && v.seen == w.seen + [q]
    requires v.callbacks == w.callbacks + [|w.seen|] && (q.kind.Close? ==> FlagOf(w, q.fd).id != 0)
    ensures CallbacksOk(v)
  {
    var st := w.seen + [q];
    var n := |w.callbacks|;
    forall i | 0 <= i < n && st[w.callbacks[i]].fd == q.fd && st[w.callbacks[i]].kind.Close?
      ensures st[w.callbacks[i]].serial < q.serial
    {
      var k := w.callbacks[i];
      assert st[k].fd == st[|w.seen|].fd && st[|w.seen|] == q;
      if q.kind.Close? {
        var m := w.flags[q.fd];
        assert st[m.at] == w.seen[m.at] && st[k] == w.seen[k] && st[|w.seen|] == q;
        assert k < m.at;
        assert st[k].serial < st[m.at].serial <= st[|w.seen|].serial;
      }
    }
  }

  lemma OrderedPrefix(st: seq<Request>, n: nat)
    requires n <= |st| && Ordered(st)
    ensures Ordered(st[..n])
  {}

  lemma TakeView(s: State, t: State, c: nat)
    requires Views(s) && WorkerStep(s, t, Take(c))
    ensures WorkerView(t, t.workers[c])
  {
    hide LoginsFirst, Current;
    var w, v := s.workers[c], t.workers[c];
    var q := w.incoming[0];
    assert Stream(v) == Stream(w);
    assert Stream(w)[..|w.seen| + 1] == w.seen + [q];
    OrderedPrefix(Stream(w), |w.seen| + 1);
    TakeFlags(w, v, q);
    if v.callbacks != w.callbacks {
      TakeCallbacks(w, v, q);
    }
    ViewStream(s, w);
    StreamKept(s, t, Stream(w));
  }

  lemma WorkerViewStep(s: State, t: State, step: Step, c: nat)
    requires Views(s) && WorkerStep(s, t, step) && c < |t.workers|
    ensures WorkerView(t, t.workers[c])
  {
    hide StreamOk, Ordered, Current, LoginsFirst, FlagsFresh, CallbacksOk, WorkerView;
    ViewStream(s, s.workers[c]);
    StreamKept(s, t, Stream(s.workers[c]));
    if t.workers[c] == s.workers[c] {
      StreamView(t, t.workers[c]);
    } else if step.Take? {
      TakeView(s, t, c);
    } else {
      assert Stream(t.workers[c]) == Stream(s.workers[c]);
      OtherFlags(s, t, step);
      StreamView(t, t.workers[c]);
    }
  }

  lemma WorkerViews(s: State, t: State, step: Step)
    requires Views(s) && WorkerStep(s, t, step)
    ensures Views(t)
  {
    hide WorkerView;
    forall c | 0 <= c < |t.workers| ensures WorkerView(t, t.workers[c]) {
      WorkerViewStep(s, t, step, c);
    }
  }

  lemma OtherFlags(s: State, t: State, step: Step)
    requires Views(s) && WorkerStep(s, t, step) && !step.Take? && step.c < |s.workers|
    ensures FlagsFresh(t.workers[step.c]) && CallbacksOk(t.workers[step.c])
  {
    hide Ordered, Current, LoginsFirst;
  }

  lemma InitViews(s: State)
    requires Init(s)
    ensures Views(s)
  {}

  lemma {:induction false} RunViews(trace: seq<State>)
    requires Run(trace)
    ensures Views(trace[|trace| - 1])
    decreases |trace|
  {
    hide Views, ConnStep, WorkerStep, Init;
    var n := |trace| - 1;
    if n == 0 {
      InitViews(trace[0]);
    } else {
      var before := trace[..n];
      var s, t := trace[n - 1], trace[n];
      assert before[n - 1] == s && Next(s, t);
      RunViews(before);
      var step :| ConnStep(s, t, step) || WorkerStep(s, t, step);
      if ConnStep(s, t, step) {
        ConnViews(s, t, step);
      } else {
        WorkerViews(s, t, step);
      }
    }
  }

  /**
   What a plugin sees of one descriptor, in every run: connections in order, and after the
   callback for a connection's close no further callback for it.
   */
  lemma CallbackOrder(trace: seq<State>, c: nat, i: nat, j: nat)
    requires Run(trace) && c < |trace[|trace| - 1].workers|
    requires i < j < |trace[|trace| - 1].workers[c].callbacks|
    ensures var w := trace[|trace| - 1].workers[c];
            && w.callbacks[i] < w.callbacks[j] < |w.seen|
            && var p := w.seen[w.callbacks[i]];
               var q := w.seen[w.callbacks[j]];
               p.fd == q.fd ==> p.serial <= q.serial && (p.kind.Close? ==> p.serial < q.serial)
  {
    hide Init, Next, Current, LoginsFirst, FlagsFresh;
    RunViews(trace);
    var w := trace[|trace| - 1].workers[c];
    assert WorkerView(trace[|trace| - 1], w);
    assert Stream(w)[w.callbacks[i]] == w.seen[w.callbacks[i]] && Stream(w)[w.callbacks[j]] == w.seen[w.callbacks[j]];
  }

  /** Unless memory runs out, a close reported to the plugin is the close of the connection its flag stands for. */
  lemma LinkDownIsRight(trace: seq<State>, t: State, c: nat)
    requires Run(trace) && !trace[|trace| - 1].lossy
    requires WorkerStep(trace[|trace| - 1], t, Take(c))
    ensures var w := trace[|trace| - 1].workers[c];
            var q := w.incoming[0];
            q.kind.Close? && FlagOf(w, q.fd).id != 0 ==> FlagOf(w, q.fd).serial == q.serial
  {
    hide Init, Next, Current, LoginsFirst, FlagsFresh, Ordered, CallbacksOk;
    RunViews(trace);
    var s := trace[|trace| - 1];
    var w := s.workers[c];
    assert WorkerView(s, w);
    if w.incoming[0].kind.Close? && FlagOf(w, w.incoming[0].fd).id != 0 {
      LoginOf(s, Stream(w), |w.seen|);
      FlagMatches(w);
    }
  }

  lemma LoginOf(s: State, st: seq<Request>, k: nat)
    requires LoginsFirst(s, st) && k < |st|
    ensures HasLogin(st, st[k].fd, st[k].serial, k + 1)
  {}

  lemma FlagMatches(w: Worker)
    requires w.incoming != [] && w.handling.None? && w.incoming[0].kind.Close?
    requires FlagOf(w, w.incoming[0].fd).id != 0 && FlagsFresh(w) && Ordered(Stream(w))
    requires HasLogin(Stream(w), w.incoming[0].fd, w.incoming[0].serial, |w.seen| + 1)
    ensures FlagOf(w, w.incoming[0].fd).serial == w.incoming[0].serial
  {
    hide Ordered;
    var st := Stream(w);
    var q := w.incoming[0];
    var m := w.flags[q.fd];
    assert st[|w.seen|] == q;
    var i :| 0 <= i < |w.seen| + 1 && i < |st| && st[i] == Request(q.fd, st[i].id, q.serial, Login);
    assert st[i] == w.seen[i] && st[m.at] == w.seen[m.at];
    assert i <= m.at;
    OrderedAt(st, i, m.at);
    OrderedAt(st, m.at, |w.seen|);
  }

  lemma OrderedAt(st: seq<Request>, i: nat, j: nat)
    requires Ordered(st) && i <= j < |st| && st[i].fd == st[j].fd
    ensures st[i].serial <= st[j].serial
  {}
}
