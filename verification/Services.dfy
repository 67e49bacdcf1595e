/**
 The asynchronous services of common/service.cpp: every service's own fields, and the two static tables shared by
 all of them, the map from descriptors to services and the set of services to reconnect.
 What the network answers (the descriptor of a new connection, the result of a send, the time) is an input.
 */
module Services {

  /** The static members: `fd_service_map` and `reinit_set`. The map can hold NULL, put there by `operator[]`. */
  class Statics {
    var fdServiceMap: map<int, AsyncService?>
    var reinitSet: set<AsyncService>
    ghost var holder: map<int, AsyncService>      // the last service to get each descriptor

    constructor ()
      ensures fdServiceMap == map[] && reinitSet == {}
    {
      fdServiceMap, reinitSet, holder := map[], {}, map[];
    }

    /** `SetServiceConnected`. It first asks every entry of the map whether it is enabled, so none may be NULL. */
    method SetServiceConnected(fd: int, ghost services: set<AsyncService>)
      requires Consistent(this, services) && NoStale(this)
      modifies this, services
      ensures Consistent(this, services) && (NoStale(this) <==> fd in old(fdServiceMap))
      ensures fd in old(fdServiceMap) ==>
                var s := old(fdServiceMap)[fd];
                && s != null && s in services && s.enable && !s.connecting && s.fd == old(s.fd) == fd
                && fdServiceMap == old(fdServiceMap) && reinitSet == old(reinitSet) - {s} && OnlyChanges(s, services)
      ensures fd !in old(fdServiceMap) ==>
                fdServiceMap == old(fdServiceMap)[fd := null] && reinitSet == old(reinitSet) && NoneChanges(services)
    {
      if fd !in fdServiceMap {
        fdServiceMap := fdServiceMap[fd := null];
      }
      var service := fdServiceMap[fd];
      if service == null {
        return;
      }
      service.LinkUp(services);
    }

    /** `SetServiceDisconnected`. */
    method SetServiceDisconnected(fd: int, ghost services: set<AsyncService>)
      requires Consistent(this, services)
      modifies this, services
      ensures Consistent(this, services) && (NoStale(this) <==> old(NoStale(this)) && fd in old(fdServiceMap))
      ensures fd in old(fdServiceMap) && old(fdServiceMap)[fd] != null ==>
                var s := old(fdServiceMap)[fd];
                && s in services && s.Down() && s.fd == -1
                && fdServiceMap == old(fdServiceMap) - {fd} && reinitSet == old(reinitSet) + {s}
                && OnlyChanges(s, services)
      ensures !(fd in old(fdServiceMap) && old(fdServiceMap)[fd] != null) ==>
                fdServiceMap == old(fdServiceMap)[fd := null] && reinitSet == old(reinitSet) && NoneChanges(services)
    {
      if fd !in fdServiceMap {
        fdServiceMap := fdServiceMap[fd := null];
      }
      var service := fdServiceMap[fd];
      if service == null {
        return;
      }
      service.LinkDown(services);
      assert forall k | k in old(fdServiceMap) && k != fd :: k in fdServiceMap && fdServiceMap[k] == old(fdServiceMap)[k];
    }
  }

  class AsyncService {
    const shared: Statics
    const timeoutMs: int
    const forbidden: bool
    var enable: bool
    var fd: int
    var connectTimeMs: int
    var connecting: bool

    constructor (shared: Statics, timeoutMs: int, forbidden: bool)
      ensures this.shared == shared && this.timeoutMs == timeoutMs && this.forbidden == forbidden
      ensures Down() && fd == -1
    {
      this.shared, this.timeoutMs, this.forbidden := shared, timeoutMs, forbidden;
      enable, fd, connectTimeMs, connecting := false, -1, 0, false;
    }

    /** Without a connection. */
    predicate Down()
      reads this
    {
      fd < 0 && !enable && !connecting
    }

    predicate ConfigOk() {
      0 < timeoutMs <= 10000
    }

    /** `Init`: `now` and `later` are the times it reads, `connect` the answer of `async_net_connect_ser`. */
    method Init(now: int, later: int, connect: int, ghost services: set<AsyncService>) returns (ok: bool)
      requires Consistent(shared, services) && this in services
      requires connect >= 0 ==> forall t | t in services && t != this :: t.fd != connect
      modifies this, shared
      ensures Consistent(shared, services) && (old(NoStale(shared)) ==> NoStale(shared))
      ensures this in shared.reinitSet <==> ok && !forbidden
      ensures shared.reinitSet - {this} == old(shared.reinitSet) - {this}
      ensures ok <==> !old(enable) && ConfigOk() && (connect >= -1 || forbidden || old(Waiting(now)))
      ensures !ConfigOk() || old(enable) || forbidden ==> Down() && fd == -1
      ensures !old(enable) && ConfigOk() && !forbidden && old(Waiting(now)) ==>
                unchanged(this) && unchanged(shared)
      ensures !old(enable) && ConfigOk() && !forbidden && !old(Waiting(now)) ==>
                && !enable && fd == connect && (connecting <==> connect >= 0)
                && (connect >= 0 ==> connectTimeMs == later)
      ensures old(enable) || !ConfigOk() || forbidden || !old(Waiting(now)) ==>
                var rest := old(shared.fdServiceMap) - (if old(fd) >= 0 then {old(fd)} else {});
                shared.fdServiceMap == if fd >= 0 && fd !in rest then rest[fd := this] else rest
    {
      assert (fd >= 0 <==> enable || connecting) && (connecting ==> this in shared.reinitSet);
      hide Tables, Flags;
      if enable || timeoutMs <= 0 || timeoutMs > 10000 {
        Shut(services);
        return false;
      }
      if forbidden {
        Shut(services);
        return true;
      }
      if connecting {
        if now - connectTimeMs <= timeoutMs {
          return true;
        } else {
          Shut(services);
        }
      }
      ok := Connect(later, connect, services);
    }

    /** The second half of `Init`: the attempt to connect and what follows from its answer. */
    method Connect(later: int, connect: int, ghost services: set<AsyncService>) returns (ok: bool)
      requires Consistent(shared, services) && this in services && !enable && !connecting
      requires connect >= 0 ==> forall t | t in services && t != this :: t.fd != connect
      modifies this, shared
      ensures Consistent(shared, services) && (old(NoStale(shared)) ==> NoStale(shared))
      ensures ok <==> connect >= -1
      ensures shared.reinitSet == if ok then old(shared.reinitSet) + {this} else old(shared.reinitSet) - {this}
      ensures !enable && fd == connect && (connecting <==> connect >= 0) && (connect >= 0 ==> connectTimeMs == later)
      ensures shared.fdServiceMap == if connect >= 0 && connect !in old(shared.fdServiceMap)
                                     then old(shared.fdServiceMap)[connect := this] else old(shared.fdServiceMap)
    {
      if connect >= 0 {
        Await(later, connect, services);
        return true;
      }
      fd := connect;
      connecting := false;
      if fd == -1 {
        SetToReInit();
        return true;
      } else {
        CancelFromReInit();
        return false;
      }
    }

    /** The attempt is under way on descriptor `connect`. */
    method Await(later: int, connect: nat, ghost services: set<AsyncService>)
      requires Consistent(shared, services) && this in services && Down()
      requires forall t | t in services && t != this :: t.fd != connect
      modifies this, shared
      ensures Consistent(shared, services) && (old(NoStale(shared)) ==> NoStale(shared))
      ensures shared.reinitSet == old(shared.reinitSet) + {this}
      ensures !enable && fd == connect && connecting && connectTimeMs == later
      ensures shared.fdServiceMap == if connect !in old(shared.fdServiceMap)
                                     then old(shared.fdServiceMap)[connect := this] else old(shared.fdServiceMap)
    {
      hide Held, Registered;
      Enter(connect, services);
      connectTimeMs := later;
      connecting := true;
      SetToReInit();
    }

    /** Stores the descriptor, and enters the service in the map unless there is an entry already. */
    method Enter(connect: nat, ghost services: set<AsyncService>)
      requires Tables(shared, services) && this in services && fd < 0
      requires forall t | t in services && t != this :: t.fd != connect
      modifies this`fd, shared`holder, shared`fdServiceMap
      ensures Tables(shared, services) && fd == connect && (old(NoStale(shared)) ==> NoStale(shared))
      ensures shared.fdServiceMap == if connect !in old(shared.fdServiceMap)
                                     then old(shared.fdServiceMap)[connect := this] else old(shared.fdServiceMap)
    {
      fd := connect;
      shared.holder := shared.holder[fd := this];
      if fd !in shared.fdServiceMap {
        shared.fdServiceMap := shared.fdServiceMap[fd := this];
      }
      assert Held(shared, this) && Registered(shared, this);
    }

    /** Takes the descriptor out of the map, and forgets it. */
    method Leave(ghost services: set<AsyncService>)
      requires Tables(shared, services) && this in services
      modifies this`fd, shared`fdServiceMap
      ensures Tables(shared, services) && fd == -1
      ensures shared.fdServiceMap == old(shared.fdServiceMap) - (if old(fd) >= 0 then {old(fd)} else {})
    {
      if fd >= 0 {
        shared.fdServiceMap := shared.fdServiceMap - {fd};
      }
      fd := -1;
    }

    /** A connection attempt is running and not yet timed out. */
    predicate Waiting(now: int)
      reads this
    {
      connecting && now - connectTimeMs <= timeoutMs
    }

    method SetToReInit()
      modifies shared`reinitSet
      ensures shared.reinitSet == old(shared.reinitSet) + {this}
    {
      shared.reinitSet := shared.reinitSet + {this};
    }

    method CancelFromReInit()
      modifies shared`reinitSet
      ensures shared.reinitSet == old(shared.reinitSet) - {this}
    {
      shared.reinitSet := shared.reinitSet - {this};
    }

    /** `LinkUp`: called through the map, so for a service that holds a descriptor. */
    method LinkUp(ghost services: set<AsyncService>)
      requires Consistent(shared, services) && this in services && fd >= 0
      modifies this`connecting, this`enable, shared`reinitSet
      ensures Consistent(shared, services) && enable && !connecting
      ensures shared.reinitSet == old(shared.reinitSet) - {this}
    {
      connecting := false;
      enable := true;
      CancelFromReInit();
    }

    /** `Shut`. The service's own flags need not agree on entry. */
    method Shut(ghost services: set<AsyncService>)
      requires Tables(shared, services) && this in services
      requires forall t | t in services && t != this :: Flags(shared, t)
      modifies this`enable, this`connecting, this`fd, shared
      ensures Consistent(shared, services) && Down() && fd == -1
      ensures shared.reinitSet == old(shared.reinitSet) - {this}
      ensures shared.fdServiceMap == old(shared.fdServiceMap) - (if old(fd) >= 0 then {old(fd)} else {})
    {
      hide Held, Registered;
      Leave(services);
      enable := false;
      connecting := false;
      CancelFromReInit();
    }

    /** `ReInit`. */
    method ReInit(now: int, later: int, connect: int, ghost services: set<AsyncService>) returns (ok: bool)
      requires Consistent(shared, services) && this in services
      requires connect >= 0 ==> forall t | t in services && t != this :: t.fd != connect
      modifies this, shared
      ensures Consistent(shared, services) && (old(NoStale(shared)) ==> NoStale(shared))
      ensures !enable && (this in shared.reinitSet <==> ok && !forbidden)
      ensures shared.reinitSet - {this} == old(shared.reinitSet) - {this}
      ensures ok <==> ConfigOk() && (connect >= -1 || forbidden || old(Waiting(now)))
      ensures !ConfigOk() || forbidden ==> Down() && fd == -1
      ensures ConfigOk() && !forbidden && old(Waiting(now)) ==> unchanged(this) && unchanged(shared)
      ensures ConfigOk() && !forbidden && !old(Waiting(now)) ==>
                fd == connect && (connecting <==> connect >= 0) && (connect >= 0 ==> connectTimeMs == later)
      ensures !ConfigOk() || forbidden || !old(Waiting(now)) ==>
                var rest := old(shared.fdServiceMap) - (if old(fd) >= 0 then {old(fd)} else {});
                shared.fdServiceMap == if fd >= 0 && fd !in rest then rest[fd := this] else rest
    {
      assert old(fd) >= 0 ==> old(enable || connecting);
      enable := false;
      if !connecting {
        Shut(services);
      }
      hide Tables, Flags;
      ok := Init(now, later, connect, services);
    }

    /** `LinkDown`: the connection is gone; the next attempt is left to the timer. */
    method LinkDown(ghost services: set<AsyncService>)
      requires Consistent(shared, services) && this in services
      modifies this`enable, this`connecting, this`fd, shared
      ensures Consistent(shared, services) && Down() && fd == -1
      ensures shared.reinitSet == old(shared.reinitSet) + {this}
      ensures shared.fdServiceMap == old(shared.fdServiceMap) - (if old(fd) >= 0 then {old(fd)} else {})
    {
      hide Held, Registered;
      Leave(services);
      enable := false;
      connecting := false;
      SetToReInit();
    }

    /**
     `Send` of `len` bytes: `ret` is the answer of `net_send_ser`. A connection that breaks while sending reports
     its end before `net_send_ser` returns, and that still returns the length.
     */
    method Send(len: nat, ret: int, breaks: bool, ghost services: set<AsyncService>) returns (ok: bool)
      requires Consistent(shared, services) && NoStale(shared) && this in services
      requires breaks ==> fd >= 0 && ret == len
      modifies this, shared, services
      ensures Consistent(shared, services) && NoStale(shared)
      ensures ok <==> len > 0 && ret > 0
      ensures len > 0 && (ret <= 0 || breaks) ==>
                && Down() && fd == -1 && OnlyChanges(this, services)
                && shared.reinitSet == old(shared.reinitSet) + {this}
                && shared.fdServiceMap == old(shared.fdServiceMap) - (if old(fd) >= 0 then {old(fd)} else {})
      ensures !(len > 0 && (ret <= 0 || breaks)) ==> unchanged(this) && unchanged(shared) && NoneChanges(services)
    {
      if len <= 0 {
        return false;
      }
      if breaks {
        shared.SetServiceDisconnected(fd, services);
      }
      if ret <= 0 {
        Shut(services);
        SetToReInit();
        return false;
      }
      return true;
    }
  }

  // ---------- the invariant ----------

  /** A service's flags agree with each other and with the retry set. */
  ghost predicate Flags(w: Statics, s: AsyncService)
    reads w`reinitSet, s`fd, s`enable, s`connecting
  {
    && (s.fd >= 0 <==> s.enable || s.connecting) && !(s.enable && s.connecting)
    && (s.enable ==> s !in w.reinitSet) && (s.connecting ==> s in w.reinitSet)
  }

  /** Every descriptor has one holder, and the map's entries are right but may be NULL. */
  ghost predicate Tables(w: Statics, services: set<AsyncService>)
    reads w, services`fd
  {
    && w.reinitSet <= services
    && (forall s | s in services :: s.shared == w && (s.fd >= 0 ==> Held(w, s) && Registered(w, s)))
    && (forall fd | fd in w.fdServiceMap && w.fdServiceMap[fd] != null ::
          fd >= 0 && w.fdServiceMap[fd] in services && w.fdServiceMap[fd].fd == fd)
  }

  ghost predicate Held(w: Statics, s: AsyncService)
    reads w`holder, s`fd
  {
    s.fd in w.holder && w.holder[s.fd] == s
  }

  ghost predicate Registered(w: Statics, s: AsyncService)
    reads w`fdServiceMap, s`fd
  {
    s.fd in w.fdServiceMap && w.fdServiceMap[s.fd] in {null, s}
  }

  ghost predicate Consistent(w: Statics, services: set<AsyncService>)
    reads w, services
  {
    Tables(w, services) && forall s | s in services :: Flags(w, s)
  }

  /** No entry of the map is NULL. */
  ghost predicate NoStale(w: Statics)
    reads w
  {
    forall fd | fd in w.fdServiceMap :: w.fdServiceMap[fd] != null
  }

  twostate predicate OnlyChanges(s: AsyncService, services: set<AsyncService>)
    reads services
  {
    forall t | t in services && t != s :: unchanged(t)
  }

  twostate predicate NoneChanges(services: set<AsyncService>)
    reads services
  {
    forall t | t in services :: unchanged(t)
  }

  // ---------- whole runs ----------

  /** What reaches the services: start and end, connection events, the timer's retries, and the users' sends. */
  datatype Event =
    | Start(service: AsyncService, now: int, later: int, connect: int)     // `Init`
    | Stop(service: AsyncService)                                          // `Shut`
    | Connected(fd: int)
    | Disconnected(fd: int)
    | Retry(service: AsyncService, now: int, later: int, connect: int)     // `ReInit` from the timer
    | Send(service: AsyncService, len: nat, ret: int, breaks: bool)

  predicate Concerns(e: Event, services: set<AsyncService>) {
    e.Connected? || e.Disconnected? || e.service in services
  }

  /** No attempt to connect finds the address unusable. */
  predicate Answered(e: Event) {
    e.Start? || e.Retry? ==> e.connect >= -1
  }

  // ---- what a run of events makes of each service, without looking at any object ----

  /** `since` counts only while connecting; `due` is membership in the retry set. */
  datatype Status = Status(enable: bool, fd: int, connecting: bool, since: int, due: bool)

  const OFF := Status(false, -1, false, 0, false)

  /** An attempt to connect, at `now`, unless one is still waiting. */
  ghost function Attempt(s: AsyncService, st: Status, now: int, later: int, answer: int): Status {
    if st.enable || !s.ConfigOk() || s.forbidden then OFF
    else if st.connecting && now - st.since <= s.timeoutMs then st
    else Status(false, answer, answer >= 0, later, answer >= -1)
  }

  /** What event `e` does to service `s`; `taken` says that another service holds the descriptor offered. */
  ghost function React(e: Event, s: AsyncService, st: Status, taken: bool): Status {
    match e
    case Start(x, now, later, connect) =>
      if x == s then Attempt(s, st, now, later, if taken then -1 else connect) else st
    case Stop(x) => if x == s then OFF else st
    case Connected(fd) => if 0 <= fd == st.fd then Status(true, fd, false, 0, false) else st
    case Disconnected(fd) => if 0 <= fd == st.fd then OFF.(due := true) else st
    case Retry(x, now, later, connect) =>
      if x == s && st.due then Attempt(s, st, now, later, if taken then -1 else connect) else st
    case Send(x, len, ret, breaks) =>
      if x == s && len > 0 && (ret <= 0 || (breaks && st.fd >= 0 && ret == len)) then OFF.(due := true) else st
  }

  ghost function After(events: seq<Event>, services: set<AsyncService>, s: AsyncService): Status
    decreases |events|, 1
  {
    if events == [] then OFF
    else
      var past, last := events[..|events| - 1], events[|events| - 1];
      React(last, s, After(past, services, s), Taken(past, services, s, last))
  }

  ghost predicate Taken(past: seq<Event>, services: set<AsyncService>, s: AsyncService, e: Event)
    decreases |past|, 2
  {
    (e.Start? || e.Retry?) && e.connect >= 0
    && exists t :: t in services && t != s && After(past, services, t).fd == e.connect
  }

  /** The services that have been started, not while they were enabled, and not stopped since, and that may connect. */
  ghost function Started(events: seq<Event>, services: set<AsyncService>): set<AsyncService> {
    if events == [] then {}
    else
      var past, last := events[..|events| - 1], events[|events| - 1];
      match last
      case Start(s, _, _, _) =>
        if s.ConfigOk() && !s.forbidden && !After(past, services, s).enable then Started(past, services) + {s}
        else Started(past, services) - {s}
      case Stop(s) => Started(past, services) - {s}
      case _ => Started(past, services)
  }

  lemma {:induction false} StatusSound(events: seq<Event>, services: set<AsyncService>, s: AsyncService)
    ensures var st := After(events, services, s);
            && (st.connecting ==> st.due) && (st.enable ==> !st.due)
  {
    if events != [] {
      StatusSound(events[..|events| - 1], services, s);
    }
  }

  /** No started service is ever forgotten. */
  lemma {:induction false} StartedAlive(events: seq<Event>, services: set<AsyncService>, s: AsyncService)
    requires s in Started(events, services) && forall i | 0 <= i < |events| :: Answered(events[i])
    ensures After(events, services, s).enable || After(events, services, s).due
    ensures s.ConfigOk() && !s.forbidden
  {
    var past, last := events[..|events| - 1], events[|events| - 1];
    assert Answered(last);
    StatusSound(past, services, s);
    if s in Started(past, services) {
      StartedAlive(past, services, s);
    }
  }

  /** Events that are none of this service's, while it waits on descriptor `fd`. */
  predicate Passes(e: Event, s: AsyncService, fd: int) {
    match e
    case Connected(f) => f != fd
    case Disconnected(f) => f != fd
    case _ => e.service != s
  }

  lemma {:induction false} WaitsOn(past: seq<Event>, more: seq<Event>, services: set<AsyncService>, s: AsyncService)
    requires forall i | 0 <= i < |more| :: Passes(more[i], s, After(past, services, s).fd)
    ensures After(past + more, services, s) == After(past, services, s)
    decreases |more|
  {
    if more == [] {
      assert past + more == past;
    } else {
      var n := |more| - 1;
      assert (past + more)[..|past| + n] == past + more[..n] && (past + more)[|past| + n] == more[n];
      WaitsOn(past, more[..n], services, s);
    }
  }

  /**
   A service that is down is started and gets descriptor `fd` at time `began`. Unless something of its own happens
   first, a retry at most its timeout later changes nothing; a later one gives `fd` up and tries to connect anew.
   */
  lemma RetryTimesOut(past: seq<Event>, services: set<AsyncService>, s: AsyncService, at: int, began: int, fd: nat,
                      more: seq<Event>, now: int, later: int, connect: int)
    requires var st := After(past, services, s); !st.enable && !st.connecting
    requires 0 < s.timeoutMs <= 10000 && !s.forbidden && connect >= -1
    requires forall t | t in services && t != s :: After(past, services, t).fd != fd
    requires forall i | 0 <= i < |more| :: Passes(more[i], s, fd)
    ensures var waiting := past + [Start(s, at, began, fd)] + more;
            var st := After(waiting + [Retry(s, now, later, connect)], services, s);
            && After(waiting, services, s) == Status(false, fd, true, began, true)
            && (now <= began + s.timeoutMs ==> st == Status(false, fd, true, began, true))
            && (now > began + s.timeoutMs ==>
                  if connect >= 0 && exists t :: t in services && t != s && After(waiting, services, t).fd == connect
                  then st == Status(false, -1, false, later, true)
                  else st == Status(false, connect, connect >= 0, later, true))
  {
    hide After, Taken;
    var start, retry := Start(s, at, began, fd), Retry(s, now, later, connect);
    var started := past + [start];
    var waiting := started + more;
    AfterOne(past, start, services, s);
    TakenMeans(past, services, s, start);
    WaitsOn(started, more, services, s);
    AfterOne(waiting, retry, services, s);
    TakenMeans(waiting, services, s, retry);
  }

  lemma AfterOne(past: seq<Event>, e: Event, services: set<AsyncService>, s: AsyncService)
    ensures After(past + [e], services, s) == React(e, s, After(past, services, s), Taken(past, services, s, e))
  {
    assert (past + [e])[..|past|] == past;
  }

  lemma TakenMeans(past: seq<Event>, services: set<AsyncService>, s: AsyncService, e: Event)
    requires e.Start? || e.Retry?
    ensures Taken(past, services, s, e)
        <==> e.connect >= 0 && exists t :: t in services && t != s && After(past, services, t).fd == e.connect
  {
    hide After;
  }

  /** Objects as their constructors leave them. */
  ghost predicate JustBuilt(w: Statics, services: set<AsyncService>)
    reads w, services
  {
    && w.fdServiceMap == map[] && w.reinitSet == {}
    && forall s | s in services :: s.shared == w && s.Down() && s.fd == -1
  }

  ghost predicate Shows(w: Statics, s: AsyncService, st: Status)
    reads w, s
  {
    && s.enable == st.enable && s.fd == st.fd && s.connecting == st.connecting && (s in w.reinitSet <==> st.due)
    && (s.connecting ==> s.connectTimeMs == st.since)
  }

  ghost predicate Agrees(w: Statics, events: seq<Event>, services: set<AsyncService>)
    reads w, services
  {
    forall s | s in services :: Shows(w, s, After(events, services, s))
  }

  /**
   Any run of events from the construction on; a retry of a service not in the set is skipped, and so is a report
   for an unknown descriptor, and a new connection on a descriptor in use fails. At the end every service is in the
   state that the events alone determine, the map is exact, and every started service is enabled or due.
   */
  method RunEvents(w: Statics, events: seq<Event>, ghost services: set<AsyncService>)
    requires JustBuilt(w, services) && forall i | 0 <= i < |events| :: Concerns(events[i], services)
    modifies w, services
    ensures Consistent(w, services) && NoStale(w)
    ensures forall s | s in services :: Shows(w, s, After(events, services, s))
    ensures forall s, fd: nat | s in services :: fd in w.fdServiceMap && w.fdServiceMap[fd] == s <==> s.fd == fd
    ensures forall s | s in services && s.enable :: s.fd >= 0 && !s.connecting && s !in w.reinitSet
    ensures forall s | s in services && s.connecting :: s.fd >= 0 && s in w.reinitSet
    ensures (forall i | 0 <= i < |events| :: Answered(events[i])) ==>
              forall s | s in Started(events, services) && s in services :: s.enable || s in w.reinitSet
  {
    var i := 0;
    while i < |events|
      invariant 0 <= i <= |events| && Consistent(w, services) && NoStale(w) && Agrees(w, events[..i], services)
    {
      hide Consistent, NoStale, Agrees;
      Deliver(w, events, i, services);
      i := i + 1;
    }
    assert events[..i] == events;
    if forall i | 0 <= i < |events| :: Answered(events[i]) {
      forall s | s in Started(events, services) && s in services ensures s.enable || s in w.reinitSet {
        StartedAlive(events, services, s);
      }
    }
  }

  method Deliver(w: Statics, events: seq<Event>, i: nat, ghost services: set<AsyncService>)
    requires Consistent(w, services) && NoStale(w) && i < |events| && Concerns(events[i], services)
    requires Agrees(w, events[..i], services)
    modifies w, services
    ensures Consistent(w, services) && NoStale(w) && Agrees(w, events[..i + 1], services)
  {
    hide After, Taken;
    SharedIs(w, services);
    EventsMore(events, i, services);
    match events[i]
    case Start(s, now, later, connect) =>
      Dial(w, events, i, services);
    case Stop(s) =>
      s.Shut(services);
    case Connected(fd) =>
      if fd in w.fdServiceMap {
        w.SetServiceConnected(fd, services);
      }
    case Disconnected(fd) =>
      if fd in w.fdServiceMap {
        w.SetServiceDisconnected(fd, services);
      }
    case Retry(s, now, later, connect) =>
      Dial(w, events, i, services);
    case Send(s, len, ret, breaks) =>
      var breaking := breaks && s.fd >= 0 && ret == len;
      var _ := s.Send(len, ret, breaking, services);
  }

  /** The events that may open a connection. */
  method Dial(w: Statics, events: seq<Event>, i: nat, ghost services: set<AsyncService>)
    requires Consistent(w, services) && NoStale(w) && i < |events| && Concerns(events[i], services)
    requires Agrees(w, events[..i], services) && (events[i].Start? || events[i].Retry?)
    modifies w, services
    ensures Consistent(w, services) && NoStale(w) && Agrees(w, events[..i + 1], services)
  {
    hide After, Taken, Tables, Flags, NoStale;
    var s, connect := events[i].service, events[i].connect;
    SharedIs(w, services);
    EventsMore(events, i, services);
    TakenIs(w, events[..i], services, s, events[i]);
    var taken := connect in w.fdServiceMap && w.fdServiceMap[connect] != s;
    var answer := if taken then -1 else connect;
    if events[i].Start? {
      var _ := s.Init(events[i].now, events[i].later, answer, services);
      OthersStay(w.reinitSet, old(w.reinitSet), s);
    } else if s in w.reinitSet {
      var _ := s.ReInit(events[i].now, events[i].later, answer, services);
      OthersStay(w.reinitSet, old(w.reinitSet), s);
    }
  }

  lemma SharedIs(w: Statics, services: set<AsyncService>)
    requires Consistent(w, services)
    ensures forall s | s in services :: s.shared == w && (s in w.reinitSet ==> !s.enable)
  {
  }

  lemma EventsMore(events: seq<Event>, i: nat, services: set<AsyncService>)
    requires i < |events|
    ensures forall s :: After(events[..i + 1], services, s)
              == React(events[i], s, After(events[..i], services, s), Taken(events[..i], services, s, events[i]))
  {
    assert events[..i + 1][..i] == events[..i];
  }

  /** The map says whether another service holds the descriptor offered. */
  lemma TakenIs(w: Statics, past: seq<Event>, services: set<AsyncService>, s: AsyncService, e: Event)
    requires Consistent(w, services) && NoStale(w) && Agrees(w, past, services) && s in services
    requires e.Start? || e.Retry?
    ensures Taken(past, services, s, e) <==> e.connect in w.fdServiceMap && w.fdServiceMap[e.connect] != s
    ensures !Taken(past, services, s, e) && e.connect >= 0 ==>
              forall t | t in services && t != s :: t.fd != e.connect
  {
    hide After;
    if e.connect in w.fdServiceMap && w.fdServiceMap[e.connect] != s {
      var t := w.fdServiceMap[e.connect];
      assert Shows(w, t, After(past, services, t));
    }
  }

  lemma OthersStay(a: set<AsyncService>, b: set<AsyncService>, s: AsyncService)
    requires a - {s} == b - {s}
    ensures forall t | t != s :: t in a <==> t in b
  {
    forall t | t != s ensures t in a <==> t in b {
      assert t in a - {s} <==> t in b - {s};
    }
  }

  /**
   An event for an unknown descriptor leaves a NULL entry behind; when a service is then given that descriptor
   it is not entered in the map, and the end of its connection goes unnoticed.
   */
  method StaleEntryHidesConnection() returns (w: Statics, s: AsyncService)
    ensures fresh(w) && fresh(s) && s.shared == w && s.ConfigOk() && !s.forbidden
    ensures Consistent(w, {s}) && s.connecting && s.fd == 7
    ensures 7 in w.fdServiceMap && w.fdServiceMap[7] == null
  {
    w := new Statics();
    s := new AsyncService(w, 2000, false);
    w.SetServiceDisconnected(7, {s});
    var _ := s.Init(0, 0, 7, {s});
    w.SetServiceDisconnected(7, {s});
  }
}
