/**
 The commander's connection listener: a bounded queue behind a lock, a closed flag and a wake-up
 primitive holding at most one permit. `add`, `accept` and `close` are not atomic; every atomic
 load, lock section and notification is a step of its own, and steps of any number of adders and
 closers and of one acceptor interleave freely.
 */
module Listener {
  import opened Bytes

  const LISTENER_BUFFER := 4

  type Conn = nat

  // ---- the shared object ----

  /**
   Queue, closed flag, and the wake-up primitive: a stored permit, whether a waiter is registered,
   and how often all waiters have been woken.
   */
  datatype Shared = Shared(buffer: seq<Conn>, closed: bool, permit: bool, waiter: bool, broadcasts: nat)

  function NotifyOne(s: Shared): Shared {
    if s.waiter then s.(waiter := false) else s.(permit := true)
  }

  /** Wakes a registered waiter and counts; it stores nothing for later. */
  function NotifyWaiters(s: Shared): Shared {
    s.(waiter := false, broadcasts := s.broadcasts + 1)
  }

  /** First poll of a wait created after `seen` broadcasts: ready, or registered as the waiter. */
  function PollNotified(s: Shared, seen: nat): (bool, Shared) {
    if s.permit then (true, s.(permit := false))
    else if s.broadcasts != seen then (true, s)
    else (false, s.(waiter := true))
  }

  class OutboundListener {
    var buffer: seq<Conn>
    var closed: bool
    var permit: bool
    var waiter: bool
    var broadcasts: nat

    ghost function View(): Shared
      reads this
    {
      Shared(buffer, closed, permit, waiter, broadcasts)
    }

    constructor ()
      ensures View() == Shared([], false, false, false, 0)
    {
      buffer, closed, permit, waiter, broadcasts := [], false, false, false, 0;
    }

    /** Lock section of `add`: a full queue refuses the connection. */
    method TryPush(conn: Conn) returns (pushed: bool)
      modifies this`buffer
      ensures pushed <==> |old(buffer)| < LISTENER_BUFFER
      ensures buffer == old(buffer) + if pushed then [conn] else []
    {
      if |buffer| >= LISTENER_BUFFER {
        return false;
      }
      buffer := buffer + [conn];
      return true;
    }

    /** Lock section of `accept`. */
    method PopFront() returns (conn: Option<Conn>)
      modifies this`buffer
      ensures conn.None? ==> old(buffer) == [] && buffer == []
      ensures conn.Some? ==> old(buffer) == [conn.value] + buffer
    {
      if buffer == [] {
        return None;
      }
      conn := Some(buffer[0]);
      buffer := buffer[1..];
    }

    method SwapClosed() returns (was: bool)
      modifies this`closed
      ensures was == old(closed) && closed
    {
      was, closed := closed, true;
    }

    method Clear()
      modifies this`buffer
      ensures buffer == []
    {
      buffer := [];
    }

    method Notify()
      modifies this`permit, this`waiter
      ensures View() == NotifyOne(old(View()))
    {
      if waiter {
        waiter := false;
      } else {
        permit := true;
      }
    }

    method NotifyAll()
      modifies this`waiter, this`broadcasts
      ensures View() == NotifyWaiters(old(View()))
    {
      waiter, broadcasts := false, broadcasts + 1;
    }

    method Poll(seen: nat) returns (ready: bool)
      modifies this`permit, this`waiter
      ensures (ready, View()) == PollNotified(old(View()), seen)
    {
      if permit {
        permit := false;
        return true;
      }
      if broadcasts != seen {
        return true;
      }
      waiter := true;
      return false;
    }
  }

  // ---- the interleaved machine ----

  datatype AddPhase = ToLoad | ToPush | ToNotify
  datatype ClosePhase = ToSwap | ToClear | ToBroadcast
  datatype AcceptPhase = Idle | ToCheck | ToPop | ToCreate | ToPoll(seen: nat) | Asleep(created: nat)
  datatype Fate = Accepted | Cleared

  /**
   `adds` and `closes` hold the calls in progress. The rest is history: `log` is what left the queue
   and how, `pushes` and `accepted` what entered it and what accept returned, in order; `dropped` are
   connections refused on entry, `started` all connections ever offered.
   */
  datatype State = State(
    shared: Shared, adds: map<Conn, AddPhase>, closes: map<nat, ClosePhase>, acceptor: AcceptPhase,
    log: seq<(Conn, Fate)>, pushes: seq<Conn>, accepted: seq<Conn>, dropped: set<Conn>, started: set<Conn>)

  datatype Action =
    | AddBegin(conn: Conn) | AddLoad(conn: Conn) | AddPush(conn: Conn) | AddNotify(conn: Conn)
    | AcceptBegin | AcceptCheck | AcceptPop | AcceptCreate | AcceptPoll | AcceptResume
    | CloseBegin(closer: nat) | CloseSwap(closer: nat) | CloseClear(closer: nat) | CloseBroadcast(closer: nat)

  function Init(): State {
    State(Shared([], false, false, false, 0), map[], map[], Idle, [], [], [], {}, {})
  }

  predicate Enabled(s: State, a: Action) {
    match a
    case AddBegin(c) => c !in s.started
    case AddLoad(c) => c in s.adds && s.adds[c] == ToLoad
    case AddPush(c) => c in s.adds && s.adds[c] == ToPush
    case AddNotify(c) => c in s.adds && s.adds[c] == ToNotify
    case AcceptBegin => s.acceptor == Idle
    case AcceptCheck => s.acceptor == ToCheck
    case AcceptPop => s.acceptor == ToPop
    case AcceptCreate => s.acceptor == ToCreate
    case AcceptPoll => s.acceptor.ToPoll?
    case AcceptResume => s.acceptor.Asleep? && !s.shared.waiter
    case CloseBegin(k) => k !in s.closes
    case CloseSwap(k) => k in s.closes && s.closes[k] == ToSwap
    case CloseClear(k) => k in s.closes && s.closes[k] == ToClear
    case CloseBroadcast(k) => k in s.closes && s.closes[k] == ToBroadcast
  }

  function Step(s: State, a: Action): State
    requires Enabled(s, a)
  {
    var sh := s.shared;
    match a
    case AddBegin(c) => s.(adds := s.adds[c := ToLoad], started := s.started + {c})
    case AddLoad(c) =>
      if sh.closed then s.(adds := s.adds - {c}, dropped := s.dropped + {c}) else s.(adds := s.adds[c := ToPush])
    case AddPush(c) =>
      if |sh.buffer| >= LISTENER_BUFFER then s.(adds := s.adds - {c}, dropped := s.dropped + {c})
      else s.(shared := sh.(buffer := sh.buffer + [c]), adds := s.adds[c := ToNotify], pushes := s.pushes + [c])
    case AddNotify(c) => s.(shared := NotifyOne(sh), adds := s.adds - {c})
    case AcceptBegin => s.(acceptor := ToCheck)
    case AcceptCheck => s.(acceptor := if sh.closed then Idle else ToPop)
    case AcceptPop =>
      if sh.buffer == [] then s.(acceptor := ToCreate)
      else s.(shared := sh.(buffer := sh.buffer[1..]), acceptor := Idle,
              log := s.log + [(sh.buffer[0], Accepted)], accepted := s.accepted + [sh.buffer[0]])
    case AcceptCreate => s.(acceptor := ToPoll(sh.broadcasts))
    case AcceptPoll =>
      var (ready, sh') := PollNotified(sh, s.acceptor.seen);
      s.(shared := sh', acceptor := if ready then ToCheck else Asleep(s.acceptor.seen))
    case AcceptResume => s.(acceptor := ToCheck)
    case CloseBegin(k) => s.(closes := s.closes[k := ToSwap])
    case CloseSwap(k) =>
      if sh.closed then s.(closes := s.closes - {k})
      else s.(shared := sh.(closed := true), closes := s.closes[k := ToClear])
    case CloseClear(k) =>
      s.(shared := sh.(buffer := []), closes := s.closes[k := ToBroadcast], log := s.log + Marked(sh.buffer))
    case CloseBroadcast(k) => s.(shared := NotifyWaiters(sh), closes := s.closes - {k})
  }

  function Marked(conns: seq<Conn>): (r: seq<(Conn, Fate)>)
    ensures |r| == |conns|
  {
    seq(|conns|, i requires 0 <= i < |conns| => (conns[i], Cleared))
  }

  /** A run: actions each enabled where it happens. */
  ghost predicate IsRun(s: State, run: seq<Action>, t: State)
    decreases |run|
  {
    if run == [] then s == t else Enabled(s, run[0]) && IsRun(Step(s, run[0]), run[1..], t)
  }

  ghost predicate Reachable(s: State) {
    exists run :: IsRun(Init(), run, s)
  }

  // ---- what every step keeps ----

  /** Some add has pushed its connection and still has to notify. */
  predicate Owed(s: State) {
    exists c | c in s.adds :: s.adds[c] == ToNotify
  }

  /** The acceptor found the queue empty and has not looked again. */
  predicate Committed(s: State) {
    s.acceptor.ToCreate? || s.acceptor.ToPoll? || (s.acceptor.Asleep? && s.shared.waiter)
  }

  ghost predicate WakeInv(s: State) {
    && |s.shared.buffer| <= LISTENER_BUFFER && s.adds.Keys <= s.started
    && (s.shared.waiter ==> s.acceptor.Asleep? && !s.shared.permit)
    && (Committed(s) && s.shared.buffer != [] ==> s.shared.permit || Owed(s))
  }

  function Conns(log: seq<(Conn, Fate)>): (r: seq<Conn>)
    ensures |r| == |log|
  {
    seq(|log|, i requires 0 <= i < |log| => log[i].0)
  }

  function AcceptedOf(log: seq<(Conn, Fate)>): seq<Conn> {
    if log == [] then []
    else
      var last := log[|log| - 1];
      AcceptedOf(log[..|log| - 1]) + if last.1 == Accepted then [last.0] else []
  }

  /** Offered and not yet decided: the add has not reached its lock section. */
  ghost predicate InFlight(s: State, c: Conn) {
    c in s.adds && s.adds[c] != ToNotify
  }

  /** The queue is what was pushed minus what left it, oldest first. */
  ghost predicate LogInv(s: State) {
    && s.pushes == Conns(s.log) + s.shared.buffer
    && s.accepted == AcceptedOf(s.log)
    && (!s.shared.closed ==> forall e | e in s.log :: e.1 == Accepted)
  }

  /** Every offered connection is in exactly one place: in flight, refused, or pushed once. */
  ghost predicate PlaceInv(s: State) {
    && NoRepeats(s.pushes)
    && (forall c | c in s.adds && s.adds[c] == ToNotify :: c in s.pushes)
    && (forall c :: c in s.started <==> c in s.pushes || c in s.dropped || InFlight(s, c))
    && (forall c | c in s.pushes :: c !in s.dropped && !InFlight(s, c))
    && (forall c | c in s.dropped :: c !in s.adds)
  }

  /** A close that won the swap and has not finished. */
  predicate Closing(s: State) {
    exists k | k in s.closes :: s.closes[k] != ToSwap
  }

  /** At most one close wins, and it broadcasts exactly once. */
  ghost predicate CloseCalls(s: State) {
    && (forall k, l | k in s.closes && l in s.closes && s.closes[k] != ToSwap && s.closes[l] != ToSwap :: k == l)
    && s.shared.broadcasts == (if s.shared.closed && !Closing(s) then 1 else 0)
    && (Closing(s) ==> s.shared.closed)
  }

  /** A wait knows how many broadcasts it has missed; a registered one none since its creation. */
  ghost predicate WaitInv(s: State) {
    && (s.acceptor.ToPoll? ==> s.acceptor.seen <= s.shared.broadcasts)
    && (s.acceptor.Asleep? && s.shared.waiter ==> s.acceptor.created == s.shared.broadcasts)
  }

  ghost predicate Inv(s: State) {
    WakeInv(s) && LogInv(s) && PlaceInv(s) && CloseCalls(s) && WaitInv(s)
  }

  lemma WakeStep(s: State, a: Action)
    requires WakeInv(s) && Enabled(s, a)
    ensures WakeInv(Step(s, a))
  {
    var t := Step(s, a);
    if Owed(s) && !(a.AddNotify? || a.AddLoad? || a.AddPush?) {
      var c :| c in s.adds && s.adds[c] == ToNotify;
      assert c in t.adds && t.adds[c] == ToNotify;
    }
    if (a.AddLoad? || a.AddPush?) && Owed(s) {
      var c :| c in s.adds && s.adds[c] == ToNotify;
      assert c != a.conn && c in t.adds && t.adds[c] == ToNotify;
    }
    if a.AddPush? && |s.shared.buffer| < LISTENER_BUFFER {
      assert a.conn in t.adds && t.adds[a.conn] == ToNotify;
    }
  }

  lemma ClosingKept(s: State, t: State)
    requires t.closes == s.closes
    ensures Closing(t) == Closing(s)
  {
  }

  lemma CloseCallsStep(s: State, a: Action)
    requires CloseCalls(s) && Enabled(s, a)
    ensures CloseCalls(Step(s, a))
  {
    var t := Step(s, a);
    match a {
      case CloseBegin(k) => ClosingBegin(s, t, k);
      case CloseSwap(k) => ClosingSwap(s, t, k);
      case CloseClear(k) =>
        assert s.closes[k] != ToSwap && t.closes[k] != ToSwap;
      case CloseBroadcast(k) => ClosingBroadcast(s, t, k);
      case _ =>
        ClosingKept(s, t);
        hide Closing;
    }
  }

  lemma ClosingBegin(s: State, t: State, k: nat)
    requires k !in s.closes && t.closes == s.closes[k := ToSwap]
    ensures Closing(t) == Closing(s)
  {
    if Closing(s) {
      var l :| l in s.closes && s.closes[l] != ToSwap;
      assert l in t.closes && t.closes[l] != ToSwap;
    }
  }

  lemma ClosingSwap(s: State, t: State, k: nat)
    requires CloseCalls(s) && k in s.closes && s.closes[k] == ToSwap
    requires t.closes == if s.shared.closed then s.closes - {k} else s.closes[k := ToClear]
    ensures Closing(t) == if s.shared.closed then Closing(s) else true
    ensures !s.shared.closed ==> !Closing(s)
  {
    if s.shared.closed {
      if Closing(s) {
        var l :| l in s.closes && s.closes[l] != ToSwap;
        assert l in t.closes && t.closes[l] != ToSwap;
      }
    } else {
      assert t.closes[k] != ToSwap;
    }
  }

  lemma ClosingBroadcast(s: State, t: State, k: nat)
    requires CloseCalls(s) && k in s.closes && s.closes[k] == ToBroadcast && t.closes == s.closes - {k}
    ensures !Closing(t) && Closing(s)
  {
    assert s.closes[k] != ToSwap;
  }

  lemma WaitStep(s: State, a: Action)
    requires WakeInv(s) && WaitInv(s) && Enabled(s, a)
    ensures WaitInv(Step(s, a))
  {
    hide Owed;
  }

  // ---- the ledger ----

  lemma ConnsAppend(log: seq<(Conn, Fate)>, more: seq<(Conn, Fate)>)
    ensures Conns(log + more) == Conns(log) + Conns(more)
  {
  }

  lemma AcceptedSnoc(log: seq<(Conn, Fate)>, c: Conn)
    ensures AcceptedOf(log + [(c, Accepted)]) == AcceptedOf(log) + [c]
  {
    assert (log + [(c, Accepted)])[..|log|] == log;
  }

  lemma {:induction false} AcceptedMarked(log: seq<(Conn, Fate)>, conns: seq<Conn>)
    ensures AcceptedOf(log + Marked(conns)) == AcceptedOf(log)
    decreases |conns|
  {
    if conns == [] {
      assert log + Marked(conns) == log;
    } else {
      var init := conns[..|conns| - 1];
      var all := log + Marked(conns);
      assert all[..|all| - 1] == log + Marked(init);
      AcceptedMarked(log, init);
    }
  }

  /** Queue contents and history move together. */
  lemma LogStep(s: State, a: Action)
    requires LogInv(s) && CloseCalls(s) && Enabled(s, a)
    ensures LogInv(Step(s, a))
  {
    hide AcceptedOf;
    var t := Step(s, a);
    if a.AcceptPop? && s.shared.buffer != [] {
      var entry := (s.shared.buffer[0], Accepted);
      ConnsAppend(s.log, [entry]);
      AcceptedSnoc(s.log, entry.0);
      assert Conns([entry]) == [entry.0];
      assert s.shared.buffer == [entry.0] + s.shared.buffer[1..];
    } else if a.CloseClear? {
      assert Closing(s) by {
        assert s.closes[a.closer] != ToSwap;
      }
      ConnsAppend(s.log, Marked(s.shared.buffer));
      AcceptedMarked(s.log, s.shared.buffer);
      assert Conns(Marked(s.shared.buffer)) == s.shared.buffer;
    } else if a.AddPush? {
      assert Conns(s.log) + (s.shared.buffer + [a.conn]) == Conns(s.log) + s.shared.buffer + [a.conn];
    }
  }

  /** An add in flight is refused, moves on, or pushes its connection. */
  lemma PlaceDecided(s: State, t: State, c: Conn)
    requires PlaceInv(s) && InFlight(s, c) && t.started == s.started
    requires
      || (t.adds == s.adds - {c} && t.dropped == s.dropped + {c} && t.pushes == s.pushes)
      || (t.adds == s.adds[c := ToPush] && t.dropped == s.dropped && t.pushes == s.pushes)
      || (t.adds == s.adds[c := ToNotify] && t.dropped == s.dropped && t.pushes == s.pushes + [c])
    ensures PlaceInv(t)
  {
    assert forall d | d != c :: InFlight(t, d) <==> InFlight(s, d);
    if t.pushes != s.pushes {
      assert forall d :: d in t.pushes <==> d in s.pushes || d == c;
    }
  }

  lemma PlaceBegun(s: State, t: State, c: Conn)
    requires PlaceInv(s) && c !in s.started && s.adds.Keys <= s.started
    requires t.adds == s.adds[c := ToLoad] && t.started == s.started + {c}
    requires t.dropped == s.dropped && t.pushes == s.pushes
    ensures PlaceInv(t)
  {
    assert forall d | d != c :: InFlight(t, d) <==> InFlight(s, d);
    assert InFlight(t, c);
  }

  lemma PlaceKept(s: State, t: State)
    requires PlaceInv(s) && t.started == s.started && t.dropped == s.dropped && t.pushes == s.pushes
    requires t.adds == s.adds || exists c | c in s.adds && s.adds[c] == ToNotify :: t.adds == s.adds - {c}
    ensures PlaceInv(t)
  {
    assert forall d :: InFlight(t, d) <==> InFlight(s, d);
  }

  lemma PlaceStep(s: State, a: Action)
    requires PlaceInv(s) && s.adds.Keys <= s.started && Enabled(s, a)
    ensures PlaceInv(Step(s, a))
  {
    hide PlaceInv;
    var t := Step(s, a);
    if a.AddBegin? {
      PlaceBegun(s, t, a.conn);
    } else if a.AddLoad? || a.AddPush? {
      PlaceDecided(s, t, a.conn);
    } else {
      PlaceKept(s, t);
    }
  }

  // ---- safety of every run ----

  lemma InitInv()
    ensures Inv(Init())
  {
  }

  lemma StepInv(s: State, a: Action)
    requires Inv(s) && Enabled(s, a)
    ensures Inv(Step(s, a))
  {
    WakeStep(s, a);
    LogStep(s, a);
    PlaceStep(s, a);
    CloseCallsStep(s, a);
    WaitStep(s, a);
  }

  lemma {:induction false} RunInv(s: State, run: seq<Action>, t: State)
    requires Inv(s) && IsRun(s, run, t)
    ensures Inv(t)
    decreases |run|
  {
    hide Inv, Step, Enabled;
    if run != [] {
      StepInv(s, run[0]);
      RunInv(Step(s, run[0]), run[1..], t);
    }
  }

  lemma ReachableInv(s: State)
    requires Reachable(s)
    ensures Inv(s)
  {
    hide Inv, IsRun;
    var run :| IsRun(Init(), run, s);
    InitInv();
    RunInv(Init(), run, s);
  }

  /** In no interleaving does the acceptor sleep on a connection that nobody is about to announce. */
  lemma {:induction false} NoLostWakeup(s: State)
    requires Reachable(s) && s.acceptor.Asleep? && s.shared.waiter && s.shared.buffer != []
    ensures Owed(s)
  {
    ReachableInv(s);
  }

  lemma {:induction false} Bounded(s: State)
    requires Reachable(s)
    ensures |s.shared.buffer| <= LISTENER_BUFFER
  {
    ReachableInv(s);
  }

  lemma InLog(log: seq<(Conn, Fate)>, e: (Conn, Fate)) returns (i: nat)
    requires e in log
    ensures i < |log| && log[i] == e && Conns(log)[i] == e.0
  {
    i :| 0 <= i < |log| && log[i] == e;
  }

  lemma Pushed(log: seq<(Conn, Fate)>, buffer: seq<Conn>, c: Conn)
    requires c in Conns(log) + buffer
    ensures c in buffer || (c, Accepted) in log || (c, Cleared) in log
  {
    var pushes := Conns(log) + buffer;
    var p :| 0 <= p < |pushes| && pushes[p] == c;
    if p < |log| {
      assert Conns(log)[p] == c && log[p] == (log[p].0, log[p].1);
      match log[p].1 {
        case Accepted => assert log[p] == (c, Accepted);
        case Cleared => assert log[p] == (c, Cleared);
      }
    } else {
      assert buffer[p - |log|] == c;
    }
  }

  lemma LogOnce(log: seq<(Conn, Fate)>, buffer: seq<Conn>, c: Conn, fate: Fate)
    requires NoRepeats(Conns(log) + buffer) && (c, fate) in log
    ensures c in Conns(log) + buffer && c !in buffer && forall f | (c, f) in log :: f == fate
  {
    var pushes := Conns(log) + buffer;
    var i := InLog(log, (c, fate));
    assert pushes[i] == c;
    assert forall j | 0 <= j < |buffer| :: buffer[j] == pushes[|log| + j];
    forall f | (c, f) in log
      ensures f == fate
    {
      var j := InLog(log, (c, f));
      assert pushes[j] == c;
    }
  }

  /**
   A connection whose add is past its lock section is in exactly one of: queued, accepted, cleared by
   close, or refused; and it got there once.
   */
  lemma {:induction false} OnePlace(s: State, c: Conn)
    requires Reachable(s) && c in s.started && !InFlight(s, c)
    ensures c in s.dropped <==> c !in s.shared.buffer && (c, Accepted) !in s.log && (c, Cleared) !in s.log
    ensures !(c in s.shared.buffer && ((c, Accepted) in s.log || (c, Cleared) in s.log))
    ensures !((c, Accepted) in s.log && (c, Cleared) in s.log)
  {
    ReachableInv(s);
    hide Reachable, InFlight, NoRepeats;
    if c in s.pushes {
      Pushed(s.log, s.shared.buffer, c);
    }
    if (c, Accepted) in s.log {
      LogOnce(s.log, s.shared.buffer, c, Accepted);
    }
    if (c, Cleared) in s.log {
      LogOnce(s.log, s.shared.buffer, c, Cleared);
    }
    if c in s.shared.buffer {
      var j :| 0 <= j < |s.shared.buffer| && s.shared.buffer[j] == c;
      assert s.pushes[|s.log| + j] == c;
    }
  }

  /** Accepted connections come out in push order; without a close nothing is skipped. */
  lemma {:induction false} AcceptOrder(s: State)
    requires Reachable(s)
    ensures s.accepted == AcceptedOf(s.log) && Conns(s.log) <= s.pushes
    ensures !s.shared.closed ==> s.pushes == s.accepted + s.shared.buffer
  {
    ReachableInv(s);
    hide Reachable;
    if !s.shared.closed {
      AllAccepted(s.log);
    }
  }

  lemma {:induction false} AllAccepted(log: seq<(Conn, Fate)>)
    requires forall e | e in log :: e.1 == Accepted
    ensures AcceptedOf(log) == Conns(log)
  {
    if log != [] {
      var init := log[..|log| - 1];
      AllAccepted(init);
      assert log[|log| - 1] in log;
      assert Conns(log) == Conns(init) + [log[|log| - 1].0];
    }
  }

  /**
   Of a closed listener's sleeping acceptor: a broadcast is still to come exactly when its wait was
   created before the broadcast. A wait created afterwards is never woken by the close.
   */
  lemma {:induction false} SleepAfterClose(s: State)
    requires Reachable(s) && s.shared.closed && s.acceptor.Asleep? && s.shared.waiter
    ensures Closing(s) <==> s.acceptor.created == 0
  {
    ReachableInv(s);
  }

  lemma RunCons(s: State, a: Action, rest: seq<Action>, t: State)
    requires Enabled(s, a) && IsRun(Step(s, a), rest, t)
    ensures IsRun(s, [a] + rest, t)
  {
    assert ([a] + rest)[1..] == rest;
  }

  lemma ReachStep(s: State, a: Action)
    requires Reachable(s) && Enabled(s, a)
    ensures Reachable(Step(s, a))
  {
    hide Step, Enabled, IsRun;
    var run :| IsRun(Init(), run, s);
    RunSnoc(Init(), run, s, a);
  }

  lemma InitReachable()
    ensures Reachable(Init())
  {
    RunNothing(Init());
  }

  lemma RunNothing(s: State)
    ensures IsRun(s, [], s)
  {
  }

  // ---- the machine on the real object ----

  /** Performs one action on the listener object; the program counters of the callers stay in the state. */
  method Perform(l: OutboundListener, s: State, a: Action) returns (t: State)
    requires Enabled(s, a) && l.View() == s.shared
    modifies l
    ensures t == Step(s, a) && l.View() == t.shared
  {
    t := s;
    match a {
      case AddBegin(c) =>
        t := t.(adds := s.adds[c := ToLoad], started := s.started + {c});
      case AddLoad(c) =>
        if l.closed {
          t := t.(adds := s.adds - {c}, dropped := s.dropped + {c});
        } else {
          t := t.(adds := s.adds[c := ToPush]);
        }
      case AddPush(c) =>
        var pushed := l.TryPush(c);
        if pushed {
          t := t.(adds := s.adds[c := ToNotify], pushes := s.pushes + [c]);
        } else {
          t := t.(adds := s.adds - {c}, dropped := s.dropped + {c});
        }
      case AddNotify(c) =>
        l.Notify();
        t := t.(adds := s.adds - {c});
      case AcceptBegin =>
        t := t.(acceptor := ToCheck);
      case AcceptCheck =>
        t := t.(acceptor := if l.closed then Idle else ToPop);
      case AcceptPop =>
        var conn := l.PopFront();
        if conn.None? {
          t := t.(acceptor := ToCreate);
        } else {
          t := t.(acceptor := Idle, log := s.log + [(conn.value, Accepted)], accepted := s.accepted + [conn.value]);
        }
      case AcceptCreate =>
        t := t.(acceptor := ToPoll(l.broadcasts));
      case AcceptPoll =>
        var ready := l.Poll(s.acceptor.seen);
        t := t.(acceptor := if ready then ToCheck else Asleep(s.acceptor.seen));
      case AcceptResume =>
        t := t.(acceptor := ToCheck);
      case CloseBegin(k) =>
        t := t.(closes := s.closes[k := ToSwap]);
      case CloseSwap(k) =>
        var was := l.SwapClosed();
        t := t.(closes := if was then s.closes - {k} else s.closes[k := ToClear]);
      case CloseClear(k) =>
        t := t.(closes := s.closes[k := ToBroadcast], log := s.log + Marked(l.buffer));
        l.Clear();
      case CloseBroadcast(k) =>
        l.NotifyAll();
        t := t.(closes := s.closes - {k});
    }
    t := t.(shared := Shared(l.buffer, l.closed, l.permit, l.waiter, l.broadcasts));
  }

  /** The state after a schedule: every action that is enabled when its turn comes is taken. */
  function Scheduled(s: State, schedule: seq<Action>): State
    decreases |schedule|
  {
    if schedule == [] then s
    else
      var init, last := schedule[..|schedule| - 1], schedule[|schedule| - 1];
      var t := Scheduled(s, init);
      if Enabled(t, last) then Step(t, last) else t
  }

  /** Any schedule of the three operations, run on a new listener, ends where the machine does. */
  method Execute(schedule: seq<Action>) returns (l: OutboundListener, t: State)
    ensures fresh(l) && t == Scheduled(Init(), schedule) && l.View() == t.shared
    ensures Reachable(t) && Inv(t)
  {
    l := new OutboundListener();
    t := Init();
    InitReachable();
    hide Inv, Reachable, Step, Enabled;
    for i := 0 to |schedule|
      invariant fresh(l) && l.View() == t.shared && Reachable(t) && t == Scheduled(Init(), schedule[..i])
    {
      assert schedule[..i + 1][..i] == schedule[..i];
      if Enabled(t, schedule[i]) {
        ReachStep(t, schedule[i]);
        t := Perform(l, t, schedule[i]);
      }
    }
    assert schedule[..|schedule|] == schedule;
    ReachableInv(t);
  }

  /** Every run of the machine is a schedule whose actions are all enabled: the object goes through all of them. */
  lemma {:induction false} RunIsScheduled(s: State, run: seq<Action>, t: State)
    requires IsRun(s, run, t)
    ensures Scheduled(s, run) == t
    decreases |run|
  {
    hide Step, Enabled;
    if run != [] {
      var init, last := run[..|run| - 1], run[|run| - 1];
      var u := RunSplit(s, run, t);
      RunIsScheduled(s, init, u);
    }
  }

  lemma {:induction false} RunSplit(s: State, run: seq<Action>, t: State) returns (u: State)
    requires run != [] && IsRun(s, run, t)
    ensures IsRun(s, run[..|run| - 1], u) && Enabled(u, run[|run| - 1]) && t == Step(u, run[|run| - 1])
    decreases |run|
  {
    hide Step, Enabled;
    if |run| == 1 {
      u := s;
      assert run[..0] == [] && run[1..] == [];
    } else {
      var rest := run[1..];
      u := RunSplit(Step(s, run[0]), rest, t);
      assert run[..|run| - 1] == [run[0]] + rest[..|rest| - 1];
      RunCons(s, run[0], rest[..|rest| - 1], u);
    }
  }

  lemma {:induction false} RunSnoc(s: State, run: seq<Action>, t: State, a: Action)
    requires IsRun(s, run, t) && Enabled(t, a)
    ensures IsRun(s, run + [a], Step(t, a))
    decreases |run|
  {
    hide Step, Enabled;
    if run == [] {
      RunNothing(Step(t, a));
      RunCons(s, a, [], Step(t, a));
      assert run + [a] == [a] + [];
    } else {
      RunSnoc(Step(s, run[0]), run[1..], t, a);
      assert run + [a] == [run[0]] + (run[1..] + [a]);
      RunCons(s, run[0], run[1..] + [a], Step(t, a));
    }
  }
}
