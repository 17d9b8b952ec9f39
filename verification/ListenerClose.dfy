/**
 What a close of the commander's listener leaves behind: acceptors that no call will wake any more, and
 connections that enter the queue after it was cleared.
 */
module ListenerClose {
  import opened Listener

  // ---- acceptors that sleep on ----

  /** Acceptor and one closer, with an empty queue and no history. */
  function Quiet(closed: bool, waiter: bool, broadcasts: nat, closes: map<nat, ClosePhase>, acceptor: AcceptPhase): State {
    Init().(shared := Shared([], closed, false, waiter, broadcasts), closes := closes, acceptor := acceptor)
  }

  lemma EmptyCheckReachable()
    ensures Reachable(Quiet(false, false, 0, map[], ToCreate))
  {
    hide Reachable;
    InitReachable();
    ReachStep(Init(), AcceptBegin);
    ReachStep(Quiet(false, false, 0, map[], ToCheck), AcceptCheck);
    ReachStep(Quiet(false, false, 0, map[], ToPop), AcceptPop);
  }

  lemma ThenCloseReachable()
    ensures Reachable(Quiet(true, false, 1, map[], ToCreate))
  {
    hide Reachable;
    EmptyCheckReachable();
    assert Quiet(false, false, 0, map[], ToCreate).log + Marked([]) == [];
    assert map[0 := ToSwap][0 := ToClear] == map[0 := ToClear];
    assert map[0 := ToClear][0 := ToBroadcast] == map[0 := ToBroadcast];
    ReachStep(Quiet(false, false, 0, map[], ToCreate), CloseBegin(0));
    ReachStep(Quiet(false, false, 0, map[0 := ToSwap], ToCreate), CloseSwap(0));
    ReachStep(Quiet(true, false, 0, map[0 := ToClear], ToCreate), CloseClear(0));
    ReachStep(Quiet(true, false, 0, map[0 := ToBroadcast], ToCreate), CloseBroadcast(0));
    assert map[0 := ToBroadcast] - {0} == map[];
  }

  /** It happens: close runs entirely between the acceptor's empty check and its wait, which it then does not end. */
  lemma {:induction false} CloseCanBeMissed()
    ensures exists s :: Reachable(s) && Dozing(s) && !CanWake(s)
  {
    hide Reachable;
    ThenCloseReachable();
    ReachStep(Quiet(true, false, 1, map[], ToCreate), AcceptCreate);
    ReachStep(Quiet(true, false, 1, map[], ToPoll(1)), AcceptPoll);
    assert Reachable(Quiet(true, true, 1, map[], Asleep(1)));
    WakesExactly(Quiet(true, true, 1, map[], Asleep(1)));
  }

  /** The listener is closed and its acceptor is registered for a wake-up. */
  predicate Dozing(s: State) {
    s.shared.closed && s.acceptor.Asleep? && s.shared.waiter
  }

  ghost predicate Wakes(s: State, run: seq<Action>, t: State) {
    IsRun(s, run, t) && !t.shared.waiter
  }

  ghost predicate CanWake(s: State) {
    exists run, t :: Wakes(s, run, t)
  }

  /** Some call in progress has a notification still to give. */
  predicate Rousing(s: State) {
    Closing(s) || Owed(s) || PastLoad(s)
  }

  lemma DozingStays(s: State, a: Action)
    requires Dozing(s) && !Rousing(s) && Enabled(s, a)
    ensures Dozing(Step(s, a)) && !Rousing(Step(s, a))
  {
  }

  lemma {:induction false} DozingRun(s: State, run: seq<Action>, t: State)
    requires Dozing(s) && !Rousing(s) && IsRun(s, run, t)
    ensures Dozing(t)
    decreases |run|
  {
    if run != [] {
      DozingStays(s, run[0]);
      hide Step, Enabled, Rousing, Dozing;
      DozingRun(Step(s, run[0]), run[1..], t);
    }
  }

  lemma WakeByOne(s: State, a: Action)
    requires Enabled(s, a) && !Step(s, a).shared.waiter
    ensures CanWake(s)
  {
    hide IsRun, Enabled, Step;
    RunNothing(Step(s, a));
    RunCons(s, a, [], Step(s, a));
    assert Wakes(s, [a] + [], Step(s, a));
  }

  lemma WakeBefore(s: State, a: Action)
    requires Enabled(s, a) && CanWake(Step(s, a))
    ensures CanWake(s)
  {
    hide IsRun, Enabled, Step;
    var run, t :| Wakes(Step(s, a), run, t);
    RunCons(s, a, run, t);
    assert Wakes(s, [a] + run, t);
  }

  lemma OwedWakes(s: State)
    requires Dozing(s) && Owed(s)
    ensures CanWake(s)
  {
    var c :| c in s.adds && s.adds[c] == ToNotify;
    hide CanWake;
    WakeByOne(s, AddNotify(c));
  }

  lemma ClosingWakes(s: State)
    requires Dozing(s) && Closing(s)
    ensures CanWake(s)
  {
    var k :| k in s.closes && s.closes[k] != ToSwap;
    hide CanWake;
    if s.closes[k] == ToBroadcast {
      WakeByOne(s, CloseBroadcast(k));
    } else {
      WakeByOne(Step(s, CloseClear(k)), CloseBroadcast(k));
      WakeBefore(s, CloseClear(k));
    }
  }

  lemma PastLoadWakes(s: State)
    requires Dozing(s) && PastLoad(s) && WakeInv(s)
    ensures CanWake(s)
  {
    hide CanWake;
    if Owed(s) {
      OwedWakes(s);
    } else {
      var c :| c in s.adds && s.adds[c] == ToPush;
      assert s.shared.buffer == [];
      var t := Step(s, AddPush(c));
      assert t.adds[c] == ToNotify;
      OwedWakes(t);
      WakeBefore(s, AddPush(c));
    }
  }

  /**
   The sleeping acceptor of a closed listener can still be woken if and only if a close has not broadcast yet, or
   an add is on its way that saw the listener open. Otherwise its accept never returns.
   */
  lemma {:induction false} WakesExactly(s: State)
    requires Reachable(s) && Dozing(s)
    ensures CanWake(s) <==> Rousing(s)
  {
    ReachableInv(s);
    hide CanWake, Reachable;
    if Closing(s) {
      ClosingWakes(s);
    } else if Owed(s) {
      OwedWakes(s);
    } else if PastLoad(s) {
      PastLoadWakes(s);
    } else {
      NeverWakes(s);
    }
  }

  lemma NeverWakes(s: State)
    requires Dozing(s) && !Rousing(s)
    ensures !CanWake(s)
  {
    hide IsRun, Rousing;
    forall run, t
      ensures !Wakes(s, run, t)
    {
      if IsRun(s, run, t) {
        DozingRun(s, run, t);
      }
    }
  }

  // ---- connections that enter after the close ----

  /** Some add has seen the listener open and still has to push. */
  predicate PastLoad(s: State) {
    exists c | c in s.adds :: s.adds[c] == ToPush
  }

  lemma ClosedStaysEmpty(s: State, a: Action)
    requires s.shared.closed && s.shared.buffer == [] && !PastLoad(s) && Enabled(s, a)
    ensures var t := Step(s, a); t.shared.closed && t.shared.buffer == [] && !PastLoad(t)
  {
  }

  lemma {:induction false} ClosedRunEmpty(s: State, run: seq<Action>, t: State)
    requires s.shared.closed && s.shared.buffer == [] && !PastLoad(s) && IsRun(s, run, t)
    ensures t.shared.buffer == []
    decreases |run|
  {
    if run != [] {
      ClosedStaysEmpty(s, run[0]);
      hide Step, Enabled, PastLoad;
      ClosedRunEmpty(Step(s, run[0]), run[1..], t);
    }
  }

  ghost predicate EndsQueued(s: State, run: seq<Action>, t: State) {
    IsRun(s, run, t) && t.shared.buffer != []
  }

  /**
   Of a listener whose queue a close has emptied: a connection can still enter it, and stay unanswered, if and
   only if some add loaded the flag before the close set it and has not pushed yet.
   */
  lemma {:induction false} QueueAfterClose(s: State)
    requires s.shared.closed && s.shared.buffer == []
    ensures (exists run, t :: EndsQueued(s, run, t)) <==> PastLoad(s)
  {
    hide IsRun;
    if PastLoad(s) {
      var c :| c in s.adds && s.adds[c] == ToPush;
      var t := Step(s, AddPush(c));
      RunNothing(t);
      RunCons(s, AddPush(c), [], t);
      assert EndsQueued(s, [AddPush(c)] + [], t);
    } else {
      forall run, t
        ensures !EndsQueued(s, run, t)
      {
        if IsRun(s, run, t) {
          ClosedRunEmpty(s, run, t);
        }
      }
    }
  }

  /** One add and one closer, with the connection in this phase and this queue. */
  function Late(shared: Shared, adds: map<Conn, AddPhase>, closes: map<nat, ClosePhase>, pushes: seq<Conn>): State {
    Init().(shared := shared, adds := adds, closes := closes, pushes := pushes, started := {0})
  }

  lemma LoadedReachable()
    ensures Reachable(Late(Init().shared, map[0 := ToPush], map[], []))
  {
    hide Reachable;
    InitReachable();
    assert map[0 := ToLoad][0 := ToPush] == map[0 := ToPush];
    assert {} + {0} == {0};
    ReachStep(Init(), AddBegin(0));
    ReachStep(Late(Init().shared, map[0 := ToLoad], map[], []), AddLoad(0));
  }

  lemma LoadedThenClosedReachable()
    ensures Reachable(Late(Shared([], true, false, false, 1), map[0 := ToPush], map[], []))
  {
    hide Reachable;
    LoadedReachable();
    var adds := map[0 := ToPush];
    assert Init().log + Marked([]) == [];
    assert map[0 := ToSwap][0 := ToClear] == map[0 := ToClear];
    assert map[0 := ToClear][0 := ToBroadcast] == map[0 := ToBroadcast];
    ReachStep(Late(Init().shared, adds, map[], []), CloseBegin(0));
    ReachStep(Late(Init().shared, adds, map[0 := ToSwap], []), CloseSwap(0));
    ReachStep(Late(Shared([], true, false, false, 0), adds, map[0 := ToClear], []), CloseClear(0));
    ReachStep(Late(Shared([], true, false, false, 0), adds, map[0 := ToBroadcast], []), CloseBroadcast(0));
    assert map[0 := ToBroadcast] - {0} == map[];
  }

  /** It happens: all calls are over, the listener is closed, and a connection is queued that nobody will take. */
  lemma QueuedInClosed()
    ensures exists s :: Reachable(s) && s.shared.closed && s.shared.buffer == [0]
                        && s.adds == map[] && s.closes == map[] && s.acceptor.Idle?
  {
    hide Reachable;
    LoadedThenClosedReachable();
    assert map[0 := ToPush][0 := ToNotify] == map[0 := ToNotify];
    assert [] + [0] == [0];
    ReachStep(Late(Shared([], true, false, false, 1), map[0 := ToPush], map[], []), AddPush(0));
    ReachStep(Late(Shared([0], true, false, false, 1), map[0 := ToNotify], map[], [0]), AddNotify(0));
    assert map[0 := ToNotify] - {0} == map[];
    assert Reachable(Late(Shared([0], true, true, false, 1), map[], map[], [0]));
  }

  // ---- the operations by themselves ----

  /** Four actions in a row, those that do not apply left out. */
  function Four(s: State, a: Action, b: Action, c: Action, d: Action): State {
    var s1 := if Enabled(s, a) then Step(s, a) else s;
    var s2 := if Enabled(s1, b) then Step(s1, b) else s1;
    var s3 := if Enabled(s2, c) then Step(s2, c) else s2;
    if Enabled(s3, d) then Step(s3, d) else s3
  }

  lemma FourScheduled(s: State, a: Action, b: Action, c: Action, d: Action)
    ensures Scheduled(s, [a, b, c, d]) == Four(s, a, b, c, d)
  {
    hide Step, Enabled, Scheduled;
    assert [a, b, c, d] == [a, b, c] + [d] && [a, b, c] == [a, b] + [c] && [a, b] == [a] + [b] && [a] == [] + [a];
    ScheduledSnoc(s, [], a);
    ScheduledSnoc(s, [a], b);
    ScheduledSnoc(s, [a, b], c);
    ScheduledSnoc(s, [a, b, c], d);
  }

  lemma ScheduledSnoc(s: State, schedule: seq<Action>, a: Action)
    ensures Scheduled(s, []) == s
    ensures var t := Scheduled(s, schedule); Scheduled(s, schedule + [a]) == if Enabled(t, a) then Step(t, a) else t
  {
    hide Step, Enabled;
    assert (schedule + [a])[..|schedule|] == schedule;
  }

  /** Wakes the registered waiter, or else leaves the one permit. */
  predicate Notified(before: Shared, after: Shared) {
    after.broadcasts == before.broadcasts && !after.waiter && (after.permit <==> before.permit || !before.waiter)
  }

  /**
   An add nobody interferes with: refused by a closed listener and by four queued connections, and otherwise queued
   last, with one notification.
   */
  lemma AddAlone(s: State, c: Conn)
    requires c !in s.started && c !in s.adds
    ensures
      var t := Scheduled(s, [AddBegin(c), AddLoad(c), AddPush(c), AddNotify(c)]);
      && t.started == s.started + {c} && t.adds == s.adds && t.acceptor == s.acceptor && t.closes == s.closes
      && t.accepted == s.accepted && t.log == s.log && t.shared.closed == s.shared.closed
      && if s.shared.closed || |s.shared.buffer| >= 4 then
           t.dropped == s.dropped + {c} && t.shared == s.shared && t.pushes == s.pushes
         else
           && t.dropped == s.dropped && t.shared.buffer == s.shared.buffer + [c] && t.pushes == s.pushes + [c]
           && Notified(s.shared, t.shared)
  {
    FourScheduled(s, AddBegin(c), AddLoad(c), AddPush(c), AddNotify(c));
    assert s.adds[c := ToLoad] - {c} == s.adds;
    assert s.adds[c := ToLoad][c := ToPush] - {c} == s.adds;
    assert s.adds[c := ToLoad][c := ToPush][c := ToNotify] - {c} == s.adds;
  }

  /** A close by itself: nothing if already closed, and otherwise the queue is emptied and a waiter is woken. */
  lemma CloseAlone(s: State, k: nat)
    requires k !in s.closes
    ensures
      var t := Scheduled(s, [CloseBegin(k), CloseSwap(k), CloseClear(k), CloseBroadcast(k)]);
      && t.closes == s.closes && t.adds == s.adds && t.acceptor == s.acceptor && t.accepted == s.accepted
      && t.dropped == s.dropped && t.pushes == s.pushes && t.started == s.started
      && if s.shared.closed then t.shared == s.shared && t.log == s.log
         else
           && t.shared.closed && t.shared.buffer == [] && !t.shared.waiter && t.shared.permit == s.shared.permit
           && |t.log| == |s.log| + |s.shared.buffer| && t.log[..|s.log|] == s.log
           && forall i | 0 <= i < |s.shared.buffer| :: t.log[|s.log| + i] == (s.shared.buffer[i], Cleared)
  {
    FourScheduled(s, CloseBegin(k), CloseSwap(k), CloseClear(k), CloseBroadcast(k));
    assert s.closes[k := ToSwap] - {k} == s.closes;
    assert s.closes[k := ToSwap][k := ToClear][k := ToBroadcast] - {k} == s.closes;
  }

  /**
   One pass of accept by itself: nothing from a closed listener, else the oldest connection, else a wait, which a
   permit ends at once, using it up.
   */
  lemma AcceptAlone(s: State)
    requires s.acceptor.Idle?
    ensures
      var t := Scheduled(s, [AcceptBegin, AcceptCheck, AcceptPop, AcceptCreate]);
      if s.shared.closed then t == s
      else if s.shared.buffer != [] then
        && t.acceptor.Idle? && t.accepted == s.accepted + [s.shared.buffer[0]]
        && t.shared == s.shared.(buffer := s.shared.buffer[1..])
      else t.acceptor == ToPoll(s.shared.broadcasts) && t.shared == s.shared && t.accepted == s.accepted
  {
    FourScheduled(s, AcceptBegin, AcceptCheck, AcceptPop, AcceptCreate);
  }

  lemma PollAlone(s: State)
    requires s.acceptor.ToPoll?
    ensures
      var t := Step(s, AcceptPoll);
      && (s.shared.permit ==> t.acceptor == ToCheck && !t.shared.permit && t.shared.waiter == s.shared.waiter)
      && (!s.shared.permit && s.acceptor.seen == s.shared.broadcasts ==> t.acceptor.Asleep? && t.shared.waiter && !t.shared.permit)
      && (!s.shared.permit && s.acceptor.seen != s.shared.broadcasts ==> t.acceptor == ToCheck && t.shared == s.shared)
  {
  }

  // ---- nothing is handed out after the close ----

  lemma ClosedAccepts(s: State, a: Action)
    requires s.shared.closed && s.acceptor != ToPop && Enabled(s, a)
    ensures var t := Step(s, a); t.shared.closed && t.acceptor != ToPop && t.accepted == s.accepted
  {
  }

  /** Once the listener is closed, accept returns nothing more, except for a call that has already looked at the flag. */
  lemma {:induction false} NothingAfterClose(s: State, run: seq<Action>, t: State)
    requires s.shared.closed && s.acceptor != ToPop && IsRun(s, run, t)
    ensures t.accepted == s.accepted
    decreases |run|
  {
    if run != [] {
      ClosedAccepts(s, run[0]);
      hide Step, Enabled;
      NothingAfterClose(Step(s, run[0]), run[1..], t);
    }
  }
}
