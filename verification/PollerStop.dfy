/** Stopping a poller: the flag goes up, the context of the calls is cancelled, and Stop returns once
    nothing that was counted runs any more. Exactly which work can still start, and when. */
module PollerStop {
  import opened Poller

  /** A call that has passed its test of the stop flag and can still start a worker: it holds a claim, or
      it is about to claim a row that is still pending and its context is not cancelled. */
  predicate StillStarts(s: State, pc: Caller) {
    match pc
    case Claiming(_, found, i) => !s.cancelled && i < |found| && IsPending(s, found[i])
    case Acquire(_, _, _) => true
    case Count(_, _, _) => true
    case _ => false
  }

  /** Every row that a call has found is in the table. */
  predicate Known(s: State, pc: Caller) {
    InLoop(pc) ==> InTable(s, pc.found)
  }

  lemma FoundStep(max: nat, s: State, pc: Caller, move: Move)
    requires CanMove(max, s, pc, move) && Known(s, pc)
    ensures Known(s, PcAfter(max, s, pc, move))
  {
    hide InTable, IsPending;
  }

  lemma KnownLater(s: State, t: State, pc: Caller)
    requires Known(s, pc) && forall id :: NotBack(s, t, id)
    ensures Known(t, pc)
  {
    if InLoop(pc) {
      forall id | id in pc.found ensures id in t.table {
        assert NotBack(s, t, id);
      }
    }
  }

  lemma KnownStep(max: nat, s: State, e: Event, t: State, c: nat)
    requires Next(max, s, e, t) && Known(s, Pc(s, c))
    ensures Known(t, Pc(t, c))
  {
    hide Next, CanMove, PcAfter, Known, NotBack;
    CallsStep(max, s, e, t, c);
    if e.Call? && e.c == c {
      FoundStep(max, s, Pc(s, c), e.move);
    }
    forall id ensures NotBack(s, t, id) {
      TableStep(max, s, e, t, id);
    }
    KnownLater(s, t, Pc(t, c));
  }

  lemma {:induction false} RunKnown(max: nat, s: seq<State>, e: seq<Event>, n: nat, c: nat)
    requires IsRun(max, s, e) && n < |s|
    ensures Known(s[n], Pc(s[n], c))
  {
    hide Next, Known;
    if n == 0 {
      InitialOutside(c);
      OutsideKnows(s[0]);
    } else {
      RunKnown(max, s, e, n - 1, c);
      KnownStep(max, s[n - 1], e[n - 1], s[n], c);
    }
  }

  lemma OutsideKnows(s: State)
    ensures Known(s, Outside)
  {
  }

  // ----- Once no call can start work

  /** The flag is up, and no call is left that can start a worker. */
  ghost predicate Closed(s: State) {
    s.stopped && forall c :: Known(s, Pc(s, c)) && !StillStarts(s, Pc(s, c))
  }

  lemma CallFlags(max: nat, s: State, pc: Caller, move: Move, t: State)
    requires CanMove(max, s, pc, move) && t == Effect(max, s, pc, move)
    ensures t.stopped == s.stopped && t.cancelled == s.cancelled
  {
    hide InTable, IsPending;
  }

  lemma FlagsStep(max: nat, s: State, e: Event, t: State)
    requires Next(max, s, e, t)
    ensures s.stopped ==> t.stopped
    ensures s.cancelled ==> t.cancelled
    ensures t.cancelled && !s.cancelled ==> e == StopCancel && s.stopped
    ensures e.StopReturn? ==> s.cancelled && t.cancelled && s.running == 0 && (e.waited ==> AllOutside(s))
  {
    hide CanMove, PcAfter, Effect, InTable, IsPending, AllOutside, Pc;
    if e.Call? {
      CallFlags(max, s, Pc(s, e.c), e.move, Effect(max, s, Pc(s, e.c), e.move));
    }
  }

  lemma MoveStaysClosed(max: nat, s: State, pc: Caller, move: Move)
    requires CanMove(max, s, pc, move) && s.stopped && !StillStarts(s, pc)
    ensures !StillStarts(s, PcAfter(max, s, pc, move)) && !move.Start?
  {
    hide InTable, IsPending;
  }

  lemma ClosedLater(s: State, t: State, pc: Caller)
    requires !StillStarts(s, pc) && Known(s, pc)
    requires (forall id :: NotBack(s, t, id)) && (s.cancelled ==> t.cancelled)
    ensures !StillStarts(t, pc)
  {
    if pc.Claiming? && pc.i < |pc.found| {
      assert pc.found[pc.i] in s.table;
      assert NotBack(s, t, pc.found[pc.i]);
    }
  }

  lemma StaysClosed(max: nat, s: State, e: Event, t: State)
    requires Next(max, s, e, t) && Closed(s)
    ensures Closed(t) && !(e.Call? && e.move.Start?) && t.executing <= s.executing && t.running <= s.running
  {
    hide Next, CanMove, PcAfter, StillStarts, Known, NotBack, Pc;
    FlagsStep(max, s, e, t);
    CountersStep(max, s, e, t);
    forall id ensures NotBack(s, t, id) {
      TableStep(max, s, e, t, id);
    }
    if e.Call? {
      CallsStep(max, s, e, t, e.c);
      MoveStaysClosed(max, s, Pc(s, e.c), e.move);
    }
    forall c ensures Known(t, Pc(t, c)) && !StillStarts(t, Pc(t, c)) {
      KnownStep(max, s, e, t, c);
      CallsStep(max, s, e, t, c);
      if e.Call? && e.c == c {
        FoundStep(max, s, Pc(s, c), e.move);
      }
      ClosedLater(s, t, Pc(t, c));
    }
  }

  lemma {:induction false} ClosedForGood(max: nat, a: State, s: seq<State>, e: seq<Event>, n: nat)
    requires Continues(max, a, s, e) && Closed(a) && n < |s|
    ensures Closed(s[n]) && s[n].executing <= a.executing && s[n].running <= a.running
    ensures n < |e| ==> !(e[n].Call? && e[n].move.Start?)
  {
    hide Next, Closed;
    if n > 0 {
      ClosedForGood(max, a, s, e, n - 1);
      StaysClosed(max, s[n - 1], e[n - 1], s[n]);
    }
    if n < |e| {
      StaysClosed(max, s[n], e[n], s[n + 1]);
    }
  }

  // ----- Exactly when work can still start

  /** A worker is started on some way onward. */
  ghost predicate CanStart(max: nat, a: State) {
    exists s: seq<State>, e: seq<Event>, k ::
      Continues(max, a, s, e) && 0 <= k < |e| && e[k].Call? && e[k].move.Start?
  }

  /** The next step of a call that still starts: from a slot held one step starts a worker, from a claim
      two, and from a row still to be claimed three. */
  function NextMove(pc: Caller): Move {
    if pc.Count? then Start else if pc.Acquire? then TakeSlot else Claim
  }

  lemma Onward(max: nat, s: State, pc: Caller)
    requires StillStarts(s, pc) && (pc.Acquire? ==> s.slotsHeld < max)
    ensures CanMove(max, s, pc, NextMove(pc))
    ensures !pc.Count? ==> StillStarts(s, PcAfter(max, s, pc, NextMove(pc)))
    ensures pc.Claiming? ==> PcAfter(max, s, pc, NextMove(pc)).Acquire?
    ensures pc.Acquire? ==> PcAfter(max, s, pc, NextMove(pc)).Count?
  {
  }

  lemma StartFrom(max: nat, a: State, c: nat) returns (s: seq<State>, e: seq<Event>)
    requires Inv(max, a) && StillStarts(a, Pc(a, c))
    ensures Continues(max, a, s, e) && e != [] && e[|e| - 1].Call? && e[|e| - 1].move.Start?
    decreases if Pc(a, c).Claiming? then 2 else if Pc(a, c).Acquire? then 1 else 0
  {
    hide Inv, Continues, CanMove, PcAfter, Effect;
    var pc := Pc(a, c);
    if pc.Acquire? {
      FreeSlot(max, a, c);
    }
    Onward(max, a, pc);
    var f, b := Call(c, NextMove(pc)), At(Effect(max, a, pc, NextMove(pc)), c, PcAfter(max, a, pc, NextMove(pc)));
    assert Next(max, a, f, b);
    CallsStep(max, a, f, b, c);
    if pc.Count? {
      OneStep(max, a, f, b);
      s, e := [a, b], [f];
    } else {
      InvStep(max, a, f, b);
      var s1, e1 := StartFrom(max, b, c);
      Prepend(max, a, f, b, s1, e1);
      s, e := [a] + s1, [f] + e1;
    }
  }

  lemma OneStep(max: nat, a: State, f: Event, b: State)
    requires Next(max, a, f, b)
    ensures Continues(max, a, [a, b], [f])
  {
    hide Next;
  }

  lemma Prepend(max: nat, a: State, f: Event, b: State, s: seq<State>, e: seq<Event>)
    requires Next(max, a, f, b) && Continues(max, b, s, e)
    ensures Continues(max, a, [a] + s, [f] + e)
  {
    hide Next;
    forall k | 0 <= k < |[f] + e| ensures Next(max, ([a] + s)[k], ([f] + e)[k], ([a] + s)[k + 1]) {
      if k > 0 {
        assert Next(max, s[k - 1], e[k - 1], s[k]);
      }
    }
  }

  /** Once the flag is up, work can still start exactly when some call has passed its test of the flag and
      is about to take its slot, about to start its worker, or, as long as Stop has not cancelled, about to
      claim a row that is still pending. */
  lemma StartsAfterStopIff(max: nat, s: seq<State>, e: seq<Event>, n: nat)
    requires IsRun(max, s, e) && n < |s| && s[n].stopped
    ensures CanStart(max, s[n]) <==> exists c :: StillStarts(s[n], Pc(s[n], c))
  {
    hide Next, Inv, Known, StillStarts, Continues;
    RunInv(max, s, e, n);
    if c :| StillStarts(s[n], Pc(s[n], c)) {
      var t, f := StartFrom(max, s[n], c);
      assert f[|f| - 1].move.Start?;
    } else {
      forall c ensures Known(s[n], Pc(s[n], c)) && !StillStarts(s[n], Pc(s[n], c)) {
        RunKnown(max, s, e, n, c);
      }
      forall t: seq<State>, f: seq<Event>, k | Continues(max, s[n], t, f) && 0 <= k < |f|
        ensures !(f[k].Call? && f[k].move.Start?)
      {
        ContinuesLength(max, s[n], t, f);
        ClosedForGood(max, s[n], t, f, k);
      }
    }
  }

  lemma ContinuesLength(max: nat, a: State, s: seq<State>, e: seq<Event>)
    requires Continues(max, a, s, e)
    ensures |s| == |e| + 1
  {
  }

  lemma {:induction false} CancelledIsStopped(max: nat, s: seq<State>, e: seq<Event>, n: nat)
    requires IsRun(max, s, e) && n < |s| && s[n].cancelled
    ensures s[n].stopped
  {
    hide Next;
    if n > 0 {
      FlagsStep(max, s[n - 1], e[n - 1], s[n]);
      if s[n - 1].cancelled {
        CancelledIsStopped(max, s, e, n - 1);
      }
    }
  }

  predicate HasClaim(pc: Caller) {
    pc.Acquire? || pc.Count?
  }

  /** After the cancellation that leaves the calls that hold a claim. */
  lemma StartsAfterCancelIff(max: nat, s: seq<State>, e: seq<Event>, n: nat)
    requires IsRun(max, s, e) && n < |s| && s[n].cancelled
    ensures CanStart(max, s[n]) <==> exists c :: HasClaim(Pc(s[n], c))
  {
    hide Next, CanStart, Pc;
    CancelledIsStopped(max, s, e, n);
    StartsAfterStopIff(max, s, e, n);
    assert forall c :: StillStarts(s[n], Pc(s[n], c)) <==> HasClaim(Pc(s[n], c));
  }

  /** A Stop that returns without having waited leaves work to be started exactly when a call holds a
      claim at that time. */
  lemma StartsAfterReturnIff(max: nat, s: seq<State>, e: seq<Event>, m: nat)
    requires IsRun(max, s, e) && m < |e| && e[m].StopReturn?
    ensures CanStart(max, s[m + 1]) <==> exists c :: HasClaim(Pc(s[m], c))
  {
    hide Next, CanStart, Pc;
    var a, b := s[m], s[m + 1];
    assert Next(max, a, e[m], b);
    FlagsStep(max, a, e[m], b);
    StartsAfterCancelIff(max, s, e, m + 1);
    forall c ensures Pc(b, c) == Pc(a, c) {
      CallsStep(max, a, e[m], b, c);
    }
    if c :| HasClaim(Pc(a, c)) {
      assert HasClaim(Pc(b, c));
    } else {
      assert forall c :: !HasClaim(Pc(b, c));
    }
  }

  // ----- When nothing is left

  /** Once the flag is up, no call can still start work, and the counter reads 0, nothing executes, now or
      later. */
  lemma StopDrains(max: nat, s: seq<State>, e: seq<Event>, m: nat, n: nat)
    requires IsRun(max, s, e) && m <= n < |s|
    requires s[m].stopped && s[m].running == 0 && forall c :: !StillStarts(s[m], Pc(s[m], c))
    ensures s[n].stopped && s[n].executing == 0 && s[n].running == 0
    ensures forall c :: !StillStarts(s[n], Pc(s[n], c))
  {
    hide Next, Known, StillStarts, Exclusive, WithinSlots;
    forall c ensures Known(s[m], Pc(s[m], c)) {
      RunKnown(max, s, e, m, c);
    }
    RunInv(max, s, e, m);
    RunInv(max, s, e, n);
    assert Continues(max, s[m], s[m..], e[m..]);
    ClosedForGood(max, s[m], s[m..], e[m..], n - m);
  }

  /** A Stop that has waited for its poller leaves nothing behind: from its return on nothing executes. */
  lemma WaitingStopDrains(max: nat, s: seq<State>, e: seq<Event>, m: nat, n: nat)
    requires IsRun(max, s, e) && m < n < |s| && e[m] == StopReturn(true)
    ensures s[n].executing == 0 && s[n].running == 0
  {
    hide Next, StillStarts;
    FlagsStep(max, s[m], e[m], s[m + 1]);
    CancelledIsStopped(max, s, e, m);
    OutsideStartsNothing(s[m]);
    StopDrains(max, s, e, m, n);
  }

  lemma OutsideStartsNothing(s: State)
    ensures !StillStarts(s, Outside)
  {
  }

  // A run of the scheduler in which Stop comes when a call has claimed a row.
  const FOUND := ["a"]
  const R1 := INITIAL.(table := map["a" := Pending])
  const R2 := R1.(callers := map[0 := CheckStopped], isPolling := true)
  const R3 := R2.(callers := map[0 := LoadRunning])
  const R4 := R3.(callers := map[0 := Query(5)])
  const R5 := R4.(callers := map[0 := Loop(5, FOUND, 0)])
  const R6 := R5.(callers := map[0 := Claiming(5, FOUND, 0)])
  const R7 := R6.(callers := map[0 := Acquire(5, FOUND, 0)], table := map["a" := Running])
  const R8 := R7.(stopped := true)
  const R9 := R8.(cancelled := true)
  const R10 := R9.(returned := true)
  const R11 := R10.(callers := map[0 := Count(5, FOUND, 0)], slotsHeld := 1)
  const R12 := R11.(callers := map[0 := Loop(5, FOUND, 1)], running := 1, executing := 1)

  lemma RaceBegins()
    ensures Next(5, INITIAL, Insert("a"), R1) && Next(5, R1, Call(0, Enter), R2)
    ensures Next(5, R2, Call(0, SeeNotStopped), R3) && Next(5, R3, Call(0, Load), R4)
  {
    assert INITIAL.table["a" := Pending] == R1.table;
    assert R1.callers[0 := CheckStopped] == R2.callers;
    assert R2.callers[0 := LoadRunning] == R3.callers;
    assert R3.callers[0 := Query(5)] == R4.callers;
  }

  lemma RaceClaims()
    ensures Next(5, R4, Call(0, Found(FOUND)), R5) && Next(5, R5, Call(0, GoOn), R6)
    ensures Next(5, R6, Call(0, Claim), R7)
  {
    assert R4.callers[0 := Loop(5, FOUND, 0)] == R5.callers;
    assert R5.callers[0 := Claiming(5, FOUND, 0)] == R6.callers;
    assert R6.callers[0 := Acquire(5, FOUND, 0)] == R7.callers;
    assert R6.table["a" := Running] == R7.table;
  }

  lemma RaceStops()
    ensures Next(5, R7, StopFlag, R8) && Next(5, R8, StopCancel, R9) && Next(5, R9, StopReturn(false), R10)
  {
  }

  lemma RaceEnds()
    ensures Next(5, R10, Call(0, TakeSlot), R11) && Next(5, R11, Call(0, Start), R12)
  {
    assert R10.callers[0 := Count(5, FOUND, 0)] == R11.callers;
    assert R11.callers[0 := Loop(5, FOUND, 1)] == R12.callers;
  }

  /** The scheduler's Stop, which does not wait for its poller, can return while a call that has claimed a
      row is about to take a slot and start a worker. */
  lemma StopCanMissAPoll() returns (s: seq<State>, e: seq<Event>)
    ensures IsRun(5, s, e) && |s| == 13 && e[9] == StopReturn(false)
    ensures s[10].returned && s[10].running == 0 && s[10].executing == 0
    ensures s[12].returned && s[12].executing == 1
  {
    hide Next;
    s := [INITIAL, R1, R2, R3, R4, R5, R6, R7, R8, R9, R10, R11, R12];
    e := [Insert("a"), Call(0, Enter), Call(0, SeeNotStopped), Call(0, Load), Call(0, Found(FOUND)), Call(0, GoOn),
          Call(0, Claim), StopFlag, StopCancel, StopReturn(false), Call(0, TakeSlot), Call(0, Start)];
    RaceBegins();
    RaceClaims();
    RaceStops();
    RaceEnds();
  }
}
