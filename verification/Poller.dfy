/** The poll loop that the issue pipeline and the scheduler share: callers of `poll`, the workers that
    it starts, and Stop, interleaved one atomic operation at a time.
    Workers are counted rather than named: one is executing, or has given its semaphore slot back but
    not yet lowered `running`. Other processes that poll the same table appear as `OtherClaim`. For the
    scheduler an id stands for a schedule at one due time. */
module Poller {
  type Id = string

  datatype Status = Pending | Running | Ended

  /** Where one call of `poll` stands. */
  datatype Caller =
    | Outside
    | CheckStopped
    | LoadRunning
    | Query(slots: int)
    | Loop(slots: int, found: seq<Id>, i: nat)
    | Claiming(slots: int, found: seq<Id>, i: nat)
    | Acquire(slots: int, found: seq<Id>, i: nat)
    | Count(slots: int, found: seq<Id>, i: nat)
    | NoSlot(slots: int, found: seq<Id>, i: nat)
    | Leaving

  datatype State = State(
    table: map<Id, Status>,
    callers: map<nat, Caller>,
    isPolling: bool,
    stopped: bool,
    cancelled: bool,
    returned: bool,
    running: int,
    slotsHeld: nat,
    executing: nat,
    releasing: nat)

  /** One step of a call. */
  datatype Move =
    | Enter
    | SeeStopped
    | SeeNotStopped
    | Load
    | Found(ids: seq<Id>)
    | Exit
    | GoOn
    | Claim
    | MissClaim
    | TakeSlot
    | FindNoSlot
    | MarkNoSlot
    | Start
    | Leave

  datatype Event =
    | Call(c: nat, move: Move)
    | ReleaseSlot
    | LowerRunning
    | StopFlag
    | StopCancel
    | StopReturn(waited: bool)
    | Insert(id: Id)
    | OtherClaim(id: Id)
    | End(id: Id)

  function Pc(s: State, c: nat): Caller {
    if c in s.callers then s.callers[c] else Outside
  }

  function At(s: State, c: nat, pc: Caller): State {
    s.(callers := s.callers[c := pc])
  }

  predicate InTable(s: State, ids: seq<Id>) {
    forall id :: id in ids ==> id in s.table
  }

  predicate IsPending(s: State, id: Id) {
    id in s.table && s.table[id] == Pending
  }

  ghost predicate AllOutside(s: State) {
    forall c :: Pc(s, c) == Outside
  }

  // ----- The steps of a call

  predicate CanMove(max: nat, s: State, pc: Caller, move: Move) {
    match move
    case Enter => pc == Outside
    case SeeStopped => pc == CheckStopped && s.stopped
    case SeeNotStopped => pc == CheckStopped && !s.stopped
    case Load => pc == LoadRunning
    // a query or a statement fails once its context is cancelled
    case Found(ids) => pc.Query? && !s.cancelled && InTable(s, ids)
    // the query failed, the list or the slots are used up, or Stop was called
    case Exit => pc.Query? || (pc.Loop? && (s.stopped || pc.i >= |pc.found| || pc.i >= pc.slots))
    case GoOn => pc.Loop? && pc.i < |pc.found| && !s.stopped && pc.i < pc.slots
    case Claim => pc.Claiming? && !s.cancelled && pc.i < |pc.found| && IsPending(s, pc.found[pc.i])
    // another poller was first, or the statement failed
    case MissClaim => pc.Claiming?
    case TakeSlot => pc.Acquire? && s.slotsHeld < max
    case FindNoSlot => pc.Acquire? && s.slotsHeld >= max
    case MarkNoSlot => pc.NoSlot? && pc.i < |pc.found|
    case Start => pc.Count?
    case Leave => pc == Leaving
  }

  /** Where the call stands afterwards. */
  function PcAfter(max: nat, s: State, pc: Caller, move: Move): Caller
    requires CanMove(max, s, pc, move)
  {
    match move
    case Enter => if s.isPolling then Outside else CheckStopped
    case SeeStopped => Leaving
    case SeeNotStopped => LoadRunning
    case Load => if max - s.running <= 0 then Leaving else Query(max - s.running)
    case Found(ids) => Loop(pc.slots, ids, 0)
    case Exit => Leaving
    case GoOn => Claiming(pc.slots, pc.found, pc.i)
    case Claim => Acquire(pc.slots, pc.found, pc.i)
    case MissClaim => Loop(pc.slots, pc.found, pc.i + 1)
    case TakeSlot => Count(pc.slots, pc.found, pc.i)
    case FindNoSlot => NoSlot(pc.slots, pc.found, pc.i)
    case MarkNoSlot => Loop(pc.slots, pc.found, pc.i + 1)
    case Start => Loop(pc.slots, pc.found, pc.i + 1)
    case Leave => Outside
  }

  /** What the step does to the rest of the state. */
  function Effect(max: nat, s: State, pc: Caller, move: Move): (t: State)
    requires CanMove(max, s, pc, move)
    ensures t.callers == s.callers
  {
    match move
    case Enter => s.(isPolling := true)
    case Claim => s.(table := s.table[pc.found[pc.i] := Running])
    case TakeSlot => s.(slotsHeld := s.slotsHeld + 1)
    case MarkNoSlot => s.(table := s.table[pc.found[pc.i] := Ended])
    case Start => s.(running := s.running + 1, executing := s.executing + 1)
    case Leave => s.(isPolling := false)
    case _ => s
  }

  // ----- The steps of workers, of Stop, and of others on the table

  ghost predicate CanDo(s: State, e: Event) {
    match e
    case Call(_, _) => false
    case ReleaseSlot => s.executing > 0 && s.slotsHeld > 0
    case LowerRunning => s.releasing > 0
    case StopFlag => true
    case StopCancel => s.stopped
    // the counter reads 0, or all that was counted has finished; the pipeline's Stop has waited for its
    // poller before, the scheduler's has not
    case StopReturn(waited) => s.cancelled && s.running == 0 && (waited ==> AllOutside(s))
    case Insert(id) => id !in s.table
    case OtherClaim(id) => IsPending(s, id)
    case End(id) => id in s.table && s.table[id] == Running
  }

  ghost function Do(s: State, e: Event): (t: State)
    requires CanDo(s, e)
    ensures t.callers == s.callers
  {
    match e
    case Call(_, _) => s
    case ReleaseSlot =>
      s.(executing := s.executing - 1, releasing := s.releasing + 1, slotsHeld := s.slotsHeld - 1)
    case LowerRunning => s.(releasing := s.releasing - 1, running := s.running - 1)
    case StopFlag => s.(stopped := true)
    case StopCancel => s.(cancelled := true)
    case StopReturn(_) => s.(returned := true)
    case Insert(id) => s.(table := s.table[id := Pending])
    case OtherClaim(id) => s.(table := s.table[id := Running])
    case End(id) => s.(table := s.table[id := Ended])
  }

  ghost predicate Next(max: nat, s: State, e: Event, t: State) {
    if e.Call? then
      && CanMove(max, s, Pc(s, e.c), e.move)
      && t == At(Effect(max, s, Pc(s, e.c), e.move), e.c, PcAfter(max, s, Pc(s, e.c), e.move))
    else
      CanDo(s, e) && t == Do(s, e)
  }

  const INITIAL := State(map[], map[], false, false, false, false, 0, 0, 0, 0)

  ghost predicate Continues(max: nat, a: State, s: seq<State>, e: seq<Event>) {
    |s| == |e| + 1 && s[0] == a && forall k :: 0 <= k < |e| ==> Next(max, s[k], e[k], s[k + 1])
  }

  ghost predicate IsRun(max: nat, s: seq<State>, e: seq<Event>) {
    Continues(max, INITIAL, s, e)
  }

  /** Where calls stand after an event: only the one that moves can have changed. */
  lemma CallsStep(max: nat, s: State, e: Event, t: State, c: nat)
    requires Next(max, s, e, t)
    ensures e.Call? && e.c == c ==> CanMove(max, s, Pc(s, c), e.move) && Pc(t, c) == PcAfter(max, s, Pc(s, c), e.move)
    ensures !(e.Call? && e.c == c) ==> Pc(t, c) == Pc(s, c)
  {
    hide CanMove, PcAfter, CanDo;
  }

  // ----- The invariant

  /** At most one call is inside `poll`, and the flag is up exactly while one is. */
  ghost predicate Exclusive(s: State) {
    && (forall c :: Pc(s, c) != Outside ==> s.isPolling)
    && (s.isPolling ==> exists c :: Pc(s, c) != Outside)
    && (forall c, d :: Pc(s, c) != Outside && Pc(s, d) != Outside ==> c == d)
  }

  /** A slot that was taken but not yet counted. */
  ghost predicate SlotUncounted(s: State) {
    exists c :: Pc(s, c).Count?
  }

  ghost predicate Balanced(s: State) {
    && s.running == s.executing + s.releasing
    && s.slotsHeld == s.executing + if SlotUncounted(s) then 1 else 0
  }

  /** What a call inside the loop may still start fits beside what runs. */
  ghost predicate WithinSlots(max: nat, running: int, pc: Caller) {
    match pc
    case Query(slots) => 0 < slots && running <= max - slots
    case Loop(slots, _, i) => i <= slots && running <= max - slots + i
    case Claiming(slots, _, i) => i < slots && running <= max - slots + i
    case Acquire(slots, _, i) => i < slots && running <= max - slots + i
    case Count(slots, _, i) => i < slots && running <= max - slots + i
    case NoSlot(_, _, _) => false
    case _ => true
  }

  ghost predicate Inv(max: nat, s: State) {
    && Exclusive(s)
    && Balanced(s)
    && s.slotsHeld <= max
    && s.running <= max
    && forall c :: WithinSlots(max, s.running, Pc(s, c))
  }

  lemma CallFlag(max: nat, s: State, pc: Caller, move: Move, t: State)
    requires CanMove(max, s, pc, move) && t == Effect(max, s, pc, move)
    ensures t.isPolling == if move.Enter? then true else if move.Leave? then false else s.isPolling
  {
    hide InTable, IsPending;
  }

  lemma FlagStep(max: nat, s: State, e: Event, t: State)
    requires Next(max, s, e, t)
    ensures t.isPolling == if e.Call? && e.move.Enter? then true else if e.Call? && e.move.Leave? then false else s.isPolling
  {
    hide CanMove, Effect, PcAfter, CanDo, Pc;
    if e.Call? {
      CallFlag(max, s, Pc(s, e.c), e.move, Effect(max, s, Pc(s, e.c), e.move));
    }
  }

  lemma InsideStep(max: nat, s: State, pc: Caller, move: Move)
    requires CanMove(max, s, pc, move)
    ensures pc == Outside <==> move.Enter?
    ensures PcAfter(max, s, pc, move) == Outside <==> move.Leave? || (move.Enter? && s.isPolling)
  {
    hide InTable, IsPending;
  }

  lemma ExclusiveStep(max: nat, s: State, e: Event, t: State)
    requires Next(max, s, e, t) && Exclusive(s)
    ensures Exclusive(t)
  {
    hide Next, Pc, CanMove, PcAfter;
    FlagStep(max, s, e, t);
    forall c ensures !(e.Call? && e.c == c) ==> Pc(t, c) == Pc(s, c) {
      CallsStep(max, s, e, t, c);
    }
    if e.Call? {
      CallsStep(max, s, e, t, e.c);
      InsideStep(max, s, Pc(s, e.c), e.move);
    } else if s.isPolling {
      var c :| Pc(s, c) != Outside;
      assert Pc(t, c) != Outside;
    }
  }

  function One(c: bool): nat {
    if c then 1 else 0
  }

  lemma CallCounters(max: nat, s: State, pc: Caller, move: Move, t: State)
    requires CanMove(max, s, pc, move) && t == Effect(max, s, pc, move)
    ensures t.running == s.running + One(move.Start?) && t.executing == s.executing + One(move.Start?)
    ensures t.slotsHeld == s.slotsHeld + One(move.TakeSlot?) && t.releasing == s.releasing
    ensures move.TakeSlot? ==> s.slotsHeld < max
  {
    hide InTable, IsPending;
  }

  lemma OtherCounters(s: State, e: Event, t: State)
    requires CanDo(s, e) && t == Do(s, e)
    ensures t.running - t.executing - t.releasing == s.running - s.executing - s.releasing
    ensures t.slotsHeld - t.executing == s.slotsHeld - s.executing
    ensures t.running <= s.running && t.slotsHeld <= s.slotsHeld && t.executing <= s.executing
  {
    hide InTable, IsPending, AllOutside;
  }

  lemma CountersStep(max: nat, s: State, e: Event, t: State)
    requires Next(max, s, e, t)
    ensures t.running - t.executing - t.releasing == s.running - s.executing - s.releasing
    ensures t.slotsHeld - t.executing
            == s.slotsHeld - s.executing + One(e.Call? && e.move.TakeSlot?) - One(e.Call? && e.move.Start?)
    ensures t.running <= s.running || (e.Call? && e.move.Start? && t.running == s.running + 1)
    ensures t.slotsHeld <= s.slotsHeld || (e.Call? && e.move.TakeSlot? && t.slotsHeld == s.slotsHeld + 1 <= max)
    ensures t.executing <= s.executing || (e.Call? && e.move.Start?)
  {
    hide CanMove, Effect, PcAfter, CanDo, Do, Pc;
    if e.Call? {
      CallCounters(max, s, Pc(s, e.c), e.move, Effect(max, s, Pc(s, e.c), e.move));
    } else {
      OtherCounters(s, e, t);
    }
  }

  lemma CountStep(max: nat, s: State, pc: Caller, move: Move)
    requires CanMove(max, s, pc, move)
    ensures PcAfter(max, s, pc, move).Count? <==> move.TakeSlot?
    ensures pc.Count? <==> move.Start?
  {
    hide InTable, IsPending;
  }

  lemma BalancedStep(max: nat, s: State, e: Event, t: State)
    requires Next(max, s, e, t) && Exclusive(s) && Balanced(s)
    ensures Balanced(t)
  {
    hide Next, Pc, CanMove, PcAfter;
    CountersStep(max, s, e, t);
    forall c ensures !(e.Call? && e.c == c) ==> Pc(t, c) == Pc(s, c) {
      CallsStep(max, s, e, t, c);
    }
    if e.Call? {
      CallsStep(max, s, e, t, e.c);
      CountStep(max, s, Pc(s, e.c), e.move);
      InsideStep(max, s, Pc(s, e.c), e.move);
      if e.move.TakeSlot? {
        assert Pc(t, e.c).Count?;
      }
      assert Pc(s, e.c) != Outside ==> (SlotUncounted(s) <==> Pc(s, e.c).Count?);
      assert Pc(s, e.c) == Outside ==> (SlotUncounted(t) <==> SlotUncounted(s));
      assert Pc(s, e.c) != Outside ==> (SlotUncounted(t) <==> Pc(t, e.c).Count?);
    } else {
      assert SlotUncounted(t) <==> SlotUncounted(s);
    }
  }

  lemma WithinStep(max: nat, s: State, pc: Caller, move: Move)
    requires CanMove(max, s, pc, move) && WithinSlots(max, s.running, pc) && s.running <= max
    requires pc.Acquire? ==> s.slotsHeld < max
    ensures WithinSlots(max, s.running + One(move.Start?), PcAfter(max, s, pc, move))
    ensures move.Start? ==> s.running + 1 <= max
  {
    hide InTable, IsPending;
  }

  lemma WithinLess(max: nat, running: int, less: int, pc: Caller)
    requires WithinSlots(max, running, pc) && less <= running
    ensures WithinSlots(max, less, pc)
  {
  }

  lemma OutsideWithin(max: nat, running: int)
    ensures WithinSlots(max, running, Outside)
  {
  }

  /** Whenever a call is about to take a slot, one is free. */
  lemma FreeSlot(max: nat, s: State, c: nat)
    requires Inv(max, s) && Pc(s, c).Acquire?
    ensures s.slotsHeld < max
  {
    assert WithinSlots(max, s.running, Pc(s, c));
    assert !SlotUncounted(s);
  }

  lemma SlotsStep(max: nat, s: State, e: Event, t: State)
    requires Next(max, s, e, t) && Inv(max, s)
    ensures t.slotsHeld <= max && t.running <= max
    ensures forall c :: WithinSlots(max, t.running, Pc(t, c))
  {
    hide Next, Pc, CanMove, PcAfter, WithinSlots, Balanced;
    CountersStep(max, s, e, t);
    if e.Call? {
      CallsStep(max, s, e, t, e.c);
      InsideStep(max, s, Pc(s, e.c), e.move);
      if Pc(s, e.c).Acquire? {
        FreeSlot(max, s, e.c);
      }
      WithinStep(max, s, Pc(s, e.c), e.move);
      WithinLess(max, s.running + One(e.move.Start?), t.running, Pc(t, e.c));
    }
    forall c ensures WithinSlots(max, t.running, Pc(t, c)) {
      CallsStep(max, s, e, t, c);
      if !(e.Call? && e.c == c) {
        if t.running <= s.running {
          WithinLess(max, s.running, t.running, Pc(t, c));
        } else {
          CountStep(max, s, Pc(s, e.c), e.move);
          assert Pc(t, c) == Outside;
          OutsideWithin(max, t.running);
        }
      }
    }
  }

  lemma InvStep(max: nat, s: State, e: Event, t: State)
    requires Next(max, s, e, t) && Inv(max, s)
    ensures Inv(max, t)
  {
    hide Next, Exclusive, Balanced, WithinSlots;
    ExclusiveStep(max, s, e, t);
    BalancedStep(max, s, e, t);
    SlotsStep(max, s, e, t);
  }

  lemma InitialOutside(c: nat)
    ensures Pc(INITIAL, c) == Outside
  {
  }

  lemma OutsideInv(max: nat, s: State)
    requires AllOutside(s) && !s.isPolling && s.running == s.executing == s.releasing == s.slotsHeld == 0
    ensures Inv(max, s)
  {
    hide Pc;
    OutsideWithin(max, 0);
  }

  lemma InitialInv(max: nat)
    ensures Inv(max, INITIAL)
  {
    hide Inv, Pc;
    forall c ensures Pc(INITIAL, c) == Outside { InitialOutside(c); }
    OutsideInv(max, INITIAL);
  }

  lemma {:induction false} RunInv(max: nat, s: seq<State>, e: seq<Event>, n: nat)
    requires IsRun(max, s, e) && n < |s|
    ensures Inv(max, s[n])
  {
    hide Next, Inv;
    if n == 0 {
      InitialInv(max);
    } else {
      RunInv(max, s, e, n - 1);
      InvStep(max, s[n - 1], e[n - 1], s[n]);
    }
  }

  // ----- What it gives

  lemma SlotAlwaysFree(max: nat, s: seq<State>, e: seq<Event>, n: nat, c: nat)
    requires IsRun(max, s, e) && n < |s| && Pc(s[n], c).Acquire?
    ensures s[n].slotsHeld < max
  {
    hide Next, Inv;
    RunInv(max, s, e, n);
    FreeSlot(max, s[n], c);
  }

  /** At every moment of every run at most `max` workers execute, the counter and the held slots stay
      within bounds, and no call ever finds the semaphore full. */
  lemma ConcurrencyBounded(max: nat, s: seq<State>, e: seq<Event>, n: nat)
    requires IsRun(max, s, e) && n < |s|
    ensures s[n].executing <= s[n].slotsHeld <= max
    ensures s[n].executing <= s[n].running <= max
    ensures forall c :: !Pc(s[n], c).NoSlot?
    ensures n < |e| ==> !(e[n].Call? && e[n].move.FindNoSlot?)
  {
    hide Next, Pc;
    RunInv(max, s, e, n);
    forall c ensures !Pc(s[n], c).NoSlot? {
      assert WithinSlots(max, s[n].running, Pc(s[n], c));
    }
    if n < |e| && e[n].Call? && e[n].move.FindNoSlot? {
      assert Next(max, s[n], e[n], s[n + 1]);
      CallsStep(max, s[n], e[n], s[n + 1], e[n].c);
      SlotAlwaysFree(max, s, e, n, e[n].c);
    }
  }

  // ----- Claims

  predicate ClaimsId(s: State, e: Event, id: Id) {
    match e
    case Call(c, Claim) => Pc(s, c).Claiming? && Pc(s, c).i < |Pc(s, c).found| && Pc(s, c).found[Pc(s, c).i] == id
    case OtherClaim(x) => x == id
    case _ => false
  }

  predicate NotBack(s: State, t: State, id: Id) {
    id in s.table ==> id in t.table && (s.table[id] != Pending ==> t.table[id] != Pending)
  }

  lemma CallTable(max: nat, s: State, pc: Caller, move: Move, t: State, id: Id)
    requires CanMove(max, s, pc, move) && t == Effect(max, s, pc, move)
    ensures NotBack(s, t, id)
  {
    hide InTable;
  }

  lemma OtherTable(s: State, e: Event, t: State, id: Id)
    requires CanDo(s, e) && t == Do(s, e)
    ensures NotBack(s, t, id)
  {
    hide InTable, AllOutside;
  }

  /** Rows stay, and what has left pending does not come back to it. */
  lemma TableStep(max: nat, s: State, e: Event, t: State, id: Id)
    requires Next(max, s, e, t)
    ensures NotBack(s, t, id)
  {
    hide CanMove, Effect, PcAfter, CanDo, Do, Pc;
    if e.Call? {
      CallTable(max, s, Pc(s, e.c), e.move, Effect(max, s, Pc(s, e.c), e.move), id);
    } else {
      OtherTable(s, e, t, id);
    }
  }

  lemma ClaimStep(max: nat, s: State, e: Event, t: State, id: Id)
    requires Next(max, s, e, t) && ClaimsId(s, e, id)
    ensures IsPending(s, id) && id in t.table && t.table[id] == Running
  {
    hide InTable, AllOutside;
  }

  lemma {:induction false} NeverPendingAgain(max: nat, s: seq<State>, e: seq<Event>, m: nat, n: nat, id: Id)
    requires IsRun(max, s, e) && m <= n < |s|
    requires id in s[m].table && s[m].table[id] != Pending
    ensures id in s[n].table && s[n].table[id] != Pending
    decreases n
  {
    hide Next;
    if m < n {
      NeverPendingAgain(max, s, e, m, n - 1, id);
      TableStep(max, s[n - 1], e[n - 1], s[n], id);
    }
  }

  /** A pipeline goes from pending to running at most once, whichever pollers race for it. */
  lemma ClaimedOnce(max: nat, s: seq<State>, e: seq<Event>, i: nat, j: nat, id: Id)
    requires IsRun(max, s, e) && i < |e| && j < |e|
    requires ClaimsId(s[i], e[i], id) && ClaimsId(s[j], e[j], id)
    ensures i == j
  {
    hide Next, ClaimsId;
    var k, l := if i < j then i else j, if i < j then j else i;
    ClaimStep(max, s[k], e[k], s[k + 1], id);
    ClaimStep(max, s[l], e[l], s[l + 1], id);
    if k < l {
      NeverPendingAgain(max, s, e, k + 1, l, id);
    }
  }

  // ----- The loop over the rows found

  predicate InLoop(pc: Caller) {
    pc.Loop? || pc.Claiming? || pc.Acquire? || pc.Count? || pc.NoSlot?
  }

  /** The call is done with one row: its claim was missed, it has no slot, or its worker is started. */
  predicate EndsRow(e: Event, c: nat) {
    e.Call? && e.c == c && (e.move.MissClaim? || e.move.MarkNoSlot? || e.move.Start?)
  }

  lemma LoopMove(max: nat, s: State, pc: Caller, move: Move)
    requires CanMove(max, s, pc, move) && InLoop(pc)
    ensures
      var after := PcAfter(max, s, pc, move);
      if after == Leaving then pc.Loop? && (s.stopped || pc.i >= |pc.found| || pc.i >= pc.slots)
      else
        InLoop(after) && after.slots == pc.slots && after.found == pc.found
        && after.i == pc.i + One(move.MissClaim? || move.MarkNoSlot? || move.Start?)
  {
    hide InTable, IsPending;
  }

  /** Within the loop a call keeps its rows and its slots, and goes on to the next row exactly when it is
      done with one, also after a missed claim. It leaves the loop only after a stop, or when the rows
      or the slots are used up. */
  lemma LoopProgress(max: nat, s: State, e: Event, t: State, c: nat)
    requires Next(max, s, e, t) && InLoop(Pc(s, c))
    ensures
      var (a, b) := (Pc(s, c), Pc(t, c));
      if b == Leaving then a.Loop? && (s.stopped || a.i >= |a.found| || a.i >= a.slots)
      else InLoop(b) && b.slots == a.slots && b.found == a.found && b.i == a.i + One(EndsRow(e, c))
  {
    hide Next, Pc, CanMove, PcAfter;
    CallsStep(max, s, e, t, c);
    if e.Call? && e.c == c {
      LoopMove(max, s, Pc(s, c), e.move);
    }
  }

  /** The call ends its row number j. */
  predicate EndsRowAt(s: State, e: Event, c: nat, found: seq<Id>, j: nat) {
    InLoop(Pc(s, c)) && Pc(s, c).found == found && Pc(s, c).i == j && EndsRow(e, c)
  }

  /** No row is passed over: between two moments in the loop, each row that lies between was ended. */
  lemma {:induction false} NoneSkipped(max: nat, s: seq<State>, e: seq<Event>, m: nat, n: nat, c: nat, j: nat)
    requires IsRun(max, s, e) && m <= n < |s|
    requires forall k :: m <= k <= n ==> InLoop(Pc(s[k], c))
    requires InLoop(Pc(s[m], c)) && InLoop(Pc(s[n], c)) && Pc(s[m], c).i <= j < Pc(s[n], c).i
    ensures exists k :: m <= k < n && EndsRowAt(s[k], e[k], c, Pc(s[n], c).found, j)
    decreases n
  {
    hide Next, Pc, EndsRow;
    assert m < n;
    assert InLoop(Pc(s[n - 1], c)) && InLoop(Pc(s[n], c));
    LoopProgress(max, s[n - 1], e[n - 1], s[n], c);
    LeavingIsOut();
    if j < Pc(s[n - 1], c).i {
      NoneSkipped(max, s, e, m, n - 1, c, j);
    } else {
      assert EndsRowAt(s[n - 1], e[n - 1], c, Pc(s[n], c).found, j);
    }
  }

  lemma LeavingIsOut()
    ensures !InLoop(Leaving)
  {
  }
}
