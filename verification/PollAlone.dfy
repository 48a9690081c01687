/** What a call of `poll` does when no other step comes between its own: it starts as many of the rows it
    has found as there are slots. */
module PollAlone {
  import opened Poller
  import opened PollerStop
  import opened Common

  ghost predicate AllPending(s: State, ids: seq<Id>) {
    forall k :: 0 <= k < |ids| ==> IsPending(s, ids[k])
  }

  function Least(m: int, n: int): int {
    if m < n then m else n
  }

  /** The table after the rows ids have been claimed. */
  function Running(table: map<Id, Status>, ids: seq<Id>): map<Id, Status> {
    map id | id in table.Keys + (set x | x in ids) :: if id in ids then Status.Running else table[id]
  }

  lemma RunningOneMore(table: map<Id, Status>, id: Id, ids: seq<Id>)
    requires id in table
    ensures Running(table[id := Status.Running], ids) == Running(table, [id] + ids)
  {
  }

  /** One step of the call c. */
  lemma Step(max: nat, a: State, c: nat, move: Move) returns (b: State)
    requires Inv(max, a) && CanMove(max, a, Pc(a, c), move)
    ensures Next(max, a, Call(c, move), b) && Inv(max, b)
    ensures b == Effect(max, a, Pc(a, c), move).(callers := b.callers) && Pc(b, c) == PcAfter(max, a, Pc(a, c), move)
  {
    hide Inv, CanMove, PcAfter, Effect;
    b := At(Effect(max, a, Pc(a, c), move), c, PcAfter(max, a, Pc(a, c), move));
    InvStep(max, a, Call(c, move), b);
  }

  /** The steps from one row to the next, when the row is still pending. */
  lemma StartRow(max: nat, a: State, c: nat, slots: int, found: seq<Id>, i: nat)
      returns (b1: State, b2: State, b3: State, b4: State)
    requires Inv(max, a) && Pc(a, c) == Loop(slots, found, i) && i < |found| && i < slots
    requires !a.stopped && !a.cancelled && IsPending(a, found[i])
    ensures Next(max, a, Call(c, GoOn), b1) && Next(max, b1, Call(c, Claim), b2)
    ensures Next(max, b2, Call(c, TakeSlot), b3) && Next(max, b3, Call(c, Start), b4)
    ensures Inv(max, b4) && Pc(b4, c) == Loop(slots, found, i + 1)
    ensures b4 == a.(table := a.table[found[i] := Status.Running], running := a.running + 1,
                     executing := a.executing + 1, slotsHeld := a.slotsHeld + 1, callers := b4.callers)
  {
    hide Inv, Next, Pc;
    b1 := Step(max, a, c, GoOn);
    b2 := Step(max, b1, c, Claim);
    FreeSlot(max, b2, c);
    b3 := Step(max, b2, c, TakeSlot);
    b4 := Step(max, b3, c, Start);
  }

  /** A call in its loop that nothing comes between starts the rows left, up to its slots, and leaves. */
  lemma {:induction false} LoopAlone(max: nat, a: State, c: nat, slots: int, found: seq<Id>, i: nat)
      returns (s: seq<State>, e: seq<Event>)
    requires Inv(max, a) && Pc(a, c) == Loop(slots, found, i) && i <= Least(slots, |found|)
    requires !a.stopped && !a.cancelled && Distinct(found) && AllPending(a, found[i..])
    ensures Continues(max, a, s, e) && (forall k :: 0 <= k < |e| ==> e[k].Call? && e[k].c == c)
    ensures
      var n, t := Least(slots, |found|), s[|e|];
      && t.running == a.running + n - i && t.executing == a.executing + n - i
      && t.table == Running(a.table, found[i..n]) && Pc(t, c) == Outside
    decreases Least(slots, |found|) - i
  {
    hide Inv, Next, Pc, CanMove, PcAfter, Effect, Running, Distinct, AllPending, Continues;
    var n := Least(slots, |found|);
    if i < n {
      PendingNow(a, found, i);
      var b1, b2, b3, b4 := StartRow(max, a, c, slots, found, i);
      PendingNext(a, b4, found, i);
      var s1, e1 := LoopAlone(max, b4, c, slots, found, i + 1);
      RunningOneMore(a.table, found[i], found[i + 1..n]);
      assert found[i..n] == [found[i]] + found[i + 1..n];
      ContinuesLength(max, b4, s1, e1);
      s, e := PrependFour(max, a, Call(c, GoOn), b1, Call(c, Claim), b2, Call(c, TakeSlot), b3, Call(c, Start), b4, s1, e1);
    } else {
      s, e := LoopEnds(max, a, c);
      assert found[i..n] == [];
      RunningNone(a.table);
    }
  }

  /** Four steps before others. */
  lemma PrependFour(max: nat, a: State, f1: Event, b1: State, f2: Event, b2: State, f3: Event, b3: State,
                    f4: Event, b4: State, s1: seq<State>, e1: seq<Event>) returns (s: seq<State>, e: seq<Event>)
    requires Next(max, a, f1, b1) && Next(max, b1, f2, b2) && Next(max, b2, f3, b3) && Next(max, b3, f4, b4)
    requires Continues(max, b4, s1, e1) && |s1| == |e1| + 1
    ensures Continues(max, a, s, e) && |s| == |e| + 1 && e == [f1, f2, f3, f4] + e1 && s[|e|] == s1[|e1|]
  {
    hide Next, Continues;
    Prepend(max, b3, f4, b4, s1, e1);
    Prepend(max, b2, f3, b3, [b3] + s1, [f4] + e1);
    Prepend(max, b1, f2, b2, [b2] + ([b3] + s1), [f3] + ([f4] + e1));
    s, e := [b1] + ([b2] + ([b3] + s1)), [f2] + ([f3] + ([f4] + e1));
    Prepend(max, a, f1, b1, s, e);
    s, e := [a] + s, [f1] + e;
    assert e == [f1, f2, f3, f4] + e1;
  }

  lemma PendingNow(a: State, found: seq<Id>, i: nat)
    requires i < |found| && AllPending(a, found[i..])
    ensures IsPending(a, found[i]) && found[i] in a.table
  {
    assert found[i..][0] == found[i];
  }

  lemma PendingNext(a: State, b: State, found: seq<Id>, i: nat)
    requires i < |found| && AllPending(a, found[i..]) && Distinct(found)
    requires b.table == a.table[found[i] := Status.Running]
    ensures AllPending(b, found[i + 1..])
  {
    var rest := found[i + 1..];
    forall k | 0 <= k < |rest| ensures IsPending(b, rest[k]) {
      assert rest[k] == found[i..][k + 1] == found[i + 1 + k];
    }
  }

  lemma RunningNone(table: map<Id, Status>)
    ensures Running(table, []) == table
  {
  }

  lemma LoopEnds(max: nat, a: State, c: nat) returns (s: seq<State>, e: seq<Event>)
    requires Inv(max, a) && Pc(a, c).Loop? && (Pc(a, c).i >= |Pc(a, c).found| || Pc(a, c).i >= Pc(a, c).slots)
    ensures Continues(max, a, s, e) && (forall k :: 0 <= k < |e| ==> e[k].Call? && e[k].c == c)
    ensures Pc(s[|e|], c) == Outside && s[|e|] == a.(callers := s[|e|].callers, isPolling := false)
  {
    hide Inv, Next, Pc;
    var b1 := Step(max, a, c, Exit);
    var b2 := Step(max, b1, c, Leave);
    OneStep(max, b1, Call(c, Leave), b2);
    Prepend(max, a, Call(c, Exit), b1, [b1, b2], [Call(c, Leave)]);
    s, e := [a] + [b1, b2], [Call(c, Exit)] + [Call(c, Leave)];
  }

  lemma Enters(max: nat, a: State, c: nat, found: seq<Id>) returns (b1: State, b2: State, b3: State, b4: State)
    requires Inv(max, a) && AllOutside(a) && !a.stopped && !a.cancelled && a.running < max && InTable(a, found)
    ensures Next(max, a, Call(c, Enter), b1) && Next(max, b1, Call(c, SeeNotStopped), b2)
    ensures Next(max, b2, Call(c, Load), b3) && Next(max, b3, Call(c, Found(found)), b4)
    ensures Inv(max, b4) && Pc(b4, c) == Loop(max - a.running, found, 0)
    ensures b4 == a.(callers := b4.callers, isPolling := true)
  {
    hide Next, Pc, Balanced, WithinSlots;
    assert Pc(a, c) == Outside && !a.isPolling;
    hide Inv, InTable;
    b1 := Step(max, a, c, Enter);
    b2 := Step(max, b1, c, SeeNotStopped);
    b3 := Step(max, b2, c, Load);
    FoundSame(a, b3, found);
    b4 := Step(max, b3, c, Found(found));
  }

  lemma FoundSame(a: State, b: State, found: seq<Id>)
    requires InTable(a, found) && b.table == a.table
    ensures InTable(b, found)
  {
  }

  lemma FullLeaves(max: nat, a: State, c: nat) returns (s: seq<State>, e: seq<Event>)
    requires Inv(max, a) && AllOutside(a) && !a.stopped && a.running >= max
    ensures Continues(max, a, s, e) && (forall k :: 0 <= k < |e| ==> e[k].Call? && e[k].c == c)
    ensures Pc(s[|e|], c) == Outside && s[|e|] == a.(callers := s[|e|].callers)
  {
    hide Next, Pc, Balanced, WithinSlots;
    assert Pc(a, c) == Outside && !a.isPolling;
    hide Inv;
    var b1 := Step(max, a, c, Enter);
    var b2 := Step(max, b1, c, SeeNotStopped);
    var b3 := Step(max, b2, c, Load);
    var b4 := Step(max, b3, c, Leave);
    s, e := [a, b1, b2, b3, b4], [Call(c, Enter), Call(c, SeeNotStopped), Call(c, Load), Call(c, Leave)];
  }

  lemma PendingInTable(a: State, found: seq<Id>)
    requires AllPending(a, found)
    ensures InTable(a, found) && AllPending(a, found[0..])
  {
    assert found[0..] == found;
  }

  lemma PendingSame(a: State, b: State, found: seq<Id>)
    requires AllPending(a, found[0..]) && b.table == a.table
    ensures AllPending(b, found[0..])
  {
  }

  /** In any state in which no call is inside `poll`, a call that finds pending rows, each once, can start
      the first of them, as many as the maximum leaves room for, without a step of anybody else: it claims
      these rows and no others, raises the counter by their number, and is done. */
  lemma PollStartsAll(max: nat, r: seq<State>, f: seq<Event>, m: nat, c: nat, found: seq<Id>)
      returns (s: seq<State>, e: seq<Event>)
    requires IsRun(max, r, f) && m < |r|
    requires AllOutside(r[m]) && !r[m].stopped && !r[m].cancelled && Distinct(found) && AllPending(r[m], found)
    ensures Continues(max, r[m], s, e) && (forall k :: 0 <= k < |e| ==> e[k].Call? && e[k].c == c)
    ensures
      var n, t := Least(max - r[m].running, |found|), s[|e|];
      && n >= 0 && t.running == r[m].running + n && t.executing == r[m].executing + n
      && t.table == Running(r[m].table, found[..n]) && Pc(t, c) == Outside
  {
    hide Next, Inv, AllOutside, AllPending, Distinct, Running, InTable, Pc, Continues;
    var a := r[m];
    RunInv(max, r, f, m);
    CountWithin(max, a);
    if a.running >= max {
      s, e := FullLeaves(max, a, c);
      assert found[..0] == [];
      RunningNone(a.table);
    } else {
      PendingInTable(a, found);
      var b1, b2, b3, b4 := Enters(max, a, c, found);
      PendingSame(a, b4, found);
      var s1, e1 := LoopAlone(max, b4, c, max - a.running, found, 0);
      assert found[0..Least(max - a.running, |found|)] == found[..Least(max - a.running, |found|)];
      ContinuesLength(max, b4, s1, e1);
      s, e := PrependFour(max, a, Call(c, Enter), b1, Call(c, SeeNotStopped), b2, Call(c, Load), b3,
                          Call(c, Found(found)), b4, s1, e1);
    }
  }

  lemma CountWithin(max: nat, a: State)
    requires Inv(max, a)
    ensures 0 <= a.running <= max
  {
    hide WithinSlots, Exclusive;
  }
}
