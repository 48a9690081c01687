/** The scheduler's claim: a compare-and-swap on a schedule's next run time, shared by all schedulers. */
module ScheduleClaims {
  type Id = string

  const CLAIM_EXTENSION_MS := 2 * 60 * 1000

  datatype Schedule = Schedule(nextRunAt: int, isActive: bool)

  /** The table and the clock, in milliseconds. */
  datatype State = State(rows: map<Id, Schedule>, clock: int)

  datatype Event =
    | Tick(ms: nat)
    | Claim(id: Id, expected: int)
    | MissClaim(id: Id, expected: int)
    | Write(id: Id, row: Schedule)

  /** A poller reads due schedules first, so what it expects is never in the future. */
  ghost predicate Next(s: State, e: Event, t: State) {
    match e
    case Tick(ms) => t == s.(clock := s.clock + ms)
    case Claim(id, expected) =>
      && expected <= s.clock && id in s.rows && s.rows[id] == Schedule(expected, true)
      && t == s.(rows := s.rows[id := Schedule(s.clock + CLAIM_EXTENSION_MS, true)])
    case MissClaim(id, expected) =>
      !(id in s.rows && s.rows[id] == Schedule(expected, true)) && t == s
    case Write(id, row) => t == s.(rows := s.rows[id := row])
  }

  ghost predicate IsRun(s: seq<State>, e: seq<Event>) {
    |s| == |e| + 1 && forall k :: 0 <= k < |e| ==> Next(s[k], e[k], s[k + 1])
  }

  ghost predicate WritesBack(e: Event, id: Id, time: int) {
    e.Write? && e.id == id && e.row.nextRunAt == time
  }

  ghost predicate Moved(s: State, id: Id, time: int) {
    time <= s.clock && id in s.rows && s.rows[id].nextRunAt != time
  }

  lemma {:induction false} StaysMoved(s: seq<State>, e: seq<Event>, m: nat, n: nat, id: Id, time: int)
    requires IsRun(s, e) && m <= n < |s| && Moved(s[m], id, time)
    requires forall k :: m <= k < n ==> !WritesBack(e[k], id, time)
    ensures Moved(s[n], id, time)
    decreases n
  {
    if m < n {
      StaysMoved(s, e, m, n - 1, id, time);
      assert Next(s[n - 1], e[n - 1], s[n]);
    }
  }

  /** No due time is won twice, unless between the two wins somebody wrote that very time back. */
  lemma DueTimeWonOnce(s: seq<State>, e: seq<Event>, i: nat, j: nat)
    requires IsRun(s, e) && i < j < |e|
    requires e[i].Claim? && e[j] == e[i]
    ensures exists k :: i < k < j && WritesBack(e[k], e[i].id, e[i].expected)
  {
    assert Next(s[i], e[i], s[i + 1]) && Next(s[j], e[j], s[j + 1]);
    if forall k :: i + 1 <= k < j ==> !WritesBack(e[k], e[i].id, e[i].expected) {
      StaysMoved(s, e, i + 1, j, e[i].id, e[i].expected);
    }
  }

  /** A claim of a due time is won exactly when the row still holds that time and is active, and missed
      exactly otherwise. The row is then due in two minutes. */
  lemma WonIff(s: State, id: Id, expected: int)
    requires expected <= s.clock
    ensures (exists t :: Next(s, Claim(id, expected), t)) <==>
            id in s.rows && s.rows[id].nextRunAt == expected && s.rows[id].isActive
    ensures (exists t :: Next(s, MissClaim(id, expected), t)) <==> !exists t :: Next(s, Claim(id, expected), t)
    ensures forall t :: Next(s, Claim(id, expected), t) ==>
              id in t.rows && t.rows[id] == Schedule(s.clock + 120_000, true) && t.clock == s.clock
              && t.rows.Keys == s.rows.Keys && forall other :: other in s.rows && other != id ==> t.rows[other] == s.rows[other]
  {
    if id in s.rows && s.rows[id].nextRunAt == expected && s.rows[id].isActive {
      assert Next(s, Claim(id, expected), s.(rows := s.rows[id := Schedule(s.clock + CLAIM_EXTENSION_MS, true)]));
    } else {
      assert Next(s, MissClaim(id, expected), s);
    }
  }
}
