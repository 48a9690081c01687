/** The conversation manager's message limit: one token bucket per user, refilled in whole tokens,
    and a periodic clean-up of idle buckets. Times are in nanoseconds. */
module TokenBucket {
  import opened Common

  type Id = string

  const MESSAGES_PER_MINUTE := 20
  /** One token comes every three seconds: a minute divided by the messages per minute. */
  const TOKEN_INTERVAL := 3_000_000_000
  const IDLE_LIMIT := 120_000_000_000

  datatype Bucket = Bucket(tokens: int, lastRefill: int)

  // ----- One bucket

  /** The tokens that a call at `now` finds: those kept, plus one for each whole interval, up to the cap. */
  function Available(b: Option<Bucket>, now: int): int {
    if b.None? then MESSAGES_PER_MINUTE
    else
      var due := (now - b.value.lastRefill) / TOKEN_INTERVAL;
      if due > 0 && b.value.tokens + due > MESSAGES_PER_MINUTE then MESSAGES_PER_MINUTE
      else if due > 0 then b.value.tokens + due
      else b.value.tokens
  }

  /** The bucket after a call at `now`, and whether the message is allowed. */
  function Check(b: Option<Bucket>, now: int): (Bucket, bool) {
    match b
    case None => (Bucket(MESSAGES_PER_MINUTE - 1, now), true)
    case Some(Bucket(tokens, last)) =>
      var due := (now - last) / TOKEN_INTERVAL;
      var have := Available(b, now);
      var refilled := if due > 0 then now else last;
      if have > 0 then (Bucket(have - 1, refilled), true) else (Bucket(have, refilled), false)
  }

  function Sweep(b: Option<Bucket>, now: int): Option<Bucket> {
    if b.Some? && b.value.lastRefill < now - IDLE_LIMIT then None else b
  }

  ghost predicate Sane(b: Option<Bucket>, now: int) {
    b.Some? ==> 0 <= b.value.tokens <= MESSAGES_PER_MINUTE && b.value.lastRefill <= now
  }

  // ----- The manager

  class Manager {
    var rateLimiters: map<Id, Bucket>

    constructor ()
      ensures rateLimiters == map[]
    {
      rateLimiters := map[];
    }

    ghost function Of(user: Id): Option<Bucket>
      reads this
    {
      if user in rateLimiters then Some(rateLimiters[user]) else None
    }

    method CheckRateLimit(userID: Id, now: int) returns (allowed: bool)
      requires userID in rateLimiters ==> rateLimiters[userID].lastRefill <= now
      modifies this
      ensures (Of(userID), allowed) == (Some(Check(old(Of(userID)), now).0), Check(old(Of(userID)), now).1)
      ensures forall other :: other != userID ==> Of(other) == old(Of(other))
    {
      if userID !in rateLimiters {
        rateLimiters := rateLimiters[userID := Bucket(MESSAGES_PER_MINUTE - 1, now)];
        return true;
      }
      var bucket := rateLimiters[userID];
      var elapsed := now - bucket.lastRefill;
      var tokensToAdd := elapsed / TOKEN_INTERVAL;
      if tokensToAdd > 0 {
        bucket := bucket.(tokens := bucket.tokens + tokensToAdd);
        if bucket.tokens > MESSAGES_PER_MINUTE {
          bucket := bucket.(tokens := MESSAGES_PER_MINUTE);
        }
        bucket := bucket.(lastRefill := now);
      }
      if bucket.tokens > 0 {
        bucket := bucket.(tokens := bucket.tokens - 1);
        allowed := true;
      } else {
        allowed := false;
      }
      rateLimiters := rateLimiters[userID := bucket];
    }

    /** One pass of the clean-up goroutine. */
    method CleanupRateLimiters(now: int)
      modifies this
      ensures forall user :: Of(user) == Sweep(old(Of(user)), now)
      ensures forall user :: user in rateLimiters <==>
                user in old(rateLimiters) && now - old(rateLimiters)[user].lastRefill <= 120_000_000_000
    {
      var threshold := now - IDLE_LIMIT;
      var rest := rateLimiters.Keys;
      ghost var before := rateLimiters;
      while rest != {}
        invariant rest <= rateLimiters.Keys <= before.Keys
        invariant forall user :: user in rateLimiters ==> rateLimiters[user] == before[user]
        invariant forall user :: user in before && user !in rest
                    ==> (user in rateLimiters <==> !(before[user].lastRefill < threshold))
      {
        var key :| key in rest;
        rest := rest - {key};
        if rateLimiters[key].lastRefill < threshold {
          rateLimiters := rateLimiters - {key};
        }
      }
    }
  }

  // ----- Whole histories of one user

  datatype Event = Message(now: int) | Cleanup(now: int)

  /** The user's bucket after a history. */
  ghost function After(h: seq<Event>): Option<Bucket> {
    if h == [] then None
    else
      var b := After(h[..|h| - 1]);
      match h[|h| - 1]
      case Message(now) => Some(Check(b, now).0)
      case Cleanup(now) => Sweep(b, now)
  }

  ghost predicate Ordered(h: seq<Event>) {
    forall i, j :: 0 <= i <= j < |h| ==> h[i].now <= h[j].now
  }

  ghost predicate Allowed(h: seq<Event>, i: nat)
    requires i < |h|
  {
    h[i].Message? && Check(After(h[..i]), h[i].now).1
  }

  /** How many of the messages numbered i, ..., j - 1 are allowed. */
  ghost function AllowedCount(h: seq<Event>, i: nat, j: nat): nat
    requires i <= j <= |h|
  {
    if i == j then 0 else AllowedCount(h, i, j - 1) + if Allowed(h, j - 1) then 1 else 0
  }

  lemma {:induction false} AfterIsSane(h: seq<Event>, n: nat, now: int)
    requires Ordered(h) && n <= |h| && (n > 0 ==> h[n - 1].now <= now)
    ensures Sane(After(h[..n]), now)
  {
    if n > 0 {
      AfterIsSane(h, n - 1, h[n - 1].now);
      assert h[..n][..n - 1] == h[..n - 1];
    }
  }

  // ----- The rate

  /** How many token intervals a duration takes, rounded up. */
  function Intervals(duration: int): int {
    -((-duration) / TOKEN_INTERVAL)
  }

  lemma IntervalsAdd(x: int, y: int)
    requires y >= 0
    ensures 0 <= y / TOKEN_INTERVAL && Intervals(x) + y / TOKEN_INTERVAL <= Intervals(x + y)
  {
    var a, b, c := (-x) / TOKEN_INTERVAL, y / TOKEN_INTERVAL, (-x - y) / TOKEN_INTERVAL;
    assert a * TOKEN_INTERVAL <= -x < (a + 1) * TOKEN_INTERVAL;
    assert b * TOKEN_INTERVAL <= y;
    assert c * TOKEN_INTERVAL <= -x - y;
    assert c < a - b + 1;
  }

  lemma NoInterval(age: int)
    requires 0 <= age && age / TOKEN_INTERVAL <= 0
    ensures Intervals(-age) == 0
  {
  }

  /** What `count` messages, allowed since time `start`, leave: no more tokens than the cap and the
      refills since then account for. */
  ghost predicate Accounted(count: int, b: Option<Bucket>, start: int, now: int) {
    match b
    case None => count <= Intervals(now - start)
    case Some(Bucket(tokens, last)) => count + tokens <= MESSAGES_PER_MINUTE + Intervals(last - start)
  }

  lemma FirstMessageAccounted(b: Option<Bucket>, now: int)
    requires Sane(b, now)
    ensures var r := Check(b, now); Accounted(if r.1 then 1 else 0, Some(r.0), now, now)
  {
    if b.Some? {
      var age := now - b.value.lastRefill;
      if age / TOKEN_INTERVAL <= 0 {
        NoInterval(age);
      }
    }
  }

  lemma MessageAccounted(count: int, b: Option<Bucket>, start: int, before: int, now: int)
    requires start <= before <= now && Sane(b, before) && Accounted(count, b, start, before)
    ensures var r := Check(b, now); Accounted(count + if r.1 then 1 else 0, Some(r.0), start, now)
  {
    hide Intervals;
    assert Intervals(0) == 0 by { NoInterval(0); }
    if b.Some? {
      IntervalsAdd(b.value.lastRefill - start, now - b.value.lastRefill);
    } else {
      IntervalsAdd(before - start, now - before);
    }
  }

  lemma SweepAccounted(count: int, b: Option<Bucket>, start: int, before: int, now: int)
    requires start <= before <= now && Sane(b, before) && Accounted(count, b, start, before)
    ensures Accounted(count, Sweep(b, now), start, now)
  {
    hide Intervals;
    if b.Some? {
      IntervalsAdd(b.value.lastRefill - start, now - b.value.lastRefill);
      LongIdle(now - b.value.lastRefill);
    } else {
      IntervalsAdd(before - start, now - before);
    }
  }

  lemma LongIdle(age: int)
    ensures age > IDLE_LIMIT ==> age / TOKEN_INTERVAL >= 40
  {
  }

  lemma AfterStep(h: seq<Event>, n: nat)
    requires n < |h|
    ensures After(h[..n + 1]) == match h[n] case Message(now) => Some(Check(After(h[..n]), now).0)
                                            case Cleanup(now) => Sweep(After(h[..n]), now)
  {
    assert h[..n + 1][..n] == h[..n];
  }

  lemma {:induction false} RunAccounted(h: seq<Event>, i: nat, j: nat)
    requires Ordered(h) && i < j <= |h| && h[i].Message?
    ensures Accounted(AllowedCount(h, i, j), After(h[..j]), h[i].now, h[j - 1].now)
    decreases j
  {
    hide Intervals, Accounted, Sane, After, Check, Sweep;
    AfterStep(h, j - 1);
    var count, b, now := AllowedCount(h, i, j - 1), After(h[..j - 1]), h[j - 1].now;
    if j == i + 1 {
      AfterIsSane(h, i, now);
      FirstMessageAccounted(b, now);
    } else {
      RunAccounted(h, i, j - 1);
      AfterIsSane(h, j - 1, h[j - 2].now);
      MessageAccounted(count, b, h[i].now, h[j - 2].now, now);
      SweepAccounted(count, b, h[i].now, h[j - 2].now, now);
    }
  }

  lemma {:induction false} SkipCleanup(h: seq<Event>, i: nat, j: nat)
    requires i < j <= |h| && h[i].Cleanup?
    ensures AllowedCount(h, i, j) == AllowedCount(h, i + 1, j)
  {
    if j > i + 1 { SkipCleanup(h, i, j - 1); }
  }

  lemma AccountedCount(count: int, b: Option<Bucket>, start: int, now: int, duration: int)
    requires Sane(b, now) && Accounted(count, b, start, now) && start <= now <= start + duration
    ensures count <= MESSAGES_PER_MINUTE + Intervals(duration)
  {
    hide Intervals;
    if b.Some? {
      IntervalsAdd(b.value.lastRefill - start, now - b.value.lastRefill);
    }
    IntervalsAdd(now - start, duration - (now - start));
  }

  lemma IntervalsGrow(x: int, y: int)
    requires x <= y
    ensures Intervals(x) <= Intervals(y)
  {
    hide Intervals;
    IntervalsAdd(x, y - x);
  }

  lemma RoundedUp(duration: int)
    ensures Intervals(duration) == (duration + 2_999_999_999) / 3_000_000_000
  {
  }

  /** In any stretch of a user's history at most 20 messages are allowed, and one more for every three
      seconds, or part of three seconds, that the stretch lasts. */
  lemma {:induction false} RateBound(h: seq<Event>, i: nat, j: nat, start: int, duration: int)
    requires Ordered(h) && i <= j <= |h| && duration >= 0
    requires i < j ==> start <= h[i].now && h[j - 1].now <= start + duration
    ensures AllowedCount(h, i, j) <= 20 + (duration + 2_999_999_999) / 3_000_000_000
    decreases j - i
  {
    hide Intervals, Accounted, Sane, After, Allowed;
    RoundedUp(duration);
    IntervalsGrow(0, duration);
    assert Intervals(0) == 0 by { NoInterval(0); }
    if i < j {
      if h[i].Cleanup? {
        SkipCleanup(h, i, j);
        RateBound(h, i + 1, j, start, duration);
      } else {
        RunAccounted(h, i, j);
        AfterIsSane(h, j, h[j - 1].now);
        AccountedCount(AllowedCount(h, i, j), After(h[..j]), h[i].now, h[j - 1].now, duration);
      }
    }
  }

  // ----- What is not refused

  /** A bucket was last refilled at a message of its history. */
  lemma {:induction false} RefilledAtMessage(h: seq<Event>, n: nat)
    requires n <= |h| && After(h[..n]).Some?
    ensures exists k :: 0 <= k < n && h[k].Message? && h[k].now == After(h[..n]).value.lastRefill
  {
    if n > 0 {
      AfterStep(h, n - 1);
      if After(h[..n - 1]).Some? {
        RefilledAtMessage(h, n - 1);
      }
      assert h[n - 1].Message? ==> n - 1 < n && h[n - 1].now == h[n - 1].now;
    }
  }

  lemma WholeInterval(age: int)
    requires age >= 3_000_000_000
    ensures age / TOKEN_INTERVAL >= 1
  {
  }

  /** Whatever the history, a message is allowed that comes three seconds or more after all messages
      before it. */
  lemma PausedIsAllowed(h: seq<Event>, i: nat)
    requires Ordered(h) && i < |h| && h[i].Message?
    requires forall k :: 0 <= k < i && h[k].Message? ==> h[k].now + 3_000_000_000 <= h[i].now
    ensures Allowed(h, i)
  {
    AfterIsSane(h, i, h[i].now);
    if After(h[..i]).Some? {
      RefilledAtMessage(h, i);
      WholeInterval(h[i].now - After(h[..i]).value.lastRefill);
    }
  }

  lemma ShortAge(age: int)
    requires 0 <= age < 3_000_000_000
    ensures age / TOKEN_INTERVAL == 0
  {
  }

  lemma MinuteRefills(b: Option<Bucket>, now: int)
    requires Sane(b, now) && (b.Some? ==> b.value.lastRefill + 60_000_000_000 <= now)
    ensures Check(b, now) == (Bucket(19, now), true)
  {
    if b.Some? {
      assert (now - b.value.lastRefill) / TOKEN_INTERVAL >= 20;
    }
  }

  function Left(k: nat): nat {
    if k < 20 then 19 - k else 0
  }

  lemma NextOfBurst(k: nat, start: int, now: int)
    requires 0 < k && start <= now < start + 3_000_000_000
    ensures Check(Some(Bucket(Left(k - 1), start)), now) == (Bucket(Left(k), start), k < 20)
  {
    ShortAge(now - start);
  }

  lemma {:induction false} BurstLeaves(h: seq<Event>, i: nat, k: nat)
    requires Ordered(h) && i + k < |h| && (forall j :: i <= j <= i + k ==> h[j].Message?)
    requires forall j :: 0 <= j < i && h[j].Message? ==> h[j].now + 60_000_000_000 <= h[i].now
    requires h[i + k].now < h[i].now + 3_000_000_000
    ensures After(h[..i + k + 1]) == Some(Bucket(Left(k), h[i].now))
    ensures Allowed(h, i + k) <==> k < 20
    decreases k
  {
    hide After, Check;
    AfterStep(h, i + k);
    if k == 0 {
      AfterIsSane(h, i, h[i].now);
      if After(h[..i]).Some? {
        RefilledAtMessage(h, i);
      }
      MinuteRefills(After(h[..i]), h[i].now);
    } else {
      BurstLeaves(h, i, k - 1);
      NextOfBurst(k, h[i].now, h[i + k].now);
    }
  }

  /** After a minute without messages, of the messages of the next three seconds the first 20 are
      allowed and no others. */
  lemma FreshBurst(h: seq<Event>, i: nat, k: nat)
    requires Ordered(h) && i + k < |h| && (forall j :: i <= j <= i + k ==> h[j].Message?)
    requires forall j :: 0 <= j < i && h[j].Message? ==> h[j].now + 60_000_000_000 <= h[i].now
    requires h[i + k].now < h[i].now + 3_000_000_000
    ensures Allowed(h, i + k) <==> k < 20
  {
    BurstLeaves(h, i, k);
  }

  // ----- Cleaning up is invisible

  /** The user's bucket after a history, if buckets were never cleaned up. */
  ghost function AfterKeeping(h: seq<Event>): Option<Bucket> {
    if h == [] then None
    else
      var b := AfterKeeping(h[..|h| - 1]);
      match h[|h| - 1]
      case Message(now) => Some(Check(b, now).0)
      case Cleanup(_) => b
  }

  /** The same bucket, or one that was swept after being idle so long that it is full again. */
  ghost predicate Alike(kept: Option<Bucket>, swept: Option<Bucket>, now: int) {
    kept == swept || (swept.None? && kept.Some? && Sane(kept, now) && kept.value.lastRefill < now - IDLE_LIMIT)
  }

  lemma AlikeChecksAlike(kept: Option<Bucket>, swept: Option<Bucket>, now: int, later: int)
    requires Alike(kept, swept, now) && now <= later
    ensures Check(kept, later) == Check(swept, later)
  {
    if kept != swept {
      assert (later - kept.value.lastRefill) / TOKEN_INTERVAL >= MESSAGES_PER_MINUTE;
    }
  }

  lemma {:induction false} KeptIsSane(h: seq<Event>, now: int)
    requires Ordered(h) && (h != [] ==> h[|h| - 1].now <= now)
    ensures Sane(AfterKeeping(h), now)
  {
    if h != [] { KeptIsSane(h[..|h| - 1], h[|h| - 1].now); }
  }

  lemma {:induction false} StaysAlike(h: seq<Event>, now: int)
    requires Ordered(h) && (h != [] ==> h[|h| - 1].now <= now)
    ensures Alike(AfterKeeping(h), After(h), now)
  {
    if h != [] {
      var front, at := h[..|h| - 1], h[|h| - 1].now;
      StaysAlike(front, at);
      KeptIsSane(front, at);
      if h[|h| - 1].Message? {
        AlikeChecksAlike(AfterKeeping(front), After(front), at, at);
      }
    }
  }

  /** Deleting idle buckets never changes whether a later message is allowed. */
  lemma CleanupInvisible(h: seq<Event>, i: nat)
    requires Ordered(h) && i < |h| && h[i].Message?
    ensures Allowed(h, i) <==> Check(AfterKeeping(h[..i]), h[i].now).1
  {
    StaysAlike(h[..i], h[i].now);
    AlikeChecksAlike(AfterKeeping(h[..i]), After(h[..i]), h[i].now, h[i].now);
  }
}
