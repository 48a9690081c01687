/** The webhook router's rate limit: per address a log of accepted requests, compacted in place, and a
    counter for all addresses over a window that restarts. Times are in milliseconds. */
module SlidingLog {
  type Ip = string

  const WINDOW := 60_000
  const MAX_PER_IP := 15
  const MAX_GLOBAL := 300

  // ----- One log

  function Recent(log: seq<int>, windowStart: int): seq<int> {
    if log == [] then []
    else if log[0] > windowStart then [log[0]] + Recent(log[1..], windowStart)
    else Recent(log[1..], windowStart)
  }

  lemma {:induction false} RecentSnoc(log: seq<int>, x: int, windowStart: int)
    ensures Recent(log + [x], windowStart) == Recent(log, windowStart) + if x > windowStart then [x] else []
  {
    if log == [] {
      assert log + [x] == [x];
    } else {
      assert (log + [x])[1..] == log[1..] + [x];
      RecentSnoc(log[1..], x, windowStart);
    }
  }

  lemma {:induction false} RecentRecent(log: seq<int>, w1: int, w2: int)
    requires w1 <= w2
    ensures Recent(Recent(log, w1), w2) == Recent(log, w2)
  {
    if log != [] {
      RecentRecent(log[1..], w1, w2);
      if log[0] > w1 {
        assert Recent(log, w1)[1..] == Recent(log[1..], w1);
      }
    }
  }

  /** The log holds something after windowStart. */
  predicate HasLater(log: seq<int>, windowStart: int) {
    exists k :: 0 <= k < |log| && log[k] > windowStart
  }

  lemma {:induction false} RecentIff(log: seq<int>, windowStart: int)
    ensures Recent(log, windowStart) != [] <==> HasLater(log, windowStart)
  {
    if log != [] {
      RecentIff(log[1..], windowStart);
      assert forall k :: 1 <= k < |log| ==> log[k] == log[1..][k - 1];
    }
  }

  lemma {:induction false} RecentPrefix(log: seq<int>, n: nat, windowStart: int)
    requires n <= |log| && Recent(log[..n], windowStart) != []
    ensures Recent(log, windowStart) != []
    decreases |log|
  {
    if n < |log| {
      var front := log[..|log| - 1];
      assert front[..n] == log[..n] && log == front + [log[|log| - 1]];
      RecentPrefix(front, n, windowStart);
      RecentSnoc(front, log[|log| - 1], windowStart);
    } else {
      assert log[..n] == log;
    }
  }

  /** The slice of one address: a backing array of which a prefix is in use. */
  class IpRateLimiter {
    var data: array<int>
    var len: nat

    ghost predicate Valid()
      reads this
    {
      len <= data.Length
    }

    ghost function Timestamps(): seq<int>
      reads this, data
      requires Valid()
    {
      data[..len]
    }

    constructor ()
      ensures Valid() && fresh(data) && Timestamps() == []
    {
      data := new int[0];
      len := 0;
    }

    /** Filters into the same array: what is kept is written at or before where it is read. */
    method Compact(windowStart: int)
      requires Valid()
      modifies this`len, data
      ensures Valid() && data == old(data)
      ensures Timestamps() == Recent(old(Timestamps()), windowStart)
    {
      ghost var before := data[..len];
      var kept := 0;
      for read := 0 to len
        invariant kept <= read <= len == old(len) && data == old(data)
        invariant data[..kept] == Recent(before[..read], windowStart)
        invariant forall k :: read <= k < len ==> data[k] == before[k]
      {
        assert before[..read + 1] == before[..read] + [before[read]];
        RecentSnoc(before[..read], before[read], windowStart);
        if data[read] > windowStart {
          data[kept] := data[read];
          kept := kept + 1;
        }
      }
      assert before[..len] == before;
      len := kept;
    }

    /** No timestamp after windowStart is left. */
    method AllExpired(windowStart: int) returns (expired: bool)
      requires Valid()
      ensures expired <==> Recent(Timestamps(), windowStart) == []
    {
      for k := 0 to len
        invariant Recent(data[..k], windowStart) == []
      {
        assert data[..k + 1] == data[..k] + [data[k]];
        RecentSnoc(data[..k], data[k], windowStart);
        if data[k] > windowStart {
          assert data[..len][..k + 1] == data[..k + 1];
          RecentPrefix(data[..len], k + 1, windowStart);
          return false;
        }
      }
      return true;
    }

    /** Appends, moving to a larger array when the old one is full. */
    method Append(now: int)
      requires Valid()
      modifies this, data
      ensures Valid() && (data == old(data) || fresh(data))
      ensures Timestamps() == old(Timestamps()) + [now]
    {
      if len == data.Length {
        var larger := new int[2 * len + 1];
        for k := 0 to len
          invariant forall l :: 0 <= l < k ==> larger[l] == data[l]
          modifies larger
        {
          larger[k] := data[k];
        }
        data := larger;
      }
      data[len] := now;
      len := len + 1;
    }
  }

  // ----- All addresses

  /** The log of every address that has one, and the counter with the start of its window. */
  datatype Limits = Limits(logs: map<Ip, seq<int>>, count: int, start: int)

  function Log(s: Limits, ip: Ip): seq<int> {
    if ip in s.logs then s.logs[ip] else []
  }

  function Rolled(s: Limits, now: int): Limits {
    if now - s.start > WINDOW then s.(count := 0, start := now) else s
  }

  /** One serialized call for one address. */
  function Check(s: Limits, ip: Ip, now: int): (Limits, bool) {
    var r := Rolled(s, now);
    if r.count >= MAX_GLOBAL then (r, false)
    else
      var recent := Recent(Log(r, ip), now - WINDOW);
      if |recent| >= MAX_PER_IP then (r.(logs := r.logs[ip := recent]), false)
      else (r.(logs := r.logs[ip := recent + [now]], count := r.count + 1), true)
  }

  /** One pass of the clean-up: logs go that hold nothing after windowStart. */
  function Cleaned(s: Limits, windowStart: int): Limits {
    s.(logs := map ip | ip in s.logs && Recent(s.logs[ip], windowStart) != [] :: s.logs[ip])
  }

  /** What is in `after` only was allocated since. */
  twostate predicate NewOnly(before: set<object>, new after: set<object>) {
    forall o :: o in after ==> o in before || fresh(o)
  }

  class RateLimits {
    var limiters: map<Ip, IpRateLimiter>
    var globalCount: int
    var globalStart: int

    ghost function Repr(): (repr: set<object>)
      reads this`limiters, limiters.Values
      ensures this !in repr
    {
      limiters.Values + set l | l in limiters.Values :: l.data
    }

    /** Every log stands by itself. */
    ghost predicate Valid()
      reads this`limiters, limiters.Values
    {
      && (forall ip :: ip in limiters ==> limiters[ip].Valid())
      && (forall ip, other :: ip in limiters && other in limiters && ip != other
            ==> limiters[ip] != limiters[other] && limiters[ip].data != limiters[other].data)
    }

    ghost function LogOf(ip: Ip): seq<int>
      requires Valid()
      reads this`limiters, limiters.Values, Repr()
    {
      if ip in limiters then limiters[ip].Timestamps() else []
    }

    ghost predicate InRepr(ip: Ip)
      requires ip in limiters
      reads this`limiters, limiters.Values
    {
      limiters[ip] in Repr() && limiters[ip].data in Repr()
    }

    /** The state is s, up to addresses with an empty log. */
    ghost predicate Represents(s: Limits)
      reads this, limiters.Values, Repr()
    {
      Valid() && globalCount == s.count && globalStart == s.start && forall ip :: LogOf(ip) == Log(s, ip)
    }

    constructor ()
      ensures Represents(Limits(map[], 0, 0)) && Repr() == {}
    {
      limiters := map[];
      globalCount, globalStart := 0, 0;
    }

    /** LoadOrStore: the address's limiter, a new and empty one if it has none. */
    method Limiter(ip: Ip) returns (limiter: IpRateLimiter)
      requires Valid()
      modifies this`limiters
      ensures Valid() && NewOnly(old(Repr()), Repr())
      ensures ip in limiters && limiters[ip] == limiter && InRepr(ip)
      ensures forall other :: LogOf(other) == old(LogOf(other))
    {
      if ip !in limiters {
        var created := new IpRateLimiter();
        limiters := limiters[ip := created];
      }
      limiter := limiters[ip];
    }

    method CompactLog(ip: Ip, windowStart: int)
      requires Valid() && ip in limiters
      modifies limiters[ip], limiters[ip].data
      ensures Valid() && Repr() == old(Repr()) && InRepr(ip)
      ensures LogOf(ip) == Recent(old(LogOf(ip)), windowStart) && limiters[ip].len == |LogOf(ip)|
      ensures forall other :: other != ip ==> LogOf(other) == old(LogOf(other))
    {
      limiters[ip].Compact(windowStart);
    }

    method AppendLog(ip: Ip, now: int)
      requires Valid() && ip in limiters
      modifies limiters[ip], limiters[ip].data
      ensures Valid() && NewOnly(old(Repr()), Repr())
      ensures LogOf(ip) == old(LogOf(ip)) + [now]
      ensures forall other :: other != ip ==> LogOf(other) == old(LogOf(other))
    {
      limiters[ip].Append(now);
    }

    /** The part under the limiter's own lock: drop what has left the window, then record if there is room. */
    method Admit(ip: Ip, now: int) returns (allowed: bool)
      requires Valid()
      modifies this`limiters, this`globalCount, Repr()
      ensures Valid() && NewOnly(old(Repr()), Repr())
      ensures var recent := Recent(old(LogOf(ip)), now - WINDOW);
              && (allowed <==> |recent| < MAX_PER_IP)
              && LogOf(ip) == recent + (if allowed then [now] else [])
              && globalCount == old(globalCount) + (if allowed then 1 else 0)
      ensures forall other :: other != ip ==> LogOf(other) == old(LogOf(other))
    {
      hide LogOf, Recent, IpRateLimiter.Timestamps, Repr, Valid;
      var limiter := Limiter(ip);
      CompactLog(ip, now - WINDOW);
      if limiter.len >= MAX_PER_IP {
        return false;
      }
      AppendLog(ip, now);
      globalCount := globalCount + 1;
      return true;
    }

    method CheckRateLimit(ip: Ip, now: int, ghost s: Limits) returns (allowed: bool)
      requires Represents(s)
      modifies this, Repr()
      ensures NewOnly(old(Repr()), Repr())
      ensures Represents(Check(s, ip, now).0) && allowed == Check(s, ip, now).1
    {
      hide LogOf, Recent, IpRateLimiter.Timestamps, Repr, Valid;
      var windowStart := now - WINDOW;
      if now - globalStart > WINDOW {
        globalCount := 0;
        globalStart := now;
      }
      if globalCount >= MAX_GLOBAL {
        return false;
      }
      allowed := Admit(ip, now);
    }

    method DropIfExpired(ip: Ip, windowStart: int)
      requires Valid() && ip in limiters
      modifies this`limiters
      ensures Valid() && Repr() <= old(Repr())
      ensures limiters.Keys == old(limiters.Keys) - (if HasLater(old(LogOf(ip)), windowStart) then {} else {ip})
      ensures LogOf(ip) == if HasLater(old(LogOf(ip)), windowStart) then old(LogOf(ip)) else []
      ensures forall other :: other != ip ==> LogOf(other) == old(LogOf(other))
    {
      var allExpired := limiters[ip].AllExpired(windowStart);
      RecentIff(LogOf(ip), windowStart);
      if allExpired {
        limiters := limiters - {ip};
      }
    }

    /** The clean-up's loop: exactly the logs with nothing after windowStart go. */
    method DropAllExpired(windowStart: int, ghost s: Limits)
      requires Valid() && forall ip :: LogOf(ip) == Log(s, ip)
      modifies this`limiters
      ensures Valid() && Repr() <= old(Repr())
      ensures forall ip :: LogOf(ip) == if HasLater(Log(s, ip), windowStart) then Log(s, ip) else []
      ensures forall ip :: ip in limiters <==> ip in old(limiters) && HasLater(Log(s, ip), windowStart)
    {
      hide LogOf, Recent, Repr, Valid, HasLater, Log;
      ghost var before, all := Repr(), limiters.Keys;
      var rest := limiters.Keys;
      forall ip | ip !in limiters ensures LogOf(ip) == [] { NoLog(ip); }
      while rest != {}
        invariant Valid() && Repr() <= before && rest <= limiters.Keys <= all
        invariant forall ip :: LogOf(ip) == if ip in rest || HasLater(Log(s, ip), windowStart) then Log(s, ip) else []
        invariant forall ip :: ip in all && ip !in rest ==> (ip in limiters <==> HasLater(Log(s, ip), windowStart))
      {
        var ip :| ip in rest;
        DropIfExpired(ip, windowStart);
        rest := rest - {ip};
      }
    }

    method CleanupRateLimits(windowStart: int, ghost s: Limits)
      requires Represents(s)
      modifies this`limiters
      ensures Repr() <= old(Repr()) && Represents(Cleaned(s, windowStart))
      ensures forall ip :: ip in limiters <==> ip in old(limiters) && HasLater(Log(s, ip), windowStart)
    {
      hide LogOf, Recent, Repr, Valid, Cleaned, HasLater;
      CleanedLogs(s, windowStart);
      DropAllExpired(windowStart, s);
    }

    lemma NoLog(ip: Ip)
      requires Valid() && ip !in limiters
      ensures LogOf(ip) == []
    {
    }
  }

  lemma CleanedLogs(s: Limits, windowStart: int)
    ensures forall ip :: Log(Cleaned(s, windowStart), ip)
                      == if HasLater(Log(s, ip), windowStart) then Log(s, ip) else []
    ensures Cleaned(s, windowStart).count == s.count && Cleaned(s, windowStart).start == s.start
  {
    hide Recent, HasLater;
    forall ip ensures Log(Cleaned(s, windowStart), ip) == if HasLater(Log(s, ip), windowStart) then Log(s, ip) else [] {
      RecentIff(Log(s, ip), windowStart);
      NothingRecent(windowStart);
    }
  }

  lemma NothingRecent(windowStart: int)
    ensures Recent([], windowStart) == []
  {
  }

  // ----- Whole histories of serialized calls

  datatype Event = Request(ip: Ip, now: int) | Cleanup(windowStart: int, now: int)

  /** Calls come in time order, and a clean-up looks no further back than the window of its time. */
  ghost predicate Ordered(h: seq<Event>) {
    && (forall i, j :: 0 <= i <= j < |h| ==> h[i].now <= h[j].now)
    && (forall i :: 0 <= i < |h| ==> 0 <= h[i].now && (h[i].Cleanup? ==> h[i].windowStart <= h[i].now - WINDOW))
  }

  ghost function After(h: seq<Event>, n: nat): Limits
    requires n <= |h|
  {
    if n == 0 then Limits(map[], 0, 0)
    else match h[n - 1]
      case Request(ip, now) => Check(After(h, n - 1), ip, now).0
      case Cleanup(windowStart, _) => Cleaned(After(h, n - 1), windowStart)
  }

  ghost predicate Accepted(h: seq<Event>, i: nat)
    requires i < |h|
  {
    h[i].Request? && Check(After(h, i), h[i].ip, h[i].now).1
  }

  /** Accepted requests of one address among the first n events, at times after `since`. */
  ghost function CountIp(h: seq<Event>, n: nat, ip: Ip, since: int): nat
    requires n <= |h|
  {
    if n == 0 then 0
    else
      var here := if Accepted(h, n - 1) && h[n - 1].ip == ip && h[n - 1].now > since then 1 else 0;
      CountIp(h, n - 1, ip, since) + here
  }

  lemma CheckLogs(s: Limits, ip: Ip, now: int, other: Ip, since: int)
    requires since >= now - WINDOW
    ensures var r := Check(s, ip, now);
            |Recent(Log(r.0, other), since)|
            == |Recent(Log(s, other), since)| + if r.1 && other == ip && now > since then 1 else 0
  {
    RecentRecent(Log(s, ip), now - WINDOW, since);
    RecentSnoc(Recent(Log(s, ip), now - WINDOW), now, since);
  }

  lemma CleanedRecent(s: Limits, windowStart: int, ip: Ip, since: int)
    requires windowStart <= since
    ensures Recent(Log(Cleaned(s, windowStart), ip), since) == Recent(Log(s, ip), since)
  {
    RecentRecent(Log(s, ip), windowStart, since);
  }

  /** A log tells exactly how many requests of its address were accepted within any part of the window. */
  lemma {:induction false} LogIsExact(h: seq<Event>, n: nat, ip: Ip, since: int)
    requires Ordered(h) && n <= |h| && (n > 0 ==> since >= h[n - 1].now - WINDOW)
    ensures CountIp(h, n, ip, since) == |Recent(Log(After(h, n), ip), since)|
  {
    if n == 0 {
    } else {
      LogIsExact(h, n - 1, ip, since);
      var s := After(h, n - 1);
      match h[n - 1]
      case Request(who, now) => CheckLogs(s, who, now, ip, since);
      case Cleanup(windowStart, _) => CleanedRecent(s, windowStart, ip, since);
    }
  }

  /** When the counter's window began, from the history alone: at 0, and then at each request more than
      60 s after it had last begun. */
  ghost function BeganAt(h: seq<Event>, n: nat): int
    requires n <= |h|
  {
    if n == 0 then 0
    else if h[n - 1].Request? && h[n - 1].now - BeganAt(h, n - 1) > 60_000 then h[n - 1].now
    else BeganAt(h, n - 1)
  }

  /** The number of the event at which it began. */
  ghost function Began(h: seq<Event>, n: nat): (k: nat)
    requires n <= |h|
    ensures k <= n
  {
    if n == 0 then 0
    else if h[n - 1].Request? && h[n - 1].now - BeganAt(h, n - 1) > 60_000 then n - 1
    else Began(h, n - 1)
  }

  ghost function AcceptedBetween(h: seq<Event>, from: nat, n: nat): nat
    requires from <= n <= |h|
  {
    if n == from then 0 else AcceptedBetween(h, from, n - 1) + if Accepted(h, n - 1) then 1 else 0
  }

  /** The counter is the number of requests accepted since its window began. */
  lemma {:induction false} CounterIs(h: seq<Event>, n: nat)
    requires n <= |h|
    ensures After(h, n).start == BeganAt(h, n)
    ensures After(h, n).count == AcceptedBetween(h, Began(h, n), n)
  {
    hide Recent;
    if n > 0 {
      CounterIs(h, n - 1);
    }
  }

  /** A request is accepted exactly when fewer than 15 requests of its address were accepted in the 60
      seconds before it, and the counter's window is over or fewer than 300 were accepted in it. */
  lemma AcceptedIff(h: seq<Event>, i: nat)
    requires Ordered(h) && i < |h| && h[i].Request?
    ensures Accepted(h, i)
       <==> (CountIp(h, i, h[i].ip, h[i].now - 60_000) < 15
             && (h[i].now - BeganAt(h, i) > 60_000 || AcceptedBetween(h, Began(h, i), i) < 300))
  {
    hide Recent, After, BeganAt, Began, AcceptedBetween;
    LogIsExact(h, i, h[i].ip, h[i].now - WINDOW);
    CounterIs(h, i);
  }

  /** The state after a history, if logs were never cleaned up. */
  ghost function AfterKeeping(h: seq<Event>, n: nat): Limits
    requires n <= |h|
  {
    if n == 0 then Limits(map[], 0, 0)
    else match h[n - 1]
      case Request(ip, now) => Check(AfterKeeping(h, n - 1), ip, now).0
      case Cleanup(_, _) => AfterKeeping(h, n - 1)
  }

  /** The same counter, and the same logs within the window of any later time. */
  ghost predicate Alike(kept: Limits, swept: Limits, now: int) {
    && kept.count == swept.count && kept.start == swept.start
    && forall ip, since :: since >= now - WINDOW ==> Recent(Log(kept, ip), since) == Recent(Log(swept, ip), since)
  }

  lemma AlikeChecks(kept: Limits, swept: Limits, now: int, later: int, ip: Ip)
    requires Alike(kept, swept, now) && now <= later
    ensures Check(kept, ip, later).1 == Check(swept, ip, later).1
    ensures Alike(Check(kept, ip, later).0, Check(swept, ip, later).0, later)
  {
    hide Recent;
    assert Recent(Log(kept, ip), later - WINDOW) == Recent(Log(swept, ip), later - WINDOW);
    var k, s := Check(kept, ip, later).0, Check(swept, ip, later).0;
    forall other, since | since >= later - WINDOW ensures Recent(Log(k, other), since) == Recent(Log(s, other), since) {
      assert Recent(Log(kept, other), since) == Recent(Log(swept, other), since);
      assert Log(k, other) == Log(s, other) || (Log(k, other) == Log(kept, other) && Log(s, other) == Log(swept, other));
    }
  }

  lemma AlikeSweeps(kept: Limits, swept: Limits, now: int, later: int, windowStart: int)
    requires Alike(kept, swept, now) && now <= later && windowStart <= later - WINDOW
    ensures Alike(kept, Cleaned(swept, windowStart), later)
  {
    hide Recent, Cleaned, Log;
    CleanedLogs(swept, windowStart);
    forall ip, since | since >= later - WINDOW
      ensures Recent(Log(kept, ip), since) == Recent(Log(Cleaned(swept, windowStart), ip), since)
    {
      CleanedRecent(swept, windowStart, ip, since);
    }
  }

  lemma {:induction false} StaysAlike(h: seq<Event>, n: nat, now: int)
    requires Ordered(h) && n <= |h| && (n > 0 ==> h[n - 1].now <= now)
    ensures Alike(AfterKeeping(h, n), After(h, n), now)
  {
    hide Alike, Check, Cleaned;
    if n == 0 {
      AlikeSame(After(h, 0), now);
    } else {
      var last := h[n - 1];
      StaysAlike(h, n - 1, last.now);
      match last {
        case Request(ip, _) => AlikeChecks(AfterKeeping(h, n - 1), After(h, n - 1), last.now, last.now, ip);
        case Cleanup(windowStart, _) =>
          AlikeSweeps(AfterKeeping(h, n - 1), After(h, n - 1), last.now, last.now, windowStart);
      }
      AlikeLater(AfterKeeping(h, n), After(h, n), last.now, now);
    }
  }

  lemma AlikeSame(s: Limits, now: int)
    ensures Alike(s, s, now)
  {
  }

  lemma AlikeLater(kept: Limits, swept: Limits, now: int, later: int)
    requires Alike(kept, swept, now) && now <= later
    ensures Alike(kept, swept, later)
  {
    hide Recent, Log;
  }

  /** Clean-ups never change an answer: each request is accepted exactly when it would be if no log were
      ever deleted. */
  lemma CleanupInvisible(h: seq<Event>, i: nat)
    requires Ordered(h) && i < |h| && h[i].Request?
    ensures Accepted(h, i) <==> Check(AfterKeeping(h, i), h[i].ip, h[i].now).1
  {
    hide Alike, Check;
    StaysAlike(h, i, h[i].now);
    AlikeChecks(AfterKeeping(h, i), After(h, i), h[i].now, h[i].now, h[i].ip);
  }

  /** Accepted requests of one address among the first n events, in the window of 60 s after `since`. */
  ghost function WindowIp(h: seq<Event>, n: nat, ip: Ip, since: int): nat
    requires n <= |h|
  {
    if n == 0 then 0
    else
      var here := if Accepted(h, n - 1) && h[n - 1].ip == ip && since < h[n - 1].now <= since + WINDOW then 1 else 0;
      WindowIp(h, n - 1, ip, since) + here
  }

  lemma {:induction false} WindowIsCount(h: seq<Event>, n: nat, ip: Ip, since: int)
    requires Ordered(h) && n <= |h| && (n > 0 ==> h[n - 1].now <= since + WINDOW)
    ensures WindowIp(h, n, ip, since) == CountIp(h, n, ip, since)
  {
    if n > 0 { WindowIsCount(h, n - 1, ip, since); }
  }

  /** No 60 seconds, wherever they begin, hold more than 15 accepted requests of one address. */
  lemma {:induction false} PerIpBound(h: seq<Event>, n: nat, ip: Ip, since: int)
    requires Ordered(h) && n <= |h|
    ensures WindowIp(h, n, ip, since) <= 15
  {
    hide After, Recent, Check;
    if n > 0 {
      PerIpBound(h, n - 1, ip, since);
      if Accepted(h, n - 1) && h[n - 1].ip == ip && since < h[n - 1].now <= since + WINDOW {
        WindowIsCount(h, n - 1, ip, since);
        AcceptedIff(h, n - 1);
        CountIpMonotone(h, n - 1, ip, h[n - 1].now - WINDOW, since);
      }
    }
  }

  lemma {:induction false} CountIpMonotone(h: seq<Event>, n: nat, ip: Ip, earlier: int, later: int)
    requires n <= |h| && earlier <= later
    ensures CountIp(h, n, ip, later) <= CountIp(h, n, ip, earlier)
  {
    if n > 0 { CountIpMonotone(h, n - 1, ip, earlier, later); }
  }

  /** All accepted requests among the first n events, at `since` or later. */
  ghost function CountAll(h: seq<Event>, n: nat, since: int): nat
    requires n <= |h|
  {
    if n == 0 then 0
    else CountAll(h, n - 1, since) + if Accepted(h, n - 1) && h[n - 1].now >= since then 1 else 0
  }

  ghost function WindowAll(h: seq<Event>, n: nat, since: int): nat
    requires n <= |h|
  {
    if n == 0 then 0
    else
      var here := if Accepted(h, n - 1) && since <= h[n - 1].now <= since + WINDOW then 1 else 0;
      WindowAll(h, n - 1, since) + here
  }

  lemma {:induction false} NothingLater(h: seq<Event>, n: nat, since: int)
    requires Ordered(h) && n <= |h| && (n > 0 ==> h[n - 1].now < since)
    ensures CountAll(h, n, since) == 0
  {
    if n > 0 { NothingLater(h, n - 1, since); }
  }

  /** The counter covers everything after the start of its window; with at most one full window before
      that, it covers everything within 60 seconds. */
  lemma {:induction false} CounterCovers(h: seq<Event>, n: nat, since: int)
    requires Ordered(h) && n <= |h|
    ensures var s := After(h, n);
            && 0 <= s.count <= MAX_GLOBAL && 0 <= s.start && (n > 0 ==> s.start <= h[n - 1].now)
            && (n == 0 ==> s.start == 0)
            && (since > s.start ==> CountAll(h, n, since) <= s.count)
            && (since >= s.start - WINDOW ==> CountAll(h, n, since) <= MAX_GLOBAL + s.count)
  {
    if n > 0 {
      CounterCovers(h, n - 1, since);
      var now := h[n - 1].now;
      if since > now { NothingLater(h, n - 1, since); }
    }
  }

  /** No 60 seconds hold more than 600 accepted requests in all: two full windows of the counter. */
  lemma {:induction false} GlobalBound(h: seq<Event>, n: nat, since: int)
    requires Ordered(h) && n <= |h|
    ensures WindowAll(h, n, since) <= 600
  {
    if n > 0 {
      GlobalBound(h, n - 1, since);
      if h[n - 1].now <= since + WINDOW {
        WindowAllIsCount(h, n, since);
        CounterCovers(h, n, since);
      }
    }
  }

  lemma {:induction false} WindowAllIsCount(h: seq<Event>, n: nat, since: int)
    requires Ordered(h) && n <= |h| && (n > 0 ==> h[n - 1].now <= since + WINDOW)
    ensures WindowAll(h, n, since) == CountAll(h, n, since)
  {
    if n > 0 { WindowAllIsCount(h, n - 1, since); }
  }
}
