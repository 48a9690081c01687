/** What the abstract cache holds: which entries each section leaves, and how long a stored entry stays. */
module CacheContents {
  import opened Recency

  /** The entries that one section leaves, in a cache within its cap. */
  lemma SectionEntries<V>(c: Cache<V>, s: Section<V>, max: nat)
    requires InStep(c) && |c.entries| <= max && max > 0
    ensures
      var after := Run1(c, s, max).entries;
      match s
      case Hit(_) => after == c.entries
      case Forget(key) => after == c.entries - {key}
      case Sweep(now, _) => after == map k | k in c.entries && c.entries[k].expiresAt >= now :: c.entries[k]
      case Insert(key, e, now, recheck) =>
        if recheck && key in c.entries && c.entries[key].expiresAt > now then after == c.entries
        else if |c.entries| < max then after == c.entries[key := e]
        else c.order != [] && after == (c.entries - {c.order[|c.order| - 1]})[key := e]
  {
    hide Only, Without;
    SizeInStep(c);
    match s
    case Hit(_) =>
    case Forget(_) =>
    case Sweep(now, _) => SweptFits(c, now, max);
    case Insert(_, _, _, _) =>
  }

  lemma SweptFits<V>(c: Cache<V>, now: int, max: nat)
    requires InStep(c) && |c.order| <= max
    ensures Trim(Restrict(c, Fresh(c, now)), max) == Restrict(c, Fresh(c, now))
    ensures Restrict(c, Fresh(c, now)).entries == map k | k in c.entries && c.entries[k].expiresAt >= now :: c.entries[k]
  {
    var alive := Fresh(c, now);
    assert |Only(c.order, alive)| <= |c.order|;
    forall k ensures k in alive <==> k in c.entries && c.entries[k].expiresAt >= now {
      FreshIff(c, now, k);
    }
  }

  /** A section takes the key out, or puts another entry under it. */
  predicate Displaces<V(==)>(c: Cache<V>, s: Section<V>, max: nat, key: Key)
    requires key in c.entries
  {
    match s
    case Hit(_) => false
    case Forget(k) => k == key
    case Sweep(now, _) => c.entries[key].expiresAt < now
    case Insert(k, e, now, recheck) =>
      && !(recheck && k in c.entries && c.entries[k].expiresAt > now)
      && if k == key then e != c.entries[key]
         else |c.entries| >= max && c.order != [] && c.order[|c.order| - 1] == key
  }

  /** Every other section leaves the entry as it is. */
  lemma EntryStaysIff<V>(c: Cache<V>, s: Section<V>, max: nat, key: Key)
    requires InStep(c) && |c.entries| <= max && max > 0 && key in c.entries
    ensures key in Run1(c, s, max).entries && Run1(c, s, max).entries[key] == c.entries[key]
            <==> !Displaces(c, s, max, key)
  {
    hide Run1;
    SectionEntries(c, s, max);
  }

  /** Over a run, a stored entry is there until it is replaced, forgotten, swept after it expired, or
      evicted at the cap as the last of the order. */
  lemma {:induction false} StoredStays<V>(ss: seq<Section<V>>, max: nat, i: nat, j: nat, key: Key)
    requires max > 0 && i <= j <= |ss| && key in RunAll(ss[..i], max).entries
    requires forall k :: i <= k < j ==>
               var c := RunAll(ss[..k], max); key in c.entries ==> !Displaces(c, ss[k], max, key)
    ensures key in RunAll(ss[..j], max).entries
    ensures RunAll(ss[..j], max).entries[key] == RunAll(ss[..i], max).entries[key]
    decreases j
  {
    hide Run1, RunAll, Displaces, InStep;
    if i < j {
      StoredStays(ss, max, i, j - 1, key);
      var c := RunAll(ss[..j - 1], max);
      OrderedByLastUse(ss[..j - 1], max);
      EntryStaysIff(c, ss[j - 1], max, key);
      OneMore(ss, max, j);
    }
  }

  lemma OneMore<V>(ss: seq<Section<V>>, max: nat, j: nat)
    requires 0 < j <= |ss|
    ensures RunAll(ss[..j], max) == Run1(RunAll(ss[..j - 1], max), ss[j - 1], max)
  {
    hide Run1;
    assert ss[..j][..j - 1] == ss[..j - 1];
  }
}
