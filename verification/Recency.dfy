/** The abstract cache: keys ordered by last use, and the values stored under them.
    Each section below is what one critical section of the source does; any interleaving of
    goroutines is some sequence of sections. */
module Recency {
  import opened Common

  type Key = string

  datatype Entry<V> = Entry(value: V, expiresAt: int)

  datatype Cache<V> = Cache(order: seq<Key>, entries: map<Key, Entry<V>>)

  // ----- Orders of keys

  function Only(ks: seq<Key>, keep: set<Key>): (r: seq<Key>)
    ensures forall k :: k in r <==> k in ks && k in keep
    ensures |r| <= |ks|
  {
    if ks == [] then []
    else if ks[0] in keep then [ks[0]] + Only(ks[1..], keep)
    else Only(ks[1..], keep)
  }

  function KeySet(ks: seq<Key>): set<Key> {
    set k | k in ks
  }

  function Without(ks: seq<Key>, key: Key): seq<Key> {
    Only(ks, KeySet(ks) - {key})
  }

  function Front(ks: seq<Key>, key: Key): seq<Key> {
    [key] + Without(ks, key)
  }

  lemma {:induction false} OnlyKeepsOrder(ks: seq<Key>, keep: set<Key>)
    requires Distinct(ks)
    ensures Distinct(Only(ks, keep))
  {
    if ks != [] {
      OnlyKeepsOrder(ks[1..], keep);
    }
  }

  lemma {:induction false} OnlyAll(ks: seq<Key>, keep: set<Key>)
    requires forall k :: k in ks ==> k in keep
    ensures Only(ks, keep) == ks
  {
    if ks != [] {
      OnlyAll(ks[1..], keep);
    }
  }

  lemma {:induction false} OnlyOnly(ks: seq<Key>, keep1: set<Key>, keep2: set<Key>)
    ensures Only(Only(ks, keep1), keep2) == Only(ks, keep1 * keep2)
  {
    if ks != [] {
      OnlyOnly(ks[1..], keep1, keep2);
      if ks[0] in keep1 {
        assert Only(ks, keep1)[1..] == Only(ks[1..], keep1);
      }
    }
  }

  lemma {:induction false} OnlySame(ks: seq<Key>, keep1: set<Key>, keep2: set<Key>)
    requires forall k :: k in ks ==> (k in keep1 <==> k in keep2)
    ensures Only(ks, keep1) == Only(ks, keep2)
  {
    if ks != [] {
      OnlySame(ks[1..], keep1, keep2);
    }
  }

  lemma {:induction false} OnlyConcat(xs: seq<Key>, ys: seq<Key>, keep: set<Key>)
    ensures Only(xs + ys, keep) == Only(xs, keep) + Only(ys, keep)
  {
    if xs == [] {
      assert xs + ys == ys;
    } else {
      assert (xs + ys)[1..] == xs[1..] + ys;
      OnlyConcat(xs[1..], ys, keep);
    }
  }

  /** Taking a key out of a duplicate-free order takes out the one place where it is. */
  lemma WithoutAt(ks: seq<Key>, i: nat)
    requires Distinct(ks) && i < |ks|
    ensures Without(ks, ks[i]) == ks[..i] + ks[i + 1..]
  {
    var keep := KeySet(ks) - {ks[i]};
    var left, right := ks[..i], ks[i + 1..];
    assert forall k :: k in left ==> k in keep;
    assert forall k :: k in right ==> k in keep;
    hide Distinct, KeySet;
    assert ks == left + ([ks[i]] + right);
    OnlyConcat(left, [ks[i]] + right, keep);
    OnlyConcat([ks[i]], right, keep);
    OnlyAll(left, keep);
    OnlyAll(right, keep);
  }

  lemma WithoutAbsent(ks: seq<Key>, key: Key)
    requires key !in ks
    ensures Without(ks, key) == ks
  {
    OnlyAll(ks, KeySet(ks) - {key});
  }

  // ----- Sections

  ghost predicate InStep<V>(c: Cache<V>) {
    Distinct(c.order) && c.entries.Keys == KeySet(c.order)
  }

  function Drop<V>(c: Cache<V>, key: Key): Cache<V> {
    Cache(Without(c.order, key), c.entries - {key})
  }

  function Touch<V>(c: Cache<V>, key: Key): Cache<V> {
    if key in c.order then c.(order := Front(c.order, key)) else c
  }

  function Evict<V>(c: Cache<V>): Cache<V> {
    if c.order == [] then c else Drop(c, c.order[|c.order| - 1])
  }

  function Put<V>(c: Cache<V>, key: Key, e: Entry<V>): Cache<V> {
    Cache(Front(c.order, key), c.entries[key := e])
  }

  function Store<V>(c: Cache<V>, key: Key, e: Entry<V>, max: nat): Cache<V> {
    Put(if |c.entries| >= max then Evict(c) else c, key, e)
  }

  function Fresh<V>(c: Cache<V>, now: int): set<Key> {
    set k | k in c.entries && now <= c.entries[k].expiresAt
  }

  function Restrict<V>(c: Cache<V>, keep: set<Key>): Cache<V> {
    Cache(Only(c.order, keep), map k | k in c.entries && k in keep :: c.entries[k])
  }

  /** Keep the n most recently used keys. */
  function Trim<V>(c: Cache<V>, n: nat): Cache<V> {
    if |c.order| <= n then c else Restrict(c, KeySet(c.order[..n]))
  }

  datatype Section<V> =
    | Hit(key: Key)
    | Forget(key: Key)
    | Insert(key: Key, entry: Entry<V>, now: int, recheck: bool)
    | Sweep(now: int, enforceMax: bool)

  predicate StillFresh<V>(c: Cache<V>, s: Section<V>) {
    s.Insert? && s.recheck && s.key in c.entries && s.now < c.entries[s.key].expiresAt
  }

  function Run1<V>(c: Cache<V>, s: Section<V>, max: nat): Cache<V> {
    match s
    case Hit(key) => Touch(c, key)
    case Forget(key) => Drop(c, key)
    case Insert(key, e, now, _) => if StillFresh(c, s) then Touch(c, key) else Store(c, key, e, max)
    case Sweep(now, enforceMax) =>
      var swept := Restrict(c, Fresh(c, now));
      if enforceMax then Trim(swept, max) else swept
  }

  function RunAll<V>(ss: seq<Section<V>>, max: nat): Cache<V> {
    if ss == [] then Cache([], map[])
    else Run1(RunAll(ss[..|ss| - 1], max), ss[|ss| - 1], max)
  }

  // ----- Recency over a whole run

  /** The key that a section, run on c, uses. */
  function Used<V>(c: Cache<V>, s: Section<V>): set<Key> {
    match s
    case Hit(key) => if key in c.order then {key} else {}
    case Insert(key, _, _, _) => {key}
    case _ => {}
  }

  /** When, in the run so far, the key was last used; -1 if never. */
  ghost function LastUse<V>(ss: seq<Section<V>>, max: nat, key: Key): int
  {
    if ss == [] then -1
    else if key in Used(RunAll(ss[..|ss| - 1], max), ss[|ss| - 1]) then |ss| - 1
    else LastUse(ss[..|ss| - 1], max, key)
  }

  ghost predicate ByRecency<V>(ss: seq<Section<V>>, max: nat, order: seq<Key>) {
    && (forall i :: 0 <= i < |order| ==> LastUse(ss, max, order[i]) >= 0)
    && forall i, j :: 0 <= i < j < |order| ==> LastUse(ss, max, order[i]) > LastUse(ss, max, order[j])
  }

  lemma {:induction false} LastUseBound<V>(ss: seq<Section<V>>, max: nat, key: Key)
    ensures LastUse(ss, max, key) < |ss|
  {
    if ss != [] { LastUseBound(ss[..|ss| - 1], max, key); }
  }

  lemma FrontByRecency<V>(ss: seq<Section<V>>, max: nat, key: Key, older: seq<Key>)
    requires ByRecency(ss, max, older) && LastUse(ss, max, key) >= 0
    requires forall k :: k in older ==> LastUse(ss, max, k) < LastUse(ss, max, key)
    ensures ByRecency(ss, max, [key] + older)
  {
    hide LastUse;
  }

  /** Dropping keys, wherever they are, keeps an order by recency. */
  lemma {:induction false} OnlyByRecency<V>(ss: seq<Section<V>>, max: nat, ks: seq<Key>, keep: set<Key>)
    requires ByRecency(ss, max, ks)
    ensures ByRecency(ss, max, Only(ks, keep))
  {
    hide LastUse;
    if ks != [] {
      OnlyByRecency(ss, max, ks[1..], keep);
      var rest := Only(ks[1..], keep);
      forall k | k in rest ensures LastUse(ss, max, k) < LastUse(ss, max, ks[0]) {
        var j :| 0 <= j < |ks| - 1 && ks[1..][j] == k;
        assert ks[j + 1] == k;
      }
      assert ByRecency(ss, max, rest) && LastUse(ss, max, ks[0]) >= 0;
      hide ByRecency;
      FrontByRecency(ss, max, ks[0], rest);
    }
  }

  /** What a section leaves in the order is the used key, if any, in front of older keys in their old order. */
  lemma SectionOrder<V>(c: Cache<V>, s: Section<V>, max: nat) returns (keep: set<Key>)
    requires InStep(c) && max > 0
    ensures Used(c, s) == {} ==> Run1(c, s, max).order == Only(c.order, keep)
    ensures Used(c, s) != {}
        ==> (!s.Sweep? && Used(c, s) == {s.key} && s.key !in keep && Run1(c, s, max).order == [s.key] + Only(c.order, keep))
    ensures InStep(Run1(c, s, max))
    ensures |c.order| <= max ==> |Run1(c, s, max).order| <= max
  {
    hide Run1, Used;
    match s
    case Hit(_) => keep := HitOrder(c, s, max);
    case Forget(_) => keep := ForgetOrder(c, s, max);
    case Insert(_, _, _, _) => keep := InsertOrder(c, s, max);
    case Sweep(_, _) => keep := SweepOrder(c, s, max);
  }

  lemma HitOrder<V>(c: Cache<V>, s: Section<V>, max: nat) returns (keep: set<Key>)
    requires InStep(c) && s.Hit?
    ensures Used(c, s) == {} ==> Run1(c, s, max).order == Only(c.order, keep)
    ensures Used(c, s) != {}
        ==> Used(c, s) == {s.key} && s.key !in keep && Run1(c, s, max).order == [s.key] + Only(c.order, keep)
    ensures InStep(Run1(c, s, max)) && |Run1(c, s, max).order| == |c.order|
  {
    hide Only, KeySet;
    keep := if s.key in c.order then KeySet(c.order) - {s.key} else KeySet(c.order);
    KeySetHas(c.order);
    OnlyAll(c.order, KeySet(c.order));
    TouchInStep(c, s.key);
  }

  lemma KeySetHas(ks: seq<Key>)
    ensures forall k :: k in ks ==> k in KeySet(ks)
  {
  }

  lemma ForgetOrder<V>(c: Cache<V>, s: Section<V>, max: nat) returns (keep: set<Key>)
    requires InStep(c) && s.Forget?
    ensures Used(c, s) == {} && Run1(c, s, max).order == Only(c.order, keep)
    ensures InStep(Run1(c, s, max)) && |Run1(c, s, max).order| <= |c.order|
  {
    keep := KeySet(c.order) - {s.key};
    DropInStep(c, s.key);
  }

  lemma InsertOrder<V>(c: Cache<V>, s: Section<V>, max: nat) returns (keep: set<Key>)
    requires InStep(c) && max > 0 && s.Insert?
    ensures Used(c, s) == {s.key} && s.key !in keep && Run1(c, s, max).order == [s.key] + Only(c.order, keep)
    ensures InStep(Run1(c, s, max)) && (|c.order| <= max ==> |Run1(c, s, max).order| <= max)
  {
    hide Store, Only;
    if StillFresh(c, s) {
      keep := KeySet(c.order) - {s.key};
      TouchInStep(c, s.key);
    } else {
      keep := StoreOrder(c, s.key, s.entry, max);
    }
  }

  lemma SweepOrder<V>(c: Cache<V>, s: Section<V>, max: nat) returns (keep: set<Key>)
    requires InStep(c) && s.Sweep?
    ensures Used(c, s) == {} && Run1(c, s, max).order == Only(c.order, keep)
    ensures InStep(Run1(c, s, max)) && |Run1(c, s, max).order| <= |c.order|
  {
    var alive := Fresh(c, s.now);
    var swept := Restrict(c, alive);
    RestrictInStep(c, alive);
    if s.enforceMax && |swept.order| > max {
      var first := KeySet(swept.order[..max]);
      RestrictInStep(swept, first);
      OnlyOnly(c.order, alive, first);
      keep := alive * first;
    } else {
      keep := alive;
    }
  }

  lemma {:induction false} TrimOrder(ks: seq<Key>, n: nat)
    requires Distinct(ks) && n <= |ks|
    ensures Only(ks, KeySet(ks[..n])) == ks[..n]
  {
    var keep := KeySet(ks[..n]);
    assert ks == ks[..n] + ks[n..];
    OnlyConcat(ks[..n], ks[n..], keep);
    OnlyAll(ks[..n], keep);
    OnlySame(ks[n..], keep, {});
    OnlyNone(ks[n..]);
  }

  lemma {:induction false} OnlyNone(ks: seq<Key>)
    ensures Only(ks, {}) == []
  {
    if ks != [] { OnlyNone(ks[1..]); }
  }

  lemma DropInStep<V>(c: Cache<V>, key: Key)
    requires InStep(c)
    ensures InStep(Drop(c, key))
    ensures key in c.order ==> |Drop(c, key).order| == |c.order| - 1
  {
    OnlyKeepsOrder(c.order, KeySet(c.order) - {key});
    if key in c.order {
      var i :| 0 <= i < |c.order| && c.order[i] == key;
      WithoutAt(c.order, i);
    }
  }

  lemma TouchInStep<V>(c: Cache<V>, key: Key)
    requires InStep(c)
    ensures InStep(Touch(c, key)) && |Touch(c, key).order| == |c.order|
  {
    if key in c.order {
      DropInStep(c, key);
    }
  }

  lemma RestrictInStep<V>(c: Cache<V>, keep: set<Key>)
    requires InStep(c)
    ensures InStep(Restrict(c, keep))
  {
    OnlyKeepsOrder(c.order, keep);
  }

  lemma {:induction false} KeySetSize(ks: seq<Key>)
    requires Distinct(ks)
    ensures |KeySet(ks)| == |ks|
  {
    if ks != [] {
      KeySetSize(ks[1..]);
      assert KeySet(ks) == KeySet(ks[1..]) + {ks[0]};
    }
  }

  lemma SizeInStep<V>(c: Cache<V>)
    requires InStep(c)
    ensures |c.entries| == |c.order|
  {
    KeySetSize(c.order);
    assert |c.entries| == |c.entries.Keys|;
  }

  lemma EvictOrder<V>(c: Cache<V>) returns (keep: set<Key>)
    requires InStep(c)
    ensures InStep(Evict(c)) && Evict(c).order == Only(c.order, keep)
    ensures c.order != [] ==> |Evict(c).order| == |c.order| - 1
  {
    if c.order == [] {
      keep := {};
    } else {
      keep := KeySet(c.order) - {c.order[|c.order| - 1]};
      DropInStep(c, c.order[|c.order| - 1]);
    }
  }

  lemma FrontInStep<V>(c: Cache<V>, key: Key, e: Entry<V>)
    requires InStep(c)
    ensures InStep(Put(c, key, e))
    ensures |Put(c, key, e).order| <= |c.order| + 1
  {
    DropInStep(c, key);
  }

  lemma StoreOrder<V>(c: Cache<V>, key: Key, e: Entry<V>, max: nat) returns (keep: set<Key>)
    requires InStep(c) && max > 0
    ensures key !in keep && Store(c, key, e, max).order == [key] + Only(c.order, keep)
    ensures InStep(Store(c, key, e, max))
    ensures |c.order| <= max ==> |Store(c, key, e, max).order| <= max
  {
    SizeInStep(c);
    var room, keep1 := c, KeySet(c.order);
    OnlyAll(c.order, keep1);
    if |c.entries| >= max {
      keep1 := EvictOrder(c);
      room := Evict(c);
    }
    hide Evict, InStep;
    FrontInStep(room, key, e);
    var others := KeySet(room.order) - {key};
    OnlyOnly(c.order, keep1, others);
    keep := keep1 * others;
  }

  lemma OlderUses<V>(ss: seq<Section<V>>, max: nat, order: seq<Key>)
    requires ss != []
    requires var before := ss[..|ss| - 1];
      ByRecency(before, max, order) && forall k :: k in order ==> k !in Used(RunAll(before, max), ss[|ss| - 1])
    ensures ByRecency(ss, max, order)
    ensures forall k :: k in order ==> LastUse(ss, max, k) < |ss| - 1
  {
    hide RunAll, Used;
    var before := ss[..|ss| - 1];
    forall k | k in order ensures LastUse(ss, max, k) == LastUse(before, max, k) < |ss| - 1 {
      LastUseBound(before, max, k);
    }
    hide LastUse;
  }

  lemma LastUseNow<V>(ss: seq<Section<V>>, max: nat, key: Key)
    requires ss != [] && key in Used(RunAll(ss[..|ss| - 1], max), ss[|ss| - 1])
    ensures LastUse(ss, max, key) == |ss| - 1
  {
  }

  /** Over any run of sections: list and map hold the same keys, without duplicates, at most `max`
      of them, and ordered by when each was last used. */
  lemma {:induction false} OrderedByLastUse<V>(ss: seq<Section<V>>, max: nat)
    requires max > 0
    ensures InStep(RunAll(ss, max)) && |RunAll(ss, max).entries| <= max
    ensures ByRecency(ss, max, RunAll(ss, max).order)
    decreases |ss|
  {
    hide InStep, LastUse, ByRecency, Run1, Used, Only;
    if ss == [] {
      EmptyRun<V>(max);
    } else {
      var before, s := ss[..|ss| - 1], ss[|ss| - 1];
      OrderedByLastUse(before, max);
      var c := RunAll(before, max);
      SizeInStep(c);
      var keep := SectionOrder(c, s, max);
      assert RunAll(ss, max) == Run1(c, s, max);
      SizeInStep(RunAll(ss, max));
      var older := Only(c.order, keep);
      OnlyByRecency(before, max, c.order, keep);
      OlderUses(ss, max, older);
      if Used(c, s) != {} {
        LastUseNow(ss, max, s.key);
        FrontByRecency(ss, max, s.key, older);
      }
    }
  }

  lemma EmptyRun<V>(max: nat)
    ensures RunAll<V>([], max) == Cache([], map[]) && InStep(RunAll<V>([], max)) && ByRecency<V>([], max, [])
  {
  }

  /** What an eviction removes was last used before every key that it leaves. */
  lemma EvictsOldest<V>(ss: seq<Section<V>>, max: nat, key: Key)
    requires max > 0
    requires var c := RunAll(ss, max); c.order != [] && key in Evict(c).entries
    ensures var c := RunAll(ss, max); var victim := c.order[|c.order| - 1];
            && Evict(c).entries == c.entries - {victim}
            && LastUse(ss, max, victim) < LastUse(ss, max, key)
  {
    hide RunAll, LastUse, Evict, Without;
    OrderedByLastUse(ss, max);
    var c := RunAll(ss, max);
    var i := KeptBefore(c, key);
    assert LastUse(ss, max, c.order[i]) > LastUse(ss, max, c.order[|c.order| - 1]);
  }

  lemma KeptBefore<V>(c: Cache<V>, key: Key) returns (i: nat)
    requires InStep(c) && c.order != [] && key in Evict(c).entries
    ensures i < |c.order| - 1 && c.order[i] == key
    ensures Evict(c).entries == c.entries - {c.order[|c.order| - 1]}
  {
    hide Without;
    i :| 0 <= i < |c.order| && c.order[i] == key;
    assert i < |c.order| - 1;
  }

  // ----- Sweeping one key at a time

  lemma RestrictAll<V>(c: Cache<V>, keep: set<Key>)
    requires InStep(c) && c.entries.Keys <= keep
    ensures Restrict(c, keep) == c
  {
    OnlyAll(c.order, keep);
  }

  lemma RestrictDrop<V>(c: Cache<V>, keep: set<Key>, key: Key)
    ensures Drop(Restrict(c, keep), key) == Restrict(c, keep - {key})
  {
    var kept := Only(c.order, keep);
    OnlyOnly(c.order, keep, KeySet(kept) - {key});
    OnlySame(c.order, keep * (KeySet(kept) - {key}), keep - {key});
  }

  lemma TrimFits<V>(c: Cache<V>, n: nat)
    requires |c.order| <= n
    ensures Trim(c, n) == c
  {
  }

  lemma EvictDropsLast<V>(c: Cache<V>)
    requires InStep(c) && c.order != []
    ensures Evict(c).order == c.order[..|c.order| - 1] && InStep(Evict(c))
  {
    WithoutAt(c.order, |c.order| - 1);
    DropInStep(c, c.order[|c.order| - 1]);
  }

  /** The n most recently used keys with their entries. */
  ghost function Prefix<V>(c: Cache<V>, n: nat): (p: Cache<V>)
    requires n <= |c.order|
    ensures |p.order| == n
  {
    Cache(c.order[..n], map k | k in c.entries && k in c.order[..n] :: c.entries[k])
  }

  lemma TrimIsPrefix<V>(c: Cache<V>, n: nat)
    requires InStep(c) && |c.order| > n
    ensures Trim(c, n) == Prefix(c, n)
  {
    TrimOrder(c.order, n);
  }

  lemma LastApart<V>(c: Cache<V>)
    requires InStep(c) && c.order != []
    ensures forall k :: k in c.entries ==> (k in c.order[..|c.order| - 1] <==> k != c.order[|c.order| - 1])
  {
  }

  lemma EvictIsPrefix<V>(c: Cache<V>)
    requires InStep(c) && c.order != []
    ensures Evict(c) == Prefix(c, |c.order| - 1) && InStep(Evict(c))
  {
    hide InStep, Without, Only;
    EvictDropsLast(c);
    LastApart(c);
    assert Evict(c).entries == c.entries - {c.order[|c.order| - 1]};
  }

  lemma PrefixOfPrefix<V>(c: Cache<V>, m: nat, n: nat)
    requires n <= m <= |c.order|
    ensures Prefix(Prefix(c, m), n) == Prefix(c, n)
  {
    assert c.order[..m][..n] == c.order[..n];
    assert forall k :: k in c.order[..n] ==> k in c.order[..m];
  }

  /** Evicting while there are too many keys does not change which n are kept. */
  lemma TrimEvict<V>(c: Cache<V>, n: nat)
    requires InStep(c) && |c.order| > n
    ensures Trim(Evict(c), n) == Trim(c, n) && |Evict(c).order| == |c.order| - 1
  {
    hide Evict, InStep, Prefix, Trim;
    EvictIsPrefix(c);
    TrimIsPrefix(c, n);
    PrefixOfPrefix(c, |c.order| - 1, n);
    if |c.order| == n + 1 {
      TrimFits(Evict(c), n);
    } else {
      TrimIsPrefix(Evict(c), n);
    }
  }

  lemma FreshIff<V>(c: Cache<V>, now: int, key: Key)
    ensures key in Fresh(c, now) <==> key in c.entries && now <= c.entries[key].expiresAt
  {
  }

  /** The cache in the middle of a sweep, with the pending keys still to be looked at. */
  ghost function MidSweep<V>(before: Cache<V>, now: int, pending: set<Key>): Cache<V> {
    Restrict(before, Fresh(before, now) + pending)
  }

  lemma SweepEnds<V>(before: Cache<V>, now: int)
    requires InStep(before)
    ensures MidSweep(before, now, before.entries.Keys) == before
    ensures MidSweep(before, now, {}) == Restrict(before, Fresh(before, now))
  {
    RestrictAll(before, Fresh(before, now) + before.entries.Keys);
    assert Fresh(before, now) + {} == Fresh(before, now);
  }

  /** One key of a sweep: its fate depends only on its own expiry. */
  lemma SweepStep<V>(before: Cache<V>, now: int, pending: set<Key>, key: Key)
    requires key in pending && pending <= before.entries.Keys
    ensures var c := MidSweep(before, now, pending);
            && key in c.entries && c.entries[key] == before.entries[key]
            && MidSweep(before, now, pending - {key})
               == if now > before.entries[key].expiresAt then Drop(c, key) else c
  {
    hide Fresh;
    var alive := Fresh(before, now);
    FreshIff(before, now, key);
    if key in alive {
      assert alive + pending == alive + (pending - {key});
    } else {
      assert (alive + pending) - {key} == alive + (pending - {key});
      RestrictDrop(before, alive + pending, key);
    }
  }

  // ----- Sections by case

  lemma InsertCases<V>(c: Cache<V>, key: Key, e: Entry<V>, now: int, recheck: bool, max: nat)
    ensures Run1(c, Insert(key, e, now, recheck), max)
         == if recheck && key in c.entries && now < c.entries[key].expiresAt
            then Run1(c, Hit(key), max) else Store(c, key, e, max)
  {
  }
}
