/** What FindMatch answers, stage by stage, in terms of occurrences and of equal lines alone. */
module Stages {
  import opened Common
  import opened EditDistance
  import opened Lines
  import opened Matcher

  // ----- Lines that are equal, and hashes that are shared

  function EqualAt(file: seq<Text>, search: seq<Text>, p: nat, n: nat): set<nat>
    requires n <= |search| && p + n <= |file|
  {
    set k: nat | k < n && file[p + k] == search[k]
  }

  lemma {:induction false} EqualLinesCount(file: seq<Text>, search: seq<Text>, p: nat, n: nat)
    requires n <= |search| && p + n <= |file|
    ensures EqualLines(file, search, p, n) == |EqualAt(file, search, p, n)|
  {
    if n > 0 {
      EqualLinesCount(file, search, p, n - 1);
      var fewer := EqualAt(file, search, p, n - 1);
      if file[p + n - 1] == search[n - 1] {
        assert EqualAt(file, search, p, n) == fewer + {n - 1};
      } else {
        assert EqualAt(file, search, p, n) == fewer;
      }
    }
  }

  /** At least 85 of 100 lines of the window are equal to the search's lines. */
  ghost predicate MostlyEqual(file: seq<Text>, search: seq<Text>, p: nat) {
    p + |search| <= |file| && 100 * |EqualAt(file, search, p, |search|)| >= 85 * |search|
  }

  lemma FitsIff(file: seq<Text>, search: seq<Text>, p: nat)
    requires p + |search| <= |file|
    ensures Fits(file, search, p) <==> MostlyEqual(file, search, p)
  {
    EqualLinesCount(file, search, p, |search|);
  }

  /** The bytes of a line as digits to the base 31. */
  function Polynomial(line: Text): nat {
    if line == [] then 0 else 31 * Polynomial(Init(line)) + Last(line) as nat
  }

  /** Its lowest 32 bits. */
  function PolyHash(line: Text): nat {
    Polynomial(line) % 0x1_0000_0000
  }

  lemma HashStep(p: nat, c: nat)
    ensures (p % 0x1_0000_0000 * 31 + c) % 0x1_0000_0000 == (31 * p + c) % 0x1_0000_0000
  {
    var q, r := p / 0x1_0000_0000, p % 0x1_0000_0000;
    assert 31 * p + c == 0x1_0000_0000 * (31 * q) + (r * 31 + c);
    WholeTimes(31 * q, r * 31 + c);
  }

  lemma WholeTimes(k: nat, x: nat)
    ensures (0x1_0000_0000 * k + x) % 0x1_0000_0000 == x % 0x1_0000_0000
  {
  }

  lemma {:induction false} HashIsPolynomial(line: Text)
    ensures LineHash(line) == PolyHash(line)
    decreases |line|
  {
    hide Init, Last;
    if line != [] {
      Shorter(line);
      HashIsPolynomial(Init(line));
      HashStep(Polynomial(Init(line)), Last(line) as nat);
    }
  }

  lemma Shorter(line: Text)
    requires line != []
    ensures |Init(line)| < |line|
  {
  }

  predicate SharesAt(file: seq<Text>, hashes: set<nat>, p: nat, k: nat) {
    p + k < |file| && PolyHash(file[p + k]) in hashes
  }

  function SharedAt(file: seq<Text>, hashes: set<nat>, p: nat, n: nat): set<nat> {
    set k: nat | k < n && SharesAt(file, hashes, p, k)
  }

  function SearchHashSet(search: seq<Text>): set<nat> {
    set k: nat | k < |search| :: PolyHash(search[k])
  }

  lemma HashesPush(search: seq<Text>)
    ensures search == [] ==> Hashes(search) == {}
    ensures search != [] ==> Hashes(search) == Hashes(search[..|search| - 1]) + {LineHash(search[|search| - 1])}
  {
    hide LineHash;
  }

  lemma HashSetPush(search: seq<Text>)
    ensures search == [] ==> SearchHashSet(search) == {}
    ensures search != [] ==>
              SearchHashSet(search) == SearchHashSet(search[..|search| - 1]) + {PolyHash(search[|search| - 1])}
  {
    hide PolyHash;
    if search != [] {
      var n := |search| - 1;
      var front := search[..n];
      forall h | h in SearchHashSet(search) ensures h in SearchHashSet(front) || h == PolyHash(search[n]) {
        var k: nat :| k < |search| && h == PolyHash(search[k]);
        if k < n {
          assert PolyHash(front[k]) in SearchHashSet(front);
        }
      }
      forall h | h in SearchHashSet(front) ensures h in SearchHashSet(search) {
        var k: nat :| k < n && h == PolyHash(front[k]);
        assert PolyHash(search[k]) in SearchHashSet(search);
      }
      assert PolyHash(search[n]) in SearchHashSet(search);
    }
  }

  lemma {:induction false} HashesAre(search: seq<Text>)
    ensures Hashes(search) == SearchHashSet(search)
  {
    hide LineHash, PolyHash, Hashes, SearchHashSet;
    HashesPush(search);
    HashSetPush(search);
    if search != [] {
      var n := |search| - 1;
      var front := search[..n];
      HashesAre(front);
      HashIsPolynomial(search[n]);
    }
  }

  lemma {:induction false} OverlapCount(file: seq<Text>, hashes: set<nat>, p: nat, n: nat)
    requires p + n <= |file|
    ensures Overlap(file, hashes, p, n) == |SharedAt(file, hashes, p, n)|
  {
    hide LineHash, PolyHash;
    if n > 0 {
      OverlapCount(file, hashes, p, n - 1);
      HashIsPolynomial(file[p + n - 1]);
      var fewer := SharedAt(file, hashes, p, n - 1);
      if LineHash(file[p + n - 1]) in hashes {
        assert SharedAt(file, hashes, p, n) == fewer + {n - 1};
      } else {
        assert SharedAt(file, hashes, p, n) == fewer;
      }
    }
  }

  /** A window's score: how many of its lines have the hash of some line of the search. */
  ghost function Shared(file: seq<Text>, search: seq<Text>, p: nat): nat
    requires p + |search| <= |file|
  {
    |SharedAt(file, SearchHashSet(search), p, |search|)|
  }

  /** The windows of a long file that share at least half as many lines as the search has hashes. */
  ghost predicate HalfShared(file: seq<Text>, search: seq<Text>, p: nat) {
    p + |search| <= |file| && 2 * Shared(file, search, p) >= |SearchHashSet(search)|
  }

  /** What may be scored: up to 500 lines every window; above that ten of the windows that share half,
      or all if there are fewer, and none that shares less than one left out. */
  ghost predicate Candidates(file: seq<Text>, search: seq<Text>, ps: set<nat>) {
    if |file| <= 500 then
      forall p: nat :: p in ps <==> p + |search| <= |file|
    else
      && (forall p :: p in ps ==> HalfShared(file, search, p))
      && |ps| <= 10
      && (|ps| < 10 ==> forall q: nat :: HalfShared(file, search, q) ==> q in ps)
      && forall p, q: nat :: p in ps && q !in ps && HalfShared(file, search, q)
           ==> Shared(file, search, p) >= Shared(file, search, q)
  }

  lemma SurvivesIff(file: seq<Text>, search: seq<Text>, p: nat)
    requires p + |search| <= |file|
    ensures WindowOverlap(file, search, p) == Shared(file, search, p)
    ensures Survives(file, search, p) <==> HalfShared(file, search, p)
  {
    hide Hashes, Overlap, SharedAt, SearchHashSet;
    HashesAre(search);
    OverlapCount(file, Hashes(search), p, |search|);
  }

  lemma CandidatesAre(file: seq<Text>, search: seq<Text>, ps: set<nat>)
    requires |search| <= |file| && IsCandidateSet(file, search, ps)
    ensures Candidates(file, search, ps)
  {
    hide WindowOverlap, Shared, Survives, HalfShared;
    forall p: nat | p + |search| <= |file|
      ensures WindowOverlap(file, search, p) == Shared(file, search, p)
      ensures Survives(file, search, p) <==> HalfShared(file, search, p)
    {
      SurvivesIff(file, search, p);
    }
    forall q: nat | HalfShared(file, search, q) ensures q + |search| <= |file| {
      HalfFits(file, search, q);
    }
    if |file| <= 500 {
      assert forall p: nat :: p in Windows(file, search) <==> p + |search| <= |file| by { hide Shared; }
    } else {
      forall q: nat | HalfShared(file, search, q) ensures q in Survivors(file, search) {
        assert IsWindow(file, search, q);
      }
      if |ps| < 10 {
        SameSize(ps, Survivors(file, search));
      }
    }
  }

  lemma HalfFits(file: seq<Text>, search: seq<Text>, p: nat)
    requires HalfShared(file, search, p)
    ensures p + |search| <= |file|
  {
  }

  lemma SameSize(x: set<nat>, y: set<nat>)
    requires x <= y && (|x| == |y| || |x| >= 10)
    ensures |x| < 10 ==> x == y
  {
    assert |y - x| == |y| - |x|;
  }

  // ----- The stages

  /** The one candidate that is mostly equal. */
  ghost predicate OnlyMostlyEqual(file: seq<Text>, search: seq<Text>, ps: set<nat>, p: nat) {
    p in ps && MostlyEqual(file, search, p) && forall q :: q in ps && MostlyEqual(file, search, q) ==> q == p
  }

  /** The fuzzy stage: for some candidates, the lines of the only one that is mostly equal, or nothing. */
  ghost predicate FuzzyStage(file: seq<Text>, search: seq<Text>, r: Outcome) {
    exists ps :: Candidates(file, search, ps) && AnswersFor(file, search, ps, r)
  }

  ghost predicate AnswersFor(file: seq<Text>, search: seq<Text>, ps: set<nat>, r: Outcome) {
    && (r == NoMatch <==> forall p: nat :: !OnlyMostlyEqual(file, search, ps, p))
    && forall p: nat :: OnlyMostlyEqual(file, search, ps, p) ==>
         p + |search| <= |file|
         && r == Match(Offset(file, p), Offset(file, p) + |Join(file[p..p + |search|])|, Fuzzy)
  }

  lemma OnlyFitIs(file: seq<Text>, search: seq<Text>, ps: set<nat>, p: nat)
    requires ps <= Windows(file, search)
    ensures OnlyMostlyEqual(file, search, ps, p) <==> OnlyFit(file, search, ps, p)
  {
    hide MostlyEqual, Fits;
    forall q: nat | q in ps ensures Fits(file, search, q) <==> MostlyEqual(file, search, q) {
      FitsIff(file, search, q);
    }
  }

  lemma FuzzyAnswers(file: seq<Text>, search: seq<Text>, r: Outcome)
    requires |search| <= |file| && IsFuzzyOutcome(file, search, r)
    ensures FuzzyStage(file, search, r)
  {
    hide IsCandidateSet, Candidates, OnlyFit, OnlyMostlyEqual, Join, Windows, Offset;
    var ps :| ps <= Windows(file, search) && IsCandidateSet(file, search, ps) && r == FuzzyOutcome(file, search, ps);
    CandidatesAre(file, search, ps);
    forall p: nat ensures OnlyMostlyEqual(file, search, ps, p) <==> OnlyFit(file, search, ps, p) {
      OnlyFitIs(file, search, ps, p);
    }
    forall p: nat | OnlyMostlyEqual(file, search, ps, p)
      ensures p + |search| <= |file|
              && r == Match(Offset(file, p), Offset(file, p) + |Join(file[p..p + |search|])|, Fuzzy)
    {
      OnlyFitUnique(file, search, ps, p);
    }
    assert AnswersFor(file, search, ps, r);
  }

  /** The stages in their order: the search as it is, if it occurs exactly once; else, in the normalized
      file, the normalized search, if it occurs exactly once; else its core; else, within the limits on
      lines, the fuzzy stage. An empty core in an empty normalized file panics before the second. */
  lemma FindMatchStages(file: Text, search: Text, r: Outcome)
    requires IsOutcome(file, search, r)
    ensures
      var n, s := Normalize(file), Normalize(search);
      var t := Join(Core(Split(s)));
      if file != [] && exists i :: OccursOnlyAt(file, search, i) then
        r.Match? && r.kind == Exact && OccursOnlyAt(file, search, r.start) && r.end == r.start + |search|
      else if n == [] && t == [] then
        r == Panic
      else if n != [] && exists i :: OccursOnlyAt(n, s, i) then
        r.Match? && r.kind == Normalized && OccursOnlyAt(n, s, r.start) && r.end == r.start + |s|
      else if n != [] && exists i :: OccursOnlyAt(n, t, i) then
        r.Match? && r.kind == Normalized && OccursOnlyAt(n, t, r.start) && r.end == r.start + |t|
      else if |Split(t)| > |Split(n)| || |Split(n)| > 20000 then
        r == NoMatch
      else
        FuzzyStage(Split(n), Split(t), r)
  {
    hide Split, Normalize, Core, Join, OccursOnlyAt, FuzzyStage, IsFuzzyOutcome;
    var n, t := Normalize(file), Join(Core(Split(Normalize(search))));
    if |Split(t)| <= |Split(n)| && IsFuzzyOutcome(Split(n), Split(t), r) {
      FuzzyAnswers(Split(n), Split(t), r);
    }
  }
}
