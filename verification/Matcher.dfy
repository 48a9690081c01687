/** FindMatch: where in a file an edit's search text is, by four tries of decreasing strictness. */
module Matcher {
  import opened Common
  import opened EditDistance
  import opened Similarity
  import opened Lines

  datatype Kind = Exact | Normalized | Fuzzy

  /** `Panic` is the run-time failure of slicing an empty text from index 1. */
  datatype Outcome = Panic | NoMatch | Match(start: nat, end: nat, kind: Kind)

  const FUZZY_THRESHOLD := 0.85
  const LARGE_FILE_THRESHOLD := 500
  const MAX_CANDIDATES := 10
  const MAX_FILE_LINES := 20000

  // ----- The three tries that look for the text itself

  ghost predicate Unique(s: Text, pattern: Text) {
    exists i: nat :: OccursOnlyAt(s, pattern, i)
  }

  datatype Probe = OutOfRange | NotOnce | Once(at: nat)

  /** The first occurrence, if a second search, from one byte further on, finds no other. */
  method FindOnce(s: Text, pattern: Text) returns (r: Probe)
    ensures r.OutOfRange? <==> s == [] && pattern == []
    ensures r.Once? <==> s != [] && Unique(s, pattern)
    ensures r.Once? ==> OccursOnlyAt(s, pattern, r.at)
  {
    hide Index;
    assert pattern == [] ==> Occurs(s, pattern, 0) by { assert s[0..0] == []; }
    var first := Index(s, pattern);
    if first == -1 { return NotOnce; }
    if first + 1 > |s| {
      return OutOfRange;
    }
    var second := Index(s[first + 1..], pattern);
    SecondSearch(s, pattern, first);
    if second != -1 {
      return NotOnce;
    }
    return Once(first);
  }

  /** A second occurrence exists exactly when the rest of the text, from first + 1, holds one. */
  lemma SecondSearch(s: Text, pattern: Text, first: nat)
    requires first + 1 <= |s| && Occurs(s, pattern, first) && Index(s, pattern) == first
    ensures Index(s[first + 1..], pattern) == -1 <==> OccursOnlyAt(s, pattern, first)
    ensures Unique(s, pattern) <==> OccursOnlyAt(s, pattern, first)
  {
    hide Index;
    var rest := s[first + 1..];
    var second := Index(rest, pattern);
    if second >= 0 {
      assert rest[second..second + |pattern|] == s[first + 1 + second..first + 1 + second + |pattern|];
      assert Occurs(s, pattern, first + 1 + second);
    } else {
      forall j: nat | Occurs(s, pattern, j) ensures j == first {
        if j > first {
          OccursInRest(s, pattern, first + 1, j);
        }
      }
    }
  }

  lemma OccursInRest(s: Text, pattern: Text, from: nat, j: nat)
    requires from <= j && Occurs(s, pattern, j)
    ensures Occurs(s[from..], pattern, j - from)
  {
    assert s[from..][j - from..j - from + |pattern|] == s[j..j + |pattern|];
  }

  // ----- Windows of lines

  /** How many of the first k lines of the window at p equal the search line beside them. */
  function EqualLines(file: seq<Text>, search: seq<Text>, p: nat, k: nat): nat
    requires k <= |search| && p + k <= |file|
  {
    if k == 0 then 0
    else EqualLines(file, search, p, k - 1) + if file[p + k - 1] == search[k - 1] then 1 else 0
  }

  /** At least 85% of the window's lines equal the search lines. */
  predicate Fits(file: seq<Text>, search: seq<Text>, p: nat)
    requires p + |search| <= |file|
  {
    20 * EqualLines(file, search, p, |search|) >= 17 * |search|
  }

  predicate IsWindow(file: seq<Text>, search: seq<Text>, p: nat) {
    p + |search| <= |file|
  }

  ghost function Windows(file: seq<Text>, search: seq<Text>): set<nat> {
    set p: nat | p <= |file| && IsWindow(file, search, p)
  }

  /** p is the one window among ps that fits. */
  ghost predicate OnlyFit(file: seq<Text>, search: seq<Text>, ps: set<nat>, p: nat)
    requires ps <= Windows(file, search)
  {
    p in ps && Fits(file, search, p) && forall q :: q in ps && Fits(file, search, q) ==> q == p
  }

  lemma ShareOrder(part: nat, whole: nat, limit: real)
    requires whole > 0
    ensures part as real / whole as real >= limit <==> part as real >= limit * whole as real
  {
    var s := part as real / whole as real;
    ScaledScore(s, limit, whole as real);
    assert s * whole as real == part as real;
  }

  /** The score of one window: an average of similarities, which counts equal lines. */
  method WindowFits(file: seq<Text>, search: seq<Text>, position: nat) returns (fits: bool)
    requires search != [] && position + |search| <= |file|
    ensures fits == Fits(file, search, position)
  {
    var windowSize := |search|;
    var totalSimilarity := 0.0;
    for i := 0 to windowSize
      invariant totalSimilarity == EqualLines(file, search, position, i) as real
    {
      var similarity := LevenshteinRatio(file[position + i], search[i], FUZZY_THRESHOLD);
      RatioCollapses(file[position + i], search[i], FUZZY_THRESHOLD);
      totalSimilarity := totalSimilarity + similarity;
    }
    var averageSimilarity := totalSimilarity / windowSize as real;
    ShareOrder(EqualLines(file, search, position, windowSize), windowSize, FUZZY_THRESHOLD);
    return averageSimilarity >= FUZZY_THRESHOLD;
  }

  // ----- Line hashes and the prefilter

  function LineHash(line: Text): (h: nat)
    ensures h < 0x1_0000_0000
  {
    if line == [] then 0 else (LineHash(Init(line)) * 31 + Last(line) as nat) % 0x1_0000_0000
  }

  method ComputeLineHash(line: Text) returns (hash: nat)
    ensures hash == LineHash(line)
  {
    hash := 0;
    for i := 0 to |line|
      invariant hash == LineHash(line[..i])
    {
      assert Init(line[..i + 1]) == line[..i];
      hash := (hash * 31 + line[i] as nat) % 0x1_0000_0000;
    }
    assert line[..|line|] == line;
  }

  function Hashes(lines: seq<Text>): (hs: set<nat>)
    ensures forall k :: 0 <= k < |lines| ==> LineHash(lines[k]) in hs
    ensures |hs| <= |lines|
    ensures lines != [] ==> |hs| > 0
  {
    if lines == [] then {}
    else
      var rest := Hashes(lines[..|lines| - 1]);
      var h := LineHash(lines[|lines| - 1]);
      assert h in rest + {h};
      rest + {h}
  }

  /** How many of the k lines from p on have a hash among hs. */
  function Overlap(file: seq<Text>, hs: set<nat>, p: nat, k: nat): nat
    requires p + k <= |file|
  {
    if k == 0 then 0
    else Overlap(file, hs, p, k - 1) + if LineHash(file[p + k - 1]) in hs then 1 else 0
  }

  /** How many lines of the window at p have the hash of some search line. */
  function WindowOverlap(file: seq<Text>, search: seq<Text>, p: nat): nat
    requires p + |search| <= |file|
  {
    Overlap(file, Hashes(search), p, |search|)
  }

  predicate Survives(file: seq<Text>, search: seq<Text>, p: nat)
    requires p + |search| <= |file|
  {
    2 * WindowOverlap(file, search, p) >= |Hashes(search)|
  }

  ghost function Survivors(file: seq<Text>, search: seq<Text>): set<nat> {
    set p: nat | p <= |file| && IsWindow(file, search, p) && Survives(file, search, p)
  }

  lemma {:induction false} EqualLinesOverlap(file: seq<Text>, search: seq<Text>, p: nat, k: nat)
    requires k <= |search| && p + k <= |file|
    ensures EqualLines(file, search, p, k) <= Overlap(file, Hashes(search), p, k)
  {
    hide Hashes, LineHash;
    if k > 0 {
      EqualLinesOverlap(file, search, p, k - 1);
      assert LineHash(search[k - 1]) in Hashes(search);
    }
  }

  /** The prefilter never drops a window that fits. */
  lemma FittingSurvives(file: seq<Text>, search: seq<Text>, p: nat)
    requires search != [] && p + |search| <= |file| && Fits(file, search, p)
    ensures Survives(file, search, p)
  {
    EqualLinesOverlap(file, search, p, |search|);
    assert |Hashes(search)| <= |search|;
  }

  // ----- Candidates

  datatype Candidate = Candidate(position: nat, score: real)

  ghost predicate DistinctPositions(c: seq<Candidate>) {
    forall i, j :: 0 <= i < j < |c| ==> c[i].position != c[j].position
  }

  ghost predicate Descending(c: seq<Candidate>) {
    forall i, j :: 0 <= i < j < |c| ==> c[i].score >= c[j].score
  }

  ghost function Positions(c: seq<Candidate>): (ps: set<nat>)
    ensures forall k :: 0 <= k < |c| ==> c[k].position in ps
    ensures forall p :: p in ps ==> exists k :: 0 <= k < |c| && c[k].position == p
  {
    if c == [] then {}
    else
      var ps := Positions(c[..|c| - 1]) + {c[|c| - 1].position};
      assert forall k :: 0 <= k < |c| - 1 ==> c[..|c| - 1][k] == c[k];
      ps
  }

  lemma {:induction false} PositionsCount(c: seq<Candidate>)
    requires DistinctPositions(c)
    ensures |Positions(c)| == |c|
  {
    if c != [] {
      PositionsCount(c[..|c| - 1]);
    }
  }

  function InsertByScore(x: Candidate, c: seq<Candidate>): seq<Candidate> {
    if c == [] || x.score >= c[0].score then [x] + c else [c[0]] + InsertByScore(x, c[1..])
  }

  lemma {:induction false} InsertByScorePermutes(x: Candidate, c: seq<Candidate>)
    ensures multiset(InsertByScore(x, c)) == multiset(c) + multiset{x}
  {
    if c != [] && x.score < c[0].score {
      InsertByScorePermutes(x, c[1..]);
      assert c == [c[0]] + c[1..];
    }
  }

  lemma {:induction false} InsertByScoreSorts(x: Candidate, c: seq<Candidate>, bound: real)
    requires Descending(c) && x.score <= bound && forall k :: 0 <= k < |c| ==> c[k].score <= bound
    ensures Descending(InsertByScore(x, c))
    ensures forall k :: 0 <= k < |InsertByScore(x, c)| ==> InsertByScore(x, c)[k].score <= bound
  {
    if c != [] && x.score < c[0].score {
      InsertByScoreSorts(x, c[1..], c[0].score);
    }
  }

  /** Sorting by score, highest first. Nothing is promised about the order of equal scores. */
  method SortByScore(c: seq<Candidate>) returns (r: seq<Candidate>)
    ensures multiset(r) == multiset(c) && Descending(r)
  {
    r := [];
    for i := 0 to |c|
      invariant multiset(r) == multiset(c[..i]) && Descending(r)
    {
      assert c[..i + 1] == c[..i] + [c[i]];
      InsertByScorePermutes(c[i], r);
      InsertByScoreSorts(c[i], r, if r == [] || c[i].score >= r[0].score then c[i].score else r[0].score);
      r := InsertByScore(c[i], r);
    }
    assert c[..|c|] == c;
  }

  lemma PermutedPositions(c: seq<Candidate>, r: seq<Candidate>)
    requires DistinctPositions(c) && multiset(r) == multiset(c)
    ensures DistinctPositions(r) && Positions(r) == Positions(c)
  {
    forall x | x in Positions(c) ensures x in Positions(r) {
      var k :| 0 <= k < |c| && c[k].position == x;
      assert c[k] in multiset(r);
    }
    forall x | x in Positions(r) ensures x in Positions(c) {
      var k :| 0 <= k < |r| && r[k].position == x;
      assert r[k] in multiset(c);
    }
    forall i, j | 0 <= i < j < |r| ensures r[i].position != r[j].position {
      if r[i].position == r[j].position {
        assert r[i] in multiset(c) && r[j] in multiset(c);
        var k :| 0 <= k < |c| && c[k] == r[i];
        OnceInMultiset(c, k);
        TwiceInMultiset(r, i, j);
      }
    }
  }

  lemma OnceInMultiset(c: seq<Candidate>, k: nat)
    requires DistinctPositions(c) && k < |c|
    ensures multiset(c)[c[k]] == 1
  {
    assert c == c[..k] + [c[k]] + c[k + 1..];
    assert c[k] !in c[..k] && c[k] !in c[k + 1..];
  }

  lemma TwiceInMultiset(r: seq<Candidate>, i: nat, j: nat)
    requires i < j < |r| && r[i] == r[j]
    ensures multiset(r)[r[i]] >= 2
  {
    assert r == r[..j] + [r[j]] + r[j + 1..];
    assert r[i] in r[..j];
  }

  /** The windows that the fuzzy try scores: all of them in a file of at most 500 lines, otherwise
      at most ten survivors of the prefilter, none of which overlaps less than a survivor left out. */
  ghost predicate IsCandidateSet(file: seq<Text>, search: seq<Text>, ps: set<nat>)
    requires |search| <= |file|
  {
    if |file| <= LARGE_FILE_THRESHOLD then ps == Windows(file, search)
    else
      var survivors := Survivors(file, search);
      && ps <= survivors
      && |ps| == (if |survivors| > MAX_CANDIDATES then MAX_CANDIDATES else |survivors|)
      && forall p, q :: p in ps && q in survivors - ps ==>
           WindowOverlap(file, search, p) >= WindowOverlap(file, search, q)
  }

  method CountOverlap(hashes: seq<nat>, file: seq<Text>, hs: set<nat>, i: nat, windowSize: nat) returns (overlap: nat)
    requires |hashes| == |file| && forall k :: 0 <= k < |file| ==> hashes[k] == LineHash(file[k])
    requires i + windowSize <= |file|
    ensures overlap == Overlap(file, hs, i, windowSize)
  {
    overlap := 0;
    for j := i to i + windowSize
      invariant overlap == Overlap(file, hs, i, j - i)
    {
      if hashes[j] in hs { overlap := overlap + 1; }
    }
  }

  function OverlapScore(overlap: nat, hashes: nat): real
    requires hashes > 0
  {
    overlap as real / hashes as real
  }

  lemma OverlapScoreHalf(overlap: nat, hashes: nat)
    requires hashes > 0
    ensures OverlapScore(overlap, hashes) >= 0.5 <==> 2 * overlap >= hashes
  {
    ShareOrder(overlap, hashes, 0.5);
  }

  lemma OverlapScoreOrder(x: nat, y: nat, hashes: nat)
    requires hashes > 0 && OverlapScore(x, hashes) >= OverlapScore(y, hashes)
    ensures x >= y
  {
    ShareOrder(x, hashes, OverlapScore(y, hashes));
    assert OverlapScore(y, hashes) * hashes as real == y as real;
  }

  ghost predicate IsScored(file: seq<Text>, search: seq<Text>, c: Candidate)
    requires search != []
  {
    && c.position + |search| <= |file|
    && c.score == OverlapScore(WindowOverlap(file, search, c.position), |Hashes(search)|)
  }

  method SearchHashes(search: seq<Text>) returns (hs: set<nat>)
    ensures hs == Hashes(search)
  {
    hs := {};
    for k := 0 to |search|
      invariant hs == Hashes(search[..k])
    {
      var h := ComputeLineHash(search[k]);
      assert search[..k + 1][..k] == search[..k];
      hs := hs + {h};
    }
    assert search[..|search|] == search;
  }

  method FileLineHashes(file: seq<Text>) returns (hashes: seq<nat>)
    ensures |hashes| == |file| && forall k :: 0 <= k < |file| ==> hashes[k] == LineHash(file[k])
  {
    hashes := [];
    for k := 0 to |file|
      invariant |hashes| == k && forall i :: 0 <= i < k ==> hashes[i] == LineHash(file[i])
    {
      var h := ComputeLineHash(file[k]);
      hashes := hashes + [h];
    }
  }

  lemma PositionsSnoc(c: seq<Candidate>, x: Candidate)
    requires DistinctPositions(c) && x.position !in Positions(c)
    ensures DistinctPositions(c + [x]) && Positions(c + [x]) == Positions(c) + {x.position}
  {
    assert (c + [x])[..|c|] == c;
  }

  /** The survivors of the prefilter, in file order. */
  method Prefilter(file: seq<Text>, search: seq<Text>) returns (c: seq<Candidate>)
    requires search != [] && |search| <= |file|
    ensures DistinctPositions(c) && Positions(c) == Survivors(file, search)
    ensures forall k :: 0 <= k < |c| ==> IsScored(file, search, c[k])
  {
    var searchHashes := SearchHashes(search);
    var hashes := FileLineHashes(file);
    hide LineHash, Hashes, Overlap, OverlapScore, Positions, DistinctPositions;
    var windowSize := |search|;
    c := [];
    assert DistinctPositions(c) && Positions(c) == {} by { NoPositions(); }
    for i := 0 to |file| - windowSize + 1
      invariant forall k :: 0 <= k < |c| ==> IsScored(file, search, c[k])
      invariant DistinctPositions(c)
      invariant Positions(c) == set p: nat | p < i && IsWindow(file, search, p) && Survives(file, search, p)
    {
      var overlap := CountOverlap(hashes, file, searchHashes, i, windowSize);
      var score := OverlapScore(overlap, |searchHashes|);
      OverlapScoreHalf(overlap, |searchHashes|);
      if score >= 0.5 {
        PositionsSnoc(c, Candidate(i, score));
        c := c + [Candidate(i, score)];
      }
    }
    assert Positions(c) == Survivors(file, search);
  }

  lemma NoPositions()
    ensures DistinctPositions([]) && Positions([]) == {}
  {
  }

  lemma PositionsPrefix(c: seq<Candidate>, n: nat)
    requires n <= |c| && DistinctPositions(c)
    ensures DistinctPositions(c[..n]) && Positions(c[..n]) <= Positions(c) && |Positions(c[..n])| == n
    ensures forall k :: 0 <= k < |c| ==> (c[k].position in Positions(c[..n]) <==> k < n)
  {
    var kept := c[..n];
    PositionsCount(kept);
    hide Positions;
    assert forall k :: 0 <= k < n ==> kept[k] == c[k];
    forall k | 0 <= k < |c| ensures c[k].position in Positions(kept) <==> k < n {
      if c[k].position in Positions(kept) {
        var l :| 0 <= l < n && kept[l].position == c[k].position;
        assert l == k;
      }
    }
  }

  /** Nothing that the cut drops overlaps more than anything it keeps. */
  lemma KeptScores(file: seq<Text>, search: seq<Text>, sorted: seq<Candidate>, n: nat, p: nat, q: nat)
    requires search != [] && n <= |sorted| && Descending(sorted) && DistinctPositions(sorted)
    requires forall k :: 0 <= k < |sorted| ==> IsScored(file, search, sorted[k])
    requires p in Positions(sorted[..n]) && q in Positions(sorted) - Positions(sorted[..n])
    ensures p + |search| <= |file| && q + |search| <= |file|
    ensures WindowOverlap(file, search, p) >= WindowOverlap(file, search, q)
  {
    PositionsPrefix(sorted, n);
    hide WindowOverlap, Hashes, OverlapScore, Positions;
    var i :| 0 <= i < n && sorted[..n][i].position == p;
    var j :| 0 <= j < |sorted| && sorted[j].position == q;
    assert sorted[i] == sorted[..n][i] && i < j;
    OverlapScoreOrder(WindowOverlap(file, search, p), WindowOverlap(file, search, q), |Hashes(search)|);
  }

  method LargeFileCandidates(file: seq<Text>, search: seq<Text>) returns (c: seq<Candidate>)
    requires search != [] && |search| <= |file| && |file| > LARGE_FILE_THRESHOLD
    ensures DistinctPositions(c) && IsCandidateSet(file, search, Positions(c))
  {
    var survivors := Prefilter(file, search);
    c := SortByScore(survivors);
    PermutedPositions(survivors, c);
    PositionsCount(c);
    hide WindowOverlap, Survives, Positions, IsScored, DistinctPositions, Descending;
    forall k | 0 <= k < |c| ensures IsScored(file, search, c[k]) {
      assert c[k] in multiset(survivors);
    }
    if |c| > MAX_CANDIDATES {
      ghost var kept := c[..MAX_CANDIDATES];
      PositionsPrefix(c, MAX_CANDIDATES);
      forall p, q | p in Positions(kept) && q in Positions(c) - Positions(kept)
        ensures p + |search| <= |file| && q + |search| <= |file|
             && WindowOverlap(file, search, p) >= WindowOverlap(file, search, q)
      {
        KeptScores(file, search, c, MAX_CANDIDATES, p, q);
      }
      c := c[..MAX_CANDIDATES];
    }
  }

  method SmallFileCandidates(file: seq<Text>, search: seq<Text>) returns (c: seq<Candidate>)
    requires |search| <= |file| <= LARGE_FILE_THRESHOLD
    ensures DistinctPositions(c) && IsCandidateSet(file, search, Positions(c))
  {
    c := seq(|file| - |search| + 1, i requires 0 <= i => Candidate(i, 1.0));
    hide Positions;
    forall p | p in Windows(file, search) ensures p in Positions(c) {
      assert c[p].position == p;
    }
    assert Positions(c) == Windows(file, search);
  }

  /** The only candidate that fits, if there is exactly one. */
  method PickWindow(file: seq<Text>, search: seq<Text>, c: seq<Candidate>) returns (r: Option<nat>)
    requires search != [] && DistinctPositions(c)
    requires Positions(c) <= Windows(file, search)
    ensures r.Some? ==> OnlyFit(file, search, Positions(c), r.value)
    ensures r.None? ==> forall p :: !OnlyFit(file, search, Positions(c), p)
  {
    hide Fits, Positions;
    assert forall k :: 0 <= k < |c| ==> c[k].position in Positions(c);
    r := None;
    for k := 0 to |c|
      invariant r.Some? ==> exists i :: 0 <= i < k && c[i].position == r.value && Fits(file, search, r.value)
      invariant forall i :: 0 <= i < k && Fits(file, search, c[i].position) ==> r == Some(c[i].position)
    {
      var fits := WindowFits(file, search, c[k].position);
      if fits {
        if r.Some? {
          return None;
        }
        r := Some(c[k].position);
      }
    }
  }

  // ----- The whole cascade

  ghost function FuzzyOutcome(file: seq<Text>, search: seq<Text>, ps: set<nat>): Outcome
    requires ps <= Windows(file, search)
  {
    if exists p: nat :: OnlyFit(file, search, ps, p) then
      var p: nat :| OnlyFit(file, search, ps, p);
      Match(Offset(file, p), Offset(file, p) + |Join(file[p..p + |search|])|, Fuzzy)
    else NoMatch
  }

  /** What FindMatch may return for a file and a search text.
      In order of preference: the only place where the search text occurs; the only place in the
      normalized file where the normalized search, or that without its blank edges, occurs; the
      only candidate window of lines that fits. An empty text searched in an empty one panics. */
  ghost predicate IsOutcome(file: Text, search: Text, r: Outcome) {
    var n, s := Normalize(file), Normalize(search);
    var t := StripBlank(s);
    var fileLines, searchLines := Split(n), Split(t);
    if file != [] && Unique(file, search) then IsSpanOf(file, search, r, Exact)
    else if n == [] && t == [] then r == Panic
    else if n != [] && Unique(n, s) then IsSpanOf(n, s, r, Normalized)
    else if n != [] && Unique(n, t) then IsSpanOf(n, t, r, Normalized)
    else if |searchLines| > |fileLines| || |fileLines| > MAX_FILE_LINES then r == NoMatch
    else IsFuzzyOutcome(fileLines, searchLines, r)
  }

  /** The answer of the fuzzy try, for some set of candidates that the source may score. */
  ghost predicate IsFuzzyOutcome(fileLines: seq<Text>, searchLines: seq<Text>, r: Outcome)
    requires |searchLines| <= |fileLines|
  {
    exists ps :: ps <= Windows(fileLines, searchLines)
              && IsCandidateSet(fileLines, searchLines, ps)
              && r == FuzzyOutcome(fileLines, searchLines, ps)
  }

  ghost predicate IsSpanOf(s: Text, pattern: Text, r: Outcome, kind: Kind) {
    r.Match? && r.kind == kind && OccursOnlyAt(s, pattern, r.start) && r.end == r.start + |pattern|
  }

  method FindMatch(fileContent: Text, searchText: Text) returns (r: Outcome)
    ensures IsOutcome(fileContent, searchText, r)
  {
    hide Split, Join, Unique, Normalize, StripBlank, IsFuzzyOutcome;
    EmptyStrips();
    var probe := FindOnce(fileContent, searchText);
    if probe.OutOfRange? { return Panic; }
    if probe.Once? { return Match(probe.at, probe.at + |searchText|, Exact); }

    var normalizedFile := NormalizeLines(fileContent);
    var normalizedSearch := NormalizeLines(searchText);
    probe := FindOnce(normalizedFile, normalizedSearch);
    if probe.OutOfRange? { return Panic; }
    if probe.Once? { return Match(probe.at, probe.at + |normalizedSearch|, Normalized); }

    var strippedSearch := StripBlankEdges(normalizedSearch);
    if strippedSearch != normalizedSearch {
      probe := FindOnce(normalizedFile, strippedSearch);
      if probe.OutOfRange? { return Panic; }
      if probe.Once? { return Match(probe.at, probe.at + |strippedSearch|, Normalized); }
    }

    var fileLines := Split(normalizedFile);
    var searchLines := Split(strippedSearch);
    var windowSize := |searchLines|;
    if windowSize == 0 || windowSize > |fileLines| { return NoMatch; }
    if |fileLines| > MAX_FILE_LINES { return NoMatch; }
    r := FuzzyMatch(fileLines, searchLines);
  }

  lemma EmptyStrips()
    ensures Normalize([]) == [] && StripBlank([]) == []
  {
    assert Split([]) == [[]] && TrimAll([[]]) == [[]] && Core([[]]) == [];
  }

  method FuzzyMatch(fileLines: seq<Text>, searchLines: seq<Text>) returns (r: Outcome)
    requires searchLines != [] && |searchLines| <= |fileLines|
    ensures IsFuzzyOutcome(fileLines, searchLines, r)
  {
    hide Join, Positions, OnlyFit;
    var candidates: seq<Candidate>;
    if |fileLines| > LARGE_FILE_THRESHOLD {
      candidates := LargeFileCandidates(fileLines, searchLines);
    } else {
      candidates := SmallFileCandidates(fileLines, searchLines);
    }
    ghost var ps := Positions(candidates);
    CandidatesAreWindows(fileLines, searchLines, ps);
    hide IsCandidateSet, Windows;
    var picked := PickWindow(fileLines, searchLines, candidates);
    if picked.None? {
      return NoMatch;
    }
    var position := picked.value;
    OnlyFitUnique(fileLines, searchLines, ps, position);
    var startChar := 0;
    for i := 0 to position
      invariant i <= |fileLines| && startChar == Offset(fileLines, i)
    {
      startChar := startChar + |fileLines[i]| + 1;
    }
    if position == 0 {
      startChar := 0;
    }
    var matchedBlock := Join(fileLines[position..position + |searchLines|]);
    return Match(startChar, startChar + |matchedBlock|, Fuzzy);
  }

  lemma CandidatesAreWindows(file: seq<Text>, search: seq<Text>, ps: set<nat>)
    requires |search| <= |file| && IsCandidateSet(file, search, ps)
    ensures ps <= Windows(file, search)
  {
  }

  lemma OnlyFitUnique(file: seq<Text>, search: seq<Text>, ps: set<nat>, p: nat)
    requires ps <= Windows(file, search) && OnlyFit(file, search, ps, p)
    ensures p + |search| <= |file|
    ensures FuzzyOutcome(file, search, ps)
         == Match(Offset(file, p), Offset(file, p) + |Join(file[p..p + |search|])|, Fuzzy)
  {
  }
}
