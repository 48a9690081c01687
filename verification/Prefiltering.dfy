/** What the hash prefilter may change: the fuzzy try scores at most ten windows of a long file, where a
    full scan would score all of them. */
module Prefiltering {
  import opened Common
  import opened EditDistance
  import opened Lines
  import opened Matcher

  // ----- At most ten survivors

  /** With at most ten survivors, or a file of at most 500 lines, scoring the candidates
      finds what scoring every window would. */
  lemma PrefilterAgrees(file: seq<Text>, search: seq<Text>, ps: set<nat>)
    requires search != [] && |search| <= |file|
    requires ps <= Windows(file, search) && IsCandidateSet(file, search, ps)
    requires |file| <= LARGE_FILE_THRESHOLD || |Survivors(file, search)| <= MAX_CANDIDATES
    ensures FuzzyOutcome(file, search, ps) == FuzzyOutcome(file, search, Windows(file, search))
  {
    hide Fits, Survives, WindowOverlap;
    var ws := Windows(file, search);
    if |file| > LARGE_FILE_THRESHOLD {
      SubsetSameSize(ps, Survivors(file, search));
      forall p | p in ws && Fits(file, search, p) ensures p in ps {
        FittingSurvives(file, search, p);
      }
    }
    assert forall p: nat :: OnlyFit(file, search, ps, p) <==> OnlyFit(file, search, ws, p);
    SameOutcome(file, search, ps, ws);
  }

  lemma SubsetSameSize(x: set<nat>, y: set<nat>)
    requires x <= y && |x| == |y|
    ensures x == y
  {
    assert |y - x| == |y| - |x|;
  }

  lemma SameOutcome(file: seq<Text>, search: seq<Text>, ps: set<nat>, qs: set<nat>)
    requires ps <= Windows(file, search) && qs <= Windows(file, search)
    requires forall p: nat :: OnlyFit(file, search, ps, p) <==> OnlyFit(file, search, qs, p)
    ensures FuzzyOutcome(file, search, ps) == FuzzyOutcome(file, search, qs)
  {
    hide Fits, Join, Offset;
    if exists p: nat :: OnlyFit(file, search, ps, p) {
      var p: nat :| OnlyFit(file, search, ps, p);
      OnlyFitUnique(file, search, ps, p);
      OnlyFitUnique(file, search, qs, p);
    }
  }

  /** The one window that fits is not among the candidates. */
  ghost predicate MissesOnlyFit(file: seq<Text>, search: seq<Text>, ps: set<nat>) {
    exists q: nat :: OnlyFit(file, search, Windows(file, search), q) && q !in ps
  }

  /** One candidate fits, and so does a window left out. */
  ghost predicate KeepsOneOfSeveral(file: seq<Text>, search: seq<Text>, ps: set<nat>)
    requires ps <= Windows(file, search)
  {
    && (exists p: nat :: OnlyFit(file, search, ps, p))
    && (exists q: nat :: q in Windows(file, search) - ps && Fits(file, search, q))
  }

  lemma OutcomesDifferIff(file: seq<Text>, search: seq<Text>, ps: set<nat>)
    requires ps <= Windows(file, search)
    ensures FuzzyOutcome(file, search, ps) != FuzzyOutcome(file, search, Windows(file, search))
       <==> MissesOnlyFit(file, search, ps) || KeepsOneOfSeveral(file, search, ps)
  {
    hide Fits, Offset, Join;
    var ws := Windows(file, search);
    if exists p: nat :: OnlyFit(file, search, ws, p) {
      var p: nat :| OnlyFit(file, search, ws, p);
      OnlyFitUnique(file, search, ws, p);
      if p in ps {
        assert OnlyFit(file, search, ps, p);
        OnlyFitUnique(file, search, ps, p);
      } else {
        assert forall x: nat :: !OnlyFit(file, search, ps, x);
      }
    } else if exists p: nat :: OnlyFit(file, search, ps, p) {
      var p: nat :| OnlyFit(file, search, ps, p);
      OnlyFitUnique(file, search, ps, p);
      assert !OnlyFit(file, search, ws, p);
    }
  }

  // ----- Exactly when the prefilter can change the answer

  ghost predicate CanDiffer(file: seq<Text>, search: seq<Text>)
    requires |search| <= |file|
  {
    exists ps :: ps <= Windows(file, search) && IsCandidateSet(file, search, ps)
              && FuzzyOutcome(file, search, ps) != FuzzyOutcome(file, search, Windows(file, search))
  }

  ghost function Fitting(file: seq<Text>, search: seq<Text>): set<nat> {
    set p: nat | p <= |file| && IsWindow(file, search, p) && Fits(file, search, p)
  }

  /** The survivors other than the windows gs that overlap no less than any of these: all that can fill
      the candidate list when none of gs is on it. */
  ghost function Rivals(file: seq<Text>, search: seq<Text>, gs: set<nat>): set<nat>
    requires gs <= Survivors(file, search)
  {
    set q | q in Survivors(file, search) && q !in gs
            && forall g :: g in gs ==> WindowOverlap(file, search, q) >= WindowOverlap(file, search, g)
  }

  ghost function Better(file: seq<Text>, search: seq<Text>, qs: set<nat>, w: nat): set<nat>
    requires qs <= Windows(file, search) && IsWindow(file, search, w)
  {
    set q | q in qs && WindowOverlap(file, search, q) > WindowOverlap(file, search, w)
  }

  /** One window fits, and ten others overlap no less. */
  ghost predicate CanLose(file: seq<Text>, search: seq<Text>) {
    exists w :: Fitting(file, search) == {w} && {w} <= Survivors(file, search)
                && |Rivals(file, search, {w})| >= MAX_CANDIDATES
  }

  /** Several windows fit, and one of them has a place among ten that keep out the rest. */
  ghost predicate CanSingleOut(file: seq<Text>, search: seq<Text>) {
    exists w :: KeepsOutTheRest(file, search, w)
  }

  ghost predicate KeepsOutTheRest(file: seq<Text>, search: seq<Text>, w: nat) {
    var rest := Fitting(file, search) - {w};
    && w in Fitting(file, search) && rest != {} && rest <= Survivors(file, search)
    && var rivals := Rivals(file, search, rest);
    && w in rivals && |rivals| >= MAX_CANDIDATES && IsWindow(file, search, w)
    && |Better(file, search, rivals, w)| < MAX_CANDIDATES
  }

  /** Any set of windows that is closed upward under overlap can be filled up to n members. */
  lemma FillUp(file: seq<Text>, search: seq<Text>, qs: set<nat>, ps: set<nat>, n: nat) returns (r: set<nat>)
    requires qs <= Windows(file, search) && ps <= qs && |ps| <= n <= |qs|
    requires forall p, q :: p in ps && q in qs - ps ==> WindowOverlap(file, search, p) >= WindowOverlap(file, search, q)
    ensures ps <= r <= qs && |r| == n
    ensures forall p, q :: p in r && q in qs - r ==> WindowOverlap(file, search, p) >= WindowOverlap(file, search, q)
    decreases n - |ps|
  {
    hide WindowOverlap, Windows;
    if |ps| == n {
      r := ps;
    } else {
      assert |qs - ps| == |qs| - |ps|;
      var q := Highest(file, search, qs - ps);
      r := FillUp(file, search, qs, ps + {q}, n);
    }
  }

  lemma Highest(file: seq<Text>, search: seq<Text>, qs: set<nat>) returns (h: nat)
    requires qs <= Windows(file, search) && qs != {}
    ensures h in qs && forall q :: q in qs ==> WindowOverlap(file, search, h) >= WindowOverlap(file, search, q)
    decreases |qs|
  {
    hide WindowOverlap;
    h :| h in qs;
    if qs != {h} {
      var rest := qs - {h};
      assert rest != {};
      var k := Highest(file, search, rest);
      if WindowOverlap(file, search, k) > WindowOverlap(file, search, h) {
        h := k;
      }
    }
  }

  /** Candidates that leave out all of gs are ten of their rivals. */
  lemma AvoidersAreRivals(file: seq<Text>, search: seq<Text>, ps: set<nat>, gs: set<nat>)
    requires |search| <= |file| && |file| > LARGE_FILE_THRESHOLD && IsCandidateSet(file, search, ps)
    requires gs <= Survivors(file, search) && gs != {} && ps !! gs
    ensures |ps| == MAX_CANDIDATES && ps <= Rivals(file, search, gs) && |Rivals(file, search, gs)| >= MAX_CANDIDATES
  {
    hide WindowOverlap, Survives;
    var survivors := Survivors(file, search);
    var g :| g in gs;
    SubsetSizes(ps + {g}, survivors);
    SubsetSizes(ps, Rivals(file, search, gs));
  }

  /** And any ten rivals that overlap no less than the others will do. */
  lemma RivalsAreCandidates(file: seq<Text>, search: seq<Text>, ps: set<nat>, gs: set<nat>)
    requires |search| <= |file| && |file| > LARGE_FILE_THRESHOLD
    requires gs <= Survivors(file, search) && gs != {} && ps <= Rivals(file, search, gs) && |ps| == MAX_CANDIDATES
    requires forall p, q :: p in ps && q in Rivals(file, search, gs) - ps
               ==> WindowOverlap(file, search, p) >= WindowOverlap(file, search, q)
    ensures IsCandidateSet(file, search, ps) && ps !! gs && ps <= Windows(file, search)
  {
    hide WindowOverlap, Survives;
    var survivors := Survivors(file, search);
    var g :| g in gs;
    SubsetSizes(ps + {g}, survivors);
    forall p, q | p in ps && q in survivors - ps
      ensures WindowOverlap(file, search, p) >= WindowOverlap(file, search, q)
    {
      if q !in Rivals(file, search, gs) && q !in gs {
        var h :| h in gs && WindowOverlap(file, search, q) < WindowOverlap(file, search, h);
      }
    }
  }

  lemma FittingSurvive(file: seq<Text>, search: seq<Text>)
    requires search != []
    ensures Fitting(file, search) <= Survivors(file, search) <= Windows(file, search)
  {
    hide Fits, Survives;
    forall p | p in Fitting(file, search) ensures p in Survivors(file, search) {
      FittingSurvives(file, search, p);
    }
  }

  /** The outcome for some candidates, by which of them fit. */
  lemma OutcomeByFits(file: seq<Text>, search: seq<Text>, ps: set<nat>)
    requires ps <= Windows(file, search)
    ensures FuzzyOutcome(file, search, ps).Match? <==> exists w :: ps * Fitting(file, search) == {w}
    ensures FuzzyOutcome(file, search, ps) == NoMatch || FuzzyOutcome(file, search, ps).Match?
  {
    hide Fits, Join, Offset;
    if w: nat :| OnlyFit(file, search, ps, w) {
      assert ps * Fitting(file, search) == {w};
    }
    if w :| ps * Fitting(file, search) == {w} {
      assert w in ps * Fitting(file, search);
      forall q | q in ps && Fits(file, search, q) ensures q == w {
        assert q in ps * Fitting(file, search);
      }
      assert OnlyFit(file, search, ps, w);
    }
  }

  lemma LostWhenRivaled(file: seq<Text>, search: seq<Text>, w: nat)
    requires search != [] && |search| <= |file| && |file| > LARGE_FILE_THRESHOLD
    requires Fitting(file, search) == {w} && {w} <= Survivors(file, search)
    requires |Rivals(file, search, {w})| >= MAX_CANDIDATES
    ensures CanDiffer(file, search)
  {
    hide WindowOverlap, Fits, Survives, FuzzyOutcome, IsCandidateSet;
    FittingSurvive(file, search);
    var ps := FillUp(file, search, Rivals(file, search, {w}), {}, MAX_CANDIDATES);
    RivalsAreCandidates(file, search, ps, {w});
    OutcomeByFits(file, search, ps);
    OutcomeByFits(file, search, Windows(file, search));
    assert Windows(file, search) * Fitting(file, search) == {w};
    assert ps * Fitting(file, search) == {};
  }

  lemma SingledOut(file: seq<Text>, search: seq<Text>, w: nat)
    requires search != [] && |search| <= |file| && |file| > LARGE_FILE_THRESHOLD
    requires KeepsOutTheRest(file, search, w)
    ensures CanDiffer(file, search)
  {
    hide WindowOverlap, Fits, Survives, FuzzyOutcome, IsCandidateSet;
    FittingSurvive(file, search);
    var rest := Fitting(file, search) - {w};
    var rivals := Rivals(file, search, rest);
    var better := Better(file, search, rivals, w);
    assert |better + {w}| == |better| + 1;
    var ps := FillUp(file, search, rivals, better + {w}, MAX_CANDIDATES);
    RivalsAreCandidates(file, search, ps, rest);
    OutcomeByFits(file, search, ps);
    OutcomeByFits(file, search, Windows(file, search));
    assert ps * Fitting(file, search) == {w};
    var g :| g in rest;
    forall x ensures Windows(file, search) * Fitting(file, search) != {x} {
      assert w in Windows(file, search) * Fitting(file, search) && g in Windows(file, search) * Fitting(file, search);
    }
  }

  /** Fewer than ten rivals of a window on the candidate list overlap more. */
  lemma FewBetter(file: seq<Text>, search: seq<Text>, ps: set<nat>, gs: set<nat>, w: nat)
    requires |search| <= |file| && |file| > LARGE_FILE_THRESHOLD && IsCandidateSet(file, search, ps)
    requires gs <= Survivors(file, search) && gs != {} && ps !! gs && w in ps
    ensures IsWindow(file, search, w) && w in Rivals(file, search, gs)
    ensures |Better(file, search, Rivals(file, search, gs), w)| < MAX_CANDIDATES
  {
    hide WindowOverlap, Survives;
    AvoidersAreRivals(file, search, ps, gs);
    var better := Better(file, search, Rivals(file, search, gs), w);
    assert better <= ps;
    SubsetSizes(better, ps - {w});
  }

  /** In a file over 500 lines the candidates of the prefilter can give another answer than the full
      scan, for some order of ties, exactly when the only fitting window has ten rivals that overlap no
      less, or when one of several fitting windows can be on the list without the others. */
  lemma PrefilterDiffersIff(file: seq<Text>, search: seq<Text>)
    requires search != [] && |search| <= |file| && |file| > LARGE_FILE_THRESHOLD
    ensures CanDiffer(file, search) <==> CanLose(file, search) || CanSingleOut(file, search)
    ensures Fitting(file, search) == {} ==> !CanDiffer(file, search)
  {
    hide WindowOverlap, Fits, Survives, FuzzyOutcome, IsCandidateSet, KeepsOutTheRest, Rivals, Fitting, Windows;
    if CanLose(file, search) {
      var w :| Fitting(file, search) == {w} && {w} <= Survivors(file, search)
               && |Rivals(file, search, {w})| >= MAX_CANDIDATES;
      LostWhenRivaled(file, search, w);
    }
    if w :| KeepsOutTheRest(file, search, w) {
      SingledOut(file, search, w);
    }
    forall ps | ps <= Windows(file, search) && IsCandidateSet(file, search, ps)
                && FuzzyOutcome(file, search, ps) != FuzzyOutcome(file, search, Windows(file, search))
      ensures CanLose(file, search) || CanSingleOut(file, search)
      ensures Fitting(file, search) != {}
    {
      DifferenceExplained(file, search, ps);
    }
  }

  lemma DifferenceExplained(file: seq<Text>, search: seq<Text>, ps: set<nat>)
    requires search != [] && |search| <= |file| && |file| > LARGE_FILE_THRESHOLD
    requires ps <= Windows(file, search) && IsCandidateSet(file, search, ps)
    requires FuzzyOutcome(file, search, ps) != FuzzyOutcome(file, search, Windows(file, search))
    ensures CanLose(file, search) || CanSingleOut(file, search)
    ensures Fitting(file, search) != {}
  {
    hide WindowOverlap, Fits, Survives, FuzzyOutcome, IsCandidateSet, Rivals;
    var fits := Fitting(file, search);
    FittingSurvive(file, search);
    OutcomesDifferIff(file, search, ps);
    if w: nat :| OnlyFit(file, search, Windows(file, search), w) && w !in ps {
      assert fits == {w};
      AvoidersAreRivals(file, search, ps, {w});
    } else {
      var w: nat :| OnlyFit(file, search, ps, w);
      var rest := fits - {w};
      assert ps !! rest;
      var q: nat :| q in Windows(file, search) - ps && Fits(file, search, q);
      assert q in rest;
      AvoidersAreRivals(file, search, ps, rest);
      FewBetter(file, search, ps, rest, w);
      assert KeepsOutTheRest(file, search, w);
    }
  }

  // ----- A file in which it loses the answer

  const A: Text := [1]
  const B: Text := [2]

  /** Lines A, B at the start, then B, A ten times over with empty lines between and after. */
  function CrowdedLine(i: nat): Text {
    if i == 0 || (4 <= i <= 31 && i % 3 == 1) then A
    else if i == 1 || (3 <= i <= 30 && i % 3 == 0) then B
    else []
  }

  function CrowdedFile(): (lines: seq<Text>)
    ensures |lines| == 501 && forall i :: 0 <= i < 501 ==> lines[i] == CrowdedLine(i)
  {
    seq(501, i requires 0 <= i => CrowdedLine(i))
  }

  predicate IsDecoy(p: nat) {
    3 <= p <= 30 && p % 3 == 0
  }

  function Decoys(): (ps: set<nat>)
    ensures |ps| == 10 && forall p: nat :: p in ps <==> IsDecoy(p)
  {
    {3, 6, 9, 12, 15, 18, 21, 24, 27, 30}
  }

  lemma CrowdedOverlap(p: nat)
    requires p + 2 <= 501
    ensures WindowOverlap(CrowdedFile(), [A, B], p) <= 2
    ensures CrowdedLine(p) in {A, B} && CrowdedLine(p + 1) in {A, B}
        ==> WindowOverlap(CrowdedFile(), [A, B], p) == 2
    ensures |Hashes([A, B])| == 2
  {
    var f, hs := CrowdedFile(), Hashes([A, B]);
    assert LineHash([A, B][0]) in hs && LineHash([A, B][1]) in hs;
    assert Init(A) == [] && Init(B) == [] && LineHash(A) == 1 && LineHash(B) == 2;
    var both: set<nat> := {1, 2};
    assert both <= hs && |both| == 2 && |hs| <= 2;
    SubsetSizes(both, hs);
    assert Overlap(f, hs, p, 2) == Overlap(f, hs, p, 1) + if LineHash(f[p + 1]) in hs then 1 else 0;
    assert Overlap(f, hs, p, 1) == Overlap(f, hs, p, 0) + if LineHash(f[p]) in hs then 1 else 0;
  }

  lemma SubsetSizes(x: set<nat>, y: set<nat>)
    requires x <= y
    ensures |x| <= |y|
  {
    assert |y - x| == |y| - |x|;
  }

  lemma CrowdedFit(p: nat)
    requires p + 2 <= 501
    ensures Fits(CrowdedFile(), [A, B], p) <==> p == 0
  {
    var f := CrowdedFile();
    assert EqualLines(f, [A, B], p, 2) == EqualLines(f, [A, B], p, 1) + if f[p + 1] == [A, B][1] then 1 else 0;
    assert EqualLines(f, [A, B], p, 1) == EqualLines(f, [A, B], p, 0) + if f[p] == [A, B][0] then 1 else 0;
    assert A != B && A != [];
  }

  /** Decoys overlap as much as any window, and so does the window that fits. */
  lemma CrowdedScores(p: nat)
    requires p + 2 <= 501
    ensures WindowOverlap(CrowdedFile(), [A, B], p) <= 2
    ensures p == 0 || IsDecoy(p)
        ==> WindowOverlap(CrowdedFile(), [A, B], p) == 2 && Survives(CrowdedFile(), [A, B], p)
  {
    CrowdedOverlap(p);
    hide WindowOverlap, Hashes, CrowdedFile;
  }

  lemma DecoysAreCandidates()
    ensures Decoys() <= Windows(CrowdedFile(), [A, B]) && 0 !in Decoys()
    ensures IsCandidateSet(CrowdedFile(), [A, B], Decoys())
  {
    hide WindowOverlap, Hashes, CrowdedFile, Survives, Decoys, CrowdedLine;
    var f, s := CrowdedFile(), [A, B];
    forall p: nat | p == 0 || IsDecoy(p) ensures p in Survivors(f, s) && WindowOverlap(f, s, p) == 2 {
      CrowdedScores(p);
      assert IsWindow(f, s, p);
    }
    forall p: nat | p in Survivors(f, s) ensures WindowOverlap(f, s, p) <= 2 {
      CrowdedScores(p);
    }
    hide IsDecoy;
    SubsetSizes(Decoys() + {0}, Survivors(f, s));
  }

  /** A file of 501 lines in which the full scan finds the one window that fits, while ten other
      windows with the same overlap may fill the candidate list and make the match fail. */
  lemma PrefilterCanLoseMatch()
    ensures var f, s := CrowdedFile(), [A, B];
            && Decoys() <= Windows(f, s) && IsCandidateSet(f, s, Decoys())
            && FuzzyOutcome(f, s, Windows(f, s)) == Match(0, 3, Fuzzy)
            && FuzzyOutcome(f, s, Decoys()) == NoMatch
  {
    hide WindowOverlap, Fits, Hashes, CrowdedFile, Join, Survives, Decoys, CrowdedLine;
    var f, s := CrowdedFile(), [A, B];
    forall p: nat | p + 2 <= 501 ensures Fits(f, s, p) <==> p == 0 {
      CrowdedFit(p);
    }
    DecoysAreCandidates();
    assert IsWindow(f, s, 0);
    hide IsCandidateSet;
    assert OnlyFit(f, s, Windows(f, s), 0);
    OnlyFitUnique(f, s, Windows(f, s), 0);
    CrowdedBlock();
    assert Offset(f, 0) == 0;
    assert forall p: nat :: !OnlyFit(f, s, Decoys(), p);
  }

  lemma CrowdedBlock()
    ensures |Join(CrowdedFile()[0..2])| == 3
  {
    var f := CrowdedFile();
    assert f[0..2] == [A, B];
    assert [A, B][1..] == [B];
    assert Join([A, B]) == A + [NEWLINE] + Join([B]);
  }
}
