/** What an edit does to the file once FindMatch has answered, and when it panics instead. */
module Splice {
  import opened Common
  import opened EditDistance
  import opened Lines
  import opened Matcher

  datatype EditResult = Crashed | Failed | Edited(content: Text)

  ghost function Spliced(file: Text, m: Outcome, replacement: Text): Text
    requires m.Match? && m.start <= m.end <= |file|
  {
    file[..m.start] + replacement + file[m.end..]
  }

  ghost predicate IsEdit(file: Text, search: Text, replacement: Text, m: Outcome, r: EditResult) {
    match m
    case Panic => r == Crashed
    case NoMatch => r == Failed
    case Match(start, end, _) => start <= end <= |file| && r == Edited(Spliced(file, m, replacement))
  }

  method ApplyEdit(file: Text, search: Text, replacement: Text) returns (r: EditResult)
    ensures exists m :: IsOutcome(file, search, m) && IsEdit(file, search, replacement, m, r)
  {
    var m := FindMatch(file, search);
    hide IsOutcome, OutcomeText;
    match m
    case Panic => return Crashed;
    case NoMatch => return Failed;
    case Match(start, end, _) =>
      SpanInBounds(file, search, m);
      return Edited(file[..start] + replacement + file[end..]);
  }

  // ----- Spans

  /** The text that a span's offsets refer to: the raw file for an exact match, else the normalized one. */
  ghost function OutcomeText(file: Text, m: Outcome): Text
    requires m.Match?
  {
    if m.kind == Exact then file else Normalize(file)
  }

  /** The text is the lines, joined, of some window that fits. */
  ghost predicate IsFittingBlock(lines: seq<Text>, searchLines: seq<Text>, cut: Text) {
    exists p: nat :: IsWindow(lines, searchLines, p) && Fits(lines, searchLines, p)
                  && cut == Join(lines[p..p + |searchLines|])
  }

  lemma MatchHasFit(file: seq<Text>, search: seq<Text>, ps: set<nat>)
    requires ps <= Windows(file, search) && FuzzyOutcome(file, search, ps).Match?
    ensures exists p: nat :: OnlyFit(file, search, ps, p)
  {
  }

  lemma FuzzyWindow(lines: seq<Text>, searchLines: seq<Text>, r: Outcome) returns (p: nat)
    requires |searchLines| <= |lines| && IsFuzzyOutcome(lines, searchLines, r) && r.Match?
    ensures IsWindow(lines, searchLines, p) && Fits(lines, searchLines, p)
    ensures r == Match(Offset(lines, p), Offset(lines, p) + |Join(lines[p..p + |searchLines|])|, Fuzzy)
  {
    hide Offset, Join, Fits, IsCandidateSet;
    var ps :| ps <= Windows(lines, searchLines) && r == FuzzyOutcome(lines, searchLines, ps);
    MatchHasFit(lines, searchLines, ps);
    p :| OnlyFit(lines, searchLines, ps, p);
    OnlyFitUnique(lines, searchLines, ps, p);
  }

  /** A fuzzy span is, in the normalized file, exactly the lines of a window that fits, joined. */
  lemma FuzzySpan(n: Text, searchLines: seq<Text>, r: Outcome)
    requires searchLines != [] && |searchLines| <= |Split(n)|
    requires IsFuzzyOutcome(Split(n), searchLines, r) && r.Match?
    ensures r.start <= r.end <= |n| && r.kind == Fuzzy
    ensures IsFittingBlock(Split(n), searchLines, n[r.start..r.end])
  {
    hide Join, Fits, Split, Offset, IsFuzzyOutcome;
    var lines := Split(n);
    var p := FuzzyWindow(lines, searchLines, r);
    var block := Join(lines[p..p + |searchLines|]);
    assert Occurs(n, block, r.start) by {
      BlockAtOffset(lines, p, |searchLines|);
      JoinSplit(n);
    }
    assert n[r.start..r.end] == block;
  }

  /** What each kind of match says about its span. */
  lemma SpanText(file: Text, search: Text, r: Outcome)
    requires IsOutcome(file, search, r) && r.Match?
    ensures var text := OutcomeText(file, r);
            var t := StripBlank(Normalize(search));
            && r.start <= r.end <= |text|
            && match r.kind
               case Exact => text[r.start..r.end] == search && OccursOnlyAt(text, search, r.start)
               case Normalized =>
                 && (text[r.start..r.end] == Normalize(search) || text[r.start..r.end] == t)
                 && OccursOnlyAt(text, text[r.start..r.end], r.start)
               case Fuzzy => IsFittingBlock(Split(text), Split(t), text[r.start..r.end])
  {
    var n, s := Normalize(file), Normalize(search);
    var t := StripBlank(s);
    hide Split, Normalize, StripBlank, Unique, IsFittingBlock, IsFuzzyOutcome;
    if !(file != [] && Unique(file, search)) && !(n != [] && Unique(n, s)) && !(n != [] && Unique(n, t)) {
      FuzzySpan(n, Split(t), r);
    }
  }

  /** Every span lies within the raw file. */
  lemma SpanInBounds(file: Text, search: Text, r: Outcome)
    requires IsOutcome(file, search, r) && r.Match?
    ensures r.start <= r.end <= |OutcomeText(file, r)| <= |file|
  {
    SpanText(file, search, r);
    NormalizeKeeps(file);
    KeptShorter(file);
  }

  /** The part of the raw file up to the end of a span is what the span was computed from exactly when
      no byte before that end is a trailing blank of its line. Otherwise the edit cuts elsewhere. */
  lemma SpanFaithfulIff(file: Text, search: Text, r: Outcome)
    requires IsOutcome(file, search, r) && r.Match? && r.kind != Exact
    ensures r.end <= |Normalize(file)| <= |file|
    ensures file[..r.end] == Normalize(file)[..r.end]
       <==> forall i :: 0 <= i < r.end ==> !Dropped(file, i)
  {
    SpanInBounds(file, search, r);
    hide IsOutcome, Normalize;
    NormalizeKeeps(file);
    KeptPrefixIff(file, r.end);
  }

  /** The span's offsets mean the same in the raw file as in the normalized one. */
  ghost predicate Faithful(file: Text, r: Outcome)
    requires r.Match?
  {
    r.end <= |file| && r.end <= |Normalize(file)| && file[..r.end] == Normalize(file)[..r.end]
  }

  ghost predicate AllFaithful(file: Text) {
    forall search, r :: IsOutcome(file, search, r) && r.Match? && r.kind != Exact ==> Faithful(file, r)
  }

  /** Every span is faithful, whatever is searched, exactly when normalizing drops nothing before the
      length that it leaves, so that all blanks it drops are at the very end of the file. */
  lemma AllFaithfulIff(file: Text)
    ensures |Normalize(file)| <= |file|
    ensures AllFaithful(file) <==> forall i :: 0 <= i < |Normalize(file)| ==> !Dropped(file, i)
  {
    hide IsOutcome, Normalize, Dropped;
    NormalizeKeeps(file);
    KeptShorter(file);
    KeptPrefixIff(file, |Kept(file)|);
    var n := Normalize(file);
    if AllFaithful(file) && n != [] {
      var search := WholeSearch(file);
      assert Faithful(file, Match(0, |n|, Normalized));
      assert n[..|n|] == n;
    }
    if forall i :: 0 <= i < |n| ==> !Dropped(file, i) {
      forall search, r | IsOutcome(file, search, r) && r.Match? && r.kind != Exact ensures Faithful(file, r) {
        SpanFaithfulIff(file, search, r);
      }
    }
  }

  function Tabs(n: nat): (r: Text)
    ensures |r| == n && forall k :: 0 <= k < n ==> r[k] == 9
  {
    seq(n, k => 9)
  }

  /** Searching the normalized file itself, with enough tabs behind it to keep it from occurring as it
      is, matches the whole of the normalized file. */
  lemma WholeSearch(file: Text) returns (search: Text)
    requires Normalize(file) != []
    ensures IsOutcome(file, search, Match(0, |Normalize(file)|, Normalized))
  {
    hide Normalize, StripBlank, IsFuzzyOutcome, Split;
    var n := Normalize(file);
    search := n + Tabs(|file| + 1);
    NormalizeIdempotent(file);
    NormalizeKeeps(n);
    NormalizeKeeps(search);
    KeptTabs(n, |file| + 1);
    assert !Unique(file, search);
    assert n[0..|n|] == n;
    assert OccursOnlyAt(n, n, 0);
  }

  lemma {:induction false} TabsTrailOff(k: nat)
    ensures TrailsOff(Tabs(k)) && Kept(Tabs(k)) == []
  {
    if k > 0 {
      TabsTrailOff(k - 1);
      assert Tabs(k)[1..] == Tabs(k - 1);
    }
  }

  lemma {:induction false} TrailsOffTabs(t: Text, k: nat)
    ensures TrailsOff(t + Tabs(k)) <==> TrailsOff(t)
  {
    if t == [] {
      assert t + Tabs(k) == Tabs(k);
      TabsTrailOff(k);
    } else {
      TrailsOffTabs(t[1..], k);
      assert (t + Tabs(k))[1..] == t[1..] + Tabs(k);
    }
  }

  lemma {:induction false} KeptTabs(t: Text, k: nat)
    ensures Kept(t + Tabs(k)) == Kept(t)
  {
    hide TrailsOff;
    if t == [] {
      assert t + Tabs(k) == Tabs(k);
      TabsTrailOff(k);
    } else {
      var u := t + Tabs(k);
      assert u[0] == t[0] && u[1..] == u[0 + 1..] == t[1..] + Tabs(k) && t[1..] == t[0 + 1..];
      KeptTabs(t[1..], k);
      TrailsOffTabs(t[1..], k);
    }
  }

  /** In a file without trailing blanks the replaced text is the only occurrence of the search text
      (as given, normalized, or without its blank edges), or a window of lines that fits. */
  lemma CleanFileEdit(file: Text, search: Text, r: Outcome)
    requires IsOutcome(file, search, r) && r.Match?
    requires forall i :: 0 <= i < |file| ==> !Dropped(file, i)
    ensures Normalize(file) == file && r.start <= r.end <= |file|
    ensures var cut := file[r.start..r.end];
            var t := StripBlank(Normalize(search));
            match r.kind
            case Exact => cut == search && OccursOnlyAt(file, search, r.start)
            case Normalized =>
              (cut == Normalize(search) || cut == t) && OccursOnlyAt(file, cut, r.start)
            case Fuzzy => IsFittingBlock(Split(file), Split(t), cut)
  {
    SpanText(file, search, r);
    NormalizeKeeps(file);
    CleanKeepsAll(file);
    hide IsOutcome, Split, Normalize, StripBlank, IsFittingBlock, OccursOnlyAt;
  }

  lemma {:induction false} CleanKeepsAll(t: Text)
    requires forall i :: 0 <= i < |t| ==> !Dropped(t, i)
    ensures Kept(t) == t
  {
    if t != [] {
      forall i | 0 <= i < |t| - 1 ensures !Dropped(t[1..], i) {
        assert t[1..][i + 1..] == t[i + 1 + 1..] && !Dropped(t, i + 1);
      }
      CleanKeepsAll(t[1..]);
      assert !Dropped(t, 0);
    }
  }

  /** One trailing blank is enough: editing "a \\nb\\n", with "b\\t" searched, cuts the newline out. */
  lemma TrailingBlankMisplacesEdit()
    ensures var file: Text := [97, 32, 10, 98, 10];
            var search: Text := [98, 9];
            var m := Match(2, 3, Normalized);
            IsOutcome(file, search, m)
            && Spliced(file, m, [120]) == [97, 32, 120, 98, 10]
  {
    var file: Text := [97, 32, 10, 98, 10];
    var search: Text := [98, 9];
    KeptExample();
    NormalizeKeeps(file);
    NormalizeKeeps(search);
    assert search[1] == 9;
    AbsentByte(file, search, 1);
    OccursOnceExample();
    hide Split, Join, Normalize, StripBlank, Kept, Unique, OccursOnlyAt;
  }

  lemma OccursOnceExample()
    ensures OccursOnlyAt([97, 10, 98, 10], [98], 2) && Unique([97, 10, 98, 10], [98])
  {
    var n: Text := [97, 10, 98, 10];
    assert n[2..3] == [98];
    forall j: nat | Occurs(n, [98], j) ensures j == 2 {
      assert n[j..j + 1][0] == n[j];
    }
  }

  lemma AbsentByte(s: Text, pattern: Text, k: nat)
    requires k < |pattern| && pattern[k] !in s
    ensures !Unique(s, pattern)
  {
    forall i: nat ensures !Occurs(s, pattern, i) {
      if i + |pattern| <= |s| {
        assert s[i..i + |pattern|][k] == s[i + k];
      }
    }
  }

  lemma KeptExample()
    ensures Kept([97, 32, 10, 98, 10]) == [97, 10, 98, 10]
    ensures Kept([98, 9]) == [98]
  {
    var t0: Text := [97, 32, 10, 98, 10];
    var t1: Text := [32, 10, 98, 10];
    var t2: Text := [10, 98, 10];
    var t3: Text := [98, 10];
    var t4: Text := [10];
    var s1: Text := [9];
    assert t0[1..] == t0[0 + 1..] == t1 && t1[1..] == t1[0 + 1..] == t2 && t2[1..] == t3 && t3[1..] == t4;
    assert t4[1..] == [] && Kept(t4) == [10];
    assert Kept(t3) == [98] + Kept(t4);
    assert Kept(t2) == [10] + Kept(t3);
    assert TrailsOff(t2) && Dropped(t1, 0) && Kept(t1) == Kept(t2);
    assert Kept(t0) == [97] + Kept(t1);
    var s0: Text := [98, 9];
    assert s0[1..] == s1 && s1[1..] == s1[0 + 1..] == [] && Dropped(s1, 0) && Kept(s1) == Kept([]);
    assert Kept(s0) == [98] + Kept(s1);
  }

  // ----- Panic

  predicate AllBlank(t: Text) {
    forall i :: 0 <= i < |t| ==> IsBlank(t[i])
  }

  predicate AllLinesSpace(t: Text) {
    forall k :: 0 <= k < |Split(t)| ==> AllSpace(Split(t)[k])
  }

  lemma {:induction false} BlankIsDropped(t: Text)
    ensures Kept(t) == [] <==> AllBlank(t)
  {
    if t != [] {
      BlankIsDropped(t[1..]);
      assert t[1..] == t[0 + 1..];
      if Kept(t) == [] {
        assert forall i :: 1 <= i < |t| ==> t[i] == t[1..][i - 1];
      }
      if AllBlank(t) {
        BlankTrailsOff(t[1..]);
      }
    }
  }

  lemma {:induction false} BlankTrailsOff(t: Text)
    requires AllBlank(t)
    ensures TrailsOff(t)
  {
    if t != [] {
      BlankTrailsOff(t[1..]);
    }
  }

  /** Blanks behind a line do not change whether it is white space. */
  lemma {:induction false} SpaceThenBlanks(s: Text, blanks: Text)
    requires AllBlank(blanks)
    ensures AllSpace(s + blanks) <==> AllSpace(s)
    decreases |s| + |blanks|
  {
    if s == [] {
      assert s + blanks == blanks;
      if blanks != [] {
        assert SpaceWidth(blanks) == 1;
        SpaceThenBlanks([], blanks[1..]);
        assert [] + blanks[1..] == blanks[1..];
      }
    } else {
      WidthThenBlanks(s, blanks);
      var w := SpaceWidth(s);
      if w > 0 {
        assert (s + blanks)[w..] == s[w..] + blanks;
        SpaceThenBlanks(s[w..], blanks);
      }
    }
  }

  lemma WidthThenBlanks(s: Text, blanks: Text)
    requires s != [] && AllBlank(blanks)
    ensures SpaceWidth(s + blanks) == SpaceWidth(s)
  {
    var t := s + blanks;
    assert forall i :: 0 <= i < |s| ==> t[i] == s[i];
    assert forall i :: |s| <= i < |t| ==> IsBlank(t[i]);
  }

  lemma TrimmedSpace(line: Text)
    ensures AllSpace(TrimRight(line)) <==> AllSpace(line)
  {
    var r := TrimRight(line);
    var blanks := line[|r|..];
    assert line == r + blanks;
    assert forall i :: 0 <= i < |blanks| ==> blanks[i] == line[|r| + i];
    SpaceThenBlanks(r, blanks);
  }

  /** A search is left empty exactly when all its lines are white space. */
  lemma StrippedEmptyIff(search: Text)
    ensures StripBlank(Normalize(search)) == [] <==> AllLinesSpace(search)
  {
    hide AllSpace, Split, Core, TrimRight;
    var lines := Split(search);
    var trimmed := TrimAll(lines);
    SplitJoin(trimmed);
    var lo, hi := CoreIsCore(trimmed);
    forall k | 0 <= k < |lines| ensures AllSpace(trimmed[k]) <==> AllSpace(lines[k]) {
      TrimmedSpace(lines[k]);
    }
    if lo < hi {
      SpaceIsEmpty();
      JoinNotEmpty(trimmed[lo..hi]);
    }
  }

  lemma SpaceIsEmpty()
    ensures AllSpace([])
  {
  }

  lemma JoinNotEmpty(lines: seq<Text>)
    requires lines != [] && lines[0] != []
    ensures Join(lines) != []
  {
  }

  /** FindMatch panics exactly when the file is nothing but blanks on one line, the search nothing but
      white space on every line, and the search is not found exactly once in the file as it is. */
  lemma PanicIff(file: Text, search: Text, r: Outcome)
    requires IsOutcome(file, search, r)
    ensures r == Panic <==> AllBlank(file) && AllLinesSpace(search) && !(file != [] && Unique(file, search))
  {
    hide AllBlank, AllLinesSpace, Unique, Split, Join, IsFuzzyOutcome, StripBlank, Normalize;
    NormalizeKeeps(file);
    BlankIsDropped(file);
    StrippedEmptyIff(search);
    FuzzyNeverPanics(Split(Normalize(file)), Split(StripBlank(Normalize(search))), r);
  }

  lemma FuzzyNeverPanics(fileLines: seq<Text>, searchLines: seq<Text>, r: Outcome)
    ensures |searchLines| <= |fileLines| && IsFuzzyOutcome(fileLines, searchLines, r) ==> r != Panic
  {
    hide OnlyFit, IsCandidateSet;
  }

  /** The empty search in the empty file is one such. */
  lemma EmptySearchPanics()
    ensures IsOutcome([], [], Panic)
  {
    hide IsFuzzyOutcome, Unique;
    EmptyStrips();
  }
}
