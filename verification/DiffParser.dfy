/** Unified diffs: cutting a diff into file sections and a section into hunks of numbered lines. */
module DiffParser {
  import opened Common
  import opened EditDistance
  import opened Lines

  datatype Kind = Add | Remove | Context

  datatype DiffLine = DiffLine(kind: Kind, content: Text, newLine: int, position: nat)

  datatype DiffHunk = DiffHunk(startLine: int, lines: seq<DiffLine>)

  datatype DiffFile = DiffFile(path: Text, hunks: seq<DiffHunk>, newFile: bool, deleted: bool)

  const PLUS: byte := 43
  const MINUS: byte := 45
  const SPACE: byte := 32

  /** The prefixes the parser looks for: "@@", "diff --git", "+++ b/", "+++ /dev/null", "--- /dev/null"
      and "new file mode". */
  const AT_AT: Text := [64, 64]
  const DIFF_GIT: Text := [100, 105, 102, 102, 32, 45, 45, 103, 105, 116]
  const NEW_PATH: Text := [43, 43, 43, 32, 98, 47]
  const NEW_NULL: Text := [43, 43, 43, 32, 47, 100, 101, 118, 47, 110, 117, 108, 108]
  const OLD_NULL: Text := [45, 45, 45, 32, 47, 100, 101, 118, 47, 110, 117, 108, 108]
  const NEW_MODE: Text := [110, 101, 119, 32, 102, 105, 108, 101, 32, 109, 111, 100, 101]

  // ----- Sections

  /** A run of lines in which only the first may open a file. */
  predicate OneFile(section: seq<Text>) {
    forall k :: 1 <= k < |section| ==> !(DIFF_GIT <= section[k])
  }

  predicate StartsFile(section: seq<Text>) {
    section != [] && DIFF_GIT <= section[0]
  }

  /** Sections of a diff: none is empty, and each but the first opens at its own first line only. */
  predicate AreSections(sections: seq<seq<Text>>) {
    && (forall k :: 0 <= k < |sections| ==> sections[k] != [] && OneFile(sections[k]))
    && (forall k :: 1 <= k < |sections| ==> StartsFile(sections[k]))
  }

  lemma SectionsPush(sections: seq<seq<Text>>, section: seq<Text>)
    requires AreSections(sections) && section != [] && OneFile(section)
    requires sections != [] ==> StartsFile(section)
    ensures AreSections(sections + [section])
  {
    hide OneFile, StartsFile;
  }

  lemma OneFileMore(section: seq<Text>, line: Text)
    requires OneFile(section) && (section != [] ==> !(DIFF_GIT <= line))
    ensures OneFile(section + [line])
  {
  }

  method SplitDiffByFile(diff: Text) returns (sections: seq<seq<Text>>)
    ensures Concat(sections) == Split(diff)
    ensures AreSections(sections)
  {
    hide Split, Concat, OneFile, AreSections;
    var lines := Split(diff);
    sections := [];
    var current: seq<Text> := [];
    NoSections();
    var i := 0;
    while i < |lines|
      invariant i <= |lines|
      invariant Concat(sections) + current == lines[..i]
      invariant AreSections(sections) && OneFile(current)
      invariant sections != [] ==> StartsFile(current)
    {
      if DIFF_GIT <= lines[i] {
        if |current| > 0 {
          ConcatPush(sections, current);
          SectionsPush(sections, current);
          sections := sections + [current];
        }
        OneFileMore([], lines[i]);
        assert [] + [lines[i]] == [lines[i]];
        current := [lines[i]];
      } else {
        OneFileMore(current, lines[i]);
        current := current + [lines[i]];
      }
      i := i + 1;
    }
    if |current| > 0 {
      ConcatPush(sections, current);
      SectionsPush(sections, current);
      sections := sections + [current];
    }
  }

  lemma NoSections()
    ensures Concat<Text>([]) == [] && AreSections([]) && OneFile([])
  {
  }

  // ----- Hunks

  predicate IsHunk(line: Text) {
    AT_AT <= line
  }

  predicate Stops(line: Text) {
    DIFF_GIT <= line || IsHunk(line)
  }

  function KindOf(line: Text): Kind {
    if line != [] && line[0] == PLUS then Add
    else if line != [] && line[0] == MINUS then Remove
    else Context
  }

  function ContentOf(line: Text): Text {
    if line == [] then [] else line[1..]
  }

  /** How many of the lines are in the new file. */
  function Kept(lines: seq<Text>): nat {
    if lines == [] then 0
    else Kept(lines[..|lines| - 1]) + if KindOf(lines[|lines| - 1]).Remove? then 0 else 1
  }

  /** The lines of a hunk: those before the next header. */
  function Body(lines: seq<Text>): (r: seq<Text>)
    ensures r <= lines
  {
    if lines == [] || Stops(lines[0]) then [] else [lines[0]] + Body(lines[1..])
  }

  /** The k-th line of a hunk, on its own: lines of the new file are numbered consecutively from the
      start line, and positions go on from those of the hunks before. */
  function LineAt(body: seq<Text>, k: nat, position: nat, startLine: int): DiffLine
    requires k < |body|
  {
    var kind := KindOf(body[k]);
    DiffLine(kind, ContentOf(body[k]), if kind.Remove? then 0 else startLine + Kept(body[..k]), position + k + 1)
  }

  function Collected(lines: seq<Text>, position: nat, startLine: int): (r: seq<DiffLine>)
    ensures |r| == |Body(lines)|
  {
    var body := Body(lines);
    seq(|body|, k requires 0 <= k < |body| => LineAt(body, k, position, startLine))
  }

  lemma {:induction false} BodyIs(lines: seq<Text>, n: nat)
    requires n <= |lines| && (forall k :: 0 <= k < n ==> !Stops(lines[k]))
    requires n < |lines| ==> Stops(lines[n])
    ensures Body(lines) == lines[..n]
  {
    hide Stops;
    if n > 0 {
      BodyIs(lines[1..], n - 1);
      assert lines[..n] == [lines[0]] + lines[1..][..n - 1];
    }
  }

  method CollectHunkLines(lines: seq<Text>, position: nat, startLine: int) returns (result: seq<DiffLine>, after: nat)
    ensures result == Collected(lines, position, startLine) && after == position + |result|
  {
    hide Body, Kept;
    result, after := [], position;
    var newLine := startLine - 1;
    var i := 0;
    NothingKept();
    while i < |lines| && !(DIFF_GIT <= lines[i] || AT_AT <= lines[i])
      invariant i <= |lines| && (forall k :: 0 <= k < i ==> !Stops(lines[k]))
      invariant |result| == i && after == position + i && newLine == startLine - 1 + Kept(lines[..i])
      invariant forall k :: 0 <= k < i ==> result[k] == LineAt(lines, k, position, startLine)
    {
      var line := lines[i];
      KeptMore(lines, i);
      after := after + 1;
      if |line| > 0 && line[0] == PLUS {
        newLine := newLine + 1;
        result := result + [DiffLine(Add, line[1..], newLine, after)];
      } else if |line| > 0 && line[0] == MINUS {
        result := result + [DiffLine(Remove, line[1..], 0, after)];
      } else {
        newLine := newLine + 1;
        result := result + [DiffLine(Context, if |line| > 0 then line[1..] else [], newLine, after)];
      }
      i := i + 1;
    }
    BodyIs(lines, i);
    forall k | 0 <= k < i ensures LineAt(lines, k, position, startLine) == LineAt(lines[..i], k, position, startLine) {
      assert lines[..i][..k] == lines[..k];
    }
  }

  lemma NothingKept()
    ensures Kept([]) == 0
  {
  }

  lemma KeptMore(lines: seq<Text>, i: nat)
    requires i < |lines|
    ensures Kept(lines[..i + 1]) == Kept(lines[..i]) + if KindOf(lines[i]).Remove? then 0 else 1
  {
    assert lines[..i + 1][..i] == lines[..i];
  }

  // ----- Files

  /** The hunks of some lines, when earlier hunks have used up positions; start reads a hunk's header. */
  function Hunks(lines: seq<Text>, position: nat, start: Text -> int): seq<DiffHunk>
    decreases |lines|
  {
    if lines == [] then []
    else if IsHunk(lines[0]) then
      var body := Collected(lines[1..], position, start(lines[0]));
      [DiffHunk(start(lines[0]), body)] + Hunks(lines[1..], position + |body|, start)
    else Hunks(lines[1..], position, start)
  }

  predicate NamesPath(line: Text) {
    NEW_PATH <= line
  }

  predicate NamesNothing(line: Text) {
    NEW_NULL <= line
  }

  predicate SaysNew(line: Text) {
    NEW_MODE <= line
  }

  predicate OldIsNothing(line: Text) {
    OLD_NULL <= line
  }

  function PathIn(line: Text): Text {
    if NamesPath(line) then line[|NEW_PATH|..] else []
  }

  /** The path is read from the last line that looks like a new-file header. */
  function PathOf(lines: seq<Text>): Text {
    if lines == [] then []
    else
      var last := lines[|lines| - 1];
      if NamesPath(last) then PathIn(last) else PathOf(lines[..|lines| - 1])
  }

  predicate Deletes(lines: seq<Text>) {
    exists k :: 0 <= k < |lines| && NamesNothing(lines[k])
  }

  predicate Creates(lines: seq<Text>) {
    exists k :: 0 <= k < |lines| && (SaysNew(lines[k]) || (OldIsNothing(lines[k]) && !Deletes(lines[..k])))
  }

  lemma FlagsMore(lines: seq<Text>, i: nat)
    requires i < |lines|
    ensures Deletes(lines[..i + 1]) <==> Deletes(lines[..i]) || NamesNothing(lines[i])
    ensures Creates(lines[..i + 1]) <==>
            Creates(lines[..i]) || SaysNew(lines[i]) || (OldIsNothing(lines[i]) && !Deletes(lines[..i]))
    ensures PathOf(lines[..i + 1]) == if NamesPath(lines[i]) then PathIn(lines[i]) else PathOf(lines[..i])
  {
    var more := lines[..i + 1];
    assert more[..i] == lines[..i] && more[i] == lines[i];
    assert forall k :: 0 <= k <= i ==> more[..k] == lines[..i][..k] || k == i;
    if Deletes(lines[..i]) {
      var k :| 0 <= k < i && NamesNothing(lines[..i][k]);
      assert NamesNothing(more[k]);
    }
    CreatesMore(lines, i);
  }

  lemma CreatesMore(lines: seq<Text>, i: nat)
    requires i < |lines|
    ensures Creates(lines[..i + 1]) <==>
            Creates(lines[..i]) || SaysNew(lines[i]) || (OldIsNothing(lines[i]) && !Deletes(lines[..i]))
  {
    hide Deletes;
    var less, more := lines[..i], lines[..i + 1];
    assert forall k :: 0 <= k < i ==> more[k] == less[k] && more[..k] == less[..k];
    assert more[..i] == less && more[i] == lines[i];
    if Creates(less) {
      var k :| 0 <= k < |less| && (SaysNew(less[k]) || (OldIsNothing(less[k]) && !Deletes(less[..k])));
      assert SaysNew(more[k]) || (OldIsNothing(more[k]) && !Deletes(more[..k]));
    }
    if Creates(more) {
      var k :| 0 <= k < |more| && (SaysNew(more[k]) || (OldIsNothing(more[k]) && !Deletes(more[..k])));
      assert k < i ==> SaysNew(less[k]) || (OldIsNothing(less[k]) && !Deletes(less[..k]));
    }
  }

  /** No line starts in two of the ways the parser asks about one after another. */
  lemma OneHeader(line: Text)
    ensures !(NamesPath(line) && NamesNothing(line)) && !(NamesPath(line) && SaysNew(line))
    ensures !(NamesPath(line) && OldIsNothing(line)) && !(NamesNothing(line) && SaysNew(line))
    ensures !(NamesNothing(line) && OldIsNothing(line))
  {
    assert NamesPath(line) ==> line[0] == 43 && line[4] == 98;
    assert NamesNothing(line) ==> line[0] == 43 && line[4] == 47;
    assert SaysNew(line) ==> line[0] == 110;
    assert OldIsNothing(line) ==> line[0] == 45;
  }

  function FileOf(lines: seq<Text>, start: Text -> int): DiffFile {
    DiffFile(PathOf(lines), Hunks(lines, 0, start), Creates(lines), Deletes(lines))
  }

  /** What one line, read as a file header, changes about the file. */
  method NoteHeader(file: DiffFile, line: Text) returns (noted: DiffFile)
    ensures noted.hunks == file.hunks
    ensures noted.path == if NamesPath(line) then PathIn(line) else file.path
    ensures noted.deleted <==> file.deleted || NamesNothing(line)
    ensures noted.newFile <==> file.newFile || SaysNew(line) || (OldIsNothing(line) && !file.deleted)
  {
    hide PathIn, NamesPath, NamesNothing, SaysNew, OldIsNothing;
    OneHeader(line);
    noted := file;
    if NamesPath(line) {
      noted := file.(path := PathIn(line));
    } else if NamesNothing(line) {
      noted := file.(deleted := true);
    } else if SaysNew(line) {
      noted := file.(newFile := true);
    } else if OldIsNothing(line) && !file.deleted {
      noted := file.(newFile := true);
    }
  }

  method ParseDiffFile(lines: seq<Text>, start: Text -> int) returns (file: DiffFile)
    ensures file == FileOf(lines, start)
  {
    hide Collected, Creates, Deletes, PathOf, IsHunk, Hunks, PathIn, NamesPath, NamesNothing, SaysNew, OldIsNothing;
    file := DiffFile([], [], false, false);
    var position := 0;
    NoFlags();
    assert lines[0..] == lines;
    var i := 0;
    while i < |lines|
      invariant i <= |lines|
      invariant file.hunks + Hunks(lines[i..], position, start) == Hunks(lines, 0, start)
      invariant file.path == PathOf(lines[..i])
      invariant file.newFile == Creates(lines[..i]) && file.deleted == Deletes(lines[..i])
    {
      var line := lines[i];
      FlagsMore(lines, i);
      file := NoteHeader(file, line);
      HunksStep(file.hunks, lines, i, position, start);
      if IsHunk(line) {
        var hunkLines, after := CollectHunkLines(lines[i + 1..], position, start(line));
        file := file.(hunks := file.hunks + [DiffHunk(start(line), hunkLines)]);
        position := after;
      }
      i := i + 1;
    }
    assert lines[..i] == lines && lines[i..] == [];
    NoHunksAt(position, start);
  }

  lemma NoHunksAt(position: nat, start: Text -> int)
    ensures Hunks([], position, start) == []
  {
  }

  lemma HunksStep(before: seq<DiffHunk>, lines: seq<Text>, i: nat, position: nat, start: Text -> int)
    requires i < |lines|
    ensures
      var body := Collected(lines[i + 1..], position, start(lines[i]));
      before + Hunks(lines[i..], position, start)
      == if IsHunk(lines[i]) then
           (before + [DiffHunk(start(lines[i]), body)]) + Hunks(lines[i + 1..], position + |body|, start)
         else before + Hunks(lines[i + 1..], position, start)
  {
    hide Collected, IsHunk;
    assert lines[i..][0] == lines[i] && lines[i..][1..] == lines[i + 1..];
  }

  lemma NoFlags()
    ensures PathOf([]) == [] && !Creates([]) && !Deletes([])
  {
  }

  /** The files of the sections that name a path, in order. */
  function Named(sections: seq<seq<Text>>, start: Text -> int): seq<DiffFile> {
    if sections == [] then []
    else
      var file := FileOf(sections[|sections| - 1], start);
      Named(sections[..|sections| - 1], start) + if file.path != [] then [file] else []
  }

  method ParseDiff(diff: Text, start: Text -> int) returns (files: seq<DiffFile>)
    ensures exists sections ::
              Concat(sections) == Split(diff) && AreSections(sections) && files == Named(sections, start)
  {
    hide FileOf, AreSections, Split;
    files := [];
    var parts := SplitDiffByFile(diff);
    var i := 0;
    while i < |parts|
      invariant i <= |parts| && files == Named(parts[..i], start)
    {
      var file := ParseDiffFile(parts[i], start);
      if file.path != [] {
        files := files + [file];
      }
      assert parts[..i + 1][..i] == parts[..i];
      i := i + 1;
    }
    assert parts[..i] == parts;
  }

  // ----- Every line once, numbered 1 to N

  function Flat(hunks: seq<DiffHunk>): seq<DiffLine> {
    if hunks == [] then [] else hunks[0].lines + Flat(hunks[1..])
  }

  function WithoutHeaders(lines: seq<Text>): seq<Text> {
    if lines == [] then []
    else (if IsHunk(lines[0]) then [] else [lines[0]]) + WithoutHeaders(lines[1..])
  }

  /** The lines that the hunks of some lines hold, header by header. */
  function Bodies(lines: seq<Text>): seq<Text> {
    if lines == [] then []
    else (if IsHunk(lines[0]) then Body(lines[1..]) else []) + Bodies(lines[1..])
  }

  lemma {:induction false} BodiesCover(lines: seq<Text>)
    requires forall k :: 0 <= k < |lines| ==> !(DIFF_GIT <= lines[k])
    ensures Body(lines) + Bodies(lines) == WithoutHeaders(lines)
  {
    if lines != [] {
      BodiesCover(lines[1..]);
    }
  }

  /** What a line of a diff says, apart from its number and position. */
  predicate Carries(line: DiffLine, text: Text) {
    line.kind == KindOf(text) && line.content == ContentOf(text)
  }

  lemma {:induction false} FlatIsBodies(lines: seq<Text>, position: nat, start: Text -> int)
    ensures |Flat(Hunks(lines, position, start))| == |Bodies(lines)|
    ensures forall k :: 0 <= k < |Bodies(lines)| ==>
              var line := Flat(Hunks(lines, position, start))[k];
              line.position == position + k + 1 && Carries(line, Bodies(lines)[k])
  {
    hide IsHunk, KindOf, ContentOf, Body;
    if lines != [] {
      if IsHunk(lines[0]) {
        var body := Collected(lines[1..], position, start(lines[0]));
        FlatIsBodies(lines[1..], position + |body|, start);
        var hunk := DiffHunk(start(lines[0]), body);
        var rest := Hunks(lines[1..], position + |body|, start);
        assert ([hunk] + rest)[1..] == rest;
        assert Flat(Hunks(lines, position, start)) == body + Flat(rest);
        assert Bodies(lines) == Body(lines[1..]) + Bodies(lines[1..]);
      } else {
        FlatIsBodies(lines[1..], position, start);
        assert Bodies(lines) == Bodies(lines[1..]);
      }
    }
  }

  lemma {:induction false} BodiesSkip(lines: seq<Text>, first: nat)
    requires first < |lines| && forall k :: 0 <= k < first ==> !IsHunk(lines[k])
    ensures Bodies(lines) == Bodies(lines[first..])
  {
    hide IsHunk, Body;
    if first > 0 {
      BodiesSkip(lines[1..], first - 1);
      assert lines[first..] == lines[1..][first - 1..];
      assert Bodies(lines) == Bodies(lines[1..]);
    } else {
      assert lines[0..] == lines;
    }
  }

  /** In a file section whose first hunk header is at a given line, each later line that is no header is
      in exactly one hunk, in order, and the positions run from 1 to their number across the hunks. */
  lemma PositionsCover(lines: seq<Text>, first: nat, start: Text -> int)
    requires OneFile(lines) && first < |lines| && IsHunk(lines[first])
    requires forall k :: 0 <= k < first ==> !IsHunk(lines[k])
    ensures
      var flat, texts := Flat(FileOf(lines, start).hunks), WithoutHeaders(lines[first + 1..]);
      |flat| == |texts| && forall k :: 0 <= k < |texts| ==> flat[k].position == k + 1 && Carries(flat[k], texts[k])
  {
    hide IsHunk, Hunks, Body, WithoutHeaders, Flat;
    var rest := lines[first..];
    BodiesSkip(lines, first);
    FlatIsBodies(lines, 0, start);
    assert rest[1..] == lines[first + 1..];
    BodiesCover(rest[1..]);
    assert Bodies(rest) == Body(rest[1..]) + Bodies(rest[1..]);
  }

  // ----- Line numbers

  predicate Numbers(line: DiffLine, n: int) {
    line.newLine == n && !line.kind.Remove?
  }

  lemma {:induction false} KeptGrows(body: seq<Text>, j: nat, k: nat)
    requires j <= k <= |body|
    ensures Kept(body[..j]) <= Kept(body[..k])
    ensures j < k && !KindOf(body[j]).Remove? ==> Kept(body[..j]) < Kept(body[..k])
  {
    hide KindOf, Kept;
    if j < k {
      KeptGrows(body, j, k - 1);
      KeptMore(body, k - 1);
    }
  }

  /** In a hunk, the new-file numbers are exactly those from the start line on, as many as there are
      lines that are not removed, and each belongs to one of these lines. */
  lemma {:induction false} NumberedOnce(lines: seq<Text>, position: nat, startLine: int, n: int)
    ensures
      var hunk := Collected(lines, position, startLine);
      && ((exists k :: 0 <= k < |hunk| && Numbers(hunk[k], n))
          <==> startLine <= n < startLine + Kept(Body(lines)))
      && forall j, k :: 0 <= j < k < |hunk| && Numbers(hunk[j], n) ==> !Numbers(hunk[k], n)
  {
    hide Body, Kept, KindOf;
    var body := Body(lines);
    var hunk := Collected(lines, position, startLine);
    assert body[..|body|] == body;
    forall k | 0 <= k < |hunk| && Numbers(hunk[k], n) ensures startLine <= n < startLine + Kept(body) {
      KeptGrows(body, k, |body|);
    }
    if startLine <= n < startLine + Kept(body) {
      var k := Reaches(body, |body|, n - startLine);
      assert Numbers(hunk[k], n);
    }
    forall j, k | 0 <= j < k < |hunk| && Numbers(hunk[j], n) ensures !Numbers(hunk[k], n) {
      KeptGrows(body, j, k);
    }
  }

  lemma {:induction false} Reaches(body: seq<Text>, m: nat, c: nat) returns (k: nat)
    requires m <= |body| && c < Kept(body[..m])
    ensures k < m && Kept(body[..k]) == c && !KindOf(body[k]).Remove?
  {
    hide KindOf;
    KeptMore(body, m - 1);
    if c < Kept(body[..m - 1]) {
      k := Reaches(body, m - 1, c);
    } else {
      k := m - 1;
    }
  }

  /** The lines of the files with a path, in order. */
  function LinesOf(files: seq<DiffFile>, path: Text): seq<DiffLine> {
    if files == [] then []
    else (if files[0].path == path then Flat(files[0].hunks) else []) + LinesOf(files[1..], path)
  }

  lemma {:induction false} FlatHolds(hunks: seq<DiffHunk>, line: DiffLine)
    ensures line in Flat(hunks) <==> exists j :: 0 <= j < |hunks| && line in hunks[j].lines
  {
    if hunks != [] {
      FlatHolds(hunks[1..], line);
      assert forall j :: 1 <= j < |hunks| ==> hunks[j] == hunks[1..][j - 1];
    }
  }

  /** The lines looked through are those of the hunks of files with that path, and no others. */
  lemma {:induction false} LinesOfIff(files: seq<DiffFile>, path: Text, line: DiffLine)
    ensures line in LinesOf(files, path) <==>
            exists i, j :: 0 <= i < |files| && files[i].path == path
                           && 0 <= j < |files[i].hunks| && line in files[i].hunks[j].lines
  {
    hide Flat;
    if files != [] {
      LinesOfIff(files[1..], path, line);
      FlatHolds(files[0].hunks, line);
      assert forall i :: 1 <= i < |files| ==> files[i] == files[1..][i - 1];
    }
  }

  function FirstHit(lines: seq<DiffLine>, n: int): nat {
    if lines == [] then 0
    else if Numbers(lines[0], n) then lines[0].position
    else FirstHit(lines[1..], n)
  }

  method LineToPosition(files: seq<DiffFile>, filePath: Text, lineNumber: int) returns (position: nat)
    ensures position == FirstHit(LinesOf(files, filePath), lineNumber)
  {
    hide FirstHit, Numbers, LinesOf, Flat;
    assert files[0..] == files;
    var i := 0;
    while i < |files|
      invariant i <= |files|
      invariant FirstHit(LinesOf(files, filePath), lineNumber) == FirstHit(LinesOf(files[i..], filePath), lineNumber)
    {
      var file := files[i];
      LinesOfStep(files, i, filePath);
      ghost var later := LinesOf(files[i + 1..], filePath);
      if file.path == filePath {
        assert file.hunks[0..] == file.hunks;
        var j := 0;
        while j < |file.hunks|
          invariant j <= |file.hunks|
          invariant FirstHit(LinesOf(files, filePath), lineNumber)
                    == FirstHit(Flat(file.hunks[j..]) + later, lineNumber)
        {
          var lines := file.hunks[j].lines;
          FlatStep(file.hunks, j);
          ghost var rest := Flat(file.hunks[j + 1..]) + later;
          assert Flat(file.hunks[j..]) + later == lines[0..] + rest;
          var k := 0;
          while k < |lines|
            invariant k <= |lines|
            invariant FirstHit(LinesOf(files, filePath), lineNumber) == FirstHit(lines[k..] + rest, lineNumber)
          {
            FirstHitStep(lines, k, rest, lineNumber);
            if lines[k].newLine == lineNumber && !lines[k].kind.Remove? {
              return lines[k].position;
            }
            k := k + 1;
          }
          assert lines[k..] + rest == rest;
          j := j + 1;
        }
        FlatEnd(file.hunks);
        assert Flat(file.hunks[j..]) + later == later;
      } else {
        assert [] + later == later;
      }
      i := i + 1;
    }
    NoHit(filePath, lineNumber);
    assert files[i..] == [];
    return 0;
  }

  lemma LinesOfStep(files: seq<DiffFile>, i: nat, path: Text)
    requires i < |files|
    ensures LinesOf(files[i..], path)
            == (if files[i].path == path then Flat(files[i].hunks) else []) + LinesOf(files[i + 1..], path)
  {
    assert files[i..][1..] == files[i + 1..];
  }

  lemma FlatStep(hunks: seq<DiffHunk>, j: nat)
    requires j < |hunks|
    ensures Flat(hunks[j..]) == hunks[j].lines + Flat(hunks[j + 1..])
  {
    assert hunks[j..][1..] == hunks[j + 1..];
  }

  lemma FlatEnd(hunks: seq<DiffHunk>)
    ensures Flat(hunks[|hunks|..]) == []
  {
  }


  lemma FirstHitStep(lines: seq<DiffLine>, k: nat, rest: seq<DiffLine>, n: int)
    requires k < |lines|
    ensures
      FirstHit(lines[k..] + rest, n)
      == if lines[k].newLine == n && !lines[k].kind.Remove? then lines[k].position else FirstHit(lines[k + 1..] + rest, n)
  {
    assert (lines[k..] + rest)[1..] == lines[k + 1..] + rest;
  }

  lemma NoHit(path: Text, n: int)
    ensures FirstHit(LinesOf([], path), n) == 0
  {
  }

  lemma {:induction false} FirstHitIs(lines: seq<DiffLine>, n: int)
    requires forall k :: 0 <= k < |lines| ==> lines[k].position > 0
    ensures FirstHit(lines, n) == 0 <==> forall k :: 0 <= k < |lines| ==> !Numbers(lines[k], n)
    ensures FirstHit(lines, n) > 0 ==>
              exists k :: 0 <= k < |lines| && Numbers(lines[k], n) && lines[k].position == FirstHit(lines, n)
                          && forall j :: 0 <= j < k ==> !Numbers(lines[j], n)
  {
    hide Numbers;
    if lines != [] && !Numbers(lines[0], n) {
      FirstHitIs(lines[1..], n);
      assert forall k :: 1 <= k < |lines| ==> lines[k] == lines[1..][k - 1];
      if FirstHit(lines, n) > 0 {
        var k :| 0 <= k < |lines[1..]| && Numbers(lines[1..][k], n) && lines[1..][k].position == FirstHit(lines[1..], n)
                 && forall j :: 0 <= j < k ==> !Numbers(lines[1..][j], n);
        assert Numbers(lines[k + 1], n);
      }
    }
  }

  lemma {:induction false} ParsedPositive(sections: seq<seq<Text>>, start: Text -> int, path: Text)
    ensures forall k :: 0 <= k < |LinesOf(Named(sections, start), path)| ==>
              LinesOf(Named(sections, start), path)[k].position > 0
  {
    hide FileOf, Flat;
    if sections != [] {
      var n := |sections| - 1;
      var front, file := Named(sections[..n], start), FileOf(sections[n], start);
      ParsedPositive(sections[..n], start, path);
      FilePositive(sections[n], start);
      if file.path != [] {
        LinesOfPush(front, file, path);
      } else {
        assert Named(sections, start) == front;
      }
    }
  }

  lemma FilePositive(lines: seq<Text>, start: Text -> int)
    ensures forall k :: 0 <= k < |Flat(FileOf(lines, start).hunks)| ==> Flat(FileOf(lines, start).hunks)[k].position > 0
  {
    hide Flat, Hunks, Bodies;
    FlatIsBodies(lines, 0, start);
  }

  lemma {:induction false} LinesOfPush(files: seq<DiffFile>, file: DiffFile, path: Text)
    ensures LinesOf(files + [file], path) == LinesOf(files, path) + if file.path == path then Flat(file.hunks) else []
  {
    hide Flat;
    if files != [] {
      LinesOfPush(files[1..], file, path);
      assert (files + [file])[1..] == files[1..] + [file];
    } else {
      assert [file][1..] == [];
      assert files + [file] == [file];
    }
  }

  /** In a parsed diff, looking a line number up gives the position of the first line of the file's
      hunks that has the number and is not removed, and 0 exactly when there is none. */
  lemma LookupIs(sections: seq<seq<Text>>, start: Text -> int, path: Text, n: int)
    ensures
      var lines := LinesOf(Named(sections, start), path);
      var position := FirstHit(lines, n);
      && (position == 0 <==> forall k :: 0 <= k < |lines| ==> !Numbers(lines[k], n))
      && (position > 0 ==> exists k :: 0 <= k < |lines| && Numbers(lines[k], n) && lines[k].position == position
                                       && forall j :: 0 <= j < k ==> !Numbers(lines[j], n))
  {
    hide Named, LinesOf, FirstHit, Numbers;
    ParsedPositive(sections, start, path);
    FirstHitIs(LinesOf(Named(sections, start), path), n);
  }

  function Headers(lines: seq<Text>): nat {
    if lines == [] then 0 else (if IsHunk(lines[0]) then 1 else 0) + Headers(lines[1..])
  }

  lemma {:induction false} HunksAreHeaders(lines: seq<Text>, position: nat, start: Text -> int)
    ensures |Hunks(lines, position, start)| == Headers(lines)
  {
    if lines != [] {
      HunksAreHeaders(lines[1..], if IsHunk(lines[0]) then position + |Body(lines[1..])| else position, start);
    }
  }

  ghost predicate IsHunkOf(hunk: DiffHunk, lines: seq<Text>, startLine: int) {
    hunk.startLine == startLine && exists p: nat :: hunk.lines == Collected(lines, p, startLine)
  }

  /** There is a hunk for each header, in order: its start line is its own header's, which its lines are
      numbered from, and its lines are those behind that header. */
  lemma {:induction false} HunkOfHeader(lines: seq<Text>, position: nat, start: Text -> int, i: nat)
    requires i < |lines| && IsHunk(lines[i])
    ensures |Hunks(lines, position, start)| == Headers(lines) && Headers(lines[..i]) < Headers(lines)
    ensures
      var hunk := Hunks(lines, position, start)[Headers(lines[..i])];
      IsHunkOf(hunk, lines[i + 1..], start(lines[i]))
  {
    hide IsHunk, Collected, IsHunkOf;
    HunksAreHeaders(lines, position, start);
    if i == 0 {
      assert lines[..0] == [];
      assert lines[0 + 1..] == lines[1..];
      FromPosition(start(lines[0]), lines[1..], position);
    } else {
      var p := if IsHunk(lines[0]) then position + |Collected(lines[1..], position, start(lines[0]))| else position;
      HunkOfHeader(lines[1..], p, start, i - 1);
      assert lines[..i][1..] == lines[1..][..i - 1] && lines[..i][0] == lines[0];
      assert lines[1..][i - 1 + 1..] == lines[i + 1..];
    }
  }

  lemma FromPosition(startLine: int, lines: seq<Text>, position: nat)
    ensures IsHunkOf(DiffHunk(startLine, Collected(lines, position, startLine)), lines, startLine)
  {
  }

  /** The files kept are those of sections that name a path. */
  lemma {:induction false} KeptIff(sections: seq<seq<Text>>, start: Text -> int, file: DiffFile)
    ensures file in Named(sections, start) <==>
            file.path != [] && exists k :: 0 <= k < |sections| && FileOf(sections[k], start) == file
  {
    hide FileOf;
    if sections != [] {
      var n := |sections| - 1;
      KeptIff(sections[..n], start, file);
      assert file in Named(sections, start) <==>
             file in Named(sections[..n], start) || (file.path != [] && FileOf(sections[n], start) == file);
      assert forall k :: 0 <= k < n ==> sections[..n][k] == sections[k];
    }
  }

  // ----- What lines and headers look like

  /** The bytes of a text of plain characters. */
  function Ascii(s: string): Text
    requires forall k :: 0 <= k < |s| ==> s[k] < 128 as char
  {
    seq(|s|, k requires 0 <= k < |s| => s[k] as byte)
  }

  lemma HeadersSpell()
    ensures AT_AT == Ascii("@@") && DIFF_GIT == Ascii("diff --git") && NEW_PATH == Ascii("+++ b/")
    ensures NEW_NULL == Ascii("+++ /dev/null") && OLD_NULL == Ascii("--- /dev/null")
    ensures NEW_MODE == Ascii("new file mode")
  {
  }

  /** A line that opens with "+" is added and one that opens with "-" is removed; any other is context,
      also the empty line. What follows the first byte is the content. */
  lemma KindsAre(first: byte, rest: Text)
    ensures KindOf([first] + rest) == if first == '+' as byte then Add else if first == '-' as byte then Remove else Context
    ensures ContentOf([first] + rest) == rest
    ensures KindOf([]) == Context && ContentOf([]) == []
  {
    assert ([first] + rest)[0] == first && ([first] + rest)[1..] == rest;
  }

  /** A section's path is all that follows "+++ b/" in the last line that opens so. */
  lemma PathBehind(before: seq<Text>, name: Text, after: seq<Text>)
    requires forall k :: 0 <= k < |after| ==> !(Ascii("+++ b/") <= after[k])
    ensures PathOf(before + [Ascii("+++ b/") + name] + after) == name
  {
    HeadersSpell();
    PathOfLast(before, NEW_PATH + name, after);
    assert (NEW_PATH + name)[|NEW_PATH|..] == name;
  }

  lemma {:induction false} PathOfLast(before: seq<Text>, line: Text, after: seq<Text>)
    requires NamesPath(line) && forall k :: 0 <= k < |after| ==> !NamesPath(after[k])
    ensures PathOf(before + [line] + after) == PathIn(line)
  {
    hide NamesPath, PathIn;
    var lines := before + [line] + after;
    if after == [] {
      assert lines[|lines| - 1] == line;
    } else {
      PathOfLast(before, line, after[..|after| - 1]);
      assert lines[..|lines| - 1] == before + [line] + after[..|after| - 1];
      assert lines[|lines| - 1] == after[|after| - 1];
    }
  }

  // ----- Printing and reading back

  function Mark(kind: Kind): byte {
    match kind
    case Add => PLUS
    case Remove => MINUS
    case Context => SPACE
  }

  function LineText(line: DiffLine): Text {
    [Mark(line.kind)] + line.content
  }

  function Printed(lines: seq<DiffLine>): Text {
    if lines == [] then [] else LineText(lines[0]) + [NEWLINE] + Printed(lines[1..])
  }

  method BuildFileContent(file: DiffFile) returns (text: Text)
    ensures text == Printed(Flat(file.hunks))
  {
    hide LineText;
    text := [];
    assert file.hunks[0..] == file.hunks;
    var i := 0;
    while i < |file.hunks|
      invariant i <= |file.hunks| && text + Printed(Flat(file.hunks[i..])) == Printed(Flat(file.hunks))
    {
      var lines := file.hunks[i].lines;
      assert file.hunks[i..][1..] == file.hunks[i + 1..];
      ghost var rest := Flat(file.hunks[i + 1..]);
      assert Flat(file.hunks[i..]) == lines[0..] + rest;
      var k := 0;
      while k < |lines|
        invariant k <= |lines| && text + Printed(lines[k..] + rest) == Printed(Flat(file.hunks))
      {
        PrintedStep(lines, k, rest);
        text := text + ([Mark(lines[k].kind)] + lines[k].content + [NEWLINE]);
        k := k + 1;
      }
      assert lines[k..] + rest == rest;
      i := i + 1;
    }
  }

  lemma PrintedStep(lines: seq<DiffLine>, k: nat, rest: seq<DiffLine>)
    requires k < |lines|
    ensures Printed(lines[k..] + rest)
            == ([Mark(lines[k].kind)] + lines[k].content + [NEWLINE]) + Printed(lines[k + 1..] + rest)
  {
    assert (lines[k..] + rest)[1..] == lines[k + 1..] + rest;
  }

  lemma SplitPrintedLine(lines: seq<DiffLine>)
    requires lines != [] && IsLine(lines[0].content)
    ensures Split(Printed(lines)) == [LineText(lines[0])] + Split(Printed(lines[1..]))
  {
    hide Split;
    var rest := Printed(lines[1..]);
    SplitFirst(LineText(lines[0]), [NEWLINE] + rest);
    SplitNewline(rest);
    assert Printed(lines) == LineText(lines[0]) + ([NEWLINE] + rest);
    assert ([[]] + Split(rest))[0] == [] && ([[]] + Split(rest))[1..] == Split(rest);
    assert LineText(lines[0]) + [] == LineText(lines[0]);
  }

  lemma {:induction false} SplitPrinted(lines: seq<DiffLine>)
    requires forall k :: 0 <= k < |lines| ==> IsLine(lines[k].content)
    ensures |Split(Printed(lines))| == |lines| + 1 && Split(Printed(lines))[|lines|] == []
    ensures forall k :: 0 <= k < |lines| ==> Split(Printed(lines))[k] == LineText(lines[k])
  {
    hide Split, LineText, IsLine;
    if lines == [] {
      SplitNothing();
    } else {
      SplitPrinted(lines[1..]);
      SplitPrintedLine(lines);
      var parts := Split(Printed(lines));
      forall k | 0 <= k < |lines| ensures parts[k] == LineText(lines[k]) {
        if k > 0 {
          assert parts[k] == Split(Printed(lines[1..]))[k - 1];
        }
      }
    }
  }

  lemma SplitNothing()
    ensures Split([]) == [[]]
  {
  }

  lemma LineReadsBack(line: DiffLine)
    ensures Carries(line, LineText(line)) && !Stops(LineText(line))
  {
    assert LineText(line)[0] == Mark(line.kind);
    assert LineText(line)[1..] == line.content;
  }

  /** Printing the lines of hunks and collecting the printed lines again gives back their kinds and
      contents, and one more line: an empty one of context, for the text after the last newline. */
  lemma PrintAndCollect(lines: seq<DiffLine>, position: nat, startLine: int)
    requires forall k :: 0 <= k < |lines| ==> IsLine(lines[k].content)
    ensures
      var again := Collected(Split(Printed(lines)), position, startLine);
      && |again| == |lines| + 1
      && (forall k :: 0 <= k < |lines| ==> again[k].kind == lines[k].kind && again[k].content == lines[k].content)
      && again[|lines|].kind == Context && again[|lines|].content == []
  {
    hide Split, LineText, Stops, Printed, Kept;
    SplitPrinted(lines);
    var texts := Split(Printed(lines));
    forall k | 0 <= k < |lines| ensures Carries(lines[k], texts[k]) && !Stops(texts[k]) {
      LineReadsBack(lines[k]);
    }
    EmptyGoesOn();
    BodyIs(texts, |texts|);
    assert texts[..|texts|] == texts;
  }

  lemma EmptyGoesOn()
    ensures !Stops([])
  {
  }

  // ----- Where the path comes from

  /** A section keeps the path of its header exactly as long as no line from the first hunk on looks
      like a new-file header: the last that does takes the path over. */
  lemma {:induction false} PathIs(header: seq<Text>, rest: seq<Text>)
    ensures PathOf(header + rest)
            == if exists k :: 0 <= k < |rest| && NamesPath(rest[k]) then PathOf(rest) else PathOf(header)
  {
    if rest == [] {
      assert header + rest == header;
    } else {
      var n := |rest| - 1;
      PathIs(header, rest[..n]);
      assert (header + rest)[..|header + rest| - 1] == header + rest[..n];
      assert (exists k :: 0 <= k < |rest| && NamesPath(rest[k])) <==>
             NamesPath(rest[n]) || exists k :: 0 <= k < n && NamesPath(rest[..n][k]);
    }
  }

  /** For one, a section for the file "a" that adds a line "++ b/c" is read as one for the file "c". */
  lemma ContentCanTakePath(start: Text -> int)
    ensures FileOf([NEW_PATH + [97], AT_AT, [PLUS] + [43, 43, 32, 98, 47, 99]], start).path == [99]
  {
    assert [PLUS] + [43, 43, 32, 98, 47, 99] == NEW_PATH + [99];
  }
}
