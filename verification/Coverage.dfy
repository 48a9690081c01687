/** Coverage reports: collapsing line numbers into ranges, and the counting of the two parsers. */
module Coverage {
  import opened Common

  datatype LineRange = LineRange(start: int, end: int)

  // ----- Collapsing

  predicate Ascending(s: seq<int>) {
    forall i, j :: 0 <= i < j < |s| ==> s[i] <= s[j]
  }

  function Insert(x: int, s: seq<int>): seq<int> {
    if s == [] || x <= s[0] then [x] + s else [s[0]] + Insert(x, s[1..])
  }

  lemma {:induction false} InsertPermutes(x: int, s: seq<int>)
    ensures multiset(Insert(x, s)) == multiset(s) + multiset{x}
  {
    if s != [] && x > s[0] {
      InsertPermutes(x, s[1..]);
      assert s == [s[0]] + s[1..];
    }
  }

  lemma {:induction false} InsertAscends(x: int, s: seq<int>, bound: int)
    requires Ascending(s) && x >= bound && forall k :: 0 <= k < |s| ==> s[k] >= bound
    ensures Ascending(Insert(x, s)) && forall k :: 0 <= k < |Insert(x, s)| ==> Insert(x, s)[k] >= bound
  {
    if s != [] && x > s[0] {
      InsertAscends(x, s[1..], s[0]);
    }
  }

  /** The standard library's sort. */
  method SortInts(s: seq<int>) returns (r: seq<int>)
    ensures Ascending(r) && multiset(r) == multiset(s)
  {
    hide Ascending, Insert;
    r := [];
    NothingToSort();
    for i := 0 to |s|
      invariant Ascending(r) && multiset(r) == multiset(s[..i])
    {
      var bound := if r == [] || s[i] < r[0] then s[i] else r[0];
      Least(r);
      InsertAscends(s[i], r, bound);
      InsertPermutes(s[i], r);
      assert s[..i + 1] == s[..i] + [s[i]];
      r := Insert(s[i], r);
    }
    assert s[..|s|] == s;
  }

  lemma NothingToSort()
    ensures Ascending([])
  {
  }

  lemma Least(s: seq<int>)
    requires Ascending(s)
    ensures forall k :: 0 <= k < |s| ==> s[0] <= s[k]
  {
  }

  predicate Covers(ranges: seq<LineRange>, n: int) {
    exists k :: 0 <= k < |ranges| && ranges[k].start <= n <= ranges[k].end
  }

  function Size(ranges: seq<LineRange>): int {
    if ranges == [] then 0
    else
      var last := ranges[|ranges| - 1];
      Size(ranges[..|ranges| - 1]) + last.end - last.start + 1
  }

  predicate Proper(ranges: seq<LineRange>) {
    forall k :: 0 <= k < |ranges| ==> ranges[k].start <= ranges[k].end
  }

  /** A gap of at least one number lies between each range and the next: they are in order, disjoint,
      and none could be joined with another. */
  predicate Separated(ranges: seq<LineRange>) {
    forall k :: 1 <= k < |ranges| ==> ranges[k - 1].end + 1 < ranges[k].start
  }

  /** In order, with a gap between any two. */
  predicate Apart(ranges: seq<LineRange>) {
    forall j, k :: 0 <= j < k < |ranges| ==> ranges[j].end + 1 < ranges[k].start
  }

  lemma {:induction false} SeparatedApart(ranges: seq<LineRange>, j: nat, k: nat)
    requires Proper(ranges) && Separated(ranges) && j < k < |ranges|
    ensures ranges[j].end + 1 < ranges[k].start
  {
    if j + 1 < k {
      SeparatedApart(ranges, j, k - 1);
      assert ranges[k - 1].start <= ranges[k - 1].end;
    }
    assert ranges[k - 1].end + 1 < ranges[k].start;
  }

  lemma ApartIff(ranges: seq<LineRange>)
    requires Proper(ranges)
    ensures Apart(ranges) <==> Separated(ranges)
  {
    if Separated(ranges) {
      forall j, k | 0 <= j < k < |ranges| ensures ranges[j].end + 1 < ranges[k].start {
        SeparatedApart(ranges, j, k);
      }
    }
  }

  lemma RangeMore(ranges: seq<LineRange>, start: int, end: int)
    ensures Size(ranges + [LineRange(start, end)]) == Size(ranges) + end - start + 1
    ensures forall n :: Covers(ranges + [LineRange(start, end)], n) <==> Covers(ranges, n) || start <= n <= end
  {
    var more := ranges + [LineRange(start, end)];
    assert more[..|ranges|] == ranges;
    forall n ensures Covers(more, n) <==> Covers(ranges, n) || start <= n <= end {
      if Covers(ranges, n) {
        var k :| 0 <= k < |ranges| && ranges[k].start <= n <= ranges[k].end;
        assert more[k].start <= n <= more[k].end;
      }
      if start <= n <= end {
        assert more[|ranges|].start <= n <= more[|ranges|].end;
      }
    }
  }

  /** The ranges cover exactly the lines, and their lengths add up to the number of lines. They are in
      order with a gap between any two, so disjoint and as long as can be, exactly when no line is given
      twice. */
  method CollapseLineRanges(lines: seq<int>) returns (ranges: seq<LineRange>)
    ensures Proper(ranges) && Size(ranges) == |lines|
    ensures forall n :: Covers(ranges, n) <==> n in lines
    ensures Apart(ranges) <==> Distinct(lines)
  {
    hide Covers, Size, Ascending, Apart;
    if |lines| == 0 {
      NoRanges();
      ApartIff([]);
      return [];
    }
    var sorted := SortInts(lines);
    SameElements(lines, sorted);
    ranges := [];
    NoRanges();
    var start, end := sorted[0], sorted[0];
    var i := 1;
    while i < |sorted|
      invariant 1 <= i <= |sorted| && start <= end == sorted[i - 1]
      invariant Proper(ranges) && Size(ranges) + end - start + 1 == i
      invariant forall n :: (Covers(ranges, n) || start <= n <= end) <==> n in sorted[..i]
      invariant Separated(ranges + [LineRange(start, end)]) <==> Distinct(sorted[..i])
    {
      DistinctMore(sorted, i);
      SeparatedMore(ranges, start, end, sorted[i]);
      assert sorted[..i + 1] == sorted[..i] + [sorted[i]];
      AscendingAt(sorted, i);
      if sorted[i] == end + 1 {
        end := sorted[i];
      } else {
        RangeMore(ranges, start, end);
        ranges := ranges + [LineRange(start, end)];
        start, end := sorted[i], sorted[i];
      }
      i := i + 1;
    }
    assert sorted[..i] == sorted;
    RangeMore(ranges, start, end);
    ranges := ranges + [LineRange(start, end)];
    ApartIff(ranges);
  }

  lemma NoRanges()
    ensures Size([]) == 0 && forall n :: !Covers([], n)
  {
  }

  lemma AscendingAt(s: seq<int>, i: nat)
    requires Ascending(s) && 1 <= i < |s|
    ensures s[i - 1] <= s[i]
  {
  }

  lemma DistinctMore(s: seq<int>, i: nat)
    requires Ascending(s) && 1 <= i < |s|
    ensures Distinct(s[..i + 1]) <==> Distinct(s[..i]) && s[i - 1] != s[i]
  {
    var less, more := s[..i], s[..i + 1];
    if Distinct(more) {
      assert forall j, k :: 0 <= j < k < i ==> less[j] == more[j] && less[k] == more[k];
      assert more[i - 1] != more[i];
    }
    if Distinct(less) && s[i - 1] != s[i] {
      forall j, k | 0 <= j < k < |more| ensures more[j] != more[k] {
        if k < i {
          assert less[j] != less[k];
        }
      }
    }
  }

  lemma SeparatedMore(ranges: seq<LineRange>, start: int, end: int, next: int)
    ensures Separated(ranges + [LineRange(start, end)] + [LineRange(next, next)])
            <==> Separated(ranges + [LineRange(start, end)]) && end + 1 < next
    ensures Separated(ranges + [LineRange(start, next)]) <==> Separated(ranges + [LineRange(start, end)])
  {
    var now := ranges + [LineRange(start, end)];
    var more := now + [LineRange(next, next)];
    var longer := ranges + [LineRange(start, next)];
    assert forall k :: 0 <= k < |now| ==> more[k] == now[k];
    assert forall k :: 0 <= k < |ranges| ==> longer[k] == now[k];
    if Separated(more) {
      assert more[|now| - 1].end + 1 < more[|now|].start;
      forall k | 1 <= k < |now| ensures now[k - 1].end + 1 < now[k].start {
        assert more[k - 1].end + 1 < more[k].start;
      }
    }
    if Separated(now) && end + 1 < next {
      forall k | 1 <= k < |more| ensures more[k - 1].end + 1 < more[k].start {
        if k < |now| {
          assert now[k - 1].end + 1 < now[k].start;
        }
      }
    }
    assert forall k :: 0 <= k < |now| ==> longer[k].start == now[k].start;
  }

  lemma SameElements(s: seq<int>, t: seq<int>)
    requires multiset(s) == multiset(t)
    ensures |s| == |t| && (forall n :: n in s <==> n in t) && (Distinct(s) <==> Distinct(t))
  {
    assert |multiset(s)| == |s| && |multiset(t)| == |t|;
    forall n ensures n in s <==> n in t {
      assert n in s <==> n in multiset(s);
      assert n in t <==> n in multiset(t);
    }
    DistinctIsOnce(s);
    DistinctIsOnce(t);
  }

  lemma {:induction false} DistinctIsOnce(s: seq<int>)
    ensures Distinct(s) <==> forall n :: multiset(s)[n] <= 1
  {
    if s != [] {
      var front, last := s[..|s| - 1], s[|s| - 1];
      DistinctIsOnce(front);
      assert s == front + [last];
      assert last in front <==> multiset(front)[last] > 0;
      if Distinct(s) {
        assert Distinct(front);
        forall n ensures multiset(s)[n] <= 1 {
        }
      }
      if forall n :: multiset(s)[n] <= 1 {
        forall n ensures multiset(front)[n] <= 1 { assert multiset(front)[n] <= multiset(s)[n]; }
        assert multiset(s)[last] <= 1;
      }
    }
  }

  // ----- Go coverage: blocks of lines, each with a count

  const MAX_FILES := 500

  datatype Block = Block(path: string, startLine: int, endLine: int, count: int)

  datatype Detail = Detail(linesCovered: int, linesTotal: int)

  function LineCount(block: Block): int {
    block.endLine - block.startLine + 1
  }

  /** The lines of a block, one by one: none when its end is before its start. */
  function LinesOf(block: Block, n: nat): (r: seq<int>)
    ensures |r| == n
  {
    seq(n, k => block.startLine + k)
  }

  function Missed(block: Block): seq<int> {
    if block.count > 0 || LineCount(block) < 0 then [] else LinesOf(block, LineCount(block))
  }

  function Total(blocks: seq<Block>, path: string): int {
    if blocks == [] then 0
    else
      var last := blocks[|blocks| - 1];
      Total(blocks[..|blocks| - 1], path) + if last.path == path then LineCount(last) else 0
  }

  function Covered(blocks: seq<Block>, path: string): int {
    if blocks == [] then 0
    else
      var last := blocks[|blocks| - 1];
      Covered(blocks[..|blocks| - 1], path) + if last.path == path && last.count > 0 then LineCount(last) else 0
  }

  function AllMissed(blocks: seq<Block>, path: string): seq<int> {
    if blocks == [] then []
    else
      var last := blocks[|blocks| - 1];
      AllMissed(blocks[..|blocks| - 1], path) + if last.path == path then Missed(last) else []
  }

  function Files(blocks: seq<Block>): set<string> {
    set k | 0 <= k < |blocks| :: blocks[k].path
  }

  function Lookup(m: map<string, seq<int>>, path: string): seq<int> {
    if path in m then m[path] else []
  }

  lemma BlocksMore(blocks: seq<Block>, n: nat)
    requires n < |blocks|
    ensures Files(blocks[..n + 1]) == Files(blocks[..n]) + {blocks[n].path}
    ensures forall path :: Total(blocks[..n + 1], path)
                           == Total(blocks[..n], path) + if blocks[n].path == path then LineCount(blocks[n]) else 0
    ensures forall path :: Covered(blocks[..n + 1], path)
                           == Covered(blocks[..n], path)
                              + if blocks[n].path == path && blocks[n].count > 0 then LineCount(blocks[n]) else 0
    ensures forall path :: AllMissed(blocks[..n + 1], path)
                           == AllMissed(blocks[..n], path) + if blocks[n].path == path then Missed(blocks[n]) else []
  {
    var more := blocks[..n + 1];
    assert more[..n] == blocks[..n] && more[n] == blocks[n];
    forall path ensures path in Files(more) <==> path in Files(blocks[..n]) + {blocks[n].path} {
      if path in Files(blocks[..n]) {
        var k :| 0 <= k < n && blocks[..n][k].path == path;
        assert more[k].path == path;
      }
    }
  }

  ghost predicate Tallied(coverage: map<string, Detail>, uncovered: map<string, seq<int>>, blocks: seq<Block>) {
    && coverage.Keys == Files(blocks)
    && (forall path :: path in coverage ==> coverage[path] == Detail(Covered(blocks, path), Total(blocks, path)))
    && (forall path :: Lookup(uncovered, path) == AllMissed(blocks, path))
  }

  lemma TalliedMore(coverage: map<string, Detail>, uncovered: map<string, seq<int>>, blocks: seq<Block>, n: nat,
                    detail: Detail, added: map<string, seq<int>>)
    requires n < |blocks| && Tallied(coverage, uncovered, blocks[..n])
    requires
      var block := blocks[n];
      var before := if block.path in coverage then coverage[block.path] else Detail(0, 0);
      && detail.linesTotal == before.linesTotal + LineCount(block)
      && detail.linesCovered == before.linesCovered + if block.count > 0 then LineCount(block) else 0
    requires Lookup(added, blocks[n].path) == Lookup(uncovered, blocks[n].path) + Missed(blocks[n])
    requires forall path :: path != blocks[n].path ==> Lookup(added, path) == Lookup(uncovered, path)
    ensures Tallied(coverage[blocks[n].path := detail], added, blocks[..n + 1])
  {
    hide Files, Total, Covered, AllMissed, Lookup, Missed, LineCount;
    BlocksMore(blocks, n);
    if blocks[n].path !in coverage {
      NotThere(blocks[..n], blocks[n].path);
    }
    forall path ensures Lookup(added, path) == AllMissed(blocks[..n + 1], path) {
      assert AllMissed(blocks[..n], path) + [] == AllMissed(blocks[..n], path);
    }
  }

  /** The loop over the lines of an uncovered block. */
  method AppendLines(uncovered: map<string, seq<int>>, block: Block) returns (added: map<string, seq<int>>)
    requires block.count <= 0
    ensures Lookup(added, block.path) == Lookup(uncovered, block.path) + Missed(block)
    ensures forall path :: path != block.path ==> Lookup(added, path) == Lookup(uncovered, path)
  {
    added := uncovered;
    var i := block.startLine;
    assert Lookup(uncovered, block.path) + [] == Lookup(uncovered, block.path);
    while i <= block.endLine
      invariant block.startLine <= i && (i > block.startLine ==> i <= block.endLine + 1)
      invariant Lookup(added, block.path) == Lookup(uncovered, block.path) + LinesOf(block, i - block.startLine)
      invariant forall path :: path != block.path ==> Lookup(added, path) == Lookup(uncovered, path)
    {
      assert LinesOf(block, i + 1 - block.startLine) == LinesOf(block, i - block.startLine) + [i];
      added := added[block.path := Lookup(added, block.path) + [i]];
      i := i + 1;
    }
    assert LinesOf(block, i - block.startLine) == Missed(block);
  }

  /** The blocks are tallied up to the first of the 501st file. */
  method ParseGoCoverage(blocks: seq<Block>)
      returns (coverage: map<string, Detail>, uncovered: map<string, seq<int>>, n: nat)
    ensures n <= |blocks| && Tallied(coverage, uncovered, blocks[..n])
    ensures |coverage| <= 500
    ensures n < |blocks| ==> |coverage| == 500 && blocks[n].path !in coverage
  {
    hide Tallied, Missed, Lookup, LineCount;
    coverage, uncovered, n := map[], map[], 0;
    var fileCount := 0;
    NoBlocks();
    while n < |blocks|
      invariant n <= |blocks| && Tallied(coverage, uncovered, blocks[..n])
      invariant fileCount == |coverage| <= MAX_FILES
    {
      var block := blocks[n];
      ghost var before := coverage;
      if block.path !in coverage {
        fileCount := fileCount + 1;
        if fileCount > MAX_FILES {
          return;
        }
        coverage := coverage[block.path := Detail(0, 0)];
      }
      var detail := coverage[block.path];
      var lineCount := LineCount(block);
      detail := detail.(linesTotal := detail.linesTotal + lineCount);
      var added := uncovered;
      if block.count > 0 {
        detail := detail.(linesCovered := detail.linesCovered + lineCount);
        NothingMissed(block, uncovered);
      } else {
        added := AppendLines(uncovered, block);
      }
      TalliedMore(before, uncovered, blocks, n, detail, added);
      coverage := coverage[block.path := detail];
      assert coverage == before[block.path := detail];
      uncovered := added;
      n := n + 1;
    }
  }

  lemma NothingMissed(block: Block, uncovered: map<string, seq<int>>)
    requires block.count > 0
    ensures Lookup(uncovered, block.path) == Lookup(uncovered, block.path) + Missed(block)
  {
  }

  lemma NoBlocks()
    ensures Tallied(map[], map[], [])
  {
  }

  lemma {:induction false} NotThere(blocks: seq<Block>, path: string)
    requires path !in Files(blocks)
    ensures Total(blocks, path) == Covered(blocks, path) == 0
  {
    if blocks != [] {
      var n := |blocks| - 1;
      assert blocks[n].path in Files(blocks);
      assert blocks[..n + 1] == blocks;
      BlocksMore(blocks, n);
      NotThere(blocks[..n], path);
    }
  }

  lemma MissedHolds(block: Block, n: int)
    ensures n in Missed(block) <==> block.count <= 0 && block.startLine <= n <= block.endLine
  {
    if block.count <= 0 && block.startLine <= n <= block.endLine {
      assert Missed(block)[n - block.startLine] == n;
    }
  }

  /** The lines recorded as uncovered for a file are those of its blocks with no positive count. */
  lemma {:induction false} MissedIff(blocks: seq<Block>, path: string, n: int)
    ensures n in AllMissed(blocks, path) <==>
            exists k :: 0 <= k < |blocks| && blocks[k].path == path && blocks[k].count <= 0
                        && blocks[k].startLine <= n <= blocks[k].endLine
  {
    hide Missed;
    if blocks != [] {
      var front, last := blocks[..|blocks| - 1], blocks[|blocks| - 1];
      MissedIff(front, path, n);
      MissedHolds(last, n);
      assert forall k :: 0 <= k < |front| ==> front[k] == blocks[k];
    }
  }

  /** A block that is not covered and ends more than one line before its start. */
  predicate Backward(block: Block) {
    block.count <= 0 && block.endLine + 1 < block.startLine
  }

  lemma {:induction false} Surplus(blocks: seq<Block>, path: string)
    ensures Total(blocks, path) - Covered(blocks, path) <= |AllMissed(blocks, path)|
    ensures Total(blocks, path) - Covered(blocks, path) == |AllMissed(blocks, path)|
            <==> forall k :: 0 <= k < |blocks| && blocks[k].path == path ==> !Backward(blocks[k])
  {
    if blocks != [] {
      Surplus(blocks[..|blocks| - 1], path);
      var front := blocks[..|blocks| - 1];
      assert forall k :: 0 <= k < |front| ==> front[k] == blocks[k];
    }
  }

  /** The lines a file is short of are as many as the lines recorded as uncovered, exactly when none of
      its uncovered blocks runs backward. */
  lemma GoCountsAgreeIff(coverage: map<string, Detail>, uncovered: map<string, seq<int>>, blocks: seq<Block>, path: string)
    requires Tallied(coverage, uncovered, blocks) && path in coverage
    ensures coverage[path].linesTotal - coverage[path].linesCovered == |Lookup(uncovered, path)|
            <==> forall k :: 0 <= k < |blocks| && blocks[k].path == path ==> !Backward(blocks[k])
  {
    hide Files, Total, Covered, AllMissed, Backward;
    Surplus(blocks, path);
  }

  /** An uncovered block from line 5 to line 2 takes two lines off the total and records none. */
  lemma BackwardBlockDisagrees()
    ensures Tallied(map["a" := Detail(0, -2)], map[], [Block("a", 5, 2, 0)])
    ensures Detail(0, -2).linesTotal - Detail(0, -2).linesCovered != |Lookup(map[], "a")|
  {
    var blocks := [Block("a", 5, 2, 0)];
    NoBlocks();
    assert blocks[..0] == [] && blocks[..1] == blocks;
    BlocksMore(blocks, 0);
  }

  // ----- lcov: records of one file each

  datatype LcovLine = SourceFile(path: string) | LineData(line: int, hits: int) | EndOfRecord | Other

  datatype Record = Record(path: string, detail: Detail, missed: seq<int>)

  /** The record being read, with no path between records; and the records that are closed. */
  datatype Scanner = Scanner(open: Record, closed: seq<Record>, files: nat, stopped: bool)

  const NO_RECORD := Record("", Detail(0, 0), [])

  function Closed(sc: Scanner): seq<Record> {
    if sc.open.path == "" then sc.closed else sc.closed + [sc.open]
  }

  function Counted(r: Record, line: int, hits: int): Record {
    if hits > 0 then
      r.(detail := Detail(r.detail.linesCovered + 1, r.detail.linesTotal + 1))
    else
      r.(detail := r.detail.(linesTotal := r.detail.linesTotal + 1), missed := r.missed + [line])
  }

  function Read(sc: Scanner, line: LcovLine): Scanner {
    if sc.stopped then sc
    else
      match line
      case SourceFile(path) =>
        if sc.files + 1 > MAX_FILES then sc.(closed := Closed(sc), files := sc.files + 1, stopped := true)
        else Scanner(NO_RECORD.(path := path), Closed(sc), sc.files + 1, false)
      case LineData(number, hits) => sc.(open := Counted(sc.open, number, hits))
      case EndOfRecord => sc.(open := NO_RECORD, closed := Closed(sc))
      case Other => sc
  }

  function ReadAll(lines: seq<LcovLine>): Scanner {
    if lines == [] then Scanner(NO_RECORD, [], 0, false)
    else Read(ReadAll(lines[..|lines| - 1]), lines[|lines| - 1])
  }

  /** The details of a path are those of its last record; its uncovered lines are those of its last
      record that has any. */
  function Details(records: seq<Record>): map<string, Detail> {
    if records == [] then map[]
    else
      var last := records[|records| - 1];
      Details(records[..|records| - 1])[last.path := last.detail]
  }

  function Uncovered(records: seq<Record>): map<string, seq<int>> {
    if records == [] then map[]
    else
      var last := records[|records| - 1];
      var before := Uncovered(records[..|records| - 1]);
      if last.missed == [] then before else before[last.path := last.missed]
  }

  method Save(coverage: map<string, Detail>, uncovered: map<string, seq<int>>, record: Record, ghost closed: seq<Record>)
      returns (c: map<string, Detail>, u: map<string, seq<int>>)
    requires coverage == Details(closed) && uncovered == Uncovered(closed)
    ensures record.path != "" ==> c == Details(closed + [record]) && u == Uncovered(closed + [record])
    ensures record.path == "" ==> c == coverage && u == uncovered
  {
    c, u := coverage, uncovered;
    assert (closed + [record])[..|closed|] == closed;
    if record.path != "" {
      c := c[record.path := record.detail];
      if |record.missed| > 0 {
        u := u[record.path := record.missed];
      }
    }
  }

  method ParseLcov(lines: seq<LcovLine>) returns (coverage: map<string, Detail>, uncovered: map<string, seq<int>>)
    ensures coverage == Details(Closed(ReadAll(lines))) && uncovered == Uncovered(Closed(ReadAll(lines)))
  {
    hide Details, Uncovered, ReadAll, Counted;
    coverage, uncovered := map[], map[];
    var current := NO_RECORD;
    var fileCount, i := 0, 0;
    NothingRead();
    ghost var sc := ReadAll([]);
    while i < |lines|
      invariant i <= |lines| && sc == ReadAll(lines[..i]) && !sc.stopped
      invariant coverage == Details(sc.closed) && uncovered == Uncovered(sc.closed)
      invariant current == sc.open && fileCount == sc.files
    {
      ReadMore(lines, i);
      match lines[i] {
        case SourceFile(path) =>
          coverage, uncovered := Save(coverage, uncovered, current, sc.closed);
          fileCount := fileCount + 1;
          if fileCount > MAX_FILES {
            sc := Read(sc, lines[i]);
            StaysStopped(lines, i + 1);
            break;
          }
          current := NO_RECORD.(path := path);
        case LineData(number, hits) =>
          current := Counted(current, number, hits);
        case EndOfRecord =>
          coverage, uncovered := Save(coverage, uncovered, current, sc.closed);
          current := NO_RECORD;
        case Other =>
      }
      sc := Read(sc, lines[i]);
      i := i + 1;
    }
    assert lines[..|lines|] == lines;
    coverage, uncovered := Save(coverage, uncovered, current, sc.closed);
  }

  lemma NothingRead()
    ensures ReadAll([]) == Scanner(NO_RECORD, [], 0, false) && Details([]) == map[] && Uncovered([]) == map[]
  {
  }

  lemma ReadMore(lines: seq<LcovLine>, i: nat)
    requires i < |lines|
    ensures ReadAll(lines[..i + 1]) == Read(ReadAll(lines[..i]), lines[i])
  {
    assert lines[..i + 1][..i] == lines[..i];
  }

  lemma {:induction false} StaysStopped(lines: seq<LcovLine>, i: nat)
    requires i <= |lines| && ReadAll(lines[..i]).stopped
    ensures ReadAll(lines) == ReadAll(lines[..i])
    decreases |lines| - i
  {
    if i < |lines| {
      ReadMore(lines, i);
      StaysStopped(lines, i + 1);
    } else {
      assert lines[..i] == lines;
    }
  }

  // ----- What a record counts

  function SourceFiles(lines: seq<LcovLine>): nat {
    if lines == [] then 0
    else SourceFiles(lines[..|lines| - 1]) + if lines[|lines| - 1].SourceFile? then 1 else 0
  }

  /** Reading stops at the 501st file. */
  lemma {:induction false} StopsAt(lines: seq<LcovLine>)
    ensures ReadAll(lines).stopped <==> SourceFiles(lines) > 500
    ensures !ReadAll(lines).stopped ==> ReadAll(lines).files == SourceFiles(lines)
  {
    if lines != [] {
      StopsAt(lines[..|lines| - 1]);
    }
  }

  predicate IsData(line: LcovLine) {
    line.LineData? || line.Other?
  }

  /** The places of the data lines, and of those with hits. */
  ghost function DataAt(lines: seq<LcovLine>): set<int> {
    set k | 0 <= k < |lines| && lines[k].LineData?
  }

  ghost function HitAt(lines: seq<LcovLine>): set<int> {
    set k | 0 <= k < |lines| && lines[k].LineData? && lines[k].hits > 0
  }

  /** The lines without hits, in order. */
  function NoHits(lines: seq<LcovLine>): seq<int> {
    if lines == [] then []
    else (if lines[0].LineData? && lines[0].hits <= 0 then [lines[0].line] else []) + NoHits(lines[1..])
  }

  lemma {:induction false} NoHitsPush(lines: seq<LcovLine>, last: LcovLine)
    ensures NoHits(lines + [last])
            == NoHits(lines) + if last.LineData? && last.hits <= 0 then [last.line] else []
  {
    if lines == [] {
      assert [last][1..] == [] && lines + [last] == [last];
    } else {
      NoHitsPush(lines[1..], last);
      assert (lines + [last])[1..] == lines[1..] + [last];
    }
  }

  lemma CountsPush(lines: seq<LcovLine>, last: LcovLine)
    ensures |DataAt(lines + [last])| == |DataAt(lines)| + if last.LineData? then 1 else 0
    ensures |HitAt(lines + [last])| == |HitAt(lines)| + if last.LineData? && last.hits > 0 then 1 else 0
  {
    var more := lines + [last];
    assert DataAt(more) == DataAt(lines) + if last.LineData? then {|lines|} else {};
    assert HitAt(more) == HitAt(lines) + if last.LineData? && last.hits > 0 then {|lines|} else {};
  }

  /** The record that a file opens, while fewer than 500 were opened before, and the lines up to its
      end. Its total is the number of its data lines, its covered lines are those with hits, and its
      uncovered lines are the others in order; and so it is saved. */
  lemma {:induction false} RecordCounts(before: seq<LcovLine>, path: string, data: seq<LcovLine>)
    requires SourceFiles(before) < 500 && path != "" && forall k :: 0 <= k < |data| ==> IsData(data[k])
    ensures
      var record := Record(path, Detail(|HitAt(data)|, |DataAt(data)|), NoHits(data));
      var sc := ReadAll(before + [SourceFile(path)] + data);
      && sc.open == record && !sc.stopped
      && sc.closed == Closed(ReadAll(before))
      && Closed(sc) == sc.closed + [record]
  {
    hide ReadAll, DataAt, HitAt, NoHits, SourceFiles;
    var start := before + [SourceFile(path)];
    if data == [] {
      StopsAt(before);
      assert start[..|before|] == before && start + data == start && start[..|start|] == start;
      ReadMore(start, |before|);
      NoData();
    } else {
      var n := |data| - 1;
      var lines := start + data;
      RecordCounts(before, path, data[..n]);
      assert data == data[..n] + [data[n]] && lines[|start| + n] == data[n];
      assert lines[..|start| + n] == start + data[..n] && lines[..|lines|] == lines;
      ReadMore(lines, |start| + n);
      CountsPush(data[..n], data[n]);
      NoHitsPush(data[..n], data[n]);
    }
  }

  lemma NoData()
    ensures DataAt([]) == HitAt([]) == {} && NoHits([]) == []
  {
  }

  predicate Consistent(r: Record) {
    r.detail.linesTotal - r.detail.linesCovered == |r.missed|
  }

  lemma {:induction false} RecordsConsistent(lines: seq<LcovLine>)
    ensures Consistent(ReadAll(lines).open)
    ensures forall k :: 0 <= k < |ReadAll(lines).closed| ==> Consistent(ReadAll(lines).closed[k])
  {
    if lines != [] {
      RecordsConsistent(lines[..|lines| - 1]);
    }
  }

  /** A path's counts are those of its last record. */
  lemma {:induction false} LastRecordCounts(records: seq<Record>, k: nat)
    requires k < |records| && forall j :: k < j < |records| ==> records[j].path != records[k].path
    ensures records[k].path in Details(records) && Details(records)[records[k].path] == records[k].detail
  {
    if k < |records| - 1 { LastRecordCounts(records[..|records| - 1], k); }
  }

  /** Its uncovered lines are those of its last record that has any. */
  lemma {:induction false} LastMissedLines(records: seq<Record>, k: nat)
    requires k < |records| && records[k].missed != []
    requires forall j :: k < j < |records| && records[j].path == records[k].path ==> records[j].missed == []
    ensures records[k].path in Uncovered(records) && Uncovered(records)[records[k].path] == records[k].missed
  {
    if k < |records| - 1 { LastMissedLines(records[..|records| - 1], k); }
  }

  predicate MissesSome(records: seq<Record>, path: string) {
    exists k :: 0 <= k < |records| && records[k].path == path && records[k].missed != []
  }

  /** The last record of a path has uncovered lines. */
  predicate LastMisses(records: seq<Record>, path: string) {
    records != [] &&
    var last := records[|records| - 1];
    if last.path == path then last.missed != [] else LastMisses(records[..|records| - 1], path)
  }

  lemma {:induction false} UncoveredIff(records: seq<Record>, path: string)
    ensures path in Uncovered(records) <==> MissesSome(records, path)
    ensures path in Uncovered(records) ==> Uncovered(records)[path] != []
  {
    if records != [] {
      var n := |records| - 1;
      UncoveredIff(records[..n], path);
      assert MissesSome(records, path) <==>
             MissesSome(records[..n], path) || (records[n].path == path && records[n].missed != []) by {
        assert forall k :: 0 <= k < n ==> records[..n][k] == records[k];
      }
    }
  }

  lemma {:induction false} AgreeIff(records: seq<Record>, path: string)
    requires path in Details(records) && forall k :: 0 <= k < |records| ==> Consistent(records[k])
    ensures Details(records)[path].linesTotal - Details(records)[path].linesCovered == |Lookup(Uncovered(records), path)|
            <==> (MissesSome(records, path) ==> LastMisses(records, path))
  {
    hide MissesSome;
    var n := |records| - 1;
    UncoveredIff(records, path);
    assert Consistent(records[n]);
    if records[n].path != path {
      AgreeIff(records[..n], path);
      UncoveredIff(records[..n], path);
    }
  }

  /** In the result for a path, the lines it is short of are as many as those recorded as uncovered,
      exactly when its last record has uncovered lines or none of its records has: a second record
      without any leaves the lines of the first in place. */
  lemma LcovCountsAgreeIff(lines: seq<LcovLine>, path: string)
    requires path in Details(Closed(ReadAll(lines)))
    ensures
      var records := Closed(ReadAll(lines));
      Details(records)[path].linesTotal - Details(records)[path].linesCovered == |Lookup(Uncovered(records), path)|
      <==> (MissesSome(records, path) ==> LastMisses(records, path))
  {
    hide MissesSome, LastMisses, Details, Uncovered, ReadAll, Consistent;
    RecordsConsistent(lines);
    AgreeIff(Closed(ReadAll(lines)), path);
  }

  /** Two records of a file, the second fully covered: line 1 counts as covered and as uncovered. */
  lemma SecondRecordDisagrees()
    ensures
      var lines := [SourceFile("a"), LineData(1, 0), EndOfRecord, SourceFile("a"), LineData(1, 1), EndOfRecord];
      var records := Closed(ReadAll(lines));
      Details(records) == map["a" := Detail(1, 1)] && Uncovered(records) == map["a" := [1]]
  {
    var lines := [SourceFile("a"), LineData(1, 0), EndOfRecord, SourceFile("a"), LineData(1, 1), EndOfRecord];
    hide ReadAll, Details, Uncovered;
    var r1, r2 := Record("a", Detail(0, 1), [1]), Record("a", Detail(1, 1), []);
    NothingRead();
    assert lines[..0] == [] && lines[..6] == lines;
    ReadMore(lines, 0);
    ReadMore(lines, 1);
    assert ReadAll(lines[..2]).open == r1;
    ReadMore(lines, 2);
    assert ReadAll(lines[..3]) == Scanner(NO_RECORD, [r1], 1, false);
    ReadMore(lines, 3);
    ReadMore(lines, 4);
    assert ReadAll(lines[..5]).open == r2;
    ReadMore(lines, 5);
    assert Closed(ReadAll(lines)) == [r1, r2];
    TwoRecords(r1, r2);
  }

  lemma TwoRecords(r1: Record, r2: Record)
    requires r1.path == r2.path && r1.missed != [] && r2.missed == []
    ensures Details([r1, r2]) == map[r2.path := r2.detail] && Uncovered([r1, r2]) == map[r1.path := r1.missed]
  {
    assert [r1, r2][..1] == [r1] && [r1][..0] == [];
    assert Details([r1]) == map[r1.path := r1.detail] && Uncovered([r1]) == map[r1.path := r1.missed];
  }

  function Openings(lines: seq<LcovLine>, path: string): nat {
    if lines == [] then 0
    else Openings(lines[..|lines| - 1], path) + if lines[|lines| - 1] == SourceFile(path) then 1 else 0
  }

  predicate AllAre(records: seq<Record>, path: string, r: Record) {
    forall k :: 0 <= k < |records| && records[k].path == path ==> records[k] == r
  }

  predicate NoneIs(records: seq<Record>, path: string) {
    forall k :: 0 <= k < |records| ==> records[k].path != path
  }

  /** A file opened at most once has one record, though the stop at the 501st file may save it twice. */
  ghost predicate OneRecord(sc: Scanner, path: string, openings: nat) {
    if openings == 0 then NoneIs(sc.closed, path) && sc.open.path != path
    else if sc.open.path != path then exists r :: AllAre(sc.closed, path, r)
    else if sc.stopped then AllAre(sc.closed, path, sc.open)
    else NoneIs(sc.closed, path)
  }

  lemma OneRecordStep(sc: Scanner, line: LcovLine, path: string, openings: nat)
    requires OneRecord(sc, path, openings) && path != "" && openings + (if line == SourceFile(path) then 1 else 0) <= 1
    ensures OneRecord(Read(sc, line), path, openings + if line == SourceFile(path) then 1 else 0)
  {
    var next := Read(sc, line);
    if openings == 1 && next.open.path != path {
      if sc.open.path == path {
        assert AllAre(next.closed, path, sc.open);
      } else {
        var r :| AllAre(sc.closed, path, r);
        assert AllAre(next.closed, path, r);
      }
    } else if openings == 0 && line == SourceFile(path) && next.open.path != path {
      assert AllAre(next.closed, path, NO_RECORD);
    }
  }

  lemma {:induction false} ReadsOneRecord(lines: seq<LcovLine>, path: string)
    requires path != "" && Openings(lines, path) <= 1
    ensures OneRecord(ReadAll(lines), path, Openings(lines, path))
  {
    hide OneRecord, Read;
    if lines == [] {
      NothingOpened(path);
    } else {
      var n := |lines| - 1;
      ReadsOneRecord(lines[..n], path);
      OneRecordStep(ReadAll(lines[..n]), lines[n], path, Openings(lines[..n], path));
    }
  }

  lemma NothingOpened(path: string)
    requires path != ""
    ensures OneRecord(ReadAll([]), path, 0)
  {
  }

  lemma {:induction false} SameRecordsAgree(records: seq<Record>, path: string, r: Record)
    requires AllAre(records, path, r)
    ensures MissesSome(records, path) ==> LastMisses(records, path)
  {
    if records != [] {
      var n := |records| - 1;
      assert AllAre(records[..n], path, r);
      SameRecordsAgree(records[..n], path, r);
      if MissesSome(records, path) && records[n].path != path {
        var k :| 0 <= k < |records| && records[k].path == path && records[k].missed != [];
        assert records[..n][k] == records[k];
      }
    }
  }

  /** For a file that is opened at most once the counts always agree. */
  lemma OneRecordAgrees(lines: seq<LcovLine>, path: string)
    requires path != "" && Openings(lines, path) <= 1 && path in Details(Closed(ReadAll(lines)))
    ensures
      var records := Closed(ReadAll(lines));
      Details(records)[path].linesTotal - Details(records)[path].linesCovered == |Lookup(Uncovered(records), path)|
  {
    hide MissesSome, LastMisses, Details, Uncovered, ReadAll, Openings;
    var sc := ReadAll(lines);
    ReadsOneRecord(lines, path);
    LcovCountsAgreeIff(lines, path);
    if sc.open.path == path {
      SameRecordsAgree(Closed(sc), path, sc.open);
    } else if Openings(lines, path) == 0 {
      SameRecordsAgree(Closed(sc), path, NO_RECORD);
    } else {
      var r :| AllAre(sc.closed, path, r);
      SameRecordsAgree(Closed(sc), path, r);
    }
  }
}
