/** Lines of a text: split, join, trailing-blank removal and substring search, as the matcher uses them. */
module Lines {
  import opened Common
  import opened EditDistance

  const NEWLINE: byte := 10

  // ----- Splitting and joining

  predicate IsLine(s: Text) {
    NEWLINE !in s
  }

  predicate AreLines(lines: seq<Text>) {
    forall k :: 0 <= k < |lines| ==> IsLine(lines[k])
  }

  function Split(t: Text): (lines: seq<Text>)
    ensures lines != [] && AreLines(lines)
  {
    if t == [] then [[]]
    else
      var rest := Split(t[1..]);
      if t[0] == NEWLINE then [[]] + rest else [[t[0]] + rest[0]] + rest[1..]
  }

  function Join(lines: seq<Text>): Text {
    if lines == [] then []
    else if |lines| == 1 then lines[0]
    else lines[0] + [NEWLINE] + Join(lines[1..])
  }

  lemma {:induction false} JoinSplit(t: Text)
    ensures Join(Split(t)) == t
  {
    if t != [] {
      JoinSplit(t[1..]);
      var rest := Split(t[1..]);
      if t[0] == NEWLINE {
        assert ([[]] + rest)[1..] == rest;
      } else {
        assert ([[t[0]] + rest[0]] + rest[1..])[1..] == rest[1..];
      }
      assert t == [t[0]] + t[1..];
    }
  }

  /** Text put in front of t, without a newline, extends the first line of t. */
  lemma {:induction false} SplitFirst(line: Text, t: Text)
    requires IsLine(line)
    ensures Split(line + t)[0] == line + Split(t)[0]
    ensures Split(line + t)[1..] == Split(t)[1..]
  {
    if line == [] {
      assert line + t == t;
    } else {
      SplitFirst(line[1..], t);
      assert (line + t)[1..] == line[1..] + t;
      var rest := Split(line[1..] + t);
      assert Split(line + t) == [[line[0]] + rest[0]] + rest[1..];
      assert [line[0]] + (line[1..] + Split(t)[0]) == line + Split(t)[0];
    }
  }

  lemma SplitNewline(u: Text)
    ensures Split([NEWLINE] + u) == [[]] + Split(u)
  {
    assert ([NEWLINE] + u)[1..] == u;
  }

  lemma {:induction false} SplitJoin(lines: seq<Text>)
    requires lines != [] && AreLines(lines)
    ensures Split(Join(lines)) == lines
  {
    var first := lines[0];
    if |lines| == 1 {
      SplitFirst(first, []);
      assert first + [] == first;
    } else {
      SplitJoin(lines[1..]);
      hide Split, IsLine;
      var tail := [NEWLINE] + Join(lines[1..]);
      SplitNewline(Join(lines[1..]));
      SplitFirst(first, tail);
      assert Join(lines) == first + tail;
      var parts := Split(first + tail);
      assert parts == [parts[0]] + parts[1..] && first + [] == first;
      assert lines == [first] + lines[1..];
    }
  }

  /** The number of bytes before line k of the joined text. */
  function Offset(lines: seq<Text>, k: nat): nat
    requires k <= |lines|
  {
    if k == 0 then 0 else Offset(lines, k - 1) + |lines[k - 1]| + 1
  }

  lemma {:induction false} OffsetShift(lines: seq<Text>, k: nat)
    requires 1 <= k <= |lines|
    ensures Offset(lines, k) == |lines[0]| + 1 + Offset(lines[1..], k - 1)
  {
    if k > 1 {
      OffsetShift(lines, k - 1);
    } else {
      assert Offset(lines, 0) == 0;
    }
  }

  lemma {:induction false} JoinLongEnough(lines: seq<Text>, w: nat)
    requires 1 <= w <= |lines|
    ensures Join(lines[..w]) <= Join(lines)
  {
    if w == |lines| {
      assert lines[..w] == lines;
    } else if w == 1 {
      assert lines[..1] == [lines[0]];
    } else {
      JoinLongEnough(lines[1..], w - 1);
      assert lines[..w][1..] == lines[1..][..w - 1];
    }
  }

  /** The block of w lines at line p sits, joined, at the offset computed from the line lengths. */
  lemma {:induction false} BlockAtOffset(lines: seq<Text>, p: nat, w: nat)
    requires 1 <= w && p + w <= |lines|
    ensures Occurs(Join(lines), Join(lines[p..p + w]), Offset(lines, p))
  {
    hide Join;
    if p == 0 {
      JoinLongEnough(lines, w);
      assert lines[0..w] == lines[..w];
    } else {
      BlockAtOffset(lines[1..], p - 1, w);
      OffsetShift(lines, p);
      assert lines[1..][p - 1..p - 1 + w] == lines[p..p + w];
      var head := lines[0] + [NEWLINE];
      JoinHead(lines);
      OccursBehind(head, Join(lines[1..]), Join(lines[p..p + w]), Offset(lines[1..], p - 1));
    }
  }

  lemma JoinHead(lines: seq<Text>)
    requires |lines| > 1
    ensures Join(lines) == lines[0] + [NEWLINE] + Join(lines[1..])
  {
  }

  lemma OccursBehind(head: Text, s: Text, pattern: Text, i: nat)
    requires Occurs(s, pattern, i)
    ensures Occurs(head + s, pattern, |head| + i)
  {
    assert (head + s)[|head| + i..|head| + i + |pattern|] == s[i..i + |pattern|];
  }

  // ----- Substring search

  ghost predicate Occurs(s: Text, pattern: Text, i: nat) {
    i + |pattern| <= |s| && s[i..i + |pattern|] == pattern
  }

  /** The pattern occurs at i and nowhere else, overlapping occurrences included. */
  ghost predicate OccursOnlyAt(s: Text, pattern: Text, i: nat) {
    Occurs(s, pattern, i) && forall j: nat :: Occurs(s, pattern, j) ==> j == i
  }

  /** The least index at which the pattern occurs, or -1. */
  function Index(s: Text, pattern: Text): (r: int)
    ensures -1 <= r
    ensures r >= 0 ==> Occurs(s, pattern, r)
    ensures forall j: nat :: Occurs(s, pattern, j) ==> 0 <= r <= j
  {
    if pattern <= s then 0
    else if s == [] then -1
    else
      var r := Index(s[1..], pattern);
      assert forall j: nat :: Occurs(s, pattern, j) ==> j > 0 && Occurs(s[1..], pattern, j - 1);
      if r == -1 then -1 else assert Occurs(s[1..], pattern, r); r + 1
  }

  // ----- Trailing blanks

  predicate IsBlank(c: byte) {
    c == 32 || c == 9 || c == 13
  }

  function TrimRight(s: Text): (r: Text)
    ensures r <= s
    ensures r != [] ==> !IsBlank(Last(r))
    ensures forall k :: |r| <= k < |s| ==> IsBlank(s[k])
  {
    if s == [] then []
    else if IsBlank(Last(s)) then TrimRight(Init(s))
    else s
  }

  function TrimAll(lines: seq<Text>): (r: seq<Text>)
    requires AreLines(lines)
    ensures |r| == |lines| && AreLines(r)
    ensures forall k :: 0 <= k < |lines| ==> r[k] == TrimRight(lines[k])
  {
    if lines == [] then [] else [TrimRight(lines[0])] + TrimAll(lines[1..])
  }

  function Normalize(t: Text): Text {
    Join(TrimAll(Split(t)))
  }

  method NormalizeLines(text: Text) returns (r: Text)
    ensures r == Normalize(text)
  {
    hide Split, TrimRight;
    var lines := Split(text);
    ghost var trimmed := TrimAll(lines);
    r := [];
    for i := 0 to |lines|
      invariant r == Join(trimmed[..i])
    {
      assert trimmed[..i + 1] == trimmed[..i] + [trimmed[i]];
      if i > 0 {
        r := r + [NEWLINE];
        JoinSnoc(trimmed[..i], trimmed[i]);
      }
      r := r + TrimRight(lines[i]);
    }
    assert trimmed[..|lines|] == trimmed;
  }

  lemma {:induction false} JoinSnoc(lines: seq<Text>, last: Text)
    requires lines != []
    ensures Join(lines + [last]) == Join(lines) + [NEWLINE] + last
  {
    if |lines| == 1 {
      assert (lines + [last])[1..] == [last];
    } else {
      JoinSnoc(lines[1..], last);
      assert (lines + [last])[1..] == lines[1..] + [last];
    }
  }

  // ----- Which bytes normalization drops

  /** Only blanks up to the end of the current line. */
  predicate TrailsOff(t: Text) {
    t == [] || t[0] == NEWLINE || (IsBlank(t[0]) && TrailsOff(t[1..]))
  }

  /** Byte i of the text is a trailing blank of its line. */
  predicate Dropped(t: Text, i: nat)
    requires i < |t|
  {
    IsBlank(t[i]) && TrailsOff(t[i + 1..])
  }

  /** The text without its dropped bytes, read off byte by byte. */
  function Kept(t: Text): Text {
    if t == [] then []
    else if Dropped(t, 0) then Kept(t[1..])
    else [t[0]] + Kept(t[1..])
  }

  lemma {:induction false} TrimRightCons(c: byte, s: Text)
    ensures TrimRight([c] + s) == if TrimRight(s) == [] && IsBlank(c) then [] else [c] + TrimRight(s)
    decreases |s|
  {
    if s == [] {
      assert Init([c] + s) == [];
    } else {
      assert Last([c] + s) == Last(s) && Init([c] + s) == [c] + Init(s);
      if IsBlank(Last(s)) {
        TrimRightCons(c, Init(s));
      }
    }
  }

  lemma {:induction false} FirstLineTrailsOff(t: Text)
    ensures TrimRight(Split(t)[0]) == [] <==> TrailsOff(t)
  {
    if t != [] && t[0] != NEWLINE {
      FirstLineTrailsOff(t[1..]);
      TrimRightCons(t[0], Split(t[1..])[0]);
    }
  }

  lemma NormalizeNewline(u: Text)
    ensures Normalize([NEWLINE] + u) == [NEWLINE] + Normalize(u)
  {
    var t := [NEWLINE] + u;
    var rest := Split(u);
    assert t[1..] == u;
    assert Split(t) == [[]] + rest;
    assert ([[]] + rest)[1..] == rest && ([[]] + TrimAll(rest))[1..] == TrimAll(rest);
  }

  lemma TrimAllCons(c: byte, lines: seq<Text>)
    requires c != NEWLINE && lines != [] && AreLines(lines)
    ensures var longer := [[c] + lines[0]] + lines[1..];
            TrimAll(longer)
            == if TrimRight(lines[0]) == [] && IsBlank(c) then TrimAll(lines)
               else [[c] + TrimRight(lines[0])] + TrimAll(lines)[1..]
  {
    var longer := [[c] + lines[0]] + lines[1..];
    assert longer[1..] == lines[1..];
    TrimRightCons(c, lines[0]);
    hide TrimRight;
    assert TrimAll(longer) == [TrimRight([c] + lines[0])] + TrimAll(lines[1..]);
  }

  lemma NormalizeByte(c: byte, u: Text)
    requires c != NEWLINE
    ensures Normalize([c] + u) == if IsBlank(c) && TrailsOff(u) then Normalize(u) else [c] + Normalize(u)
  {
    hide TrailsOff, TrimRight;
    var t := [c] + u;
    var rest := Split(u);
    assert t[1..] == u;
    assert Split(t) == [[c] + rest[0]] + rest[1..];
    FirstLineTrailsOff(u);
    TrimAllCons(c, rest);
    JoinCons(c, TrimAll(rest));
  }

  lemma JoinCons(c: byte, lines: seq<Text>)
    requires lines != []
    ensures Join([[c] + lines[0]] + lines[1..]) == [c] + Join(lines)
  {
    assert ([[c] + lines[0]] + lines[1..])[1..] == lines[1..];
  }

  /** Normalizing the lines is the same as dropping the trailing blanks one by one. */
  lemma {:induction false} NormalizeKeeps(t: Text)
    ensures Normalize(t) == Kept(t)
  {
    if t != [] {
      hide Normalize;
      NormalizeKeeps(t[1..]);
      assert t == [t[0]] + t[1..];
      if t[0] == NEWLINE {
        NormalizeNewline(t[1..]);
      } else {
        NormalizeByte(t[0], t[1..]);
      }
    }
  }

  lemma {:induction false} KeptShorter(t: Text)
    ensures |Kept(t)| <= |t|
    ensures TrailsOff(t) ==> Kept(t) == [] || Kept(t)[0] == NEWLINE
  {
    if t != [] {
      KeptShorter(t[1..]);
      assert t[0 + 1..] == t[1..];
    }
  }

  lemma SameHead(c: byte, x: Text, y: Text)
    ensures [c] + x == [c] + y <==> x == y
  {
    assert ([c] + x)[1..] == x && ([c] + y)[1..] == y;
  }

  /** The kept text and the text agree on their first `end` bytes exactly when none of them is dropped. */
  lemma {:induction false} KeptPrefixIff(t: Text, end: nat)
    requires end <= |Kept(t)| <= |t|
    ensures Kept(t)[..end] == t[..end] <==> forall i :: 0 <= i < end ==> !Dropped(t, i)
  {
    if end > 0 {
      KeptShorter(t[1..]);
      assert t[0 + 1..] == t[1..];
      if Dropped(t, 0) {
        assert Kept(t)[..end][0] == NEWLINE != t[..end][0];
      } else {
        KeptPrefixIff(t[1..], end - 1);
        assert Kept(t)[..end] == [t[0]] + Kept(t[1..])[..end - 1];
        assert t[..end] == [t[0]] + t[1..][..end - 1];
        forall i | 1 <= i < end ensures Dropped(t, i) <==> Dropped(t[1..], i - 1) {
          assert t[i + 1..] == t[1..][i - 1 + 1..];
        }
        assert forall i :: 0 <= i < end - 1 ==> (Dropped(t[1..], i) <==> Dropped(t, i + 1));
        SameHead(t[0], Kept(t[1..])[..end - 1], t[1..][..end - 1]);
      }
    }
  }

  /** Normalizing twice changes nothing more. */
  lemma NormalizeIdempotent(t: Text)
    ensures Normalize(Normalize(t)) == Normalize(t)
  {
    var trimmed := TrimAll(Split(t));
    SplitJoin(trimmed);
    forall k | 0 <= k < |trimmed| ensures TrimRight(trimmed[k]) == trimmed[k] {
    }
    assert TrimAll(trimmed) == trimmed;
  }

  /** At the end of a line spaces, tabs and carriage returns are dropped, and nothing else is. */
  lemma {:induction false} LineEnd(line: Text, c: byte)
    requires IsLine(line) && c != NEWLINE
    ensures Normalize(line + [c]) == if c == 32 || c == 9 || c == 13 then Normalize(line) else line + [c]
  {
    var t := line + [c];
    OneLine(line);
    OneLine(t);
    assert Last(t) == c && Init(t) == line;
  }

  lemma OneLine(line: Text)
    requires IsLine(line)
    ensures Normalize(line) == TrimRight(line)
  {
    hide TrimRight;
    SplitJoin([line]);
    assert [line][1..] == [];
  }

  // ----- Blank edges

  /** The length of the white-space character that the text starts with, in UTF-8; 0 if none. */
  function SpaceWidth(s: Text): (w: nat)
    ensures w <= |s|
  {
    if |s| >= 1 && (9 <= s[0] <= 13 || s[0] == 32) then 1
    else if |s| >= 2 && s[0] == 0xC2 && (s[1] == 0x85 || s[1] == 0xA0) then 2
    else if |s| >= 3 && s[0] == 0xE1 && s[1] == 0x9A && s[2] == 0x80 then 3
    else if |s| >= 3 && s[0] == 0xE2 && s[1] == 0x80
         && (0x80 <= s[2] <= 0x8A || s[2] == 0xA8 || s[2] == 0xA9 || s[2] == 0xAF) then 3
    else if |s| >= 3 && s[0] == 0xE2 && s[1] == 0x81 && s[2] == 0x9F then 3
    else if |s| >= 3 && s[0] == 0xE3 && s[1] == 0x80 && s[2] == 0x80 then 3
    else 0
  }

  /** The white-space characters of Unicode, as the standard library lists them. */
  predicate IsSpaceRune(r: nat) {
    || 9 <= r <= 13 || r == 0x20 || r == 0x85 || r == 0xA0 || r == 0x1680 || 0x2000 <= r <= 0x200A
    || r == 0x2028 || r == 0x2029 || r == 0x202F || r == 0x205F || r == 0x3000
  }

  /** A character of up to 16 bits in UTF-8. */
  function Utf8(r: nat): Text
    requires r < 0x1_0000
  {
    if r < 0x80 then [r as byte]
    else if r < 0x800 then [(0xC0 + r / 64) as byte, (0x80 + r % 64) as byte]
    else [(0xE0 + r / 4096) as byte, (0x80 + r / 64 % 64) as byte, (0x80 + r % 64) as byte]
  }

  /** A text starts with white space exactly when its first character is a white-space character. */
  lemma SpaceWidthIs(r: nat, rest: Text)
    requires r < 0x1_0000
    ensures SpaceWidth(Utf8(r) + rest) == if IsSpaceRune(r) then |Utf8(r)| else 0
  {
    var s := Utf8(r) + rest;
    assert forall k :: 0 <= k < |Utf8(r)| ==> s[k] == Utf8(r)[k];
    if r < 0x80 {
    } else if r < 0x800 {
      var h, l := r / 64, r % 64;
      assert r == 64 * h + l;
    } else {
      var h, m, l := r / 4096, r / 64 % 64, r % 64;
      assert r == 4096 * h + 64 * m + l;
    }
  }

  /** Trimming white space leaves nothing. */
  predicate AllSpace(s: Text)
    decreases |s|
  {
    s == [] || (SpaceWidth(s) > 0 && AllSpace(s[SpaceWidth(s)..]))
  }

  /** Only white space before lo and from hi on, and none of it at the ends of what lies between. */
  ghost predicate IsCore(lines: seq<Text>, lo: nat, hi: nat) {
    && lo <= hi <= |lines|
    && (forall k :: 0 <= k < lo ==> AllSpace(lines[k]))
    && (forall k :: hi <= k < |lines| ==> AllSpace(lines[k]))
    && (lo < hi ==> !AllSpace(lines[lo]) && !AllSpace(lines[hi - 1]))
  }

  function Core(lines: seq<Text>): (core: seq<Text>)
    decreases |lines|
  {
    if lines == [] then []
    else if AllSpace(lines[0]) then Core(lines[1..])
    else if AllSpace(lines[|lines| - 1]) then Core(lines[..|lines| - 1])
    else lines
  }

  lemma CoreIsCore(lines: seq<Text>) returns (lo: nat, hi: nat)
    ensures IsCore(lines, lo, hi) && Core(lines) == lines[lo..hi]
    decreases |lines|
  {
    hide AllSpace;
    if lines == [] {
      lo, hi := 0, 0;
    } else if AllSpace(lines[0]) {
      lo, hi := CoreIsCore(lines[1..]);
      assert forall k :: 1 <= k < |lines| ==> lines[k] == lines[1..][k - 1];
      lo, hi := lo + 1, hi + 1;
    } else if AllSpace(lines[|lines| - 1]) {
      lo, hi := CoreIsCore(lines[..|lines| - 1]);
    } else {
      lo, hi := 0, |lines|;
    }
  }

  function StripBlank(t: Text): Text {
    Join(Core(Split(t)))
  }

  method StripBlankEdges(text: Text) returns (r: Text)
    ensures r == StripBlank(text)
  {
    var lines := Split(text);
    var start, end := 0, |lines| - 1;
    assert lines[0..] == lines;
    while start <= end && AllSpace(lines[start])
      invariant 0 <= start <= end + 1 == |lines|
      invariant Core(lines[start..]) == Core(lines)
    {
      assert lines[start..][1..] == lines[start + 1..];
      start := start + 1;
    }
    assert lines[start..end + 1] == lines[start..];
    while end >= start && AllSpace(lines[end])
      invariant 0 <= start <= end + 1 <= |lines|
      invariant start <= end ==> !AllSpace(lines[start])
      invariant Core(lines[start..end + 1]) == Core(lines)
    {
      ghost var block := lines[start..end + 1];
      assert block[..|block| - 1] == lines[start..end];
      end := end - 1;
    }
    if start > end {
      return [];
    }
    return Join(lines[start..end + 1]);
  }

  /** Any two cores of the same lines are the same block of text. */
  lemma CoreUnique(lines: seq<Text>, lo: nat, hi: nat)
    requires IsCore(lines, lo, hi)
    ensures Core(lines) == lines[lo..hi]
  {
    hide AllSpace, Core;
    var lo', hi' := CoreIsCore(lines);
    if lo < hi {
      assert lo' <= lo && hi <= hi';
      assert lo <= lo' && hi' <= hi;
    } else {
      assert lo' == hi';
    }
  }
}
