/** The INSERT statements of the relay: their text, and how a batch is cut into them. */
module Batches {
  import opened Common

  datatype Job = Job(session: string, sequence: int, content: string)

  datatype Arg = Text(text: string) | Number(number: int)

  /** One statement handed to the database: a query text and its arguments. */
  datatype Exec = Exec(query: string, args: seq<Arg>)

  const MAX_ROWS := 50

  // ----- The query text

  function Digit(d: nat): (c: char)
    requires d < 10
  {
    '0' + d as char
  }

  function Decimal(n: nat): string {
    if n < 10 then [Digit(n)] else Decimal(n / 10) + [Digit(n % 10)]
  }

  const HEAD := "INSERT INTO session_outputs " + "(id, session_id, sequence, " + "content, created_at) VALUES "
  const TAIL := " ON CONFLICT DO NOTHING"

  function RowText(i: nat): string {
    "(gen_random_uuid(), $" + Decimal(3 * i + 1) + ", $" + Decimal(3 * i + 2) + ", $" + Decimal(3 * i + 3) + ", NOW())"
  }

  function RowsText(size: nat): string {
    if size == 0 then ""
    else RowsText(size - 1) + (if size > 1 then ", " else "") + RowText(size - 1)
  }

  lemma Regroup(a: string, b: string, c: string, d: string)
    ensures a + b + c + d == a + (b + c + d)
  {
  }

  method BuildBatchQuery(size: nat) returns (query: string)
    ensures query == HEAD + RowsText(size) + TAIL
  {
    hide Decimal;
    query := HEAD;
    var i := 0;
    while i < size
      invariant i <= size && query == HEAD + RowsText(i)
    {
      ghost var sep := if i > 0 then ", " else "";
      if i > 0 {
        query := query + ", ";
      }
      var base := i * 3;
      var row := "(gen_random_uuid(), $" + Decimal(base + 1) + ", $" + Decimal(base + 2) + ", $" + Decimal(base + 3) + ", NOW())";
      assert query == HEAD + RowsText(i) + sep;
      Regroup(HEAD, RowsText(i), sep, row);
      query := query + row;
      i := i + 1;
    }
    query := query + TAIL;
  }

  // ----- Reading the placeholders back

  predicate IsDigit(c: char) {
    '0' <= c <= '9'
  }

  function DigitRun(s: string): (n: nat)
    ensures n <= |s|
  {
    if s == "" || !IsDigit(s[0]) then 0 else 1 + DigitRun(s[1..])
  }

  function Value(s: string): nat {
    if s == "" then 0
    else 10 * Value(s[..|s| - 1]) + if IsDigit(s[|s| - 1]) then (s[|s| - 1] - '0') as nat else 0
  }

  /** The numbers of the $-placeholders of a query, from left to right. */
  function Placeholders(s: string): seq<nat>
    decreases |s|
  {
    if s == "" then []
    else if s[0] == '$' then
      var k := DigitRun(s[1..]);
      [Value(s[1..1 + k])] + Placeholders(s[1 + k..])
    else Placeholders(s[1..])
  }

  predicate AllDigits(s: string) {
    forall k :: 0 <= k < |s| ==> IsDigit(s[k])
  }

  lemma {:induction false} DecimalReadsBack(n: nat)
    ensures AllDigits(Decimal(n)) && Value(Decimal(n)) == n
  {
    if n < 10 {
      assert Decimal(n)[..0] == "";
    } else {
      DecimalReadsBack(n / 10);
      assert Decimal(n)[..|Decimal(n)| - 1] == Decimal(n / 10);
    }
  }

  lemma {:induction false} RunStops(d: string, t: string)
    requires AllDigits(d) && (t == "" || !IsDigit(t[0]))
    ensures DigitRun(d + t) == |d|
  {
    if d == "" {
      assert d + t == t;
    } else {
      assert (d + t)[1..] == d[1..] + t;
      RunStops(d[1..], t);
    }
  }

  lemma {:induction false} SkipPlain(s: string, t: string)
    requires '$' !in s
    ensures Placeholders(s + t) == Placeholders(t)
  {
    if s == "" {
      assert s + t == t;
    } else {
      assert (s + t)[1..] == s[1..] + t;
      SkipPlain(s[1..], t);
    }
  }

  lemma ReadOne(n: nat, t: string)
    requires t == "" || !IsDigit(t[0])
    ensures Placeholders("$" + Decimal(n) + t) == [n] + Placeholders(t)
  {
    hide Decimal, Value, DigitRun;
    DecimalReadsBack(n);
    RunStops(Decimal(n), t);
    var s := "$" + Decimal(n) + t;
    assert s[1..] == Decimal(n) + t;
    assert s[1..1 + |Decimal(n)|] == Decimal(n);
    assert s[1 + |Decimal(n)|..] == t;
  }

  lemma ReadRow(i: nat, t: string)
    ensures Placeholders(RowText(i) + t) == [3 * i + 1, 3 * i + 2, 3 * i + 3] + Placeholders(t)
  {
    hide Placeholders, Decimal;
    var t3 := ", NOW())" + t;
    var t2 := "$" + Decimal(3 * i + 3) + t3;
    var t1 := "$" + Decimal(3 * i + 2) + (", " + t2);
    var t0 := "$" + Decimal(3 * i + 1) + (", " + t1);
    assert RowText(i) + t == "(gen_random_uuid(), " + t0;
    SkipPlain("(gen_random_uuid(), ", t0);
    ReadOne(3 * i + 1, ", " + t1);
    SkipPlain(", ", t1);
    ReadOne(3 * i + 2, ", " + t2);
    SkipPlain(", ", t2);
    ReadOne(3 * i + 3, t3);
    SkipPlain(", NOW())", t);
  }

  function UpTo(n: nat): (r: seq<nat>)
    ensures |r| == n && forall k :: 0 <= k < n ==> r[k] == k + 1
  {
    seq(n, k => k + 1)
  }

  lemma {:induction false} ReadRows(size: nat, t: string)
    ensures Placeholders(RowsText(size) + t) == UpTo(3 * size) + Placeholders(t)
  {
    hide Placeholders, RowText;
    if size == 0 {
      assert RowsText(0) + t == t;
    } else {
      var sep := if size > 1 then ", " else "";
      assert RowsText(size) + t == RowsText(size - 1) + (sep + (RowText(size - 1) + t));
      ReadRows(size - 1, sep + (RowText(size - 1) + t));
      SkipPlain(sep, RowText(size - 1) + t);
      ReadRow(size - 1, t);
      assert UpTo(3 * size) == UpTo(3 * size - 3) + [3 * size - 2, 3 * size - 1, 3 * size];
    }
  }

  /** The query for some rows names the placeholders 1 to 3 * size, each once and in order. */
  lemma QueryPlaceholders(size: nat)
    ensures Placeholders(HEAD + RowsText(size) + TAIL) == UpTo(3 * size)
  {
    hide Placeholders, RowsText;
    assert HEAD + RowsText(size) + TAIL == HEAD + (RowsText(size) + TAIL);
    HeadIsPlain();
    SkipPlain(HEAD, RowsText(size) + TAIL);
    ReadRows(size, TAIL);
    assert TAIL + "" == TAIL;
    SkipPlain(TAIL, "");
    NoPlaceholders();
  }

  lemma HeadIsPlain()
    ensures '$' !in HEAD
  {
    assert '$' !in "INSERT INTO session_outputs " && '$' !in "(id, session_id, sequence, ";
    assert '$' !in "content, created_at) VALUES ";
  }

  lemma NoPlaceholders()
    ensures Placeholders("") == []
  {
  }

  lemma DecimalDigit(n: nat)
    requires n < 10
    ensures |Decimal(n)| == 1 && Decimal(n)[0] == '0' + n as char
  {
  }

  lemma DigitText(n: nat, c: string)
    requires n < 10 && |c| == 1 && c[0] == '0' + n as char
    ensures Decimal(n) == c
  {
    DecimalDigit(n);
  }

  /** What the first row and the second look like: the three values stand behind the generated id and
      before the time. */
  lemma RowLooks()
    ensures RowText(0) == "(gen_random_uuid(), $" + "1" + ", $" + "2" + ", $" + "3" + ", NOW())"
    ensures RowText(1) == "(gen_random_uuid(), $" + "4" + ", $" + "5" + ", $" + "6" + ", NOW())"
  {
    hide Decimal;
    DigitText(1, "1");
    DigitText(2, "2");
    DigitText(3, "3");
    DigitText(4, "4");
    DigitText(5, "5");
    DigitText(6, "6");
  }

  /** The rows stand one after another, with a comma between two and none at either end. */
  lemma RowsApart(n: nat)
    ensures RowsText(0) == "" && RowsText(1) == RowText(0)
    ensures n > 0 ==> RowsText(n + 1) == RowsText(n) + ", " + RowText(n)
  {
    hide RowText;
    assert RowsText(1) == RowsText(0) + "" + RowText(0);
  }

  // ----- Cutting a batch into statements

  function Args(jobs: seq<Job>): (r: seq<Arg>)
    ensures |r| == 3 * |jobs|
  {
    if jobs == [] then []
    else
      var last := jobs[|jobs| - 1];
      Args(jobs[..|jobs| - 1]) + [Text(last.session), Number(last.sequence), Text(last.content)]
  }

  function Statement(jobs: seq<Job>): Exec {
    Exec(HEAD + RowsText(|jobs|) + TAIL, Args(jobs))
  }

  function Chunks(batch: seq<Job>): (r: seq<seq<Job>>)
    ensures forall k :: 0 <= k < |r| ==> 1 <= |r[k]| <= MAX_ROWS
  {
    if batch == [] then []
    else if |batch| <= MAX_ROWS then [batch]
    else [batch[..MAX_ROWS]] + Chunks(batch[MAX_ROWS..])
  }

  /** The statements hold every job of the batch once, in order. */
  lemma {:induction false} ChunksKeepAll(batch: seq<Job>)
    ensures Concat(Chunks(batch)) == batch
  {
    if |batch| > MAX_ROWS {
      var first := [batch[..MAX_ROWS]];
      ChunksKeepAll(batch[MAX_ROWS..]);
      ConcatAdd(first, Chunks(batch[MAX_ROWS..]));
      assert Concat(first) == batch[..MAX_ROWS] by { assert first[..0] == []; }
    } else if batch != [] {
      assert [batch][..0] == [];
    }
  }

  function Statements(chunks: seq<seq<Job>>): (r: seq<Exec>)
    ensures |r| == |chunks|
    ensures forall k :: 0 <= k < |chunks| ==> r[k] == Statement(chunks[k])
  {
    seq(|chunks|, k requires 0 <= k < |chunks| => Statement(chunks[k]))
  }

  predicate Prepared(queries: seq<string>) {
    |queries| == MAX_ROWS + 1 && forall n :: 1 <= n <= MAX_ROWS ==> queries[n] == HEAD + RowsText(n) + TAIL
  }

  method PrepareQueries() returns (queries: seq<string>)
    ensures Prepared(queries)
  {
    hide RowsText;
    queries := seq(MAX_ROWS + 1, k => "");
    var i := 1;
    while i <= 50
      invariant 1 <= i <= 51 && |queries| == MAX_ROWS + 1
      invariant forall n :: 1 <= n < i ==> queries[n] == HEAD + RowsText(n) + TAIL
    {
      var query := BuildBatchQuery(i);
      queries := queries[i := query];
      i := i + 1;
    }
  }

  method FlushBatch(batch: seq<Job>, queries: seq<string>) returns (execs: seq<Exec>)
    requires Prepared(queries)
    ensures execs == Statements(Chunks(batch))
    decreases |batch|
  {
    hide RowsText;
    if |batch| == 0 {
      return [];
    }
    var size := |batch|;
    if size > 50 {
      size := 50;
    }
    var query := queries[size];
    var args: seq<Arg> := [];
    var i := 0;
    while i < size
      invariant i <= size && args == Args(batch[..i])
    {
      args := args + [Text(batch[i].session), Number(batch[i].sequence), Text(batch[i].content)];
      assert batch[..i + 1][..i] == batch[..i];
      i := i + 1;
    }
    execs := [Exec(query, args)];
    if |batch| > 50 {
      var rest := FlushBatch(batch[50..], queries);
      execs := execs + rest;
    } else {
      assert batch[..size] == batch;
    }
  }

  lemma {:induction false} ArgsAt(jobs: seq<Job>, i: nat)
    requires i < |jobs|
    ensures Args(jobs)[3 * i] == Text(jobs[i].session)
    ensures Args(jobs)[3 * i + 1] == Number(jobs[i].sequence)
    ensures Args(jobs)[3 * i + 2] == Text(jobs[i].content)
  {
    if i < |jobs| - 1 {
      ArgsAt(jobs[..|jobs| - 1], i);
    }
  }

  datatype Bound = To(arg: Arg) | Nothing

  /** The argument that the k-th placeholder of a query, from the left, takes: $1 is the first. */
  function Binding(exec: Exec, k: nat): Bound {
    var names := Placeholders(exec.query);
    if k < |names| && 1 <= names[k] <= |exec.args| then To(exec.args[names[k] - 1]) else Nothing
  }

  /** The i-th row of a statement takes the session, the sequence number and the content of the i-th
      job, and the statement has as many arguments as placeholders. */
  lemma RowBinds(jobs: seq<Job>, i: nat)
    requires i < |jobs|
    ensures |Placeholders(Statement(jobs).query)| == |Statement(jobs).args| == 3 * |jobs|
    ensures Binding(Statement(jobs), 3 * i) == To(Text(jobs[i].session))
    ensures Binding(Statement(jobs), 3 * i + 1) == To(Number(jobs[i].sequence))
    ensures Binding(Statement(jobs), 3 * i + 2) == To(Text(jobs[i].content))
  {
    hide Placeholders, RowsText, Args;
    QueryPlaceholders(|jobs|);
    ArgsAt(jobs, i);
  }
}
