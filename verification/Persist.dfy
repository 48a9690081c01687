/** The sharded persist pipeline of the relay: jobs enter one of several bounded channels, and one
    worker a channel gathers them into batches and hands the batches to the database. */
module Persist {
  import opened Common
  import opened Batches

  const CHANNEL_SIZE := 1024

  // ----- One worker

  /** What a worker's select yields: a job, a tick, the stop signal, or, while draining, no job. */
  datatype Outcome = GotJob(job: Job) | Ticked | Stopped | NoJob

  datatype Worker = Worker(batch: seq<Job>, handed: seq<seq<Job>>, draining: bool, finished: bool)

  const FRESH := Worker([], [], false, false)

  predicate CanSelect(w: Worker, o: Outcome) {
    !w.finished && if w.draining then o.GotJob? || o.NoJob? else !o.NoJob?
  }

  function Flushed(w: Worker): Worker {
    w.(batch := [], handed := w.handed + Chunks(w.batch))
  }

  function Work(w: Worker, o: Outcome): Worker {
    match o
    case GotJob(job) =>
      var more := w.(batch := w.batch + [job]);
      if !w.draining && |more.batch| >= MAX_ROWS then Flushed(more) else more
    case Ticked => Flushed(w)
    case Stopped => w.(draining := true)
    case NoJob => Flushed(w).(finished := true)
  }

  function WorkAll(outcomes: seq<Outcome>): Worker {
    if outcomes == [] then FRESH else Work(WorkAll(outcomes[..|outcomes| - 1]), outcomes[|outcomes| - 1])
  }

  ghost predicate Feasible(outcomes: seq<Outcome>) {
    forall k :: 0 <= k < |outcomes| ==> CanSelect(WorkAll(outcomes[..k]), outcomes[k])
  }

  lemma StatementsAdd(x: seq<seq<Job>>, y: seq<seq<Job>>)
    ensures Statements(x + y) == Statements(x) + Statements(y)
  {
  }

  lemma OneMore(outcomes: seq<Outcome>, i: nat)
    requires i < |outcomes|
    ensures WorkAll(outcomes[..i + 1]) == Work(WorkAll(outcomes[..i]), outcomes[i])
  {
    assert outcomes[..i + 1][..i] == outcomes[..i];
  }

  lemma Whole<T>(s: seq<T>)
    ensures s[..|s|] == s
  {
  }

  /** The worker goroutine, run on what its selects yield. Its batch becomes statements as they fill. */
  method PersistWorker(outcomes: seq<Outcome>, queries: seq<string>) returns (execs: seq<Exec>, batch: seq<Job>)
    requires Prepared(queries) && Feasible(outcomes)
    ensures execs == Statements(WorkAll(outcomes).handed) && batch == WorkAll(outcomes).batch
  {
    hide Prepared, Statements, Chunks, WorkAll, Feasible;
    execs, batch := [], [];
    NoStatements();
    var i := 0;
    ghost var w := FRESH;
    while i < |outcomes|
      invariant i <= |outcomes| && w == WorkAll(outcomes[..i])
      invariant execs == Statements(w.handed) && batch == w.batch
      invariant !w.draining && !w.finished
    {
      SelectAt(outcomes, i);
      OneMore(outcomes, i);
      match outcomes[i] {
        case GotJob(job) =>
          batch := batch + [job];
          StatementsAdd(w.handed, Chunks(batch));
          if |batch| >= 50 {
            var more := FlushBatch(batch, queries);
            execs, batch := execs + more, [];
          }
        case Ticked =>
          StatementsAdd(w.handed, Chunks(batch));
          if |batch| > 0 {
            var more := FlushBatch(batch, queries);
            execs, batch := execs + more, [];
          }
        case Stopped =>
          w, i := Work(w, outcomes[i]), i + 1;
          while i < |outcomes|
            invariant 0 < i <= |outcomes| && w == WorkAll(outcomes[..i])
            invariant execs == Statements(w.handed) && batch == w.batch
            invariant w.draining && !w.finished
          {
            SelectAt(outcomes, i);
            OneMore(outcomes, i);
            if outcomes[i].GotJob? {
              batch := batch + [outcomes[i].job];
            } else {
              LastOutcome(outcomes, i);
              StatementsAdd(w.handed, Chunks(batch));
              if |batch| > 0 {
                var more := FlushBatch(batch, queries);
                execs := execs + more;
              }
              return execs, [];
            }
            w, i := Work(w, outcomes[i]), i + 1;
          }
          Whole(outcomes);
          return;
      }
      w, i := Work(w, outcomes[i]), i + 1;
    }
    Whole(outcomes);
  }

  lemma SelectAt(outcomes: seq<Outcome>, i: nat)
    requires Feasible(outcomes) && i < |outcomes|
    ensures CanSelect(WorkAll(outcomes[..i]), outcomes[i])
  {
  }

  lemma NoStatements()
    ensures Statements([]) == [] && Chunks([]) == [] && WorkAll([]) == FRESH
  {
  }

  /** Nothing follows the outcome that ends the drain. */
  lemma LastOutcome(outcomes: seq<Outcome>, i: nat)
    requires Feasible(outcomes) && i < |outcomes| && outcomes[i].NoJob?
    ensures outcomes == outcomes[..i + 1]
  {
    OneMore(outcomes, i);
    if i + 1 < |outcomes| {
      assert false;
    }
  }

  ghost predicate WorkerOk(w: Worker) {
    && (forall k :: 0 <= k < |w.handed| ==> 1 <= |w.handed[k]| <= MAX_ROWS)
    && (!w.draining ==> |w.batch| < MAX_ROWS)
    && (w.finished ==> w.batch == [])
  }

  lemma WorkKeepsOk(w: Worker, o: Outcome)
    requires WorkerOk(w) && CanSelect(w, o)
    ensures WorkerOk(Work(w, o))
  {
    hide Chunks;
  }

  function Taken(w: Worker): seq<Job> {
    Concat(w.handed) + w.batch
  }

  lemma FlushKeepsAll(w: Worker)
    ensures Taken(Flushed(w)) == Taken(w)
  {
    hide Chunks, Concat;
    ConcatAdd(w.handed, Chunks(w.batch));
    ChunksKeepAll(w.batch);
  }

  lemma WorkTakes(w: Worker, o: Outcome)
    ensures Taken(Work(w, o)) == Taken(w) + if o.GotJob? then [o.job] else []
  {
    hide Flushed, Concat;
    match o {
      case GotJob(job) =>
        var more := w.(batch := w.batch + [job]);
        FlushKeepsAll(more);
        assert Taken(more) == Taken(w) + [job];
      case Ticked => FlushKeepsAll(w);
      case Stopped =>
      case NoJob =>
        FlushKeepsAll(w);
        assert Taken(Flushed(w).(finished := true)) == Taken(Flushed(w));
    }
  }

  lemma FlushHandsAll(w: Worker)
    ensures Flushed(w).batch == [] && Concat(Flushed(w).handed) == Concat(w.handed) + w.batch
  {
    hide Chunks, Concat;
    FlushKeepsAll(w);
    assert Concat(Flushed(w).handed) == Taken(Flushed(w));
  }

  /** When the worker hands its batch over: at each tick, when a job makes the batch 50 before the stop
      signal, and when the drain finds no more jobs. Then all it has taken is handed over; otherwise
      nothing is, and a job joins the batch. */
  lemma HandsOverWhen(w: Worker, o: Outcome)
    requires w.draining || |w.batch| < 50
    ensures
      var (after, job) := (Work(w, o), if o.GotJob? then [o.job] else []);
      if o.Ticked? || o.NoJob? || (o.GotJob? && |w.batch| == 49 && !w.draining) then
        after.batch == [] && Concat(after.handed) == Concat(w.handed) + w.batch + job
      else
        after.batch == w.batch + job && after.handed == w.handed
    ensures Work(w, o).draining <==> w.draining || o.Stopped?
    ensures Work(w, o).finished <==> w.finished || o.NoJob?
  {
    hide Concat, Flushed;
    if o.GotJob? {
      var more := w.(batch := w.batch + [o.job]);
      FlushHandsAll(more);
      FlushFlags(more);
    }
    FlushHandsAll(w);
    FlushFlags(w);
  }

  lemma FlushFlags(w: Worker)
    ensures Flushed(w).draining == w.draining && Flushed(w).finished == w.finished
  {
  }

  // ----- The pipeline

  datatype Shard = Shard(channel: seq<Job>, worker: Worker)

  datatype State = State(shards: seq<Shard>, drops: nat)

  datatype Event = Enqueue(job: Job) | Select(i: nat, outcome: Outcome)

  function ShardOf(hash: string -> nat, session: string, n: nat): (i: nat)
    requires n > 0
    ensures i < n
  {
    hash(session) % n
  }

  ghost predicate Next(hash: string -> nat, a: State, e: Event, b: State) {
    match e
    case Enqueue(job) =>
      |a.shards| > 0 &&
      var i := ShardOf(hash, job.session, |a.shards|);
      var shard := a.shards[i];
      if |shard.channel| < CHANNEL_SIZE then
        b == a.(shards := a.shards[i := shard.(channel := shard.channel + [job])])
      else
        b == a.(drops := a.drops + 1)
    case Select(i, o) =>
      i < |a.shards| && CanSelect(a.shards[i].worker, o) &&
      var shard := a.shards[i];
      && (o.GotJob? ==> shard.channel != [] && shard.channel[0] == o.job)
      && (o.NoJob? ==> shard.channel == [])
      && var left := if o.GotJob? then shard.channel[1..] else shard.channel;
      b == a.(shards := a.shards[i := Shard(left, Work(shard.worker, o))])
  }

  predicate Initial(st: State) {
    |st.shards| > 0 && st.drops == 0 && forall i :: 0 <= i < |st.shards| ==> st.shards[i] == Shard([], FRESH)
  }

  ghost predicate IsRun(hash: string -> nat, st: seq<State>, e: seq<Event>) {
    && |st| == |e| + 1 && Initial(st[0])
    && forall k :: 0 <= k < |e| ==> Next(hash, st[k], e[k], st[k + 1])
  }

  /** The job that a step lets into a channel, if any. */
  function Let(a: State, e: Event, b: State): seq<Job> {
    if e.Enqueue? && b.drops == a.drops then [e.job] else []
  }

  ghost function Accepted(st: seq<State>, e: seq<Event>): seq<Job>
    requires |st| == |e| + 1
  {
    if e == [] then []
    else
      var n := |e| - 1;
      Accepted(st[..n + 1], e[..n]) + Let(st[n], e[n], st[n + 1])
  }

  function Offers(e: seq<Event>): nat {
    if e == [] then 0 else Offers(e[..|e| - 1]) + if e[|e| - 1].Enqueue? then 1 else 0
  }

  /** The jobs of one session, in order. */
  function OfSession(jobs: seq<Job>, session: string): seq<Job> {
    if jobs == [] then []
    else
      var last := jobs[|jobs| - 1];
      OfSession(jobs[..|jobs| - 1], session) + if last.session == session then [last] else []
  }

  /** The jobs meant for one of n shards, in order. */
  function ForShard(hash: string -> nat, n: nat, jobs: seq<Job>, i: nat): seq<Job>
    requires n > 0
  {
    if jobs == [] then []
    else
      var last := jobs[|jobs| - 1];
      ForShard(hash, n, jobs[..|jobs| - 1], i) + if ShardOf(hash, last.session, n) == i then [last] else []
  }

  /** Everything a shard has let in: handed to the database, in the worker's batch, or in the channel. */
  function Content(shard: Shard): seq<Job> {
    Taken(shard.worker) + shard.channel
  }

  lemma SelectKeepsContent(shard: Shard, o: Outcome, left: seq<Job>)
    requires o.GotJob? ==> shard.channel != [] && shard.channel[0] == o.job && left == shard.channel[1..]
    requires !o.GotJob? ==> left == shard.channel
    ensures Content(Shard(left, Work(shard.worker, o))) == Content(shard)
  {
    hide Work, Taken;
    WorkTakes(shard.worker, o);
  }

  lemma StepContent(hash: string -> nat, a: State, e: Event, b: State, i: nat)
    requires |a.shards| > 0 && i < |a.shards| && Next(hash, a, e, b)
    ensures |b.shards| == |a.shards|
    ensures Content(b.shards[i]) == Content(a.shards[i]) + ForShard(hash, |a.shards|, Let(a, e, b), i)
  {
    hide Work, Taken, Content, ShardOf;
    match e {
      case Enqueue(job) =>
        assert [job][..0] == [];
        assert Let(a, e, b) == [] || Let(a, e, b) == [job];
        ContentGrows(a.shards[i], job);
        assert Content(a.shards[i]) + [] == Content(a.shards[i]);
      case Select(k, o) =>
        if k == i {
          SelectKeepsContent(a.shards[i], o, b.shards[i].channel);
        }
        assert Content(a.shards[i]) + [] == Content(a.shards[i]);
    }
  }

  lemma ContentGrows(shard: Shard, job: Job)
    ensures Content(shard.(channel := shard.channel + [job])) == Content(shard) + [job]
  {
    hide Taken;
  }

  lemma {:induction false} ForShardAdd(hash: string -> nat, n: nat, x: seq<Job>, y: seq<Job>, i: nat)
    requires n > 0
    ensures ForShard(hash, n, x + y, i) == ForShard(hash, n, x, i) + ForShard(hash, n, y, i)
  {
    if y == [] {
      assert x + y == x;
    } else {
      ForShardAdd(hash, n, x, y[..|y| - 1], i);
      assert (x + y)[..|x + y| - 1] == x + y[..|y| - 1];
    }
  }

  lemma RunPrefix(hash: string -> nat, st: seq<State>, e: seq<Event>, n: nat)
    requires IsRun(hash, st, e) && n <= |e|
    ensures IsRun(hash, st[..n + 1], e[..n])
  {
    hide Next;
  }

  /** Nothing is lost, doubled or reordered in a shard: what it has handed to the database, then its
      batch, then its channel are the accepted jobs of the shard, in the order they were accepted. */
  lemma {:induction false} Conserved(hash: string -> nat, st: seq<State>, e: seq<Event>, i: nat)
    requires IsRun(hash, st, e) && i < |st[0].shards|
    ensures |st[|e|].shards| == |st[0].shards|
    ensures Content(st[|e|].shards[i]) == ForShard(hash, |st[0].shards|, Accepted(st, e), i)
  {
    hide Next, Content, Let, ForShard, Work;
    if e == [] {
      StartsEmpty(hash, st[0], i);
    } else {
      var n := |e| - 1;
      RunPrefix(hash, st, e, n);
      Conserved(hash, st[..n + 1], e[..n], i);
      StepContent(hash, st[n], e[n], st[n + 1], i);
      ForShardAdd(hash, |st[0].shards|, Accepted(st[..n + 1], e[..n]), Let(st[n], e[n], st[n + 1]), i);
    }
  }

  lemma StartsEmpty(hash: string -> nat, st: State, i: nat)
    requires Initial(st) && i < |st.shards|
    ensures Content(st.shards[i]) == ForShard(hash, |st.shards|, [], i)
  {
  }

  /** Every job offered was accepted or counted as dropped. */
  lemma {:induction false} DropsCounted(hash: string -> nat, st: seq<State>, e: seq<Event>)
    requires IsRun(hash, st, e)
    ensures |Accepted(st, e)| + st[|e|].drops == Offers(e)
  {
    if e != [] {
      var n := |e| - 1;
      RunPrefix(hash, st, e, n);
      DropsCounted(hash, st[..n + 1], e[..n]);
      DropStep(hash, st[n], e[n], st[n + 1]);
    }
  }

  lemma DropStep(hash: string -> nat, a: State, e: Event, b: State)
    requires Next(hash, a, e, b)
    ensures |Let(a, e, b)| + b.drops == a.drops + if e.Enqueue? then 1 else 0
  {
    hide Work;
  }

  lemma {:induction false} SessionOfShard(hash: string -> nat, n: nat, jobs: seq<Job>, i: nat, session: string)
    requires n > 0
    ensures OfSession(ForShard(hash, n, jobs, i), session)
            == if ShardOf(hash, session, n) == i then OfSession(jobs, session) else []
  {
    hide ShardOf;
    if jobs != [] {
      var front, last := jobs[..|jobs| - 1], jobs[|jobs| - 1];
      SessionOfShard(hash, n, front, i, session);
      var kept := ForShard(hash, n, front, i);
      if ShardOf(hash, last.session, n) == i {
        assert ForShard(hash, n, jobs, i) == kept + [last];
        OfSessionPush(kept, last, session);
      } else {
        assert ForShard(hash, n, jobs, i) == kept;
      }
    }
  }

  lemma OfSessionPush(jobs: seq<Job>, job: Job, session: string)
    ensures OfSession(jobs + [job], session) == OfSession(jobs, session) + if job.session == session then [job] else []
  {
    assert (jobs + [job])[..|jobs|] == jobs;
  }

  lemma {:induction false} OfSessionPrefix(x: seq<Job>, y: seq<Job>, session: string)
    ensures OfSession(x, session) <= OfSession(x + y, session)
  {
    if y == [] {
      assert x + y == x;
    } else {
      OfSessionPrefix(x, y[..|y| - 1], session);
      assert (x + y)[..|x + y| - 1] == x + y[..|y| - 1];
    }
  }

  /** The jobs of a session reach the database in the order they were accepted, and through one shard. */
  lemma SessionOrder(hash: string -> nat, st: seq<State>, e: seq<Event>, i: nat, session: string)
    requires IsRun(hash, st, e) && i < |st[0].shards|
    ensures |st[|e|].shards| == |st[0].shards|
    ensures
      var handed := OfSession(Concat(st[|e|].shards[i].worker.handed), session);
      if ShardOf(hash, session, |st[0].shards|) == i then handed <= OfSession(Accepted(st, e), session) else handed == []
  {
    hide Next, ForShard, ShardOf, OfSession, Concat;
    Conserved(hash, st, e, i);
    var shard := st[|e|].shards[i];
    SessionOfShard(hash, |st[0].shards|, Accepted(st, e), i, session);
    OfSessionPrefix(Concat(shard.worker.handed), shard.worker.batch + shard.channel, session);
    assert Content(shard) == Concat(shard.worker.handed) + (shard.worker.batch + shard.channel);
  }

  /** What the selects of one worker yielded over a run. */
  function OutcomesOf(e: seq<Event>, i: nat): seq<Outcome> {
    if e == [] then []
    else
      var last := e[|e| - 1];
      OutcomesOf(e[..|e| - 1], i) + if last.Select? && last.i == i then [last.outcome] else []
  }

  lemma FeasibleMore(outcomes: seq<Outcome>, o: Outcome)
    requires Feasible(outcomes) && CanSelect(WorkAll(outcomes), o)
    ensures Feasible(outcomes + [o]) && WorkAll(outcomes + [o]) == Work(WorkAll(outcomes), o)
  {
    hide WorkAll, CanSelect, Work;
    var more := outcomes + [o];
    assert more[..|outcomes|] == outcomes && more[..|more|] == more;
    OneMore(more, |outcomes|);
    forall k | 0 <= k < |more| ensures CanSelect(WorkAll(more[..k]), more[k]) {
      assert k < |outcomes| ==> more[..k] == outcomes[..k];
    }
  }

  /** In any run, each shard's worker is where PersistWorker gets on what its selects yielded. */
  lemma {:induction false} WorkersRun(hash: string -> nat, st: seq<State>, e: seq<Event>, i: nat)
    requires IsRun(hash, st, e) && i < |st[0].shards|
    ensures Feasible(OutcomesOf(e, i)) && i < |st[|e|].shards|
    ensures st[|e|].shards[i].worker == WorkAll(OutcomesOf(e, i))
  {
    hide Work, Feasible, WorkAll, CanSelect;
    if e == [] {
      NoOutcomes();
    } else {
      var n := |e| - 1;
      RunPrefix(hash, st, e, n);
      WorkersRun(hash, st[..n + 1], e[..n], i);
      assert Next(hash, st[n], e[n], st[n + 1]);
      if e[n].Select? && e[n].i == i {
        FeasibleMore(OutcomesOf(e[..n], i), e[n].outcome);
      } else {
        assert OutcomesOf(e, i) == OutcomesOf(e[..n], i);
      }
    }
  }

  lemma NoOutcomes()
    ensures Feasible([]) && WorkAll([]) == FRESH
  {
  }

  // ----- Bounds

  ghost predicate ShardOk(shard: Shard) {
    |shard.channel| <= CHANNEL_SIZE && WorkerOk(shard.worker)
  }

  lemma StepKeepsOk(hash: string -> nat, a: State, e: Event, b: State, i: nat)
    requires i < |a.shards| && Next(hash, a, e, b) && ShardOk(a.shards[i])
    ensures i < |b.shards| && ShardOk(b.shards[i])
  {
    hide Work, WorkerOk;
    if e.Select? && e.i == i {
      WorkKeepsOk(a.shards[i].worker, e.outcome);
    }
  }

  /** Over a whole run, channels hold at most 1024 jobs, INSERTs have 1 to 50 rows, and a batch stays
      below 50 until the stop signal. */
  lemma {:induction false} RunOk(hash: string -> nat, st: seq<State>, e: seq<Event>, k: nat, i: nat)
    requires IsRun(hash, st, e) && k <= |e| && i < |st[0].shards|
    ensures i < |st[k].shards| && ShardOk(st[k].shards[i])
    ensures |st[k].shards[i].channel| <= 1024
    ensures forall n :: 0 <= n < |st[k].shards[i].worker.handed| ==> 1 <= |st[k].shards[i].worker.handed[n]| <= 50
    ensures st[k].shards[i].worker.draining || |st[k].shards[i].worker.batch| < 50
  {
    hide Next, WorkerOk;
    if k == 0 {
      FreshOk();
    } else {
      RunOk(hash, st, e, k - 1, i);
      StepKeepsOk(hash, st[k - 1], e[k - 1], st[k], i);
    }
    WithinLimits(st[k].shards[i].worker);
  }

  lemma WithinLimits(w: Worker)
    requires WorkerOk(w)
    ensures forall n :: 0 <= n < |w.handed| ==> 1 <= |w.handed[n]| <= 50
    ensures w.draining || |w.batch| < 50
  {
  }

  /** A job is refused only when 1024 wait in its channel. */
  lemma AcceptedWhen(hash: string -> nat, a: State, job: Job, b: State)
    requires Next(hash, a, Enqueue(job), b)
    ensures
      var i := hash(job.session) % |a.shards|;
      var waiting := a.shards[i].channel;
      |b.shards| == |a.shards| &&
      if |waiting| < 1024 then b.shards[i].channel == waiting + [job] && b.drops == a.drops
      else b.shards == a.shards && b.drops == a.drops + 1
  {
  }

  lemma FreshOk()
    ensures WorkerOk(FRESH)
  {
  }

  /** A worker that ends its drain leaves nothing behind: all its shard had accepted is in INSERTs. */
  lemma DrainHandsAll(hash: string -> nat, st: seq<State>, e: seq<Event>, i: nat)
    requires IsRun(hash, st, e) && e != [] && e[|e| - 1] == Select(i, NoJob) && i < |st[0].shards|
    ensures |st[|e|].shards| == |st[0].shards|
    ensures Concat(st[|e|].shards[i].worker.handed) == ForShard(hash, |st[0].shards|, Accepted(st, e), i)
  {
    hide Concat, ForShard, Chunks;
    Conserved(hash, st, e, i);
    var shard := st[|e|].shards[i];
    assert Next(hash, st[|e| - 1], e[|e| - 1], st[|e|]);
    assert Content(shard) == Concat(shard.worker.handed);
  }
}
