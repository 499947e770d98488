/** Whole runs of the page pipeline: safety, absence of deadlock, termination. */
module PipelineRuns {
  import opened PipelineSystem
  import opened PipelineInvariant

  // ---------- safety ----------

  /** In every run the output is the texts of the first pages in page order, each once; pages whose
      extraction raised are there as empty texts. */
  lemma WrittenInOrder(c: Config, run: seq<Action>)
    requires IsRun(c, Init(c), run)
    ensures var s := After(c, Init(c), run);
            && s.nextPage <= |c.pages| && |s.written| == s.nextPage && s.written == Texts(c, s.nextPage)
            && forall i :: 0 <= i < |s.written| ==> WrittenFor(c.pages[i], s.written[i])
  {
    InitInv(c);
    RunKeepsInv(c, Init(c), run);
  }

  /** An extracted page is written as its own text, one whose extraction raised as nothing. */
  predicate WrittenFor(page: Extraction, text: string) {
    match page
    case Extracted(t) => text == t
    case Raised => text == ""
  }

  /** When the reducer has taken the final None nothing is left in the spool and every page of the
      dump has been written. */
  lemma FinishedMeansAllWritten(c: Config, run: seq<Action>)
    requires IsRun(c, Init(c), run)
    ensures var s := After(c, Init(c), run);
            s.reducer.Finished? || s.mapper.Done? ==> s.written == Texts(c, |c.pages|) && s.spool == map[]
  {
    InitInv(c);
    RunKeepsInv(c, Init(c), run);
  }

  // ---------- no deadlock ----------

  /** If nothing is in flight, a spool that is not empty holds the page the reducer waits for. */
  lemma NextPageIsInSpool(c: Config, s: State)
    requires Inv(c, s) && s.jobs == [] && s.outputs == [] && s.spool != map[]
    requires forall i :: 0 <= i < |s.workers| ==> !s.workers[i].Busy?
    ensures s.nextPage in s.spool
  {
    var q :| q in s.spool;
    assert Places(s, q) >= 1;
    assert Places(s, s.nextPage) == 1;
    NobodyWorks(s.workers, s.nextPage);
  }

  lemma {:induction false} NobodyWorks(ws: seq<Worker>, p: nat)
    requires forall i :: 0 <= i < |ws| ==> !ws[i].Busy?
    ensures InWorkers(ws, p) == 0
  {
    if ws != [] {
      NobodyWorks(ws[1..], p);
    }
  }

  /** Some action is enabled in every state with the invariant that is not final. */
  lemma CanStep(c: Config, s: State) returns (a: Action)
    requires Inv(c, s) && !s.mapper.Done?
    ensures Enabled(c, s, a)
  {
    if Enabled(c, s, ReducerStep) {
      return ReducerStep;
    }
    if s.reducer.Finished? {
      return MapperStep;
    }
    assert s.reducer.Loop? && s.outputs == [] && s.nextPage !in s.spool;
    if i :| 0 <= i < |s.workers| && s.workers[i].Busy? {
      return WorkerStep(i);
    }
    if s.jobs != [] && !AllQuit(s.workers) {
      var i :| 0 <= i < |s.workers| && !s.workers[i].Quit?;
      return WorkerStep(i);
    }
    QuitsBound(s.workers, 0);
    StopsOf(s.jobs, 0);
    if s.jobs == [] && s.spool != map[] {
      NextPageIsInSpool(c, s);
      assert false;
    }
    QuitWorkersMeanSignalled(c, s);
    return MapperStep;
  }

  /** All workers have quit only if every sentinel was sent and taken. */
  lemma QuitWorkersMeanSignalled(c: Config, s: State)
    requires Inv(c, s)
    ensures AllQuit(s.workers) ==> s.jobs == [] && Sent(c, s.mapper) == c.WorkerCount()
    ensures s.jobs == [] && Sent(c, s.mapper) == c.WorkerCount() ==> AllQuit(s.workers)
  {
    QuitsBound(s.workers, 0);
    StopsOf(s.jobs, 0);
  }

  /** Every state a run can reach is final or has an enabled action. */
  lemma NeverDeadlocks(c: Config, run: seq<Action>)
    requires IsRun(c, Init(c), run)
    ensures var s := After(c, Init(c), run);
            s.mapper.Done? || exists a :: Enabled(c, s, a)
  {
    InitInv(c);
    RunKeepsInv(c, Init(c), run);
    var s := After(c, Init(c), run);
    if !s.mapper.Done? {
      var a := CanStep(c, s);
    }
  }

  // ---------- termination ----------

  function JobWork(jobs: seq<Job>): nat {
    if jobs == [] then 0 else (if jobs[0].Page? then 6 else 1) + JobWork(jobs[1..])
  }

  function WorkerWork(ws: seq<Worker>): nat {
    if ws == [] then 0 else (if ws[0].Busy? then 5 else 0) + WorkerWork(ws[1..])
  }

  function OutputWork(os: seq<Output>): nat {
    if os == [] then 0 else (if os[0].Pair? then 4 else 1) + OutputWork(os[1..])
  }

  function MapperWork(c: Config, s: State): int {
    var pages := 9 * (|c.pages| - s.pageNum) + 2 * c.WorkerCount() + 6;
    match s.mapper
    case Fetch => pages
    case Throttle => pages - 1
    case PutPage => pages - 2
    case Signal(k) => 2 * (c.WorkerCount() - k) + 5
    case Join => 4
    case PutEnd => 3
    case JoinReduce => 1
    case Done => 0
  }

  /** A bound on the steps still to come. */
  function Work(c: Config, s: State): int {
    MapperWork(c, s) + JobWork(s.jobs) + WorkerWork(s.workers) + OutputWork(s.outputs)
      + 2 * |s.spool| + if s.reducer.Publish? then 1 else 0
  }

  lemma {:induction false} OutputWorkAppend(os: seq<Output>, o: Output)
    ensures OutputWork(os + [o]) == OutputWork(os) + if o.Pair? then 4 else 1
  {
    if os == [] {
      assert (os + [o])[1..] == [];
    } else {
      OutputWorkAppend(os[1..], o);
      assert (os + [o])[1..] == os[1..] + [o];
    }
  }

  lemma {:induction false} WorkUpdate(ws: seq<Worker>, i: nat, w: Worker)
    requires i < |ws|
    ensures WorkerWork(ws[i := w]) + (if ws[i].Busy? then 5 else 0) == WorkerWork(ws) + if w.Busy? then 5 else 0
  {
    if i == 0 {
      assert ws[i := w][1..] == ws[1..];
    } else {
      WorkUpdate(ws[1..], i - 1, w);
      assert ws[i := w][1..] == ws[1..][i - 1 := w];
    }
  }

  lemma MapperUsesWork(c: Config, s: State)
    requires Enabled(c, s, MapperStep) && s.pageNum <= |c.pages|
    requires s.mapper.Signal? ==> s.mapper.sent <= c.WorkerCount()
    ensures Work(c, StepMapper(c, s)) < Work(c, s)
  {
    match s.mapper {
      case PutPage => JobWorkAppend(s.jobs, Page(s.pageNum));
      case Signal(k) => JobWorkAppend(s.jobs, Stop);
      case PutEnd => OutputWorkAppend(s.outputs, End);
      case _ =>
    }
  }

  lemma WorkerUsesWork(c: Config, s: State, i: nat)
    requires Enabled(c, s, WorkerStep(i))
    ensures Work(c, StepWorker(c, s, i)) < Work(c, s)
  {
    hide MapperWork;
    var s' := StepWorker(c, s, i);
    WorkUpdate(s.workers, i, s'.workers[i]);
    assert MapperWork(c, s') == MapperWork(c, s) by { SameMapperWork(c, s, s'); }
    if s.workers[i].Busy? {
      OutputWorkAppend(s.outputs, s'.outputs[|s.outputs|]);
    }
  }

  lemma ReducerUsesWork(c: Config, s: State)
    requires Enabled(c, s, ReducerStep)
    ensures Work(c, StepReducer(s)) < Work(c, s)
  {
    hide MapperWork;
    var s' := StepReducer(s);
    SameMapperWork(c, s, s');
    assert |s'.spool| == |s'.spool.Keys| && |s.spool| == |s.spool.Keys|;
    if s.reducer.Loop? {
      if s.nextPage in s.spool {
        assert s'.spool.Keys == s.spool.Keys - {s.nextPage};
      } else if s.outputs[0].Pair? {
        assert s'.spool.Keys == s.spool.Keys + {s.outputs[0].num};
      }
    }
  }

  lemma SameMapperWork(c: Config, s: State, s': State)
    requires s.mapper == s'.mapper && s.pageNum == s'.pageNum
    ensures MapperWork(c, s) == MapperWork(c, s')
  {
  }

  /** Every step, whoever takes it, uses up work. */
  lemma StepUsesWork(c: Config, s: State, a: Action)
    requires Inv(c, s) && Enabled(c, s, a)
    ensures 0 <= Work(c, Step(c, s, a)) < Work(c, s)
  {
    hide Inv, Work;
    StepKeepsInv(c, s, a);
    InvWork(c, s);
    InvWork(c, Step(c, s, a));
    match a {
      case MapperStep => MapperUsesWork(c, s);
      case WorkerStep(i) => WorkerUsesWork(c, s, i);
      case ReducerStep => ReducerUsesWork(c, s);
    }
  }

  lemma InvWork(c: Config, s: State)
    requires Inv(c, s)
    ensures s.pageNum <= |c.pages| && Work(c, s) >= 0
    ensures s.mapper.Signal? ==> s.mapper.sent <= c.WorkerCount()
  {
    hide PlacesOk, JobsOk, EndOk, TextsOk, WrittenOk;
  }

  lemma {:induction false} JobWorkAppend(jobs: seq<Job>, j: Job)
    ensures JobWork(jobs + [j]) == JobWork(jobs) + if j.Page? then 6 else 1
  {
    if jobs == [] {
      assert (jobs + [j])[1..] == [];
    } else {
      JobWorkAppend(jobs[1..], j);
      assert (jobs + [j])[1..] == jobs[1..] + [j];
    }
  }

  lemma {:induction false} RunUsesWork(c: Config, s: State, run: seq<Action>)
    requires Inv(c, s) && IsRun(c, s, run)
    ensures Work(c, s) >= 0 && |run| <= Work(c, s)
    decreases |run|
  {
    hide Work, Step;
    InvWork(c, s);
    if run != [] {
      StepUsesWork(c, s, run[0]);
      StepKeepsInv(c, s, run[0]);
      RunUsesWork(c, Step(c, s, run[0]), run[1..]);
    }
  }

  /** No run has more than 9 steps a page, 2 a worker and 6 more. */
  lemma RunsAreBounded(c: Config, run: seq<Action>)
    requires IsRun(c, Init(c), run)
    ensures |run| <= 9 * |c.pages| + 2 * c.WorkerCount() + 6
  {
    InitInv(c);
    RunUsesWork(c, Init(c), run);
    IdleWork(c.WorkerCount());
  }

  lemma {:induction false} IdleWork(n: nat)
    ensures WorkerWork(seq(n, _ => Idle)) == 0
  {
    if n > 0 {
      IdleWork(n - 1);
      assert seq(n, _ => Idle)[1..] == seq(n - 1, _ => Idle);
    }
  }

  /** A run that can go no further has ended with the whole dump written in order. */
  lemma MaximalRunsWriteEverything(c: Config, run: seq<Action>)
    requires IsRun(c, Init(c), run)
    requires forall a :: !Enabled(c, After(c, Init(c), run), a)
    ensures After(c, Init(c), run).mapper.Done?
    ensures var written := After(c, Init(c), run).written;
            |written| == |c.pages| && forall i :: 0 <= i < |written| ==> WrittenFor(c.pages[i], written[i])
  {
    NeverDeadlocks(c, run);
    FinishedMeansAllWritten(c, run);
    WrittenInOrder(c, run);
  }
}
