/** How much the page pipeline holds at a time. */
module PipelineLoad {
  import opened PipelineSystem
  import opened PipelineInvariant

  // ---------- pages on their way ----------

  function PageJobs(jobs: seq<Job>): (n: nat)
    ensures n <= |jobs|
  {
    if jobs == [] then 0 else (if jobs[0].Page? then 1 else 0) + PageJobs(jobs[1..])
  }

  function BusyWorkers(ws: seq<Worker>): (n: nat)
    ensures n <= |ws|
  {
    if ws == [] then 0 else (if ws[0].Busy? then 1 else 0) + BusyWorkers(ws[1..])
  }

  function Pairs(os: seq<Output>): (n: nat)
    ensures n <= |os|
  {
    if os == [] then 0 else (if os[0].Pair? then 1 else 0) + Pairs(os[1..])
  }

  /** Pages taken from the dump and not yet written. */
  function Load(s: State): nat {
    PageJobs(s.jobs) + BusyWorkers(s.workers) + Pairs(s.outputs) + |s.spool|
  }

  lemma {:induction false} PageJobsAppend(jobs: seq<Job>, j: Job)
    ensures PageJobs(jobs + [j]) == PageJobs(jobs) + if j.Page? then 1 else 0
  {
    if jobs == [] {
      assert (jobs + [j])[1..] == [];
    } else {
      PageJobsAppend(jobs[1..], j);
      assert (jobs + [j])[1..] == jobs[1..] + [j];
    }
  }

  lemma {:induction false} PairsAppend(os: seq<Output>, o: Output)
    ensures Pairs(os + [o]) == Pairs(os) + if o.Pair? then 1 else 0
  {
    if os == [] {
      assert (os + [o])[1..] == [];
    } else {
      PairsAppend(os[1..], o);
      assert (os + [o])[1..] == os[1..] + [o];
    }
  }

  lemma {:induction false} BusyUpdate(ws: seq<Worker>, i: nat, w: Worker)
    requires i < |ws|
    ensures BusyWorkers(ws[i := w]) + (if ws[i].Busy? then 1 else 0) == BusyWorkers(ws) + if w.Busy? then 1 else 0
  {
    if i == 0 {
      assert ws[i := w][1..] == ws[1..];
    } else {
      BusyUpdate(ws[1..], i - 1, w);
      assert ws[i := w][1..] == ws[1..][i - 1 := w];
    }
  }

  // ---------- the bounds ----------

  function QueueBound(c: Config): int { 10 * c.processCount }

  /** What the queues and the workers hold at most. */
  function FlightBound(c: Config): int { 2 * QueueBound(c) + c.WorkerCount() }

  ghost predicate Bounded(c: Config, s: State) {
    && |s.jobs| <= QueueBound(c) && |s.outputs| <= QueueBound(c)
    && |s.spool| <= s.spoolLength + (if s.reducer.Publish? then 1 else 0)
    && Load(s) <= MAX_SPOOL_LENGTH + FlightBound(c) + 2
    && (s.mapper.PutPage? ==> Load(s) <= MAX_SPOOL_LENGTH + FlightBound(c) + 1)
  }

  lemma MapperKeepsBounds(c: Config, s: State)
    requires c.processCount > 0 && Inv(c, s) && Bounded(c, s) && Enabled(c, s, MapperStep)
    ensures Bounded(c, StepMapper(c, s))
  {
    hide PlacesOk, JobsOk, EndOk, TextsOk, WrittenOk;
    match s.mapper {
      case PutPage => PageJobsAppend(s.jobs, Page(s.pageNum));
      case Signal(k) => PageJobsAppend(s.jobs, Stop);
      case PutEnd => PairsAppend(s.outputs, End);
      case _ =>
    }
  }

  lemma WorkerKeepsBounds(c: Config, s: State, i: nat)
    requires c.processCount > 0 && Bounded(c, s) && Enabled(c, s, WorkerStep(i))
    ensures Bounded(c, StepWorker(c, s, i))
  {
    var s' := StepWorker(c, s, i);
    BusyUpdate(s.workers, i, s'.workers[i]);
    if s.workers[i].Busy? {
      PairsAppend(s.outputs, s'.outputs[|s.outputs|]);
    }
  }

  lemma ReducerKeepsBounds(c: Config, s: State)
    requires c.processCount > 0 && Inv(c, s) && Bounded(c, s) && Enabled(c, s, ReducerStep)
    ensures Bounded(c, StepReducer(s))
  {
    hide PlacesOk, JobsOk, EndOk, TextsOk, MapperOk;
    var s' := StepReducer(s);
    SpoolSize(s.spool);
    SpoolSize(s'.spool);
    if s.reducer.Loop? {
      if s.nextPage in s.spool {
        assert s'.spool.Keys == s.spool.Keys - {s.nextPage};
      } else if s.outputs[0].Pair? {
        assert s'.spool.Keys == s.spool.Keys + {s.outputs[0].num};
      }
    }
  }

  lemma SpoolSize(spool: map<nat, string>)
    ensures |spool| == |spool.Keys|
  {
  }

  lemma {:induction false} RunKeepsBounds(c: Config, s: State, run: seq<Action>)
    requires c.processCount > 0 && Inv(c, s) && Bounded(c, s) && IsRun(c, s, run)
    ensures Bounded(c, After(c, s, run))
    decreases |run|
  {
    hide Inv, Bounded;
    if run != [] {
      StepKeepsInv(c, s, run[0]);
      match run[0] {
        case MapperStep => MapperKeepsBounds(c, s);
        case WorkerStep(i) => WorkerKeepsBounds(c, s, i);
        case ReducerStep => ReducerKeepsBounds(c, s);
      }
      RunKeepsBounds(c, Step(c, s, run[0]), run[1..]);
    }
  }

  lemma {:induction false} NoneBusy(n: nat)
    ensures BusyWorkers(seq(n, _ => Idle)) == 0
  {
    if n > 0 {
      NoneBusy(n - 1);
      assert seq(n, _ => Idle)[1..] == seq(n - 1, _ => Idle);
    }
  }

  /** In every run neither queue holds more than ten entries a process, and the pages held anywhere, the spool
      included, are at most the spool limit, what fits into queues and workers, and two more. */
  lemma HoldsBounded(c: Config, run: seq<Action>)
    requires c.processCount > 0 && IsRun(c, Init(c), run)
    ensures var s := After(c, Init(c), run);
            && |s.jobs| <= 10 * c.processCount && |s.outputs| <= 10 * c.processCount
            && Load(s) <= 10000 + 20 * c.processCount + c.processCount + 2
  {
    InitInv(c);
    NoneBusy(c.WorkerCount());
    RunKeepsBounds(c, Init(c), run);
  }
}
