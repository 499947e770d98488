/** What every step of the page pipeline keeps. */
module PipelineInvariant {
  import opened PipelineSystem

  // ---------- queues and workers under the steps ----------

  lemma {:induction false} JobsAppend(jobs: seq<Job>, j: Job, p: nat)
    ensures InJobs(jobs + [j], p) == InJobs(jobs, p) + if j == Page(p) then 1 else 0
    ensures Stops(jobs + [j]) == Stops(jobs) + if j.Stop? then 1 else 0
  {
    if jobs == [] {
      assert (jobs + [j])[1..] == [];
    } else {
      JobsAppend(jobs[1..], j, p);
      assert (jobs + [j])[1..] == jobs[1..] + [j];
    }
  }

  lemma {:induction false} OutputsAppend(os: seq<Output>, o: Output, p: nat)
    ensures InOutputs(os + [o], p) == InOutputs(os, p) + Carries(o, p)
  {
    if os == [] {
      assert (os + [o])[1..] == [];
    } else {
      OutputsAppend(os[1..], o, p);
      assert (os + [o])[1..] == os[1..] + [o];
    }
  }

  function Works(w: Worker, p: nat): nat {
    if w == Busy(p) then 1 else 0
  }

  function QuitsOf(w: Worker): nat {
    if w.Quit? then 1 else 0
  }

  lemma {:induction false} WorkersUpdate(ws: seq<Worker>, i: nat, w: Worker, p: nat)
    requires i < |ws|
    ensures InWorkers(ws[i := w], p) + Works(ws[i], p) == InWorkers(ws, p) + Works(w, p)
    ensures Quits(ws[i := w]) + QuitsOf(ws[i]) == Quits(ws) + QuitsOf(w)
  {
    if i == 0 {
      assert ws[i := w][1..] == ws[1..];
    } else {
      WorkersUpdate(ws[1..], i - 1, w, p);
      assert ws[i := w][1..] == ws[1..][i - 1 := w];
    }
  }

  lemma {:induction false} QuitsBound(ws: seq<Worker>, p: nat)
    ensures Quits(ws) <= |ws|
    ensures Quits(ws) == |ws| <==> AllQuit(ws)
    ensures AllQuit(ws) ==> InWorkers(ws, p) == 0
  {
    if ws != [] {
      QuitsBound(ws[1..], p);
      assert AllQuit(ws) <==> ws[0].Quit? && AllQuit(ws[1..]);
    }
  }

  lemma {:induction false} StopsOf(jobs: seq<Job>, p: nat)
    ensures Stops(jobs) == 0 ==> forall i :: 0 <= i < |jobs| ==> jobs[i].Page?
    ensures (forall i :: 0 <= i < |jobs| ==> jobs[i].Stop?) ==> Stops(jobs) == |jobs| && InJobs(jobs, p) == 0
  {
    if jobs != [] {
      StopsOf(jobs[1..], p);
      assert forall i :: 1 <= i < |jobs| ==> jobs[i] == jobs[1..][i - 1];
    }
  }

  lemma {:induction false} IdleWorkers(n: nat, p: nat)
    ensures Quits(seq(n, _ => Idle)) == 0 && InWorkers(seq(n, _ => Idle), p) == 0
  {
    if n > 0 {
      IdleWorkers(n - 1, p);
      assert seq(n, _ => Idle)[1..] == seq(n - 1, _ => Idle);
    }
  }

  // ---------- the invariant ----------

  lemma InitInv(c: Config)
    ensures Inv(c, Init(c))
  {
    forall p: nat
      ensures Places(Init(c), p) == 0
    {
      IdleWorkers(c.WorkerCount(), p);
    }
    IdleWorkers(c.WorkerCount(), 0);
  }

  lemma MapperPlaces(c: Config, s: State, p: nat)
    requires Enabled(c, s, MapperStep)
    ensures Places(StepMapper(c, s), p) == Places(s, p) + if s.mapper.PutPage? && p == s.pageNum then 1 else 0
  {
    match s.mapper {
      case PutPage => JobsAppend(s.jobs, Page(s.pageNum), p);
      case Signal(k) => JobsAppend(s.jobs, Stop, p);
      case PutEnd => OutputsAppend(s.outputs, End, p);
      case _ =>
    }
  }

  lemma MapperKeepsPlaces(c: Config, s: State)
    requires Enabled(c, s, MapperStep) && PlacesOk(s) && s.nextPage <= s.pageNum
    ensures PlacesOk(StepMapper(c, s))
  {
    hide Places;
    forall p: nat
      ensures Places(StepMapper(c, s), p) == if s.nextPage <= p < StepMapper(c, s).pageNum then 1 else 0
    {
      MapperPlaces(c, s, p);
    }
  }

  lemma MapperKeepsOrder(c: Config, s: State)
    requires MapperOk(c, s) && JobsOk(s) && EndOk(c, s) && Enabled(c, s, MapperStep)
    ensures JobsOk(StepMapper(c, s)) && EndOk(c, StepMapper(c, s))
  {
    QuitsBound(s.workers, 0);
    StopsOf(s.jobs, 0);
  }

  lemma MapperKeepsInv(c: Config, s: State)
    requires Inv(c, s) && Enabled(c, s, MapperStep)
    ensures Inv(c, StepMapper(c, s))
  {
    hide PlacesOk, TextsOk, Texts, JobsOk, EndOk;
    MapperKeepsPlaces(c, s);
    MapperKeepsTexts(c, s);
    MapperKeepsOrder(c, s);
    JobsAppend(s.jobs, if s.mapper.PutPage? then Page(s.pageNum) else Stop, 0);
  }

  lemma MapperKeepsTexts(c: Config, s: State)
    requires TextsOk(c, s)
    ensures TextsOk(c, StepMapper(c, s))
  {
  }

  lemma WorkerPlaces(c: Config, s: State, i: nat, p: nat)
    requires Enabled(c, s, WorkerStep(i))
    ensures Places(StepWorker(c, s, i), p) == Places(s, p)
  {
    var s' := StepWorker(c, s, i);
    WorkersUpdate(s.workers, i, s'.workers[i], p);
    if s.workers[i].Busy? {
      OutputsAppend(s.outputs, s'.outputs[|s.outputs|], p);
    }
  }

  lemma WorkerKeepsPlaces(c: Config, s: State, i: nat)
    requires Enabled(c, s, WorkerStep(i)) && PlacesOk(s)
    ensures PlacesOk(StepWorker(c, s, i))
  {
    hide Places;
    forall p: nat
      ensures Places(StepWorker(c, s, i), p) == Places(s, p)
    {
      WorkerPlaces(c, s, i, p);
    }
  }

  lemma WorkerKeepsOrder(c: Config, s: State, i: nat)
    requires MapperOk(c, s) && JobsOk(s) && EndOk(c, s) && Enabled(c, s, WorkerStep(i))
    ensures MapperOk(c, StepWorker(c, s, i)) && JobsOk(StepWorker(c, s, i)) && EndOk(c, StepWorker(c, s, i))
  {
    var s' := StepWorker(c, s, i);
    QuitsBound(s.workers, 0);
    QuitsBound(s'.workers, 0);
    WorkersUpdate(s.workers, i, s'.workers[i], 0);
  }

  lemma WorkerKeepsInv(c: Config, s: State, i: nat)
    requires Inv(c, s) && Enabled(c, s, WorkerStep(i))
    ensures Inv(c, StepWorker(c, s, i))
  {
    hide PlacesOk, TextsOk, Texts, MapperOk, JobsOk, EndOk;
    WorkerKeepsPlaces(c, s, i);
    WorkerKeepsTexts(c, s, i);
    WorkerKeepsOrder(c, s, i);
  }

  lemma WorkerKeepsTexts(c: Config, s: State, i: nat)
    requires Inv(c, s) && Enabled(c, s, WorkerStep(i))
    ensures TextsOk(c, StepWorker(c, s, i))
  {
    hide PlacesOk;
    if s.workers[i].Busy? {
      BusyPageIsOut(c, s, i);
    }
  }

  lemma BusyPageIsOut(c: Config, s: State, i: nat)
    requires Inv(c, s) && i < |s.workers| && s.workers[i].Busy?
    ensures s.workers[i].num < |c.pages|
  {
    var p := s.workers[i].num;
    WorkersUpdate(s.workers, i, Idle, p);
    assert Places(s, p) >= 1;
  }

  lemma ReducerPlaces(s: State, p: nat)
    ensures Places(StepReducer(s), p) + (if s.reducer.Loop? && s.nextPage in s.spool && p == s.nextPage then 1 else 0)
         == if s.reducer.Loop? && s.nextPage !in s.spool && s.outputs != []
               && Carries(s.outputs[0], p) == 1 && p in s.spool
            then Places(s, p) - 1 else Places(s, p)
    ensures p in s.spool ==> Places(s, p) >= 1
    ensures s.outputs != [] && Carries(s.outputs[0], p) == 1 && p in s.spool ==> Places(s, p) >= 2
  {
  }

  lemma ReducerKeepsPlaces(c: Config, s: State)
    requires Inv(c, s) && Enabled(c, s, ReducerStep)
    ensures PlacesOk(StepReducer(s))
  {
    hide Places;
    var s' := StepReducer(s);
    forall p: nat
      ensures Places(s', p) == if s'.nextPage <= p < s'.pageNum then 1 else 0
    {
      ReducerPlaces(s, p);
      assert Places(s, p) == if s.nextPage <= p < s.pageNum then 1 else 0;
    }
  }

  lemma ReducerKeepsWritten(c: Config, s: State)
    requires Inv(c, s) && Enabled(c, s, ReducerStep)
    ensures WrittenOk(c, StepReducer(s))
  {
    hide Places, MapperOk, JobsOk, EndOk, Carries, Quits, Stops;
    var s' := StepReducer(s);
    if s.reducer.Loop? {
      if s.nextPage in s.spool {
        ReducerPlaces(s, s.nextPage);
        assert Places(s, s.nextPage) >= 1;
        assert s'.written == Texts(c, s'.nextPage);
      } else if s.outputs[0].End? {
        NothingLeft(c, s);
      }
    }
  }

  lemma ReducerKeepsTexts(c: Config, s: State)
    requires TextsOk(c, s) && Enabled(c, s, ReducerStep)
    ensures TextsOk(c, StepReducer(s))
  {
  }

  lemma ReducerKeepsInv(c: Config, s: State)
    requires Inv(c, s) && Enabled(c, s, ReducerStep)
    ensures Inv(c, StepReducer(s))
  {
    hide PlacesOk, TextsOk, WrittenOk;
    ReducerKeepsPlaces(c, s);
    ReducerKeepsWritten(c, s);
    ReducerKeepsTexts(c, s);
  }

  /** When the final None is next for a reducer with nothing to write, everything is written. */
  lemma NothingLeft(c: Config, s: State)
    requires Inv(c, s) && s.reducer.Loop? && s.nextPage !in s.spool
    requires s.outputs != [] && s.outputs[0].End?
    ensures s.nextPage == |c.pages| && s.spool == map[]
  {
    assert |s.outputs| == 1;
    assert Quits(s.workers) == c.WorkerCount() > 0;
    forall p: nat
      ensures Places(s, p) == if p in s.spool then 1 else 0
    {
      QuitsBound(s.workers, p);
      StopsOf(s.jobs, p);
      assert s.outputs[1..] == [] && InOutputs(s.outputs[1..], p) == 0;
      assert InJobs(s.jobs, p) == 0 && InWorkers(s.workers, p) == 0 && InOutputs(s.outputs, p) == 0;
    }
    assert Places(s, s.nextPage) == 0;
    forall p: nat
      ensures p !in s.spool
    {
      assert Places(s, p) == 0;
    }
  }

  lemma StepKeepsInv(c: Config, s: State, a: Action)
    requires Inv(c, s) && Enabled(c, s, a)
    ensures Inv(c, Step(c, s, a))
  {
    match a
    case MapperStep => MapperKeepsInv(c, s);
    case WorkerStep(i) => WorkerKeepsInv(c, s, i);
    case ReducerStep => ReducerKeepsInv(c, s);
  }

  lemma {:induction false} RunKeepsInv(c: Config, s: State, run: seq<Action>)
    requires Inv(c, s) && IsRun(c, s, run)
    ensures Inv(c, After(c, s, run))
    decreases |run|
  {
    if run != [] {
      StepKeepsInv(c, s, run[0]);
      RunKeepsInv(c, Step(c, s, run[0]), run[1..]);
    }
  }
}
