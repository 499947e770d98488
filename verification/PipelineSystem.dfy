/** The map/worker/reduce pipeline of the page extractor as a transition system: one mapper, the
    workers, a reducer with a reorder buffer, two bounded queues and None sentinels. */
module PipelineSystem {

  // ---------- configuration ----------

  /** What extracting a page comes to; a page whose extraction raised is written as empty text. */
  datatype Extraction = Extracted(text: string) | Raised {
    function Text(): string {
      match this
      case Extracted(t) => t
      case Raised => ""
    }
  }

  /** The kept pages in dump order and the requested number of processes. */
  datatype Config = Config(pages: seq<Extraction>, processCount: int) {
    function WorkerCount(): nat {
      if processCount > 1 then processCount else 1
    }

    /** A queue made with maxsize 10 * process_count has room; a size of 0 or less is no bound. */
    predicate Room(length: nat) {
      processCount <= 0 || length < 10 * processCount
    }
  }

  const MAX_SPOOL_LENGTH: nat := 10000

  // ---------- state ----------

  datatype Job = Page(num: nat) | Stop

  datatype Output = Pair(num: nat, text: string) | End

  datatype Mapper = Fetch | Throttle | PutPage | Signal(sent: nat) | Join | PutEnd | JoinReduce | Done

  datatype Worker = Idle | Busy(num: nat) | Quit

  /** Publish is the point where the spool has changed but spool_length not yet. */
  datatype Reducer = Loop | Publish | Finished

  datatype State = State(
    mapper: Mapper,
    pageNum: nat,
    jobs: seq<Job>,
    workers: seq<Worker>,
    outputs: seq<Output>,
    reducer: Reducer,
    spool: map<nat, string>,
    nextPage: nat,
    spoolLength: nat,
    written: seq<string>)

  function Init(c: Config): State {
    State(Fetch, 0, [], seq(c.WorkerCount(), _ => Idle), [], Loop, map[], 0, 0, [])
  }

  // ---------- steps ----------

  datatype Action =
    | MapperStep           // the mapper does what its position says
    | WorkerStep(i: nat)   // worker i takes a job or puts its result
    | ReducerStep          // the reducer writes, takes a pair or publishes its load

  predicate AllQuit(ws: seq<Worker>) {
    forall i :: 0 <= i < |ws| ==> ws[i].Quit?
  }

  /** A step that does not have to wait; a sleeping mapper waits. */
  predicate Enabled(c: Config, s: State, a: Action) {
    match a
    case MapperStep =>
      (match s.mapper
       case Fetch => true
       case Throttle => s.spoolLength <= MAX_SPOOL_LENGTH / 10
       case PutPage => c.Room(|s.jobs|)
       case Signal(k) => k < c.WorkerCount() ==> c.Room(|s.jobs|)
       case Join => AllQuit(s.workers)
       case PutEnd => c.Room(|s.outputs|)
       case JoinReduce => s.reducer.Finished?
       case Done => false)
    case WorkerStep(i) =>
      i < |s.workers| &&
      (match s.workers[i]
       case Idle => s.jobs != []
       case Busy(_) => c.Room(|s.outputs|)
       case Quit => false)
    case ReducerStep =>
      (match s.reducer
       case Loop => s.nextPage in s.spool || s.outputs != []
       case Publish => true
       case Finished => false)
  }

  function Step(c: Config, s: State, a: Action): State
    requires Enabled(c, s, a)
  {
    match a
    case MapperStep => StepMapper(c, s)
    case WorkerStep(i) => StepWorker(c, s, i)
    case ReducerStep => StepReducer(s)
  }

  function StepMapper(c: Config, s: State): State {
    match s.mapper
    case Fetch =>
      if s.pageNum >= |c.pages| then s.(mapper := Signal(0))
      else if s.spoolLength > MAX_SPOOL_LENGTH then s.(mapper := Throttle)
      else s.(mapper := PutPage)
    case Throttle => s.(mapper := PutPage)
    case PutPage => s.(mapper := Fetch, jobs := s.jobs + [Page(s.pageNum)], pageNum := s.pageNum + 1)
    case Signal(k) =>
      if k < c.WorkerCount() then s.(mapper := Signal(k + 1), jobs := s.jobs + [Stop]) else s.(mapper := Join)
    case Join => s.(mapper := PutEnd)
    case PutEnd => s.(mapper := JoinReduce, outputs := s.outputs + [End])
    case JoinReduce => s.(mapper := Done)
    case Done => s
  }

  function StepWorker(c: Config, s: State, i: nat): State
    requires i < |s.workers|
  {
    match s.workers[i]
    case Idle =>
      if s.jobs == [] then s
      else
        var w := match s.jobs[0] case Page(n) => Busy(n) case Stop => Quit;
        s.(jobs := s.jobs[1..], workers := s.workers[i := w])
    case Busy(n) =>
      var text := if n < |c.pages| then c.pages[n].Text() else "";
      s.(workers := s.workers[i := Idle], outputs := s.outputs + [Pair(n, text)])
    case Quit => s
  }

  function StepReducer(s: State): State {
    match s.reducer
    case Loop =>
      if s.nextPage in s.spool then
        s.(written := s.written + [s.spool[s.nextPage]], spool := s.spool - {s.nextPage},
           nextPage := s.nextPage + 1, reducer := Publish)
      else if s.outputs == [] then s
      else
        (match s.outputs[0]
         case End => s.(outputs := s.outputs[1..], reducer := Finished)
         case Pair(n, text) => s.(outputs := s.outputs[1..], spool := s.spool[n := text], reducer := Publish))
    case Publish => s.(spoolLength := |s.spool|, reducer := Loop)
    case Finished => s
  }

  /** A run: each action is enabled when it is taken. */
  predicate IsRun(c: Config, s: State, run: seq<Action>)
    decreases |run|
  {
    run == [] || (Enabled(c, s, run[0]) && IsRun(c, Step(c, s, run[0]), run[1..]))
  }

  function After(c: Config, s: State, run: seq<Action>): State
    requires IsRun(c, s, run)
    decreases |run|
  {
    if run == [] then s else After(c, Step(c, s, run[0]), run[1..])
  }

  // ---------- where the pages are ----------

  function InJobs(jobs: seq<Job>, p: nat): nat {
    if jobs == [] then 0 else (if jobs[0] == Page(p) then 1 else 0) + InJobs(jobs[1..], p)
  }

  function InWorkers(ws: seq<Worker>, p: nat): nat {
    if ws == [] then 0 else (if ws[0] == Busy(p) then 1 else 0) + InWorkers(ws[1..], p)
  }

  function Carries(o: Output, p: nat): nat {
    if o.Pair? && o.num == p then 1 else 0
  }

  function InOutputs(os: seq<Output>, p: nat): nat {
    if os == [] then 0 else Carries(os[0], p) + InOutputs(os[1..], p)
  }

  /** In how many places between mapper and output page p is. */
  function Places(s: State, p: nat): nat {
    InJobs(s.jobs, p) + InWorkers(s.workers, p) + InOutputs(s.outputs, p) + if p in s.spool then 1 else 0
  }

  function Stops(jobs: seq<Job>): nat {
    if jobs == [] then 0 else (if jobs[0].Stop? then 1 else 0) + Stops(jobs[1..])
  }

  function Quits(ws: seq<Worker>): nat {
    if ws == [] then 0 else (if ws[0].Quit? then 1 else 0) + Quits(ws[1..])
  }

  function Sent(c: Config, m: Mapper): nat {
    match m
    case Fetch => 0
    case Throttle => 0
    case PutPage => 0
    case Signal(k) => k
    case _ => c.WorkerCount()
  }

  function Texts(c: Config, n: nat): seq<string>
    requires n <= |c.pages|
  {
    seq(n, i requires 0 <= i < n => c.pages[i].Text())
  }

  ghost predicate MapperOk(c: Config, s: State) {
    && s.pageNum <= |c.pages|
    && (s.mapper.Throttle? || s.mapper.PutPage? ==> s.pageNum < |c.pages|)
    && (!s.mapper.Fetch? && !s.mapper.Throttle? && !s.mapper.PutPage? ==> s.pageNum == |c.pages|)
    && (s.mapper.Signal? ==> s.mapper.sent <= c.WorkerCount())
    && |s.workers| == c.WorkerCount()
    && Stops(s.jobs) + Quits(s.workers) == Sent(c, s.mapper)
  }

  /** Pages come before sentinels in the jobs queue, and no worker quits while pages wait. */
  ghost predicate JobsOk(s: State) {
    && (forall i, j :: 0 <= i < j < |s.jobs| && s.jobs[i].Stop? ==> s.jobs[j].Stop?)
    && (Quits(s.workers) > 0 ==> forall i :: 0 <= i < |s.jobs| ==> s.jobs[i].Stop?)
  }

  /** The final None enters the output queue last, after every worker has quit. */
  ghost predicate EndOk(c: Config, s: State) {
    && (s.mapper.PutEnd? || s.mapper.JoinReduce? || s.mapper.Done? ==> Quits(s.workers) == c.WorkerCount())
    && (forall i :: 0 <= i < |s.outputs| && s.outputs[i].End? ==> i == |s.outputs| - 1)
    && ((s.mapper.JoinReduce? || s.mapper.Done?)
        <==> (s.reducer.Finished? || (s.outputs != [] && s.outputs[|s.outputs| - 1].End?)))
    && (s.reducer.Finished? ==> s.outputs == [])
    && (s.mapper.Done? ==> s.reducer.Finished?)
  }

  ghost predicate TextsOk(c: Config, s: State) {
    && (forall i :: 0 <= i < |s.outputs| && s.outputs[i].Pair? ==>
          s.outputs[i].num < |c.pages| && s.outputs[i].text == c.pages[s.outputs[i].num].Text())
    && (forall n :: n in s.spool ==> n < |c.pages| && s.spool[n] == c.pages[n].Text())
  }

  ghost predicate WrittenOk(c: Config, s: State) {
    && s.nextPage <= s.pageNum <= |c.pages|
    && s.written == Texts(c, s.nextPage)
    && (s.reducer.Loop? ==> s.spoolLength == |s.spool|)
    && (s.reducer.Finished? ==> s.nextPage == |c.pages| && s.spool == map[])
  }

  /** Every page handed out but not yet written is in exactly one place, and no other page is. */
  ghost predicate PlacesOk(s: State) {
    forall p: nat :: Places(s, p) == if s.nextPage <= p < s.pageNum then 1 else 0
  }

  ghost predicate Inv(c: Config, s: State) {
    MapperOk(c, s) && JobsOk(s) && EndOk(c, s) && TextsOk(c, s) && WrittenOk(c, s) && PlacesOk(s)
  }
}
