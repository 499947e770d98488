/** Memory accounting in nested statistics phases. */
module StatPhases {

  // ---------- phases as values ----------

  /** A phase's record. Two fields are the model's own accounts: charged is what was tracked while the
      phase itself was the current one, trail every value that memCurrent has had. */
  datatype Data = Data(memOff: int, memCurrent: int, memPeak: int, charged: int, trail: seq<int>, children: seq<Data>)

  /** A phase that has not ended. */
  datatype Open = Open(data: Data, track: bool)

  /** The open phases from the root to the current one. */
  type Stack = seq<Open>

  function Max(a: int, b: int): int { if a > b then a else b }

  datatype Event = Allocated(n: nat) | Freed(n: nat) {
    function Bytes(): int {
      match this
      case Allocated(n) => n
      case Freed(n) => 0 - (n as int)
    }
  }

  /** What one tracking phase does with an event; only allocations move the peak. */
  function Count(d: Data, e: Event): Data {
    var now := d.memCurrent + e.Bytes();
    d.(memCurrent := now, memPeak := if e.Allocated? then Max(d.memPeak, now) else d.memPeak, trail := d.trail + [now])
  }

  /** track_alloc_internal and track_free_internal: upwards until a phase is not tracking. */
  function TrackUp(s: Stack, e: Event): (r: Stack)
    ensures |r| == |s|
  {
    if s == [] || !s[|s| - 1].track then s
    else TrackUp(s[..|s| - 1], e) + [s[|s| - 1].(data := Count(s[|s| - 1].data, e))]
  }

  function Charged(d: Data, e: Event): Data {
    d.(charged := d.charged + e.Bytes())
  }

  /** The event is on the current phase's own account. */
  function Charge(s: Stack, e: Event): (r: Stack)
    ensures |r| == |s|
  {
    if s == [] || !s[|s| - 1].track then s
    else s[|s| - 1 := s[|s| - 1].(data := Charged(s[|s| - 1].data, e))]
  }

  datatype Op =
    | Begin | End | Split
    | Track(event: Event)
    | PauseTracking | ResumeTracking | LogStat

  function SetTrack(s: Stack, track: bool): (r: Stack)
    ensures |r| == |s|
  {
    if s == [] then s else s[|s| - 1 := s[|s| - 1].(track := track)]
  }

  /** init: the parent is paused and resumed around the allocation of the record. */
  function Push(s: Stack): Stack {
    var off := if s == [] then 0 else s[|s| - 1].data.memCurrent;
    SetTrack(s, true) + [Open(Data(off, 0, 0, 0, [], []), true)]
  }

  /** finish: the record is handed to the parent; the root's is deleted. */
  function Pop(s: Stack): Stack
    requires s != []
  {
    var rest, d := s[..|s| - 1], s[|s| - 1].data;
    if rest == [] then []
    else
      var p := rest[|rest| - 1];
      rest[|rest| - 1 := p.(data := p.data.(children := p.data.children + [d]))]
  }

  /** split: finish, then init on the same object; unless the record is gone with the root, the new
      offset is set from the old record. */
  function SplitTop(s: Stack): Stack
    requires s != []
  {
    var old_, next := s[|s| - 1].data, Push(Pop(s));
    if |s| == 1 then next
    else
      var top := next[|next| - 1];
      next[|next| - 1 := top.(data := top.data.(memOff := old_.memOff + old_.memCurrent))]
  }

  /** One operation on the current phase. */
  function Step(s: Stack, op: Op): Stack {
    match op
    case Begin => Push(s)
    case End => if s == [] then s else Pop(s)
    case Split => if s == [] then s else SplitTop(s)
    case Track(e) => Charge(TrackUp(s, e), e)
    case PauseTracking => SetTrack(s, false)
    case ResumeTracking => SetTrack(s, true)
    case LogStat => SetTrack(s, true)
  }

  function Run(ops: seq<Op>): Stack {
    if ops == [] then [] else Step(Run(ops[..|ops| - 1]), ops[|ops| - 1])
  }

  // ---------- what every run keeps ----------

  function SumCurrent(ds: seq<Data>): int {
    if ds == [] then 0 else SumCurrent(ds[..|ds| - 1]) + ds[|ds| - 1].memCurrent
  }

  function Highest(trail: seq<int>): int {
    if trail == [] then 0 else Max(Highest(trail[..|trail| - 1]), trail[|trail| - 1])
  }

  /** The peak is the highest memory so far, which is now the last of the trail. */
  ghost predicate PeakOk(d: Data) {
    && d.memPeak == Highest(d.trail)
    && d.memCurrent == (if d.trail == [] then 0 else d.trail[|d.trail| - 1])
    && d.memCurrent <= d.memPeak
  }

  lemma CountKeepsPeak(d: Data, e: Event)
    requires PeakOk(d)
    ensures PeakOk(Count(d, e)) && Count(d, e).memPeak >= d.memPeak
    ensures Count(d, e).memPeak == Max(d.memPeak, Count(d, e).memCurrent)
  {
    assert (d.trail + [d.memCurrent + e.Bytes()])[..|d.trail|] == d.trail;
  }

  /** An ended phase accounts for its bytes, and its children's peaks lie within its own. */
  ghost predicate Closed(d: Data) {
    && d.memCurrent == d.charged + SumCurrent(d.children)
    && PeakOk(d)
    && forall i :: 0 <= i < |d.children| ==>
         Closed(d.children[i]) && d.children[i].memOff + d.children[i].memPeak <= d.memPeak
  }

  ghost predicate PhaseOk(s: Stack, i: nat)
    requires i < |s|
  {
    var d := s[i].data;
    && d.memCurrent == d.charged + SumCurrent(d.children) + (if i + 1 < |s| then s[i + 1].data.memCurrent else 0)
    && PeakOk(d)
    && (forall j :: 0 <= j < |d.children| ==>
          Closed(d.children[j]) && d.children[j].memOff + d.children[j].memPeak <= d.memPeak)
    && (i + 1 < |s| ==>
          && s[i].track
          && s[i + 1].data.memOff + s[i + 1].data.memPeak <= d.memPeak
          && s[i + 1].data.memOff + s[i + 1].data.memCurrent == d.memCurrent)
  }

  ghost predicate Inv(s: Stack) {
    forall i :: 0 <= i < |s| ==> PhaseOk(s, i)
  }

  /** When the current phase tracks, tracking reaches every phase of the stack. */
  lemma {:induction false} TrackReachesAll(s: Stack, e: Event)
    requires forall i :: 0 <= i < |s| ==> s[i].track
    ensures forall i :: 0 <= i < |s| ==> TrackUp(s, e)[i] == s[i].(data := Count(s[i].data, e))
  {
    if s != [] {
      TrackReachesAll(s[..|s| - 1], e);
    }
  }

  lemma TrackKeepsInv(s: Stack, e: Event)
    requires Inv(s)
    ensures Inv(Charge(TrackUp(s, e), e))
  {
    hide Closed, SumCurrent, Highest;
    if s != [] && s[|s| - 1].track {
      forall i | 0 <= i < |s|
        ensures s[i].track
      {
        assert PhaseOk(s, i);
      }
      TrackReachesAll(s, e);
      var r := Charge(TrackUp(s, e), e);
      forall i | 0 <= i < |r|
        ensures PhaseOk(r, i)
      {
        assert PhaseOk(s, i);
        CountKeepsPeak(s[i].data, e);
        if i + 1 < |s| {
          assert PhaseOk(s, i + 1);
          CountKeepsPeak(s[i + 1].data, e);
        }
        assert r[i].data.children == s[i].data.children && r[i].data.trail == Count(s[i].data, e).trail;
      }
    }
  }

  lemma SetTrackKeepsInv(s: Stack, track: bool)
    requires Inv(s)
    ensures Inv(SetTrack(s, track))
  {
    var r := SetTrack(s, track);
    forall i | 0 <= i < |r|
      ensures PhaseOk(r, i)
    {
      assert PhaseOk(s, i);
    }
  }

  lemma PushKeepsInv(s: Stack)
    requires Inv(s)
    ensures Inv(Push(s))
  {
    var r := Push(s);
    forall i | 0 <= i < |r|
      ensures PhaseOk(r, i)
    {
      if i < |s| {
        assert PhaseOk(s, i);
      }
    }
  }

  lemma SumAppend(ds: seq<Data>, d: Data)
    ensures SumCurrent(ds + [d]) == SumCurrent(ds) + d.memCurrent
  {
    assert (ds + [d])[..|ds|] == ds;
  }

  lemma PopKeepsInv(s: Stack)
    requires Inv(s) && s != []
    ensures Inv(Pop(s))
  {
    hide Closed, PeakOk, SumCurrent;
    var r, d := Pop(s), s[|s| - 1].data;
    TopCloses(s);
    forall i | 0 <= i < |r|
      ensures PhaseOk(r, i)
    {
      assert PhaseOk(s, i);
      if i == |r| - 1 {
        SumAppend(s[i].data.children, d);
        SamePeak(s[i].data, r[i].data);
      }
    }
  }

  lemma SamePeak(d: Data, e: Data)
    requires PeakOk(d) && e == d.(children := e.children)
    ensures PeakOk(e)
  {
  }

  /** The current phase can end at any time. */
  lemma TopCloses(s: Stack)
    requires s != [] && PhaseOk(s, |s| - 1)
    ensures Closed(s[|s| - 1].data)
  {
    hide PeakOk, SumCurrent;
  }

  /** The offset that split sets is the one that a new phase would get anyway: split is end and begin. */
  lemma SplitIsEndBegin(s: Stack)
    requires Inv(s) && s != []
    ensures SplitTop(s) == Push(Pop(s))
    ensures |s| > 1 ==> SplitTop(s)[|s| - 1].data.memOff == SplitTop(s)[|s| - 2].data.memCurrent
  {
    if |s| > 1 {
      assert PhaseOk(s, |s| - 2);
      var next := Push(Pop(s));
      assert next[|next| - 1].data.memOff == s[|s| - 2].data.memCurrent;
    }
  }

  lemma StepKeepsInv(s: Stack, op: Op)
    requires Inv(s)
    ensures Inv(Step(s, op))
  {
    match op {
      case Begin => PushKeepsInv(s);
      case End => if s != [] { PopKeepsInv(s); }
      case Split =>
        if s != [] {
          SplitIsEndBegin(s);
          PopKeepsInv(s);
          PushKeepsInv(Pop(s));
        }
      case Track(e) => TrackKeepsInv(s, e);
      case PauseTracking => SetTrackKeepsInv(s, false);
      case ResumeTracking => SetTrackKeepsInv(s, true);
      case LogStat => SetTrackKeepsInv(s, true);
    }
  }

  lemma {:induction false} RunKeepsInv(ops: seq<Op>)
    ensures Inv(Run(ops))
  {
    if ops != [] {
      RunKeepsInv(ops[..|ops| - 1]);
      StepKeepsInv(Run(ops[..|ops| - 1]), ops[|ops| - 1]);
    }
  }

  // ---------- what it means for every run ----------

  /** Everything tracked in a phase and in all phases below it. */
  function TotalCharged(d: Data): int {
    d.charged + TotalChargedAll(d.children)
  }

  function TotalChargedAll(ds: seq<Data>): int {
    if ds == [] then 0 else TotalChargedAll(ds[..|ds| - 1]) + TotalCharged(ds[|ds| - 1])
  }

  lemma {:induction false} ClosedTotal(d: Data)
    requires Closed(d)
    ensures d.memCurrent == TotalCharged(d)
  {
    ClosedTotals(d.children);
  }

  lemma {:induction false} ClosedTotals(ds: seq<Data>)
    requires forall i :: 0 <= i < |ds| ==> Closed(ds[i])
    ensures SumCurrent(ds) == TotalChargedAll(ds)
  {
    if ds != [] {
      ClosedTotals(ds[..|ds| - 1]);
      ClosedTotal(ds[|ds| - 1]);
    }
  }

  function StackCharged(s: Stack, i: nat): int
    requires i <= |s|
    decreases |s| - i
  {
    if i == |s| then 0 else s[i].data.charged + TotalChargedAll(s[i].data.children) + StackCharged(s, i + 1)
  }

  lemma {:induction false} StackTotal(s: Stack, i: nat)
    requires Inv(s) && i < |s|
    ensures s[i].data.memCurrent == StackCharged(s, i)
    decreases |s| - i
  {
    assert PhaseOk(s, i);
    ClosedTotals(s[i].data.children);
    if i + 1 < |s| {
      StackTotal(s, i + 1);
    }
  }

  /** In every run, for every open phase: all phases above it track; its memory is what was charged to
      it and to everything below it; its peak is the highest value its memory ever had; its offset and
      memory add up to its parent's memory, and its offset and peak stay within its parent's peak. */
  lemma EveryRunAccounts(ops: seq<Op>, i: nat)
    requires i < |Run(ops)|
    ensures var s := Run(ops);
            && (forall j :: 0 <= j < i ==> s[j].track)
            && s[i].data.memCurrent == StackCharged(s, i)
            && s[i].data.memPeak == Highest(s[i].data.trail) >= s[i].data.memCurrent
            && (i > 0 ==> s[i].data.memOff + s[i].data.memCurrent == s[i - 1].data.memCurrent)
            && (i > 0 ==> s[i].data.memOff + s[i].data.memPeak <= s[i - 1].data.memPeak)
  {
    var s := Run(ops);
    RunKeepsInv(ops);
    StackTotal(s, i);
    assert PhaseOk(s, i);
    forall j | 0 <= j < i
      ensures s[j].track
    {
      assert PhaseOk(s, j);
    }
    if i > 0 {
      assert PhaseOk(s, i - 1);
    }
  }

  /** In every run, every ended phase below an open one accounts for its bytes and peaks within it. */
  lemma EveryEndedPhaseAccounts(ops: seq<Op>, i: nat, j: nat)
    requires i < |Run(ops)| && j < |Run(ops)[i].data.children|
    ensures var c := Run(ops)[i].data.children[j];
            Closed(c) && c.memCurrent == TotalCharged(c) && c.memOff + c.memPeak <= Run(ops)[i].data.memPeak
  {
    RunKeepsInv(ops);
    assert PhaseOk(Run(ops), i);
    ClosedTotal(Run(ops)[i].data.children[j]);
  }

  // ---------- the objects ----------

  /** A phase object; data stands for its record. */
  class StatPhase {
    var parent: StatPhase?
    var data: Data
    var trackMemory: bool

    constructor ()
    {
      parent, data, trackMemory := null, Data(0, 0, 0, 0, [], []), false;
    }

    method Pause()
      modifies this`trackMemory
      ensures !trackMemory
    {
      trackMemory := false;
    }

    method Resume()
      modifies this`trackMemory
      ensures trackMemory
    {
      trackMemory := true;
    }

    /** Counts an event here and then in the parent; line is the stack up to this phase. */
    method TrackInternal(e: Event, ghost line: seq<StatPhase>)
      requires Linked(line) && line != [] && line[|line| - 1] == this
      modifies line
      ensures Linked(line) && View(line) == TrackUp(old(View(line)), e)
      decreases |line|
    {
      if trackMemory {
        LinkedTop(line);
        ghost var rest := line[..|line| - 1];
        ghost var before := View(line);
        assert View(rest) == before[..|line| - 1];
        data := Count(data, e);
        assert View(rest) == before[..|line| - 1];
        if parent != null {
          assert Linked(rest) && rest[|rest| - 1] == parent;
          parent.TrackInternal(e, rest);
        } else {
          assert rest == [];
        }
        assert View(line) == View(rest) + [Open(data, trackMemory)];
      }
    }
  }

  /** Each phase's parent is the one before it, and no phase is there twice. */
  ghost predicate Linked(line: seq<StatPhase>)
    reads line
  {
    && (forall i {:trigger line[i].parent} :: 0 <= i < |line| ==>
          line[i].parent == if i == 0 then null else line[i - 1])
    && (forall i, j :: 0 <= i < j < |line| ==> line[i] != line[j])
  }

  lemma LinkedTop(line: seq<StatPhase>)
    requires Linked(line) && line != []
    ensures line[|line| - 1].parent == if |line| == 1 then null else line[|line| - 2]
    ensures Linked(line[..|line| - 1]) && line[|line| - 1] !in line[..|line| - 1]
  {
    var rest := line[..|line| - 1];
    assert forall i {:trigger rest[i].parent} :: 0 <= i < |rest| ==> rest[i].parent == line[i].parent;
    assert line[|line| - 1].parent == if |line| == 1 then null else line[|line| - 2];
  }

  ghost function View(line: seq<StatPhase>): (r: Stack)
    reads line
    ensures |r| == |line|
  {
    seq(|line|, i requires 0 <= i < |line| reads line => Open(line[i].data, line[i].trackMemory))
  }

  lemma PushSteps(s: Stack, tracking: Stack, track: bool)
    requires tracking == if s == [] then s else SetTrack(SetTrack(s, false), true)
    ensures SetTrack(Push(s), track)
         == tracking + [Open(Data(if s == [] then 0 else s[|s| - 1].data.memCurrent, 0, 0, 0, [], []), track)]
  {
  }

  lemma TrackingAgain(s: Stack)
    ensures SetTrack(SetTrack(Push(s), false), true) == Push(s)
  {
  }

  function SetOffset(s: Stack, off: int): (r: Stack)
    requires s != []
    ensures |r| == |s|
  {
    s[|s| - 1 := s[|s| - 1].(data := s[|s| - 1].data.(memOff := off))]
  }

  /** split in the order the object goes through it, still paused until the end. */
  lemma SplitSteps(s: Stack)
    requires s != []
    ensures var d, next := s[|s| - 1].data, SetTrack(Push(Pop(s)), false);
            SplitTop(s) == SetTrack(if |s| == 1 then next else SetOffset(next, d.memOff + d.memCurrent), true)
  {
  }

  lemma TopOfView(line: seq<StatPhase>)
    requires line != []
    ensures View(line)[|line| - 1].data == line[|line| - 1].data
  {
  }

  lemma PopPaused(s: Stack)
    requires s != []
    ensures Pop(SetTrack(s, false)) == Pop(s)
  {
  }

  lemma LinkedPush(line: seq<StatPhase>, p: StatPhase)
    requires Linked(line) && p !in line && p.parent == if line == [] then null else line[|line| - 1]
    ensures Linked(line + [p]) && View(line + [p]) == View(line) + [Open(p.data, p.trackMemory)]
  {
  }

  /** The static part of the class: the current phase. */
  class Statics {
    var current: StatPhase?
    ghost var stack: seq<StatPhase>

    ghost predicate Valid()
      reads this, stack
    {
      Linked(stack) && current == if stack == [] then null else stack[|stack| - 1]
    }

    ghost function State(): Stack
      reads this, stack
    {
      View(stack)
    }

    constructor ()
      ensures Valid() && State() == []
    {
      current, stack := null, [];
    }

    method TrackEvent(e: Event)
      requires Valid()
      modifies stack
      ensures Valid() && stack == old(stack) && State() == Step(old(State()), Track(e))
    {
      hide TrackUp;
      if current != null {
        ghost var top := stack[|stack| - 1];
        current.TrackInternal(e, stack);
        ghost var counted := State();
        if current.trackMemory {
          current.data := Charged(current.data, e);
          assert State() == counted[|stack| - 1 := Open(top.data, top.trackMemory)];
        }
      }
    }

    method PauseTracking()
      requires Valid()
      modifies stack
      ensures Valid() && stack == old(stack) && State() == Step(old(State()), Op.PauseTracking)
      ensures current != null ==> !current.trackMemory && current.data == old(current.data)
    {
      if current != null {
        current.Pause();
        assert State() == SetTrack(old(State()), false);
      }
    }

    method ResumeTracking()
      requires Valid()
      modifies stack
      ensures Valid() && stack == old(stack) && State() == Step(old(State()), Op.ResumeTracking)
      ensures current != null ==> current.data == old(current.data)
    {
      if current != null {
        current.Resume();
        assert State() == SetTrack(old(State()), true);
      }
    }

    /** Logging and printing pause and resume the current phase. */
    method Log(p: StatPhase)
      requires Valid() && p == current
      modifies stack
      ensures Valid() && stack == old(stack) && State() == Step(old(State()), LogStat)
    {
      LinkedTop(stack);
      p.Pause();
      p.Resume();
      assert State() == SetTrack(old(State()), true);
    }

    method Init(p: StatPhase)
      requires Valid() && p !in stack
      modifies this, stack, p
      ensures Valid() && stack == old(stack) + [p]
      ensures State() == SetTrack(Push(old(State())), old(p.trackMemory))
    {
      hide SetTrack, Push, Linked, View;
      ghost var line, start := stack, State();
      var off := 0;
      if current != null {
        TopOfView(line);
        PauseTracking();
        ResumeTracking();
        off := current.data.memCurrent;
      }
      ghost var tracking := State();
      p.parent := current;
      p.data := Data(off, 0, 0, 0, [], []);
      assert View(line) == tracking;
      LinkedPush(line, p);
      current := p;
      stack := stack + [p];
      PushSteps(start, tracking, p.trackMemory);
    }

    method Begin() returns (p: StatPhase)
      requires Valid()
      modifies this, stack
      ensures Valid() && fresh(p) && stack == old(stack) + [p] && State() == Step(old(State()), Op.Begin)
    {
      p := new StatPhase();
      p.Pause();
      Init(p);
      ghost var paused := State();
      p.Resume();
      assert State() == SetTrack(paused, true);
      TrackingAgain(old(State()));
    }

    method Finish(p: StatPhase)
      requires Valid() && p == current
      modifies this, stack
      ensures Valid() && stack == old(stack)[..|old(stack)| - 1]
      ensures p.data == old(p.data) && p.trackMemory == old(p.trackMemory)
      ensures State() == Pop(old(State()))
    {
      LinkedTop(stack);
      if p.parent != null {
        p.parent.data := p.parent.data.(children := p.parent.data.children + [p.data]);
      }
      current := p.parent;
      stack := stack[..|stack| - 1];
      assert State() == Pop(old(State()));
    }

    /** The destructor of the current phase. */
    method Destroy(p: StatPhase)
      requires Valid() && p == current
      modifies this, stack
      ensures Valid() && stack == old(stack)[..|old(stack)| - 1] && State() == Step(old(State()), End)
    {
      PopPaused(State());
      PauseTracking();
      Finish(p);
    }

    /** The recomputed offset of split. */
    method MoveOffset(p: StatPhase, off: int)
      requires Valid() && p == current && stack != []
      modifies p`data
      ensures Valid() && State() == SetOffset(old(State()), off)
    {
      p.data := p.data.(memOff := off);
      assert State() == SetOffset(old(State()), off);
    }

    method Split(p: StatPhase)
      requires Valid() && p == current
      modifies this, stack
      ensures Valid() && stack == old(stack) && State() == Step(old(State()), Op.Split)
    {
      hide Linked, Push, Pop, SetTrack, SetOffset, SplitTop;
      ghost var before := State();
      PopPaused(before);
      SplitSteps(before);
      assert before[|before| - 1].data == p.data;
      PauseTracking();
      LinkedTop(stack);
      var hasOld := p.parent != null;
      Finish(p);
      var oldData := p.data;
      Init(p);
      if hasOld {
        MoveOffset(p, oldData.memOff + oldData.memCurrent);
      }
      ResumeTracking();
    }
  }
}
