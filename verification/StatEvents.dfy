/** What the phases hold, told from the operations of a run alone. */
module StatEvents {
  import opened StatPhases

  // ---------- reading a run ----------

  /** The number of open phases after the operations. */
  function Level(ops: seq<Op>): nat {
    if ops == [] then 0
    else
      var before := Level(ops[..|ops| - 1]);
      match ops[|ops| - 1]
      case Begin => before + 1
      case End => if before == 0 then 0 else before - 1
      case _ => before
  }

  /** Whether the current phase tracks: not paused since it last became the current one. */
  predicate Tracking(ops: seq<Op>) {
    ops != [] &&
    match ops[|ops| - 1]
    case PauseTracking => false
    case Track(_) => Tracking(ops[..|ops| - 1])
    case _ => true
  }

  /** Operation b opened the phase that is now phase i from the root. */
  predicate Began(ops: seq<Op>, i: nat, b: nat) {
    && b < |ops| && (ops[b].Begin? || ops[b].Split?) && Level(ops[..b + 1]) == i + 1
    && forall j :: b < j < |ops| ==> StaysOpen(ops, i, j)
  }

  /** Operation j does not end phase i. */
  predicate StaysOpen(ops: seq<Op>, i: nat, j: nat)
    requires j < |ops|
  {
    Level(ops[..j + 1]) > i && (ops[j].Split? ==> Level(ops[..j + 1]) > i + 1)
  }

  /** Allocated minus freed bytes of the events tracked behind operation b. */
  function Net(ops: seq<Op>, b: nat): int {
    if |ops| <= b + 1 then 0
    else
      var rest, last := ops[..|ops| - 1], ops[|ops| - 1];
      Net(rest, b)
      + match last
        case Track(Allocated(n)) => if Tracking(rest) then n else 0
        case Track(Freed(n)) => if Tracking(rest) then 0 - n as int else 0
        case _ => 0
  }

  /** The highest that balance has been since operation b. */
  function HighestNet(ops: seq<Op>, b: nat): int {
    if |ops| <= b + 1 then 0 else Max(HighestNet(ops[..|ops| - 1], b), Net(ops, b))
  }

  // ---------- one event ----------

  /** With the current phase tracking, an allocation raises and a deallocation lowers the memory of every open
      phase by its bytes, and only an allocation can raise a peak; otherwise an event changes nothing. */
  lemma EventReachesAll(ops: seq<Op>, n: nat, i: nat)
    requires i < |Run(ops)|
    ensures var s, a, f := Run(ops), Run(ops + [Track(Allocated(n))]), Run(ops + [Track(Freed(n))]);
            && |a| == |f| == |s|
            && if s[|s| - 1].track then
                 && a[i].data.memCurrent == s[i].data.memCurrent + n
                 && f[i].data.memCurrent == s[i].data.memCurrent - n
                 && a[i].data.memPeak == Max(s[i].data.memPeak, s[i].data.memCurrent + n)
                 && f[i].data.memPeak == s[i].data.memPeak
               else a == f == s
  {
    var s := Run(ops);
    RunStep(ops, Track(Allocated(n)));
    RunStep(ops, Track(Freed(n)));
    if s[|s| - 1].track {
      EventCounts(ops, Allocated(n), i);
      EventCounts(ops, Freed(n), i);
    }
  }

  lemma RunStep(ops: seq<Op>, op: Op)
    ensures Run(ops + [op]) == Step(Run(ops), op)
  {
    assert (ops + [op])[..|ops|] == ops;
  }

  lemma EventCounts(ops: seq<Op>, e: Event, i: nat)
    requires i < |Run(ops)| && Run(ops)[|Run(ops)| - 1].track
    ensures var s, t := Run(ops), Step(Run(ops), Track(e));
            && |t| == |s| && t[i].track == s[i].track
            && t[i].data.memCurrent == s[i].data.memCurrent + (if e.Allocated? then e.n else 0 - e.n)
            && (e.Allocated? ==> t[i].data.memPeak == Max(s[i].data.memPeak, t[i].data.memCurrent))
            && (e.Freed? ==> t[i].data.memPeak == s[i].data.memPeak)
  {
    var s := Run(ops);
    RunKeepsInv(ops);
    forall j | 0 <= j < |s|
      ensures s[j].track
    {
      assert PhaseOk(s, j);
    }
    TrackReachesAll(s, e);
  }

  // ---------- whole runs ----------

  /** The stack has as many phases as are open, and the current one tracks as the operations say. */
  lemma {:induction false} StackOfRun(ops: seq<Op>)
    ensures |Run(ops)| == Level(ops)
    ensures Run(ops) != [] ==> Run(ops)[|Run(ops)| - 1].track == Tracking(ops)
  {
    hide TrackUp;
    if ops != [] {
      var rest, op := ops[..|ops| - 1], ops[|ops| - 1];
      StackOfRun(rest);
      RunKeepsInv(rest);
      var s := Run(rest);
      assert ops == rest + [op];
      match op {
        case Track(e) => TrackKeepsFlags(s, e);
        case End =>
          if |s| > 1 {
            assert PhaseOk(s, |s| - 2);
          }
        case _ =>
      }
    }
  }

  lemma {:induction false} TrackKeepsFlags(s: Stack, e: Event)
    ensures forall i :: 0 <= i < |s| ==> TrackUp(s, e)[i].track == s[i].track
  {
    if s != [] {
      TrackKeepsFlags(s[..|s| - 1], e);
    }
  }

  lemma BeganEarlier(ops: seq<Op>, i: nat, b: nat)
    requires Began(ops, i, b) && b < |ops| - 1
    ensures Began(ops[..|ops| - 1], i, b)
  {
    hide Level;
    var rest := ops[..|ops| - 1];
    assert rest[..b + 1] == ops[..b + 1];
    forall j | b < j < |rest|
      ensures StaysOpen(rest, i, j)
    {
      assert rest[..j + 1] == ops[..j + 1] && StaysOpen(ops, i, j);
    }
  }

  /** Every open phase was opened by some operation. */
  lemma {:induction false} EveryPhaseBegan(ops: seq<Op>, i: nat) returns (b: nat)
    requires i < Level(ops)
    ensures Began(ops, i, b)
  {
    var rest, op, last := ops[..|ops| - 1], ops[|ops| - 1], |ops| - 1;
    assert ops[..|ops|] == ops;
    if (op.Begin? || op.Split?) && i + 1 == Level(ops) {
      b := last;
    } else {
      b := EveryPhaseBegan(rest, i);
      hide Level;
      assert ops[..b + 1] == rest[..b + 1];
      assert StaysOpen(ops, i, last);
      forall j | b < j < last
        ensures StaysOpen(ops, i, j)
      {
        assert StaysOpen(rest, i, j) && rest[..j + 1] == ops[..j + 1];
      }
    }
  }

  /** In every run, the memory of an open phase is the balance of the events tracked since it began, and its peak
      the highest that this balance has been. */
  lemma {:induction false} MemoryIsNet(ops: seq<Op>, i: nat, b: nat)
    requires i < |Run(ops)| && Began(ops, i, b)
    ensures Run(ops)[i].data.memCurrent == Net(ops, b)
    ensures Run(ops)[i].data.memPeak == HighestNet(ops, b)
  {
    hide TrackUp, Inv, Level, Run, Step;
    var rest, op, last := ops[..|ops| - 1], ops[|ops| - 1], |ops| - 1;
    assert ops == rest + [op] && ops[..|ops|] == ops;
    StackOfRun(ops);
    StackOfRun(rest);
    var s := Run(rest);
    RunKeepsInv(rest);
    if b == last {
      OpenedNow(ops, i);
    } else {
      BeganEarlier(ops, i, b);
      assert StaysOpen(ops, i, last);
      assert ops[..last] == rest && (b < last - 1 ==> StaysOpen(ops, i, last - 1));
      StayedOpen(rest, op, i);
      MemoryIsNet(rest, i, b);
      HighestIsHigh(rest, b);
      if op.Track? && s[|s| - 1].track {
        EventCounts(rest, op.event, i);
        RunStep(rest, op);
      } else {
        SameMemory(rest, op, i);
      }
    }
  }

  lemma {:induction false} HighestIsHigh(ops: seq<Op>, b: nat)
    ensures HighestNet(ops, b) >= Net(ops, b)
  {
  }

  /** A phase that an operation opens holds nothing. */
  lemma OpenedNow(ops: seq<Op>, i: nat)
    requires i + 1 == Level(ops) == |Run(ops)| && ops != [] && (ops[|ops| - 1].Begin? || ops[|ops| - 1].Split?)
    ensures Run(ops)[i].data.memCurrent == Run(ops)[i].data.memPeak == 0
  {
  }

  lemma StayedOpen(rest: seq<Op>, op: Op, i: nat)
    requires i < Level(rest + [op]) && (op.Split? ==> i + 1 < Level(rest + [op]))
    requires op.Begin? ==> i < Level(rest)
    ensures i < Level(rest) && (op.End? || op.Split? ==> i + 1 < Level(rest))
  {
    assert (rest + [op])[..|rest|] == rest;
  }

  /** Operations other than tracked events leave the memory of the phases that stay open. */
  lemma SameMemory(rest: seq<Op>, op: Op, i: nat)
    requires i < |Run(rest)| && (op.Track? ==> !Run(rest)[|Run(rest)| - 1].track)
    requires op.End? || op.Split? ==> i + 1 < |Run(rest)|
    ensures var s, t := Run(rest), Run(rest + [op]);
            i < |t| && t[i].data.memCurrent == s[i].data.memCurrent && t[i].data.memPeak == s[i].data.memPeak
  {
    hide Run;
    RunStep(rest, op);
  }

  /** A phase that ends goes to its parent with its balance, behind those that ended before. */
  lemma EndedWithNet(ops: seq<Op>, b: nat)
    requires Level(ops) > 1 && Began(ops, Level(ops) - 1, b)
    ensures var s, t := Run(ops), Run(ops + [End]);
            && |t| == |s| - 1 && |t| > 0
            && var before, now := s[|t| - 1].data.children, t[|t| - 1].data.children;
               now == before + [s[|s| - 1].data]
               && now[|before|].memCurrent == Net(ops, b) && now[|before|].memPeak == HighestNet(ops, b)
  {
    hide Began, Net, HighestNet, Level;
    StackOfRun(ops);
    RunStep(ops, End);
    MemoryIsNet(ops, Level(ops) - 1, b);
  }

  /** Freeing the bytes that were just allocated leaves every open phase with the memory it had. */
  lemma FreedAgain(ops: seq<Op>, n: nat, i: nat)
    requires i < |Run(ops)|
    ensures var t := Run(ops + [Track(Allocated(n))] + [Track(Freed(n))]);
            |t| == |Run(ops)| && t[i].data.memCurrent == Run(ops)[i].data.memCurrent
  {
    hide Run, Step;
    EventReachesAll(ops, n, i);
    EventReachesAll(ops + [Track(Allocated(n))], n, i);
    RunStep(ops, Track(Allocated(n)));
    if Run(ops)[|Run(ops)| - 1].track {
      EventCounts(ops, Allocated(n), |Run(ops)| - 1);
    }
  }
}
