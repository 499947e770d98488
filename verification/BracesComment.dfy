/** The scanner as its comments describe it, and exactly when the code reads a text that way. */
module BracesComment {
  import opened Braces
  import opened Wrappers

  // ---------- one run of closing braces ----------

  /** The documented reading of a run of n closing braces: an open square bracket on top makes the run, or
      what is left of it, plain text. */
  function PlainCurly(stack: seq<int>, n: int): (r: (seq<int>, int))
    requires n >= 0
    ensures r.1 >= 0 && Weight(r.0) + r.1 <= Weight(stack) + n
    decreases |stack|
  {
    if stack == [] || stack[|stack| - 1] < 0 then (stack, n)
    else
      var rest, open := stack[..|stack| - 1], stack[|stack| - 1];
      if open == 0 then PlainCurly(rest, n)
      else if n >= open then if n - open <= 1 then (rest, n - open) else PlainCurly(rest, n - open)
      else
        assert (rest + [open - n])[..|rest|] == rest;
        (rest + [open - n], n)
  }

  /** Two or more of n closing braces get to an open square bracket. */
  predicate MeetsBracket(stack: seq<int>, n: int)
    decreases |stack|
  {
    stack != [] && n >= 2 &&
    var rest, open := stack[..|stack| - 1], stack[|stack| - 1];
    open < 0 || (open == 0 && MeetsBracket(rest, n)) || (open > 0 && n >= open && MeetsBracket(rest, n - open))
  }

  lemma {:induction false} CurlyNeverLengthens(stack: seq<int>, n: int)
    requires n >= 0
    ensures |CloseCurly(stack, n).0| <= |stack|
    decreases |stack|
  {
    if stack != [] {
      var rest, open := stack[..|stack| - 1], stack[|stack| - 1];
      if open == 0 {
        CurlyNeverLengthens(rest, n);
      } else if n - open > 1 {
        CurlyNeverLengthens(rest, n - open);
      }
    }
  }

  /** A run that meets an open square bracket is never plain text: it closes the bracket. */
  lemma BracketIsClosed(stack: seq<int>, n: int)
    requires n >= 0 && stack != [] && stack[|stack| - 1] < 0
    ensures |CloseCurly(stack, n).0| < |stack|
  {
    CurlyNeverLengthens(stack[..|stack| - 1], n - stack[|stack| - 1]);
  }

  /** The code reads a run as documented exactly if it does not get to an open square bracket. */
  lemma {:induction false} RunReadAsDocumented(stack: seq<int>, n: int)
    requires n >= 2
    ensures CloseCurly(stack, n) == PlainCurly(stack, n) <==> !MeetsBracket(stack, n)
    ensures MeetsBracket(stack, n) ==> |CloseCurly(stack, n).0| < |PlainCurly(stack, n).0|
    decreases |stack|
  {
    if stack != [] {
      var rest, open := stack[..|stack| - 1], stack[|stack| - 1];
      if open < 0 {
        BracketIsClosed(stack, n);
      } else if open == 0 {
        RunReadAsDocumented(rest, n);
      } else if n - open >= 2 {
        RunReadAsDocumented(rest, n - open);
      }
    }
  }

  // ---------- from one opener ----------

  /** Inner with the documented reading. */
  function PlainInner(text: string, ldelim: nat, start: nat, stack: seq<int>, end: nat): (r: Found)
    requires start < end <= |text| && Weight(stack) <= end - start
    ensures r.Yielded? ==> start == r.s <= r.e <= r.cur <= |text| && end < r.cur
    ensures r.Skipped? ==> end < r.cur <= |text|
    decreases |text| - end
  {
    match Search(text, end, ldelim, false)
    case None => Finished
    case Some(m) =>
      var n := m.end - m.start;
      if text[m.start] == '{' then PlainInner(text, ldelim, start, Push(stack, n), m.end)
      else if text[m.start] == '[' then PlainInner(text, ldelim, start, Push(stack, -n), m.end)
      else
        var curly := text[m.start] == '}';
        var closed := if curly then PlainCurly(stack, n) else CloseSquare(stack, n);
        if closed.0 == [] then Yielded(start, m.end - closed.1, m.end)
        else if curly && |closed.0| == 1 && 0 < closed.0[0] < ldelim then Skipped(m.end)
        else PlainInner(text, ldelim, start, closed.0, m.end)
  }

  /** Going on from here, the scan meets a run of closing braces that gets to an open square bracket. */
  predicate InnerMeets(text: string, ldelim: nat, stack: seq<int>, end: nat)
    requires end <= |text|
    decreases |text| - end
  {
    match Search(text, end, ldelim, false)
    case None => false
    case Some(m) =>
      var n := m.end - m.start;
      if text[m.start] == '{' then InnerMeets(text, ldelim, Push(stack, n), m.end)
      else if text[m.start] == '[' then InnerMeets(text, ldelim, Push(stack, -n), m.end)
      else if text[m.start] == '}' then
        MeetsBracket(stack, n) ||
        (var closed := CloseCurly(stack, n).0;
         closed != [] && !(|closed| == 1 && 0 < closed[0] < ldelim) && InnerMeets(text, ldelim, closed, m.end))
      else
        var closed := CloseSquare(stack, n).0;
        closed != [] && InnerMeets(text, ldelim, closed, m.end)
  }

  /** Going on from here, the code reads every run of closing braces as documented. */
  predicate InnerReads(text: string, ldelim: nat, stack: seq<int>, end: nat)
    requires end <= |text|
    decreases |text| - end
  {
    match Search(text, end, ldelim, false)
    case None => true
    case Some(m) =>
      var n := m.end - m.start;
      if text[m.start] == '{' then InnerReads(text, ldelim, Push(stack, n), m.end)
      else if text[m.start] == '[' then InnerReads(text, ldelim, Push(stack, -n), m.end)
      else if text[m.start] == '}' then
        CloseCurly(stack, n) == PlainCurly(stack, n) &&
        (var closed := CloseCurly(stack, n).0;
         closed == [] || (|closed| == 1 && 0 < closed[0] < ldelim) || InnerReads(text, ldelim, closed, m.end))
      else
        var closed := CloseSquare(stack, n).0;
        closed == [] || InnerReads(text, ldelim, closed, m.end)
  }

  lemma {:induction false} InnerDocumented(text: string, ldelim: nat, start: nat, stack: seq<int>, end: nat)
    requires start < end <= |text| && Weight(stack) <= end - start
    ensures InnerReads(text, ldelim, stack, end) <==> !InnerMeets(text, ldelim, stack, end)
    ensures InnerReads(text, ldelim, stack, end) ==>
              PlainInner(text, ldelim, start, stack, end) == Inner(text, ldelim, start, stack, end)
    decreases |text| - end
  {
    hide CloseCurly, PlainCurly, CloseSquare, MeetsBracket, Weight, RunLength, NextAt, Search;
    match Search(text, end, ldelim, false)
    case None =>
    case Some(m) =>
      var n := m.end - m.start;
      if text[m.start] == '{' {
        InnerDocumented(text, ldelim, start, Push(stack, n), m.end);
      } else if text[m.start] == '[' {
        InnerDocumented(text, ldelim, start, Push(stack, -n), m.end);
      } else if text[m.start] == '}' {
        RunReadAsDocumented(stack, n);
        InnerDocumented(text, ldelim, start, CloseCurly(stack, n).0, m.end);
      } else {
        InnerDocumented(text, ldelim, start, CloseSquare(stack, n).0, m.end);
      }
  }

  // ---------- whole texts ----------

  /** Everything the documented scanner yields from position cur on. */
  function PlainSpans(text: string, ldelim: nat, cur: nat): seq<Span>
    requires cur <= |text|
    decreases |text| - cur
  {
    match Search(text, cur, ldelim, true)
    case None => []
    case Some(m) =>
      match PlainInner(text, ldelim, m.start, OpenStack(text, m), m.end)
      case Finished => []
      case Yielded(s, e, next) => [Span(s, e)] + PlainSpans(text, ldelim, next)
      case Skipped(next) => PlainSpans(text, ldelim, next)
  }

  /** Scanning the text from cur on meets two or more closing braces while a square bracket is open on top. */
  predicate ScanMeetsBracket(text: string, ldelim: nat, cur: nat)
    requires cur <= |text|
    decreases |text| - cur
  {
    match Search(text, cur, ldelim, true)
    case None => false
    case Some(m) =>
      InnerMeets(text, ldelim, OpenStack(text, m), m.end) ||
      match Inner(text, ldelim, m.start, OpenStack(text, m), m.end)
      case Finished => false
      case Yielded(_, _, next) => ScanMeetsBracket(text, ldelim, next)
      case Skipped(next) => ScanMeetsBracket(text, ldelim, next)
  }

  /** Scanning the text from cur on reads every run of closing braces as documented. */
  predicate ScanReadsAsDocumented(text: string, ldelim: nat, cur: nat)
    requires cur <= |text|
    decreases |text| - cur
  {
    match Search(text, cur, ldelim, true)
    case None => true
    case Some(m) =>
      InnerReads(text, ldelim, OpenStack(text, m), m.end) &&
      match Inner(text, ldelim, m.start, OpenStack(text, m), m.end)
      case Finished => true
      case Yielded(_, _, next) => ScanReadsAsDocumented(text, ldelim, next)
      case Skipped(next) => ScanReadsAsDocumented(text, ldelim, next)
  }

  /** The code reads a text as documented exactly if no closing braces get to an open square bracket,
      and then it yields the documented spans. */
  lemma {:induction false} DocumentedUnlessBracketMet(text: string, ldelim: nat, cur: nat)
    requires cur <= |text|
    ensures ScanReadsAsDocumented(text, ldelim, cur) <==> !ScanMeetsBracket(text, ldelim, cur)
    ensures !ScanMeetsBracket(text, ldelim, cur) ==> Spans(text, ldelim, cur) == PlainSpans(text, ldelim, cur)
    decreases |text| - cur
  {
    hide Search, Inner, PlainInner, InnerReads, InnerMeets;
    match Search(text, cur, ldelim, true)
    case None =>
    case Some(m) =>
      InnerDocumented(text, ldelim, m.start, OpenStack(text, m), m.end);
      match Inner(text, ldelim, m.start, OpenStack(text, m), m.end)
      case Finished =>
      case Yielded(_, _, next) =>
        DocumentedUnlessBracketMet(text, ldelim, next);
      case Skipped(next) =>
        DocumentedUnlessBracketMet(text, ldelim, next);
  }

  /** No square bracket is open. */
  predicate NoBracket(stack: seq<int>) {
    forall i :: 0 <= i < |stack| ==> stack[i] >= 0
  }

  lemma {:induction false} CurlyKeepsNoBracket(stack: seq<int>, n: int)
    requires n >= 0 && NoBracket(stack)
    ensures NoBracket(CloseCurly(stack, n).0) && !MeetsBracket(stack, n)
    decreases |stack|
  {
    if stack != [] {
      var rest, open := stack[..|stack| - 1], stack[|stack| - 1];
      if open == 0 {
        CurlyKeepsNoBracket(rest, n);
      } else if n >= open {
        CurlyKeepsNoBracket(rest, n - open);
      }
    }
  }

  /** Square brackets do not count: curly braces are asked for, or the text has no two of them in a row. */
  predicate CurlyOnly(text: string, ldelim: nat) {
    ldelim > 0 || forall i :: 0 <= i < |text| - 1 ==> text[i] == '[' ==> text[i + 1] != '['
  }

  lemma {:induction false} CurlyOnlySearch(text: string, pos: nat, ldelim: nat, opening: bool)
    requires pos <= |text| && CurlyOnly(text, ldelim)
    ensures var r := Search(text, pos, ldelim, opening);
            r.Some? ==> text[r.value.start] != '[' && (opening ==> text[r.value.start] == '{')
    decreases |text| - pos
  {
    if pos < |text| {
      CurlyOnlySearch(text, pos + 1, ldelim, opening);
      assert text[pos] == '[' && ldelim == 0 ==> RunLength(text, pos, '[') < 2;
    }
  }

  lemma {:induction false} CurlyOnlyInner(text: string, ldelim: nat, stack: seq<int>, end: nat)
    requires end <= |text| && CurlyOnly(text, ldelim) && NoBracket(stack)
    ensures !InnerMeets(text, ldelim, stack, end)
    decreases |text| - end
  {
    hide CloseCurly, MeetsBracket, RunLength, NextAt, Search, CurlyOnly;
    CurlyOnlySearch(text, end, ldelim, false);
    match Search(text, end, ldelim, false)
    case None =>
    case Some(m) =>
      var n := m.end - m.start;
      if text[m.start] == '{' {
        CurlyOnlyInner(text, ldelim, Push(stack, n), m.end);
      } else if text[m.start] == '}' {
        CurlyKeepsNoBracket(stack, n);
        CurlyOnlyInner(text, ldelim, CloseCurly(stack, n).0, m.end);
      } else {
        assert CloseSquare(stack, n).0 == stack;
        CurlyOnlyInner(text, ldelim, stack, m.end);
      }
  }

  /** Scans for curly braces only, and scans of texts without double square brackets, are as documented. */
  lemma CurlyOnlyIsDocumented(text: string, ldelim: nat, cur: nat)
    requires cur <= |text| && CurlyOnly(text, ldelim)
    ensures ScanReadsAsDocumented(text, ldelim, cur) && Spans(text, ldelim, cur) == PlainSpans(text, ldelim, cur)
  {
    CurlyOnlyMeetsNone(text, ldelim, cur);
    DocumentedUnlessBracketMet(text, ldelim, cur);
  }

  lemma {:induction false} CurlyOnlyMeetsNone(text: string, ldelim: nat, cur: nat)
    requires cur <= |text| && CurlyOnly(text, ldelim)
    ensures !ScanMeetsBracket(text, ldelim, cur)
    decreases |text| - cur
  {
    hide Search, Inner, InnerMeets, CurlyOnly;
    CurlyOnlySearch(text, cur, ldelim, true);
    match Search(text, cur, ldelim, true)
    case None =>
    case Some(m) =>
      CurlyOnlyInner(text, ldelim, OpenStack(text, m), m.end);
      match Inner(text, ldelim, m.start, OpenStack(text, m), m.end)
      case Finished =>
      case Yielded(_, _, next) => CurlyOnlyMeetsNone(text, ldelim, next);
      case Skipped(next) => CurlyOnlyMeetsNone(text, ldelim, next);
  }

  /** The documented scanner yields nothing for the text whose brackets the code closes with braces. */
  lemma BracketsReadOtherwise()
    ensures Spans(BRACKETS, 0, 0) == [Span(0, 0)] && PlainSpans(BRACKETS, 0, 0) == []
    ensures ScanMeetsBracket(BRACKETS, 0, 0)
  {
    hide RunLength, Search, CloseCurly, Weight;
    BracesCloseBrackets();
    BracketMatches();
    BracketStack();
    NoMoreBraces();
    assert PlainCurly([-2], 2) == ([-2], 2) && MeetsBracket([-2], 2);
    assert PlainInner(BRACKETS, 0, 0, [-2], 4) == Finished;
    assert PlainInner(BRACKETS, 0, 0, [-2], 2) == Finished;
  }

  lemma NoMoreBraces()
    ensures Search(BRACKETS, 4, 0, false) == None
  {
  }
}
