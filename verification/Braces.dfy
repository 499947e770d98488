/** The brace scanner and the splitting of template parameters at top-level bars. */
module Braces {
  import opened Wrappers

  // ---------- runs of braces ----------

  /** The length of the run of c at position i. */
  function RunLength(text: string, i: nat, c: char): (n: nat)
    requires i <= |text|
    ensures i + n <= |text|
    decreases |text| - i
  {
    if i == |text| || text[i] != c then 0 else 1 + RunLength(text, i + 1, c)
  }

  /** The least run length that counts: any opener for ldelim 0, else curly ones of that length. */
  predicate OpensAt(text: string, i: nat, ldelim: nat)
    requires i < |text|
  {
    var n := RunLength(text, i, text[i]);
    if ldelim == 0 then (text[i] == '{' || text[i] == '[') && n >= 2
    else text[i] == '{' && n >= ldelim
  }

  predicate NextAt(text: string, i: nat, ldelim: nat)
    requires i < |text|
  {
    var n := RunLength(text, i, text[i]);
    n >= 2 && (text[i] == '{' || text[i] == '}' || (ldelim == 0 && (text[i] == '[' || text[i] == ']')))
  }

  datatype Match = Match(start: nat, end: nat)

  function MatchAt(text: string, i: nat): Match
    requires i < |text|
  {
    Match(i, i + RunLength(text, i, text[i]))
  }

  /** reOpen.search(text, pos) and reNext.search(text, pos). */
  function Search(text: string, pos: nat, ldelim: nat, opening: bool): (r: Option<Match>)
    requires pos <= |text|
    ensures r.Some? ==> pos <= r.value.start < r.value.end <= |text|
    ensures r.Some? && (!opening || ldelim == 0) ==> r.value.start + 2 <= r.value.end
    decreases |text| - pos
  {
    if pos == |text| then None
    else if (if opening then OpensAt(text, pos, ldelim) else NextAt(text, pos, ldelim)) then
      Some(MatchAt(text, pos))
    else Search(text, pos + 1, ldelim, opening)
  }

  // ---------- the stack ----------

  function Abs(x: int): nat { if x < 0 then -x else x }

  /** Open brackets hold this many characters. */
  function Weight(stack: seq<int>): nat {
    if stack == [] then 0 else Weight(stack[..|stack| - 1]) + Abs(stack[|stack| - 1])
  }

  /** Closing a run of n curly braces: the stack and the braces left over. Entries of square brackets are
      negative, so unmatched ones lengthen the run. */
  function CloseCurly(stack: seq<int>, n: int): (r: (seq<int>, int))
    requires n >= 0
    ensures r.1 >= 0 && Weight(r.0) + r.1 <= Weight(stack) + n
    decreases |stack|
  {
    if stack == [] then (stack, n)
    else
      var rest, open := stack[..|stack| - 1], stack[|stack| - 1];
      if open == 0 then CloseCurly(rest, n)
      else if n >= open then if n - open <= 1 then (rest, n - open) else CloseCurly(rest, n - open)
      else
        assert (rest + [open - n])[..|rest|] == rest;
        (rest + [open - n], n)
  }

  function CloseSquare(stack: seq<int>, n: int): (r: (seq<int>, int))
    requires n >= 0
    ensures r.1 >= 0 && Weight(r.0) + r.1 <= Weight(stack) + n
    decreases |stack|
  {
    if stack == [] || stack[|stack| - 1] >= 0 then (stack, n)
    else
      var rest, open := stack[..|stack| - 1], -stack[|stack| - 1];
      if n >= open then if n - open <= 1 then (rest, n - open) else CloseSquare(rest, n - open)
      else
        assert (rest + [n - open])[..|rest|] == rest;
        (rest + [n - open], n)
  }

  // ---------- the scanner ----------

  /** A yielded pair and the position the scan goes on from. */
  datatype Found = Finished | Yielded(s: nat, e: nat, cur: nat) | Skipped(cur: nat)

  datatype Span = Span(s: nat, e: nat)

  /** From an opener at start, with its stack, to the brace that closes it. */
  function Inner(text: string, ldelim: nat, start: nat, stack: seq<int>, end: nat): (r: Found)
    requires start < end <= |text| && Weight(stack) <= end - start
    ensures r.Yielded? ==> start == r.s <= r.e <= r.cur <= |text| && end < r.cur
    ensures r.Skipped? ==> end < r.cur <= |text|
    decreases |text| - end
  {
    match Search(text, end, ldelim, false)
    case None => Finished
    case Some(m) =>
      var n := m.end - m.start;
      if text[m.start] == '{' then Inner(text, ldelim, start, Push(stack, n), m.end)
      else if text[m.start] == '[' then Inner(text, ldelim, start, Push(stack, -n), m.end)
      else if text[m.start] == '}' then
        var closed := CloseCurly(stack, n);
        if closed.0 == [] then Yielded(start, m.end - closed.1, m.end)
        else if |closed.0| == 1 && 0 < closed.0[0] < ldelim then Skipped(m.end)
        else Inner(text, ldelim, start, closed.0, m.end)
      else
        var closed := CloseSquare(stack, n);
        if closed.0 == [] then Yielded(start, m.end - closed.1, m.end)
        else Inner(text, ldelim, start, closed.0, m.end)
  }

  function Push(stack: seq<int>, x: int): (r: seq<int>)
    ensures Weight(r) == Weight(stack) + Abs(x)
  {
    assert (stack + [x])[..|stack|] == stack;
    stack + [x]
  }

  function OpenStack(text: string, m: Match): (r: seq<int>)
    requires m.start < m.end <= |text|
    ensures Weight(r) == m.end - m.start
  {
    var n := m.end - m.start;
    Push([], if text[m.start] == '{' then n else -n)
  }

  /** Everything findMatchingBraces yields from position cur on. */
  function Spans(text: string, ldelim: nat, cur: nat): seq<Span>
    requires cur <= |text|
    decreases |text| - cur
  {
    match Search(text, cur, ldelim, true)
    case None => []
    case Some(m) =>
      match Inner(text, ldelim, m.start, OpenStack(text, m), m.end)
      case Finished => []
      case Yielded(s, e, next) => [Span(s, e)] + Spans(text, ldelim, next)
      case Skipped(next) => Spans(text, ldelim, next)
  }

  /** Spans in order, one after the other, from position cur on. */
  predicate Ordered(spans: seq<Span>, cur: nat, size: nat) {
    spans == [] ||
    (cur <= spans[0].s <= spans[0].e <= size && Ordered(spans[1..], spans[0].e, size))
  }

  /** For every text the scanner yields spans one after the other inside the text. */
  lemma {:induction false} SpansOrdered(text: string, ldelim: nat, cur: nat)
    requires cur <= |text|
    ensures Ordered(Spans(text, ldelim, cur), cur, |text|)
    decreases |text| - cur
  {
    hide Search, Inner;
    match Search(text, cur, ldelim, true)
    case None =>
    case Some(m) =>
      match Inner(text, ldelim, m.start, OpenStack(text, m), m.end)
      case Finished =>
      case Yielded(s, e, next) =>
        SpansOrdered(text, ldelim, next);
      case Skipped(next) =>
        SpansOrdered(text, ldelim, next);
  }

  // ---------- the loops of the scanner ----------

  /** The popping loop for closing curly braces. */
  method PopCurly(stack0: seq<int>, n0: nat) returns (stack: seq<int>, n: int)
    ensures (stack, n) == CloseCurly(stack0, n0)
  {
    stack, n := stack0, n0;
    while |stack| > 0
      invariant n >= 0 && CloseCurly(stack0, n0) == CloseCurly(stack, n)
      decreases |stack|
    {
      var open := stack[|stack| - 1];
      stack := stack[..|stack| - 1];
      if open == 0 {
        continue;
      }
      if n >= open {
        n := n - open;
        if n <= 1 {
          return;
        }
      } else {
        stack := stack + [open - n];
        return;
      }
    }
  }

  method PopSquare(stack0: seq<int>, n0: nat) returns (stack: seq<int>, n: int)
    ensures (stack, n) == CloseSquare(stack0, n0)
  {
    stack, n := stack0, n0;
    while |stack| > 0 && stack[|stack| - 1] < 0
      invariant n >= 0 && CloseSquare(stack0, n0) == CloseSquare(stack, n)
      decreases |stack|
    {
      var open := -stack[|stack| - 1];
      stack := stack[..|stack| - 1];
      if n >= open {
        n := n - open;
        if n <= 1 {
          return;
        }
      } else {
        stack := stack + [n - open];
        return;
      }
    }
  }

  /** The inner loop: from an opening match to a yield, a skip or the end of the text. */
  method ScanFrom(text: string, ldelim: nat, m1: Match) returns (r: Found)
    requires m1.start < m1.end <= |text|
    ensures r == Inner(text, ldelim, m1.start, OpenStack(text, m1), m1.end)
  {
    hide Search, Weight, CloseCurly, CloseSquare, RunLength;
    var stack, end := OpenStack(text, m1), m1.end;
    while true
      invariant m1.start < end <= |text| && Weight(stack) <= end - m1.start
      invariant Inner(text, ldelim, m1.start, OpenStack(text, m1), m1.end) == Inner(text, ldelim, m1.start, stack, end)
      decreases |text| - end
    {
      var m2 := Search(text, end, ldelim, false);
      if m2.None? {
        return Finished;
      }
      end := m2.value.end;
      var n := m2.value.end - m2.value.start;
      var brac := text[m2.value.start];
      if brac == '{' {
        stack := Push(stack, n);
      } else if brac == '}' {
        var left;
        stack, left := PopCurly(stack, n);
        if |stack| == 0 {
          return Yielded(m1.start, end - left, end);
        } else if |stack| == 1 && 0 < stack[0] < ldelim {
          return Skipped(end);
        }
      } else if brac == '[' {
        stack := Push(stack, -n);
      } else {
        var left;
        stack, left := PopSquare(stack, n);
        if |stack| == 0 {
          return Yielded(m1.start, end - left, end);
        }
      }
    }
  }

  method FindMatchingBraces(text: string, ldelim: nat) returns (spans: seq<Span>)
    ensures spans == Spans(text, ldelim, 0)
  {
    hide Search, Inner;
    spans := [];
    var cur := 0;
    assert spans + Spans(text, ldelim, 0) == Spans(text, ldelim, 0);
    while true
      invariant cur <= |text| && spans + Spans(text, ldelim, cur) == Spans(text, ldelim, 0)
      decreases |text| - cur
    {
      var m1 := Search(text, cur, ldelim, true);
      if m1.None? {
        return;
      }
      var found := ScanFrom(text, ldelim, m1.value);
      match found {
        case Finished => return;
        case Yielded(s, e, next) =>
          assert spans + ([Span(s, e)] + Spans(text, ldelim, next)) == spans + [Span(s, e)] + Spans(text, ldelim, next);
          spans := spans + [Span(s, e)];
          cur := next;
        case Skipped(next) => cur := next;
      }
    }
  }

  // ---------- parts ----------

  const SEP: char := '|'

  predicate Inside(spans: seq<Span>, i: int) {
    exists k :: 0 <= k < |spans| && spans[k].s <= i < spans[k].e
  }

  /** Adds one character to a list of parts: a separator starts a new part. */
  function Extend(parts: seq<string>, c: char, separates: bool): (r: seq<string>)
    requires parts != []
    ensures r != []
  {
    if separates then parts + [""] else parts[|parts| - 1 := parts[|parts| - 1] + [c]]
  }

  /** What the splitting means: the bars outside the spans separate, everything else is kept. */
  function PartsTo(text: string, spans: seq<Span>, n: nat): (r: seq<string>)
    requires n <= |text|
    ensures r != []
  {
    if n == 0 then [""]
    else Extend(PartsTo(text, spans, n - 1), text[n - 1], text[n - 1] == SEP && !Inside(spans, n - 1))
  }

  function Join(parts: seq<string>): string
    requires parts != []
  {
    if |parts| == 1 then parts[0] else Join(parts[..|parts| - 1]) + [SEP] + parts[|parts| - 1]
  }

  /** Joining the parts with bars gives the text back. */
  lemma {:induction false} JoinParts(text: string, spans: seq<Span>, n: nat)
    requires n <= |text|
    ensures Join(PartsTo(text, spans, n)) == text[..n]
  {
    if n > 0 {
      JoinParts(text, spans, n - 1);
      assert text[..n] == text[..n - 1] + [text[n - 1]];
    }
  }

  /** str.split at the bar. */
  function Split(s: string): (r: seq<string>)
    ensures r != []
  {
    if s == "" then [""] else Extend(Split(s[..|s| - 1]), s[|s| - 1], s[|s| - 1] == SEP)
  }

  /** The first of the new parts continues the last of the old ones. */
  function Glue(parts: seq<string>, more: seq<string>): (r: seq<string>)
    requires parts != [] && more != []
    ensures r != []
  {
    parts[|parts| - 1 := parts[|parts| - 1] + more[0]] + more[1..]
  }

  lemma GlueNothing(parts: seq<string>)
    requires parts != []
    ensures Glue(parts, [""]) == parts
  {
    assert parts[|parts| - 1] + "" == parts[|parts| - 1];
  }

  lemma GlueExtend(parts: seq<string>, more: seq<string>, c: char, separates: bool)
    requires parts != [] && more != []
    ensures Glue(parts, Extend(more, c, separates)) == Extend(Glue(parts, more), c, separates)
  {
    var last := |parts| - 1;
    if !separates {
      if |more| == 1 {
        assert parts[last] + (more[0] + [c]) == parts[last] + more[0] + [c];
      } else {
        assert Extend(more, c, false)[1..] == more[1..][|more| - 2 := more[|more| - 1] + [c]];
      }
    } else {
      assert Extend(more, c, true)[1..] == more[1..] + [""];
    }
  }

  /** A stretch outside all spans is split at its bars. */
  lemma {:induction false} PartsOutside(text: string, spans: seq<Span>, a: nat, b: nat)
    requires a <= b <= |text| && forall i :: a <= i < b ==> !Inside(spans, i)
    ensures PartsTo(text, spans, b) == Glue(PartsTo(text, spans, a), Split(text[a..b]))
    decreases b - a
  {
    hide Inside, Glue, Extend;
    var s := text[a..b];
    if a == b {
      assert s == "";
      GlueNothing(PartsTo(text, spans, a));
    } else {
      PartsOutside(text, spans, a, b - 1);
      assert s[..|s| - 1] == text[a..b - 1] && s[|s| - 1] == text[b - 1];
      GlueExtend(PartsTo(text, spans, a), Split(text[a..b - 1]), text[b - 1], text[b - 1] == SEP);
    }
  }

  /** A span goes into one part whole. */
  lemma {:induction false} PartsInside(text: string, spans: seq<Span>, a: nat, b: nat)
    requires a <= b <= |text| && forall i :: a <= i < b ==> Inside(spans, i)
    ensures var p := PartsTo(text, spans, a);
            PartsTo(text, spans, b) == p[|p| - 1 := p[|p| - 1] + text[a..b]]
    decreases b - a
  {
    hide Inside;
    var p := PartsTo(text, spans, a);
    if a < b {
      PartsInside(text, spans, a, b - 1);
      assert p[|p| - 1] + text[a..b - 1] + [text[b - 1]] == p[|p| - 1] + text[a..b];
    } else {
      assert p[|p| - 1] + text[a..b] == p[|p| - 1];
    }
  }

  /** In ordered spans, span k covers its own stretch, and none covers the gap before it. */
  lemma {:induction false} OrderedCover(spans: seq<Span>, cur: nat, size: nat, k: nat)
    requires Ordered(spans, cur, size) && k <= |spans|
    ensures forall i :: 0 <= i < k ==> cur <= spans[i].s <= spans[i].e <= size
    ensures k < |spans| ==> Gap(spans, cur, k) <= spans[k].s <= spans[k].e <= size
    ensures forall i :: 0 <= i < k ==> spans[i].e <= Gap(spans, cur, k)
    ensures forall i :: k <= i < |spans| ==> Gap(spans, cur, k) <= spans[i].s <= spans[i].e <= size
  {
    if spans != [] && k > 0 {
      OrderedCover(spans[1..], spans[0].e, size, k - 1);
      assert forall i :: 1 <= i < |spans| ==> spans[i] == spans[1..][i - 1];
    } else if spans != [] {
      OrderedCover(spans[1..], spans[0].e, size, 0);
      assert forall i :: 1 <= i < |spans| ==> spans[i] == spans[1..][i - 1];
    }
  }

  /** The end of the span before span k. */
  function Gap(spans: seq<Span>, cur: nat, k: nat): nat
    requires k <= |spans|
  {
    if k == 0 then cur else spans[k - 1].e
  }

  method SplitParts(paramsList: string) returns (parameters: seq<string>)
    ensures parameters == PartsTo(paramsList, Spans(paramsList, 0, 0), |paramsList|)
    ensures parameters != [] && Join(parameters) == paramsList
  {
    hide Ordered, PartsTo, Spans, Split, Inside;
    parameters := [];
    var cur: nat := 0;
    var spans := FindMatchingBraces(paramsList, 0);
    SpansOrdered(paramsList, 0, 0);
    StartParts(paramsList, spans);
    for k := 0 to |spans|
      invariant cur == Gap(spans, 0, k) <= |paramsList|
      invariant if k == 0 then parameters == [] else parameters == PartsTo(paramsList, spans, cur)
    {
      var s, e := spans[k].s, spans[k].e;
      SpanCover(spans, |paramsList|, k);
      PartsOutside(paramsList, spans, cur, s);
      PartsInside(paramsList, spans, s, e);
      var par := Split(paramsList[cur..s]);
      parameters := AppendParts(parameters, par);
      parameters := parameters[|parameters| - 1 := parameters[|parameters| - 1] + paramsList[s..e]];
      cur := e;
    }
    SpanCover(spans, |paramsList|, |spans|);
    PartsOutside(paramsList, spans, cur, |paramsList|);
    assert paramsList[cur..] == paramsList[cur..|paramsList|];
    var par := Split(paramsList[cur..]);
    parameters := AppendParts(parameters, par);
    JoinParts(paramsList, spans, |paramsList|);
    assert paramsList[..|paramsList|] == paramsList;
  }

  /** The portion before the first bar belongs to the previous parameter, if there is one. */
  method AppendParts(parameters: seq<string>, par: seq<string>) returns (r: seq<string>)
    requires par != []
    ensures r == Glue(if parameters == [] then [""] else parameters, par)
  {
    if |parameters| > 0 {
      r := parameters[|parameters| - 1 := parameters[|parameters| - 1] + par[0]];
      if |par| > 1 {
        r := r + par[1..];
      }
    } else {
      r := par;
      assert "" + par[0] == par[0];
    }
  }

  lemma StartParts(text: string, spans: seq<Span>)
    ensures PartsTo(text, spans, 0) == [""]
  {
  }

  lemma SpanCover(spans: seq<Span>, size: nat, k: nat)
    requires Ordered(spans, 0, size) && k <= |spans|
    ensures k < |spans| ==> Gap(spans, 0, k) <= spans[k].s <= spans[k].e <= size
    ensures forall i :: Gap(spans, 0, k) <= i < (if k < |spans| then spans[k].s else size) ==> !Inside(spans, i)
    ensures k < |spans| ==> forall i :: spans[k].s <= i < spans[k].e ==> Inside(spans, i)
  {
    hide Ordered;
    OrderedCover(spans, 0, size, k);
    if k < |spans| {
      OrderedCover(spans, 0, size, k + 1);
    }
  }

  /** The scanner's comments call closing braces inside square brackets plain text; the code closes
      the brackets with them, here with an empty span at the start. */
  lemma BracesCloseBrackets()
    ensures Spans(BRACKETS, 0, 0) == [Span(0, 0)]
  {
    hide RunLength, Search, CloseCurly, Weight;
    BracketMatches();
    BracketStack();
    assert Inner(BRACKETS, 0, 0, [-2], 2) == Yielded(0, 0, 4);
    assert Spans(BRACKETS, 0, 4) == [];
  }

  const BRACKETS: string := "[[}}"

  lemma BracketMatches()
    ensures Search(BRACKETS, 0, 0, true) == Some(Match(0, 2))
    ensures Search(BRACKETS, 2, 0, false) == Some(Match(2, 4))
    ensures Search(BRACKETS, 4, 0, true) == None
  {
    assert RunLength(BRACKETS, 4, '}') == 0 && RunLength(BRACKETS, 3, '}') == 1 && RunLength(BRACKETS, 2, '}') == 2;
    assert RunLength(BRACKETS, 2, '[') == 0 && RunLength(BRACKETS, 1, '[') == 1 && RunLength(BRACKETS, 0, '[') == 2;
  }

  lemma BracketStack()
    ensures OpenStack(BRACKETS, Match(0, 2)) == [-2]
    ensures Weight([-2]) <= 2
    ensures CloseCurly([-2], 2) == ([], 4)
  {
    assert [-2][..0] == [];
  }
}
