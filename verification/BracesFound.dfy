/** What the brace scanner finds. */
module BracesFound {
  import opened Braces
  import opened Sequences
  import opened Wrappers

  // ---------- the search for a run ----------

  /** The characters that a search asks for: without a given length all openers, or all four kinds; otherwise
      curly ones only. */
  predicate Asked(c: char, ldelim: nat, opening: bool) {
    c == '{' || (!opening && c == '}') || (ldelim == 0 && (c == '[' || (!opening && c == ']')))
  }

  /** The shortest run that a search takes. */
  function Least(ldelim: nat, opening: bool): nat {
    if opening && ldelim > 0 then ldelim else 2
  }

  /** From i on, n characters c. */
  predicate Repeats(text: string, i: nat, n: nat, c: char) {
    i + n <= |text| && forall k :: i <= k < i + n ==> text[k] == c
  }

  /** A run that a search takes begins at i. */
  predicate Takes(text: string, i: nat, ldelim: nat, opening: bool) {
    i < |text| && Asked(text[i], ldelim, opening) && Repeats(text, i, Least(ldelim, opening), text[i])
  }

  lemma {:induction false} RunExact(text: string, i: nat, c: char)
    requires i <= |text|
    ensures var n := RunLength(text, i, c);
            Repeats(text, i, n, c) && (i + n < |text| ==> text[i + n] != c)
    ensures forall m: nat :: Repeats(text, i, m, c) <==> m <= RunLength(text, i, c)
    decreases |text| - i
  {
    if i < |text| && text[i] == c {
      RunExact(text, i + 1, c);
      var n := RunLength(text, i + 1, c);
      assert Repeats(text, i, n + 1, c);
    }
    var n := RunLength(text, i, c);
    forall m: nat | n < m && i + m <= |text|
      ensures !Repeats(text, i, m, c)
    {
      assert text[i + n] != c;
    }
  }

  /** A search returns the leftmost place where enough characters of one of the asked kinds follow each other,
      up to where they end; None if there is no such place. */
  lemma {:induction false} SearchLeftmost(text: string, pos: nat, ldelim: nat, opening: bool)
    requires pos <= |text|
    ensures var r := Search(text, pos, ldelim, opening);
            match r
            case None => forall i :: pos <= i < |text| ==> !Takes(text, i, ldelim, opening)
            case Some(m) =>
              && pos <= m.start < m.end <= |text| && Takes(text, m.start, ldelim, opening)
              && (forall i :: pos <= i < m.start ==> !Takes(text, i, ldelim, opening))
              && Repeats(text, m.start, m.end - m.start, text[m.start])
              && (m.end < |text| ==> text[m.end] != text[m.start])
    decreases |text| - pos
  {
    hide RunLength, Repeats;
    if pos < |text| {
      SearchLeftmost(text, pos + 1, ldelim, opening);
      RunExact(text, pos, text[pos]);
    }
  }

  // ---------- nested texts ----------

  /** Plain text, or a structure: n opening characters, what is inside, and n closing ones. */
  datatype Node = Plain(s: string) | Enclosed(open: char, n: nat, inside: seq<Node>)

  function Closer(open: char): char { if open == '{' then '}' else ']' }

  predicate Special(c: char) { c == '{' || c == '}' || c == '[' || c == ']' }

  function Times(c: char, n: nat): (r: string)
    ensures |r| == n && forall i :: 0 <= i < n ==> r[i] == c
  {
    seq(n, _ => c)
  }

  function Render(nodes: seq<Node>): string
    decreases nodes
  {
    if nodes == [] then ""
    else
      (match nodes[0]
       case Plain(s) => s
       case Enclosed(open, n, inside) => Times(open, n) + Render(inside) + Times(Closer(open), n))
      + Render(nodes[1..])
  }

  function Size(nodes: seq<Node>): nat
    decreases nodes
  {
    if nodes == [] then 0
    else
      (match nodes[0]
       case Plain(s) => |s|
       case Enclosed(_, n, inside) => 2 * n + Size(inside))
      + Size(nodes[1..])
  }

  /** A search with this length takes the structure's opening characters. */
  predicate Opens(open: char, n: nat, ldelim: nat) {
    ldelim == 0 || (open == '{' && n >= ldelim)
  }

  /** The outermost structures that the length asks for, from position at on. */
  function Outermost(nodes: seq<Node>, at: nat, ldelim: nat): seq<Span>
    decreases nodes, 0
  {
    if nodes == [] then []
    else
      match nodes[0]
      case Plain(s) => Outermost(nodes[1..], at + |s|, ldelim)
      case Enclosed(open, n, inside) =>
        OutermostOf(open, n, inside, at, ldelim) + Outermost(nodes[1..], at + 2 * n + Size(inside), ldelim)
  }

  function OutermostOf(open: char, n: nat, inside: seq<Node>, at: nat, ldelim: nat): seq<Span>
    decreases inside, 1
  {
    if Opens(open, n, ldelim) then [Span(at, at + 2 * n + Size(inside))] else Outermost(inside, at + n, ldelim)
  }

  // ---------- texts that show such nodes ----------

  /** Exactly n characters c from i on. */
  predicate WholeRun(text: string, i: nat, n: nat, c: char) {
    Repeats(text, i, n, c) && (i + n < |text| ==> text[i + n] != c)
  }

  /** No run begins at i. */
  predicate NoRun(text: string, i: nat, ldelim: nat)
    requires i < |text|
  {
    && (Special(text[i]) && i + 1 < |text| ==> text[i + 1] != text[i])
    && (ldelim == 1 ==> text[i] != '{')
  }

  predicate NoRuns(text: string, a: nat, b: nat, ldelim: nat)
    requires b <= |text|
  {
    forall i :: a <= i < b ==> NoRun(text, i, ldelim)
  }

  /** At this position the text shows the nodes, and no run is longer than its node says. */
  predicate Shows(text: string, at: nat, nodes: seq<Node>, ldelim: nat)
    decreases nodes
  {
    at <= |text| &&
    (nodes == [] ||
     match nodes[0]
     case Plain(s) =>
       && at + |s| <= |text|
       && NoRuns(text, at, at + |s|, ldelim)
       && Shows(text, at + |s|, nodes[1..], ldelim)
     case Enclosed(open, n, inside) =>
       && (open == '{' || open == '[') && n >= 2
       && WholeRun(text, at, n, open)
       && Shows(text, at + n, inside, ldelim)
       && WholeRun(text, at + n + Size(inside), n, Closer(open))
       && Shows(text, at + 2 * n + Size(inside), nodes[1..], ldelim))
  }

  // ---------- searching such texts ----------

  lemma SearchSkips(text: string, a: nat, b: nat, ldelim: nat, opening: bool)
    requires a <= b <= |text| && forall i :: a <= i < b ==> !Takes(text, i, ldelim, opening)
    ensures Search(text, a, ldelim, opening) == Search(text, b, ldelim, opening)
    decreases b - a
  {
    hide Takes, Repeats;
    if a < b {
      NotTaken(text, a, ldelim, opening);
      SearchSkips(text, a + 1, b, ldelim, opening);
    }
  }

  lemma NotTaken(text: string, i: nat, ldelim: nat, opening: bool)
    requires i < |text|
    ensures (if opening then OpensAt(text, i, ldelim) else NextAt(text, i, ldelim)) <==> Takes(text, i, ldelim, opening)
  {
    RunExact(text, i, text[i]);
  }

  lemma SearchHits(text: string, i: nat, n: nat, c: char, ldelim: nat, opening: bool)
    requires WholeRun(text, i, n, c) && n >= 2 && n >= Least(ldelim, opening) && Asked(c, ldelim, opening)
    ensures Search(text, i, ldelim, opening) == Some(Match(i, i + n))
  {
    RunExact(text, i, c);
    NotTaken(text, i, ldelim, opening);
    assert text[i] == c;
    assert i + n < |text| ==> text[i + n] != c;
    assert !Repeats(text, i, n + 1, c);
    assert RunLength(text, i, c) == n;
  }

  /** A run of a kind that is not asked for, or shorter than asked for, is passed over. */
  lemma RunPassed(text: string, i: nat, n: nat, c: char, ldelim: nat, opening: bool)
    requires WholeRun(text, i, n, c) && (!Asked(c, ldelim, opening) || n < Least(ldelim, opening))
    ensures Search(text, i, ldelim, opening) == Search(text, i + n, ldelim, opening)
  {
    forall j | i <= j < i + n
      ensures !Takes(text, j, ldelim, opening)
    {
      var least := Least(ldelim, opening);
      if n < least && j + least <= |text| {
        assert text[i + n] != c && text[j] == c;
      }
    }
    SearchSkips(text, i, i + n, ldelim, opening);
  }

  lemma PlainPassed(text: string, a: nat, b: nat, ldelim: nat, opening: bool)
    requires a <= b <= |text| && NoRuns(text, a, b, ldelim)
    ensures Search(text, a, ldelim, opening) == Search(text, b, ldelim, opening)
  {
    forall i | a <= i < b
      ensures !Takes(text, i, ldelim, opening)
    {
      assert NoRun(text, i, ldelim);
      if i + 1 < |text| && text[i + 1] != text[i] {
        assert Least(ldelim, opening) >= 2 ==> !Repeats(text, i, Least(ldelim, opening), text[i]);
      }
    }
    SearchSkips(text, a, b, ldelim, opening);
  }

  // ---------- from an opener to its closer ----------

  /** After closing a structure on top of this stack the scan goes on. */
  predicate GoesOn(stack: seq<int>, ldelim: nat) {
    stack != [] && !(|stack| == 1 && 0 < stack[0] < ldelim)
  }

  function Entry(open: char, n: nat): int { if open == '{' then n else 0 - n }

  /** The inner loop depends on its position only through the next run. */
  lemma InnerBySearch(text: string, ldelim: nat, start: nat, stack: seq<int>, a: nat, b: nat)
    requires start < a <= b <= |text| && Weight(stack) <= a - start
    requires Search(text, a, ldelim, false) == Search(text, b, ldelim, false)
    ensures Inner(text, ldelim, start, stack, a) == Inner(text, ldelim, start, stack, b)
  {
    hide Search, Weight, CloseCurly, CloseSquare;
  }

  lemma InnerOpens(text: string, ldelim: nat, start: nat, stack: seq<int>, at: nat, open: char, n: nat)
    requires start < at <= |text| && Weight(stack) <= at - start
    requires WholeRun(text, at, n, open) && n >= 2 && (open == '{' || (ldelim == 0 && open == '['))
    ensures Weight(stack + [Entry(open, n)]) <= at + n - start
    ensures Inner(text, ldelim, start, stack, at) == Inner(text, ldelim, start, stack + [Entry(open, n)], at + n)
  {
    hide Search, Weight, CloseCurly, CloseSquare;
    SearchHits(text, at, n, open, ldelim, false);
    assert text[at] == open;
    assert Push(stack, Entry(open, n)) == stack + [Entry(open, n)];
  }

  lemma Closes(stack: seq<int>, open: char, n: nat)
    requires n >= 2 && (open == '{' || open == '[')
    ensures (if open == '{' then CloseCurly(stack + [Entry(open, n)], n) else CloseSquare(stack + [Entry(open, n)], n))
         == (stack, 0)
  {
    assert (stack + [Entry(open, n)])[..|stack|] == stack;
  }

  lemma InnerCloses(text: string, ldelim: nat, start: nat, stack: seq<int>, at: nat, open: char, n: nat)
    requires start < at <= |text| && Weight(stack + [Entry(open, n)]) <= at - start
    requires WholeRun(text, at, n, Closer(open)) && n >= 2 && (open == '{' || (ldelim == 0 && open == '['))
    ensures stack == [] ==> Inner(text, ldelim, start, stack + [Entry(open, n)], at) == Yielded(start, at + n, at + n)
    ensures GoesOn(stack, ldelim) ==>
              && Weight(stack) <= at + n - start
              && Inner(text, ldelim, start, stack + [Entry(open, n)], at) == Inner(text, ldelim, start, stack, at + n)
  {
    hide Search, Weight, CloseCurly, CloseSquare;
    SearchHits(text, at, n, Closer(open), ldelim, false);
    assert text[at] == Closer(open);
    Closes(stack, open, n);
    assert Push(stack, Entry(open, n)) == stack + [Entry(open, n)];
  }

  /** Inside an open structure the inner loop passes over nested nodes with its stack unchanged. */
  lemma {:induction false} InnerPasses(text: string, ldelim: nat, start: nat, stack: seq<int>, at: nat,
                                       nodes: seq<Node>)
    requires start < at && Shows(text, at, nodes, ldelim) && GoesOn(stack, ldelim) && Weight(stack) <= at - start
    ensures at + Size(nodes) <= |text|
    ensures Inner(text, ldelim, start, stack, at) == Inner(text, ldelim, start, stack, at + Size(nodes))
    decreases nodes, 0
  {
    hide Search, Weight, CloseCurly, CloseSquare, Inner, WholeRun, NoRuns;
    if nodes != [] {
      match nodes[0]
      case Plain(s) =>
        PlainPassed(text, at, at + |s|, ldelim, false);
        InnerBySearch(text, ldelim, start, stack, at, at + |s|);
        InnerPasses(text, ldelim, start, stack, at + |s|, nodes[1..]);
      case Enclosed(open, n, inside) =>
        EnclosedPasses(text, ldelim, start, stack, at, open, n, inside);
        InnerPasses(text, ldelim, start, stack, at + 2 * n + Size(inside), nodes[1..]);
    }
  }

  lemma {:induction false} EnclosedPasses(text: string, ldelim: nat, start: nat, stack: seq<int>, at: nat, open: char,
                                          n: nat, inside: seq<Node>)
    requires start < at <= |text| && GoesOn(stack, ldelim) && Weight(stack) <= at - start
    requires (open == '{' || open == '[') && n >= 2 && WholeRun(text, at, n, open)
    requires Shows(text, at + n, inside, ldelim) && WholeRun(text, at + n + Size(inside), n, Closer(open))
    ensures at + 2 * n + Size(inside) <= |text|
    ensures Inner(text, ldelim, start, stack, at) == Inner(text, ldelim, start, stack, at + 2 * n + Size(inside))
    decreases inside, 1
  {
    hide Search, Weight, CloseCurly, CloseSquare, Inner, NoRuns;
    var close := at + n + Size(inside);
    if ldelim == 0 || open == '{' {
      var deeper := stack + [Entry(open, n)];
      InnerOpens(text, ldelim, start, stack, at, open, n);
      InnerPasses(text, ldelim, start, deeper, at + n, inside);
      InnerCloses(text, ldelim, start, stack, close, open, n);
    } else {
      RunPassed(text, at, n, open, ldelim, false);
      InnerBySearch(text, ldelim, start, stack, at, at + n);
      InnerPasses(text, ldelim, start, stack, at + n, inside);
      RunPassed(text, close, n, Closer(open), ldelim, false);
      InnerBySearch(text, ldelim, start, stack, close, close + n);
    }
  }

  // ---------- whole texts ----------

  lemma SpansBySearch(text: string, ldelim: nat, a: nat, b: nat)
    requires a <= b <= |text| && Search(text, a, ldelim, true) == Search(text, b, ldelim, true)
    ensures Spans(text, ldelim, a) == Spans(text, ldelim, b)
  {
    hide Search, Inner;
  }

  lemma SpansOpen(text: string, ldelim: nat, at: nat, open: char, n: nat, inside: seq<Node>)
    requires at <= |text| && (open == '{' || open == '[') && n >= 2 && Opens(open, n, ldelim)
    requires WholeRun(text, at, n, open) && Shows(text, at + n, inside, ldelim)
    requires WholeRun(text, at + n + Size(inside), n, Closer(open))
    ensures var end := at + 2 * n + Size(inside);
            end <= |text| && Spans(text, ldelim, at) == [Span(at, end)] + Spans(text, ldelim, end)
  {
    hide Search, Weight, CloseCurly, CloseSquare, Inner, NoRuns, Shows;
    SearchHits(text, at, n, open, ldelim, true);
    var none: seq<int> := [];
    var stack := none + [Entry(open, n)];
    assert text[at] == open;
    assert OpenStack(text, Match(at, at + n)) == stack;
    InnerPasses(text, ldelim, at, stack, at + n, inside);
    WeightOne(Entry(open, n));
    InnerCloses(text, ldelim, at, none, at + n + Size(inside), open, n);
  }

  lemma WeightOne(x: int)
    ensures Weight([] + [x]) == Abs(x)
  {
    assert ([] + [x])[..0] == [];
  }

  /** Scanning nested nodes yields exactly the outermost structures of the asked length, in order. */
  lemma {:induction false} SpansFound(text: string, ldelim: nat, at: nat, nodes: seq<Node>)
    requires Shows(text, at, nodes, ldelim)
    ensures at + Size(nodes) <= |text|
    ensures Spans(text, ldelim, at) == Outermost(nodes, at, ldelim) + Spans(text, ldelim, at + Size(nodes))
    decreases nodes, 0
  {
    hide Search, Inner, WholeRun, NoRuns, Spans, Opens;
    if nodes == [] {
      assert Outermost(nodes, at, ldelim) == [];
    } else {
      match nodes[0]
      case Plain(s) =>
        PlainPassed(text, at, at + |s|, ldelim, true);
        SpansBySearch(text, ldelim, at, at + |s|);
        SpansFound(text, ldelim, at + |s|, nodes[1..]);
      case Enclosed(open, n, inside) =>
        var end := at + 2 * n + Size(inside);
        EnclosedFound(text, ldelim, at, open, n, inside);
        SpansFound(text, ldelim, end, nodes[1..]);
        Assoc(OutermostOf(open, n, inside, at, ldelim), Outermost(nodes[1..], end, ldelim),
              Spans(text, ldelim, end + Size(nodes[1..])));
    }
  }

  lemma {:induction false} EnclosedFound(text: string, ldelim: nat, at: nat, open: char, n: nat, inside: seq<Node>)
    requires at <= |text| && (open == '{' || open == '[') && n >= 2 && WholeRun(text, at, n, open)
    requires Shows(text, at + n, inside, ldelim) && WholeRun(text, at + n + Size(inside), n, Closer(open))
    ensures var end := at + 2 * n + Size(inside);
            && end <= |text|
            && Spans(text, ldelim, at) == OutermostOf(open, n, inside, at, ldelim) + Spans(text, ldelim, end)
    decreases inside, 1
  {
    hide Search, Inner, NoRuns, Spans, Shows, Outermost;
    if Opens(open, n, ldelim) {
      SpansOpen(text, ldelim, at, open, n, inside);
    } else {
      var close := at + n + Size(inside);
      RunPassed(text, at, n, open, ldelim, true);
      SpansBySearch(text, ldelim, at, at + n);
      SpansFound(text, ldelim, at + n, inside);
      RunPassed(text, close, n, Closer(open), ldelim, true);
      SpansBySearch(text, ldelim, close, close + n);
    }
  }

  // ---------- written-out texts ----------

  predicate Clean(s: string) {
    forall i :: 0 <= i < |s| ==> !Special(s[i])
  }

  /** No run goes on from one text to the other. */
  predicate Apart(a: string, b: string) {
    a == "" || b == "" || !Special(b[0]) || a[|a| - 1] != b[0]
  }

  /** Plain text without any of the four characters, and structures of two characters or more whose runs do not
      touch runs of the same character inside. */
  predicate Tidy(nodes: seq<Node>)
    decreases nodes
  {
    nodes == [] ||
    ((match nodes[0]
      case Plain(s) => Clean(s)
      case Enclosed(open, n, inside) =>
        && (open == '{' || open == '[') && n >= 2 && Tidy(inside)
        && Apart([open], Render(inside)) && Apart(Render(inside), [Closer(open)]))
     && Tidy(nodes[1..]))
  }

  lemma {:induction false} RenderSize(nodes: seq<Node>)
    ensures |Render(nodes)| == Size(nodes)
    decreases nodes
  {
    if nodes != [] {
      RenderSize(nodes[1..]);
      if nodes[0].Enclosed? {
        RenderSize(nodes[0].inside);
      }
    }
  }

  /** A tidy text does not begin with a closing character. */
  lemma {:induction false} TidyStart(nodes: seq<Node>)
    requires Tidy(nodes) && Render(nodes) != ""
    ensures Render(nodes)[0] != '}' && Render(nodes)[0] != ']'
    decreases nodes
  {
    if nodes[0].Plain? && nodes[0].s == "" {
      assert Render(nodes) == Render(nodes[1..]);
      TidyStart(nodes[1..]);
    }
  }

  /** The text around a piece of it. */
  lemma Middle(a: string, b: string, c: string, i: nat)
    requires i < |b|
    ensures (a + b + c)[|a| + i] == b[i]
  {
  }

  lemma RunBetween(a: string, n: nat, c: char, b: string)
    requires b == "" || b[0] != c
    ensures WholeRun(a + Times(c, n) + b, |a|, n, c)
  {
    var text := a + Times(c, n) + b;
    forall k | |a| <= k < |a| + n
      ensures text[k] == c
    {
      Middle(a, Times(c, n), b, k - |a|);
    }
  }

  lemma Regroup(a: string, b: string, c: string, d: string)
    ensures a + (b + c) + d == a + b + (c + d) && a + (b + c) + d == (a + b) + c + d
  {
  }

  /** The text of one node. */
  function RenderOne(node: Node): string {
    match node
    case Plain(s) => s
    case Enclosed(open, n, inside) => Times(open, n) + Render(inside) + Times(Closer(open), n)
  }

  lemma RenderStep(nodes: seq<Node>)
    requires nodes != []
    ensures Render(nodes) == RenderOne(nodes[0]) + Render(nodes[1..])
  {
  }

  lemma EmptyRest(a: string, more: string, post: string)
    requires more == ""
    ensures a + more == a && more + post == post
  {
  }

  /** A tidy text shows its nodes wherever it stands apart from what follows. */
  lemma {:induction false} TidyShows(pre: string, nodes: seq<Node>, post: string, ldelim: nat)
    requires Tidy(nodes) && Apart(Render(nodes), post)
    ensures Shows(pre + Render(nodes) + post, |pre|, nodes, ldelim)
    decreases nodes, 0
  {
    hide WholeRun, NoRuns, Clean, Render, Times, RenderOne;
    if nodes != [] {
      var rest, more, one := nodes[1..], Render(nodes[1..]), RenderOne(nodes[0]);
      RenderStep(nodes);
      Regroup(pre, one, more, post);
      assert Apart(more, post) by { ApartRest(one, more, post); }
      TidyShows(pre + one, rest, post, ldelim);
      match nodes[0]
      case Plain(s) =>
        PlainIs(nodes[0]);
        PlainShows(pre, s, more + post, ldelim);
      case Enclosed(open, n, inside) =>
        EnclosedIs(nodes[0]);
        RenderSize(inside);
        CloserApart(nodes, post);
        EnclosedShows(pre, open, n, inside, more + post, ldelim);
    }
  }

  lemma PlainIs(node: Node)
    requires node.Plain?
    ensures RenderOne(node) == node.s
  {
  }

  lemma EnclosedIs(node: Node)
    requires node.Enclosed?
    ensures RenderOne(node) == Times(node.open, node.n) + Render(node.inside) + Times(Closer(node.open), node.n)
    ensures |RenderOne(node)| == 2 * node.n + Size(node.inside)
    ensures node.n > 0 ==> RenderOne(node)[|RenderOne(node)| - 1] == Closer(node.open)
  {
    RenderSize(node.inside);
  }

  lemma ApartRest(a: string, b: string, c: string)
    requires Apart(a + b, c)
    ensures Apart(b, c)
  {
  }

  /** What follows a structure does not go on with its closing character. */
  lemma CloserApart(nodes: seq<Node>, post: string)
    requires Tidy(nodes) && nodes != [] && nodes[0].Enclosed? && Apart(Render(nodes), post)
    ensures var after := Render(nodes[1..]) + post;
            after == "" || after[0] != Closer(nodes[0].open)
  {
    hide Times;
    var more, one := Render(nodes[1..]), RenderOne(nodes[0]);
    RenderStep(nodes);
    EnclosedIs(nodes[0]);
    hide Render, RenderOne;
    if more != "" {
      TidyStart(nodes[1..]);
    } else {
      EmptyRest(one, more, post);
    }
  }

  lemma PlainShows(pre: string, s: string, post: string, ldelim: nat)
    requires Clean(s)
    ensures NoRuns(pre + s + post, |pre|, |pre| + |s|, ldelim)
  {
    forall i | |pre| <= i < |pre| + |s|
      ensures NoRun(pre + s + post, i, ldelim)
    {
      Middle(pre, s, post, i - |pre|);
    }
  }

  lemma {:induction false} EnclosedShows(pre: string, open: char, n: nat, inside: seq<Node>, post: string, ldelim: nat)
    requires (open == '{' || open == '[') && n >= 2 && Tidy(inside)
    requires Apart([open], Render(inside)) && Apart(Render(inside), [Closer(open)])
    requires post == "" || post[0] != Closer(open)
    ensures var r := Render(inside);
            var text := pre + (Times(open, n) + r + Times(Closer(open), n)) + post;
            && WholeRun(text, |pre|, n, open)
            && Shows(text, |pre| + n, inside, ldelim)
            && WholeRun(text, |pre| + n + |r|, n, Closer(open))
    decreases inside, 1
  {
    hide WholeRun, Shows, Tidy;
    var r, o, c := Render(inside), Times(open, n), Times(Closer(open), n);
    var text := pre + (o + r + c) + post;
    assert text == pre + o + (r + c + post) == (pre + o) + r + (c + post) == (pre + o + r) + c + post;
    RunBetween(pre, n, open, r + c + post);
    TidyShows(pre + o, inside, c + post, ldelim);
    RunBetween(pre + o + r, n, Closer(open), post);
  }

  /** For every tidy text the scanner yields exactly its outermost structures of the asked length, in order. */
  lemma TidyFound(nodes: seq<Node>, ldelim: nat)
    requires Tidy(nodes)
    ensures Spans(Render(nodes), ldelim, 0) == Outermost(nodes, 0, ldelim)
  {
    hide Spans, Shows;
    var text := Render(nodes);
    assert "" + text + "" == text;
    TidyShows("", nodes, "", ldelim);
    RenderSize(nodes);
    SpansFound(text, ldelim, 0, nodes);
    NothingAtEnd(text, ldelim);
  }

  lemma NothingAtEnd(text: string, ldelim: nat)
    ensures Spans(text, ldelim, |text|) == []
  {
  }

  function Around(p: string, open: char, n: nat, s: string, q: string): seq<Node> {
    [Plain(p), Enclosed(open, n, [Plain(s)]), Plain(q)]
  }

  lemma RenderAround(p: string, open: char, n: nat, s: string, q: string)
    ensures Render([Plain(s)]) == s && Size([Plain(s)]) == |s|
    ensures Render(Around(p, open, n, s, q)) == p + ((Times(open, n) + s + Times(Closer(open), n)) + q)
    ensures Outermost(Around(p, open, n, s, q), 0, 0) == [Span(|p|, |p| + |s| + 2 * n)]
  {
    hide Times;
    assert [Plain(s)][1..] == [] && s + "" == s;
    var nodes := Around(p, open, n, s, q);
    var tail, last := nodes[1..], nodes[1..][1..];
    assert last == [Plain(q)] && last[1..] == [] && q + "" == q;
    assert Render(last) == q;
    assert Render(tail) == Times(open, n) + s + Times(Closer(open), n) + q;
    var end := |p| + 2 * n + |s|;
    assert Outermost(last, end, 0) == [];
    assert tail[0] == Enclosed(open, n, [Plain(s)]) && tail[1..] == last;
    assert Size([Plain(s)]) == |s|;
    assert OutermostOf(open, n, [Plain(s)], |p|, 0) == [Span(|p|, end)];
    assert Outermost(tail, |p|, 0) == [Span(|p|, end)] + [];
    assert Outermost(nodes, 0, 0) == Outermost(tail, |p|, 0);
  }

  lemma TidyAround(p: string, open: char, n: nat, s: string, q: string)
    requires Clean(p) && Clean(s) && Clean(q) && n >= 2 && (open == '{' || open == '[')
    ensures Tidy(Around(p, open, n, s, q))
  {
    RenderAround(p, open, n, s, q);
    hide Render;
    var nodes := Around(p, open, n, s, q);
    assert Apart([open], s) && Apart(s, [Closer(open)]);
    assert [Plain(s)][1..] == [] && Tidy([Plain(s)]);
    assert nodes[1..][1..] == [Plain(q)] && [Plain(q)][1..] == [];
    assert Tidy(nodes[1..][1..]) && Tidy(nodes[1..]);
  }

  /** One structure in plain text is found from its first character to its last. */
  lemma OneFound(p: string, open: char, n: nat, s: string, q: string)
    requires Clean(p) && Clean(s) && Clean(q) && n >= 2 && (open == '{' || open == '[')
    ensures Spans(p + Times(open, n) + s + Times(Closer(open), n) + q, 0, 0) == [Span(|p|, |p| + |s| + 2 * n)]
  {
    hide Spans, Clean, Tidy, Render, Outermost, Times;
    var o, c := Times(open, n), Times(Closer(open), n);
    RenderAround(p, open, n, s, q);
    TidyAround(p, open, n, s, q);
    TidyFound(Around(p, open, n, s, q), 0);
    assert p + o + s + c + q == p + ((o + s + c) + q);
  }

  lemma LiteralRuns()
    ensures Times('{', 2) == "{{" && Times('}', 2) == "}}" && Times('{', 3) == "{{{" && Times('}', 3) == "}}}"
    ensures Times('[', 2) == "[[" && Times(']', 2) == "]]"
  {
  }

  lemma TemplateFound(p: string, s: string, q: string)
    requires Clean(p) && Clean(s) && Clean(q)
    ensures Spans(p + "{{" + s + "}}" + q, 0, 0) == [Span(|p|, |p| + |s| + 4)]
  {
    hide Spans, Clean, Times;
    LiteralRuns();
    OneFound(p, '{', 2, s, q);
  }

  lemma ArgumentFound(p: string, s: string, q: string)
    requires Clean(p) && Clean(s) && Clean(q)
    ensures Spans(p + "{{{" + s + "}}}" + q, 0, 0) == [Span(|p|, |p| + |s| + 6)]
  {
    hide Spans, Clean, Times;
    LiteralRuns();
    OneFound(p, '{', 3, s, q);
  }

  lemma LinkFound(p: string, s: string, q: string)
    requires Clean(p) && Clean(s) && Clean(q)
    ensures Spans(p + "[[" + s + "]]" + q, 0, 0) == [Span(|p|, |p| + |s| + 4)]
  {
    hide Spans, Clean, Times;
    LiteralRuns();
    OneFound(p, '[', 2, s, q);
  }
}
