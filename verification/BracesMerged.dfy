/** What the brace scanner finds when runs touch or differ. */
module BracesMerged {
  import opened Braces
  import opened BracesFound
  import opened Sequences
  import opened Wrappers

  // ---------- nested structures as a sequence of openers and closers ----------

  datatype Token = Open(c: char, n: nat) | Shut(c: char, n: nat) | Text(s: string) {
    /** The character that the token repeats. */
    function Char(): char
      requires !Text?
    {
      if Open? then c else Closer(c)
    }

    predicate Good() {
      if Text? then Clean(s) && s != "" else (c == '{' || c == '[') && n >= 2
    }
  }

  function SpellOne(t: Token): string {
    if t.Text? then t.s else Times(t.Char(), t.n)
  }

  function Spell(ts: seq<Token>): string {
    if ts == [] then "" else SpellOne(ts[0]) + Spell(ts[1..])
  }

  predicate AllGood(ts: seq<Token>) {
    forall i :: 0 <= i < |ts| ==> ts[i].Good()
  }

  function Tokens(nodes: seq<Node>): seq<Token>
    decreases nodes
  {
    if nodes == [] then []
    else
      (match nodes[0]
       case Plain(s) => if s == "" then [] else [Text(s)]
       case Enclosed(open, n, inside) => [Open(open, n)] + Tokens(inside) + [Shut(open, n)])
      + Tokens(nodes[1..])
  }

  /** Plain text without any of the four characters, and structures of two characters or more, touching or not. */
  predicate Loose(nodes: seq<Node>)
    decreases nodes
  {
    nodes == [] ||
    ((match nodes[0]
      case Plain(s) => Clean(s)
      case Enclosed(open, n, inside) => (open == '{' || open == '[') && n >= 2 && Loose(inside))
     && Loose(nodes[1..]))
  }

  lemma SpellAppend(a: seq<Token>, b: seq<Token>)
    ensures Spell(a + b) == Spell(a) + Spell(b)
    decreases |a|
  {
    hide SpellOne;
    if a == [] {
      assert a + b == b;
    } else {
      assert (a + b)[1..] == a[1..] + b;
      SpellAppend(a[1..], b);
      Assoc(SpellOne(a[0]), Spell(a[1..]), Spell(b));
    }
  }

  lemma SpellSingle(t: Token)
    ensures Spell([t]) == SpellOne(t)
  {
    assert [t][1..] == [];
  }

  lemma {:induction false} SpellTokens(nodes: seq<Node>)
    ensures Spell(Tokens(nodes)) == Render(nodes)
    decreases nodes
  {
    hide Times, Spell;
    if nodes == [] {
      assert Spell([]) == "" by { SpellNothing([]); }
    } else {
      var tail := Tokens(nodes[1..]);
      SpellTokens(nodes[1..]);
      match nodes[0]
      case Plain(s) =>
        if s == "" {
          assert Tokens(nodes) == tail;
        } else {
          SpellAppend([Text(s)], tail);
          SpellSingle(Text(s));
        }
      case Enclosed(open, n, inside) =>
        SpellTokens(inside);
        SpellAppend([Open(open, n)] + Tokens(inside) + [Shut(open, n)], tail);
        SpellAppend([Open(open, n)] + Tokens(inside), [Shut(open, n)]);
        SpellAppend([Open(open, n)], Tokens(inside));
        SpellSingle(Open(open, n));
        SpellSingle(Shut(open, n));
    }
  }

  lemma SpellNothing(ts: seq<Token>)
    requires ts == []
    ensures Spell(ts) == ""
  {
  }

  lemma {:induction false} TokensGood(nodes: seq<Node>)
    requires Loose(nodes)
    ensures AllGood(Tokens(nodes))
    decreases nodes
  {
    hide Clean;
    if nodes != [] {
      TokensGood(nodes[1..]);
      if nodes[0].Enclosed? {
        TokensGood(nodes[0].inside);
      }
    }
  }

  /** The tokens close all that is open in depth, and everything they open, with the last one. */
  predicate Ends(depth: seq<int>, ts: seq<Token>)
    decreases |ts|
  {
    ts != [] &&
    match ts[0]
    case Text(_) => depth != [] && Ends(depth, ts[1..])
    case Open(c, n) => Ends(depth + [Entry(c, n)], ts[1..])
    case Shut(c, n) =>
      && depth != [] && depth[|depth| - 1] == Entry(c, n)
      && if |depth| == 1 then ts[1..] == [] else Ends(depth[..|depth| - 1], ts[1..])
  }

  lemma EndsOpen(depth: seq<int>, c: char, n: nat, rest: seq<Token>)
    requires Ends(depth + [Entry(c, n)], rest)
    ensures Ends(depth, [Open(c, n)] + rest)
  {
    assert ([Open(c, n)] + rest)[1..] == rest;
  }

  lemma EndsShut(depth: seq<int>, c: char, n: nat, rest: seq<Token>)
    requires depth != [] && Ends(depth, rest)
    ensures Ends(depth + [Entry(c, n)], [Shut(c, n)] + rest)
  {
    var deeper := depth + [Entry(c, n)];
    assert ([Shut(c, n)] + rest)[1..] == rest && deeper[..|deeper| - 1] == depth;
  }

  lemma EndsText(depth: seq<int>, s: string, rest: seq<Token>)
    requires depth != [] && Ends(depth, rest)
    ensures Ends(depth, [Text(s)] + rest)
  {
    assert ([Text(s)] + rest)[1..] == rest;
  }

  function TokensOf(node: Node): seq<Token> {
    match node
    case Plain(s) => if s == "" then [] else [Text(s)]
    case Enclosed(open, n, inside) => [Open(open, n)] + Tokens(inside) + [Shut(open, n)]
  }

  lemma TokensStep(nodes: seq<Node>)
    requires nodes != []
    ensures Tokens(nodes) == TokensOf(nodes[0]) + Tokens(nodes[1..])
  {
  }

  lemma TokensNone(nodes: seq<Node>, rest: seq<Token>)
    requires nodes == []
    ensures Tokens(nodes) + rest == rest
  {
  }

  /** The tokens of nodes leave open what is open. */
  lemma {:induction false} TokensBalance(depth: seq<int>, nodes: seq<Node>, rest: seq<Token>)
    requires depth != [] && Ends(depth, rest)
    ensures Ends(depth, Tokens(nodes) + rest)
    decreases nodes, 0
  {
    hide Ends, Tokens;
    if nodes == [] {
      TokensNone(nodes, rest);
    } else {
      var one, tail := TokensOf(nodes[0]), Tokens(nodes[1..]);
      TokensStep(nodes);
      Assoc(one, tail, rest);
      TokensBalance(depth, nodes[1..], rest);
      match nodes[0]
      case Plain(s) =>
        if s == "" {
          assert one + (tail + rest) == tail + rest;
        } else {
          EndsText(depth, s, tail + rest);
        }
      case Enclosed(open, n, inside) =>
        EnclosedBalance(depth, open, n, inside, tail + rest);
    }
  }

  lemma {:induction false} EnclosedBalance(depth: seq<int>, open: char, n: nat, inside: seq<Node>, rest: seq<Token>)
    requires depth != [] && Ends(depth, rest)
    ensures Ends(depth, [Open(open, n)] + Tokens(inside) + [Shut(open, n)] + rest)
    decreases inside, 1
  {
    hide Ends, Tokens, Entry;
    var o, t, c := [Open(open, n)], Tokens(inside), [Shut(open, n)];
    EndsShut(depth, open, n, rest);
    TokensBalance(depth + [Entry(open, n)], inside, c + rest);
    EndsOpen(depth, open, n, t + (c + rest));
    Assoc(o + t, c, rest);
    Assoc(o, t, c + rest);
  }

  // ---------- runs of several tokens ----------

  /** The second token goes on with the run of the first. */
  predicate More(ts: seq<Token>)
    requires ts != [] && !ts[0].Text?
  {
    |ts| > 1 && !ts[1].Text? && ts[1].Char() == ts[0].Char()
  }

  lemma Tail(ts: seq<Token>)
    requires ts != [] && !ts[0].Text? && AllGood(ts)
    ensures AllGood(ts[1..]) && ts[0].Good() && (More(ts) ==> ts[1..][0] == ts[1] && ts[1..] != [])
    ensures More(ts) ==> ts[1].Open? == ts[0].Open? && ts[1].c == ts[0].c && ts[1].Good()
  {
    if More(ts) {
      assert ts[1].Good();
    }
  }

  /** How many tokens at the front repeat the same character. */
  function Lead(ts: seq<Token>): (k: nat)
    requires ts != [] && !ts[0].Text?
    ensures 1 <= k <= |ts|
    decreases |ts|
  {
    if More(ts) then 1 + Lead(ts[1..]) else 1
  }

  function LeadSize(ts: seq<Token>): (n: nat)
    requires ts != [] && !ts[0].Text?
    decreases |ts|
  {
    ts[0].n + if More(ts) then LeadSize(ts[1..]) else 0
  }

  /** They are spelled as one run. */
  lemma {:induction false} LeadSpells(ts: seq<Token>)
    requires ts != [] && !ts[0].Text? && AllGood(ts)
    ensures Spell(ts) == Times(ts[0].Char(), LeadSize(ts)) + Spell(ts[Lead(ts)..])
    ensures LeadSize(ts) >= 2
    decreases |ts|
  {
    hide Clean;
    var c := ts[0].Char();
    if More(ts) {
      LeadSpells(ts[1..]);
      assert ts[1..][Lead(ts[1..])..] == ts[Lead(ts)..];
      assert Times(c, ts[0].n) + Times(c, LeadSize(ts[1..])) == Times(c, LeadSize(ts));
      Assoc(Times(c, ts[0].n), Times(c, LeadSize(ts[1..])), Spell(ts[Lead(ts)..]));
    }
  }

  lemma {:induction false} LeadStops(ts: seq<Token>)
    requires ts != [] && !ts[0].Text? && AllGood(ts)
    ensures var rest := ts[Lead(ts)..];
            rest == [] || (Spell(rest) != "" && Spell(rest)[0] != ts[0].Char())
    decreases |ts|
  {
    if More(ts) {
      LeadStops(ts[1..]);
      assert ts[1..][Lead(ts[1..])..] == ts[Lead(ts)..];
    } else if |ts| > 1 {
      assert ts[1..][0] == ts[1] && ts[1].Good();
    }
  }

  // ---------- the stack and what is open ----------

  /** The stack counts what is open, where entries that follow each other may stand for several structures. */
  predicate Counts(stack: seq<int>, depth: seq<int>)
    decreases |depth|
  {
    if depth == [] || stack == [] then depth == [] && stack == []
    else
      var d, e := depth[|depth| - 1], stack[|stack| - 1];
      (2 <= d <= e || e <= d <= -2) && Counts(Less(stack, d), depth[..|depth| - 1])
  }

  /** The stack without one structure of size d on top. */
  function Less(stack: seq<int>, d: int): seq<int>
    requires stack != []
  {
    var rest, e := stack[..|stack| - 1], stack[|stack| - 1];
    if e == d then rest else rest + [e - d]
  }

  function CloseRun(c: char, stack: seq<int>, n: nat): (seq<int>, int) {
    if c == '{' then CloseCurly(stack, n) else CloseSquare(stack, n)
  }

  /** The same stack, and the same characters left over once it is empty. */
  predicate Alike(a: (seq<int>, int), b: (seq<int>, int)) {
    a.0 == b.0 && (a.0 == [] ==> a.1 == b.1)
  }

  /** Closing one structure and then m more characters of the same kind. */
  lemma CloseOne(c: char, stack: seq<int>, n: nat, m: nat)
    requires (c == '{' || c == '[') && n >= 2 && (m == 0 || m >= 2) && stack != []
    requires var e := stack[|stack| - 1]; if c == '{' then e >= n else e <= 0 - n
    ensures var less := Less(stack, Entry(c, n));
            Alike(CloseRun(c, stack, n + m), if m == 0 then (less, 0) else CloseRun(c, less, m))
  {
    var rest, e := stack[..|stack| - 1], stack[|stack| - 1];
    if e != Entry(c, n) {
      var less := rest + [e - Entry(c, n)];
      assert less[..|less| - 1] == rest;
    }
  }

  lemma {:induction false} CloseLead(stack: seq<int>, depth: seq<int>, ts: seq<Token>)
    requires ts != [] && ts[0].Shut? && AllGood(ts) && Counts(stack, depth) && Ends(depth, ts)
    ensures Lead(ts) <= |depth| && LeadSize(ts) >= 2
    ensures var r, left := CloseRun(ts[0].c, stack, LeadSize(ts)), depth[..|depth| - Lead(ts)];
            && Counts(r.0, left) && (r.0 == [] ==> r.1 == 0)
            && (if left == [] then ts[Lead(ts)..] == [] else Ends(left, ts[Lead(ts)..]))
    decreases |ts|
  {
    hide Clean, CloseRun, AllGood;
    Tail(ts);
    var c, n := ts[0].c, ts[0].n;
    var less := Less(stack, Entry(c, n));
    if More(ts) {
      var rest, left := ts[1..], depth[..|depth| - 1];
      CloseLead(less, left, rest);
      CloseOne(c, stack, n, LeadSize(rest));
      assert rest[Lead(rest)..] == ts[Lead(ts)..];
      assert left[..|left| - Lead(rest)] == depth[..|depth| - Lead(ts)];
    } else {
      CloseOne(c, stack, n, 0);
    }
  }

  /** What the openers at the front add. */
  function Added(ts: seq<Token>): (r: seq<int>)
    requires ts != [] && !ts[0].Text?
    ensures |r| == Lead(ts)
    decreases |ts|
  {
    [Entry(ts[0].c, ts[0].n)]
    + if More(ts) then Added(ts[1..]) else []
  }

  lemma AddedStep(depth: seq<int>, ts: seq<Token>)
    requires ts != [] && !ts[0].Text?
    ensures var one := depth + [Entry(ts[0].c, ts[0].n)];
            depth + Added(ts) == if More(ts) then one + Added(ts[1..]) else one
    ensures ts[Lead(ts)..] == if More(ts) then ts[1..][Lead(ts[1..])..] else ts[1..]
  {
  }

  lemma {:induction false} OpenLead(depth: seq<int>, ts: seq<Token>)
    requires ts != [] && ts[0].Open? && AllGood(ts) && Ends(depth, ts)
    ensures Ends(depth + Added(ts), ts[Lead(ts)..])
    decreases |ts|
  {
    hide Clean, AllGood, Added, Lead;
    Tail(ts);
    AddedStep(depth, ts);
    var one := depth + [Entry(ts[0].c, ts[0].n)];
    assert Ends(one, ts[1..]);
    if More(ts) {
      hide Ends;
      OpenLead(one, ts[1..]);
    }
  }

  lemma SizeStep(ts: seq<Token>, x: int)
    requires ts != [] && ts[0].Open? && AllGood(ts)
    ensures var e := Entry(ts[0].c, ts[0].n);
            && (if ts[0].c == '{' then e >= 2 else e <= -2)
            && x + Entry(ts[0].c, LeadSize(ts))
            == if More(ts) then x + e + Entry(ts[1..][0].c, LeadSize(ts[1..])) else x + e
  {
    Tail(ts);
  }

  /** One entry for all of them, on top of an entry that stands for x of the same kind already. */
  lemma {:induction false} CountsLead(stack: seq<int>, depth: seq<int>, x: int, ts: seq<Token>)
    requires ts != [] && ts[0].Open? && AllGood(ts)
    requires Counts(if x == 0 then stack else stack + [x], depth)
    requires if ts[0].c == '{' then x >= 0 else x <= 0
    ensures Counts(stack + [x + Entry(ts[0].c, LeadSize(ts))], depth + Added(ts))
    decreases |ts|
  {
    hide AllGood, Added, Lead, LeadSize, Counts, Entry;
    Tail(ts);
    AddedStep(depth, ts);
    SizeStep(ts, x);
    var e := Entry(ts[0].c, ts[0].n);
    CountsMore(stack, depth, x, e);
    if More(ts) {
      CountsLead(stack, depth + [e], x + e, ts[1..]);
    }
  }

  lemma CountsMore(stack: seq<int>, depth: seq<int>, x: int, e: int)
    requires Counts(if x == 0 then stack else stack + [x], depth)
    requires (e >= 2 && x >= 0) || (e <= -2 && x <= 0)
    ensures Counts(stack + [x + e], depth + [e])
  {
    var one, next := depth + [e], stack + [x + e];
    assert one[..|one| - 1] == depth && next[..|next| - 1] == stack;
    assert Less(next, e) == if x == 0 then stack else stack + [x];
  }

  // ---------- scanning the tokens ----------

  /** What follows does not go on with the last run of the tokens. */
  predicate Alone(ts: seq<Token>, post: string)
    requires ts != []
  {
    var last := ts[|ts| - 1];
    last.Text? || post == "" || post[0] != last.Char()
  }

  /** The run at the front of the tokens stands alone in the text. */
  lemma LeadIsRun(pre: string, ts: seq<Token>, post: string)
    requires ts != [] && !ts[0].Text? && AllGood(ts) && Alone(ts, post)
    ensures var text, n, rest := pre + Spell(ts) + post, LeadSize(ts), ts[Lead(ts)..];
            && n >= 2 && WholeRun(text, |pre|, n, ts[0].Char())
            && text == pre + Times(ts[0].Char(), n) + Spell(rest) + post
            && (rest != [] ==> Alone(rest, post))
  {
    var n, rest, c := LeadSize(ts), ts[Lead(ts)..], ts[0].Char();
    LeadSpells(ts);
    LeadStops(ts);
    if rest == [] {
      LeadLast(ts);
    }
    hide Spell, Times, WholeRun, AllGood;
    Regroup(pre, Times(c, n), Spell(rest), post);
    RunBetween(pre, n, c, Spell(rest) + post);
    SpellNothingOf(rest, post);
  }

  lemma SpellNothingOf(ts: seq<Token>, post: string)
    ensures ts == [] ==> Spell(ts) + post == post
  {
  }

  lemma {:induction false} LeadLast(ts: seq<Token>)
    requires ts != [] && !ts[0].Text? && ts[Lead(ts)..] == []
    ensures !ts[|ts| - 1].Text? && ts[|ts| - 1].Char() == ts[0].Char()
    decreases |ts|
  {
    if More(ts) {
      assert ts[1..][Lead(ts[1..])..] == ts[Lead(ts)..];
      LeadLast(ts[1..]);
    }
  }

  lemma {:induction false} LeadGood(ts: seq<Token>)
    requires AllGood(ts) && ts != []
    ensures AllGood(ts[1..]) && ts[0].Good()
    ensures !ts[0].Text? ==> AllGood(ts[Lead(ts)..])
  {
  }

  lemma ReadsOpener(text: string, start: nat, stack: seq<int>, at: nat, c: char, n: nat)
    requires start < at <= |text| && Weight(stack) <= at - start
    requires WholeRun(text, at, n, c) && n >= 2 && (c == '{' || c == '[')
    ensures Weight(stack + [Entry(c, n)]) <= at + n - start
    ensures Inner(text, 0, start, stack, at) == Inner(text, 0, start, stack + [Entry(c, n)], at + n)
  {
    InnerOpens(text, 0, start, stack, at, c, n);
  }

  lemma ReadsCloser(text: string, start: nat, stack: seq<int>, at: nat, c: char, n: nat)
    requires start < at <= |text| && Weight(stack) <= at - start
    requires WholeRun(text, at, n, Closer(c)) && n >= 2 && (c == '{' || c == '[')
    ensures var closed := CloseRun(c, stack, n);
            && Weight(closed.0) <= at + n - start
            && closed.1 >= 0
            && Inner(text, 0, start, stack, at)
            == if closed.0 == [] then Yielded(start, at + n - closed.1, at + n)
               else Inner(text, 0, start, closed.0, at + n)
  {
    hide Search, Weight, CloseCurly, CloseSquare;
    SearchHits(text, at, n, Closer(c), 0, false);
    assert text[at] == Closer(c);
  }

  lemma ReadsText(text: string, start: nat, stack: seq<int>, at: nat, s: string, rest: string)
    requires start < at <= |text| && Weight(stack) <= at - start && Clean(s) && text == text[..at] + s + rest
    ensures at + |s| <= |text| && Inner(text, 0, start, stack, at) == Inner(text, 0, start, stack, at + |s|)
  {
    hide Inner, Weight;
    PlainShows(text[..at], s, rest, 0);
    PlainPassed(text, at, at + |s|, 0, false);
    InnerBySearch(text, 0, start, stack, at, at + |s|);
  }

  /** A state of the inner loop with the tokens ahead: the stack counts what they will close. */
  ghost predicate Ahead(start: nat, stack: seq<int>, pre: string, depth: seq<int>, ts: seq<Token>, post: string) {
    && AllGood(ts) && ts != [] && Ends(depth, ts) && Alone(ts, post) && Counts(stack, depth)
    && start < |pre| && Weight(stack) <= |pre| - start
  }

  ghost predicate Reaches(start: nat, stack: seq<int>, pre: string, ts: seq<Token>, post: string)
    requires start < |pre| && Weight(stack) <= |pre| - start
  {
    var end := |pre| + |Spell(ts)|;
    Inner(pre + Spell(ts) + post, 0, start, stack, |pre|) == Yielded(start, end, end)
  }

  /** From inside an open structure the inner loop goes to where the tokens close it, and leaves nothing over. */
  lemma {:induction false} MergedInner(start: nat, stack: seq<int>, pre: string, depth: seq<int>, ts: seq<Token>,
                                       post: string)
    requires Ahead(start, stack, pre, depth, ts, post)
    ensures Reaches(start, stack, pre, ts, post)
    decreases |ts|, 1
  {
    hide Ends, Counts, AllGood, Alone, Weight, Reaches;
    match ts[0]
    case Text(_) => MergedText(start, stack, pre, depth, ts, post);
    case Open(_, _) => MergedOpen(start, stack, pre, depth, ts, post);
    case Shut(_, _) => MergedShut(start, stack, pre, depth, ts, post);
  }

  lemma {:induction false} MergedText(start: nat, stack: seq<int>, pre: string, depth: seq<int>, ts: seq<Token>,
                                      post: string)
    requires Ahead(start, stack, pre, depth, ts, post) && ts[0].Text?
    ensures Reaches(start, stack, pre, ts, post)
    decreases |ts|, 0
  {
    hide Inner, Weight, Counts, AllGood, Clean;
    var s, rest := ts[0].s, ts[1..];
    LeadGood(ts);
    assert Spell(ts) == s + Spell(rest);
    Regroup(pre, s, Spell(rest), post);
    assert (pre + s + (Spell(rest) + post))[..|pre|] == pre;
    ReadsText(pre + Spell(ts) + post, start, stack, |pre|, s, Spell(rest) + post);
    EndsSome(depth, rest);
    assert rest[|rest| - 1] == ts[|ts| - 1] && |pre + s| == |pre| + |s|;
    MergedInner(start, stack, pre + s, depth, rest, post);
  }

  lemma {:induction false} MergedOpen(start: nat, stack: seq<int>, pre: string, depth: seq<int>, ts: seq<Token>,
                                      post: string)
    requires Ahead(start, stack, pre, depth, ts, post) && ts[0].Open?
    ensures Reaches(start, stack, pre, ts, post)
    decreases |ts|, 0
  {
    hide Inner, Weight, Counts, AllGood, Times, WholeRun, Lead, LeadSize, Added, Alone, Spell, Ends;
    var c, n, rest := ts[0].c, LeadSize(ts), ts[Lead(ts)..];
    LeadGood(ts);
    LeadIsRun(pre, ts, post);
    ReadsOpener(pre + Spell(ts) + post, start, stack, |pre|, c, n);
    OpenLead(depth, ts);
    CountsLead(stack, depth, 0, ts);
    LeadLength(ts);
    EndsSome(depth + Added(ts), rest);
    MergedInner(start, stack + [Entry(c, n)], pre + Times(c, n), depth + Added(ts), rest, post);
  }

  lemma EndsSome(depth: seq<int>, ts: seq<Token>)
    requires Ends(depth, ts)
    ensures ts != []
  {
  }

  lemma {:induction false} MergedShut(start: nat, stack: seq<int>, pre: string, depth: seq<int>, ts: seq<Token>,
                                      post: string)
    requires Ahead(start, stack, pre, depth, ts, post) && ts[0].Shut?
    ensures Reaches(start, stack, pre, ts, post)
    decreases |ts|, 0
  {
    hide Inner, Weight, Counts, AllGood, Times, WholeRun, Lead, LeadSize, Alone, Spell, Ends, CloseRun;
    var c, n, rest := ts[0].c, LeadSize(ts), ts[Lead(ts)..];
    LeadGood(ts);
    LeadIsRun(pre, ts, post);
    ReadsCloser(pre + Spell(ts) + post, start, stack, |pre|, c, n);
    CloseLead(stack, depth, ts);
    LeadLength(ts);
    var closed, left := CloseRun(c, stack, n), depth[..|depth| - Lead(ts)];
    CountsEmpty(closed.0, left);
    if left != [] {
      EndsSome(left, rest);
      MergedInner(start, closed.0, pre + Times(Closer(c), n), left, rest, post);
    }
  }

  lemma CountsEmpty(stack: seq<int>, depth: seq<int>)
    requires Counts(stack, depth)
    ensures stack == [] <==> depth == []
  {
  }

  lemma LeadLength(ts: seq<Token>)
    requires ts != [] && !ts[0].Text? && AllGood(ts)
    ensures |Spell(ts)| == LeadSize(ts) + |Spell(ts[Lead(ts)..])|
    ensures |Times(ts[0].Char(), LeadSize(ts))| == LeadSize(ts)
    ensures ts[Lead(ts)..] == [] ==> |Spell(ts[Lead(ts)..])| == 0
  {
    LeadSpells(ts);
  }

  // ---------- whole texts ----------

  /** The openers at the front of a structure, and the tokens that close them. */
  lemma MergedHead(node: Node, post: string)
    requires node.Enclosed? && Loose([node]) && (post == "" || post[0] != Closer(node.open))
    ensures var ts := Tokens([node]);
            && ts != [] && ts[0] == Open(node.open, node.n) && AllGood(ts) && Alone(ts, post)
            && var rest := ts[Lead(ts)..];
               AllGood(rest) && rest != [] && Ends(Added(ts), rest)
               && Counts([Entry(node.open, LeadSize(ts))], Added(ts))
  {
    hide Times, Tokens, Loose, Clean, Ends, AllGood, Alone, Counts, Lead, LeadSize, Added;
    var ts, none: seq<int> := Tokens([node]), [];
    TokensGood([node]);
    NodeEnds(node);
    NodeAlone(node, post);
    LeadGood(ts);
    OpenLead(none, ts);
    CountsNothing();
    CountsLead(none, none, 0, ts);
    assert none + Added(ts) == Added(ts);
    assert none + [0 + Entry(node.open, LeadSize(ts))] == [Entry(node.open, LeadSize(ts))];
    EndsSome(Added(ts), ts[Lead(ts)..]);
  }

  lemma MergedYield(pre: string, node: Node, post: string) returns (n: nat)
    requires node.Enclosed? && Loose([node]) && (post == "" || post[0] != Closer(node.open))
    ensures var text, end, stack := pre + Render([node]) + post, |pre| + |Render([node])|, [Entry(node.open, n)];
            && n >= 2 && WholeRun(text, |pre|, n, node.open) && Weight(stack) == n
            && Inner(text, 0, |pre|, stack, |pre| + n) == Yielded(|pre|, end, end)
  {
    hide Inner, Weight, Counts, AllGood, Times, WholeRun, Alone, Spell, Ends, Tokens, Render, Loose, Lead, LeadSize,
         Added;
    var ts, stack := Tokens([node]), [];
    SpellTokens([node]);
    MergedHead(node, post);
    n := LeadSize(ts);
    stack := [Entry(node.open, n)];
    LeadIsRun(pre, ts, post);
    LeadLength(ts);
    assert [] + stack == stack;
    WeightOne(Entry(node.open, n));
    StartInner(pre, node.open, n, stack, Added(ts), ts[Lead(ts)..], post);
  }

  /** From the first opener of a structure the scanner yields exactly the structure. */
  lemma MergedSpan(pre: string, nodes: seq<Node>, r: string, post: string)
    requires |nodes| == 1 && nodes[0].Enclosed? && Loose(nodes) && r == Render(nodes)
    requires post == "" || post[0] != Closer(nodes[0].open)
    ensures Spans(pre + r + post, 0, |pre|) == [Span(|pre|, |pre| + |r|)] + Spans(pre + r + post, 0, |pre| + |r|)
  {
    hide Spans, Loose, Render, WholeRun, Inner, Weight;
    assert nodes == [nodes[0]];
    LooseKind(nodes[0]);
    var n := MergedYield(pre, nodes[0], post);
    YieldSpans(pre + r + post, |pre|, nodes[0].open, n, |pre| + |r|);
  }

  lemma LooseKind(node: Node)
    requires node.Enclosed? && Loose([node])
    ensures node.open == '{' || node.open == '['
  {
  }

  lemma YieldSpans(text: string, at: nat, c: char, n: nat, end: nat)
    requires WholeRun(text, at, n, c) && n >= 2 && (c == '{' || c == '[') && Weight([Entry(c, n)]) == n
    requires Inner(text, 0, at, [Entry(c, n)], at + n) == Yielded(at, end, end)
    ensures end <= |text| && Spans(text, 0, at) == [Span(at, end)] + Spans(text, 0, end)
  {
    UnevenSpans(text, at, c, n, Yielded(at, end, end));
  }

  lemma FirstChar(text: string, i: nat, n: nat, c: char)
    requires WholeRun(text, i, n, c) && n > 0
    ensures text[i] == c
  {
  }

  lemma CountsNothing()
    ensures Counts([], [])
  {
  }

  lemma StartInner(pre: string, c: char, n: nat, stack: seq<int>, depth: seq<int>, rest: seq<Token>, post: string)
    requires n >= 2 && Weight(stack) == n
    requires AllGood(rest) && rest != [] && Ends(depth, rest) && Alone(rest, post) && Counts(stack, depth)
    ensures var text, end := pre + Times(c, n) + Spell(rest) + post, |pre| + n + |Spell(rest)|;
            Inner(text, 0, |pre|, stack, |pre| + n) == Yielded(|pre|, end, end)
  {
    hide Ends, Counts, AllGood, Alone, Weight, Inner, Spell;
    MergedInner(|pre|, stack, pre + Times(c, n), depth, rest, post);
  }

  lemma NodeEnds(node: Node)
    requires node.Enclosed?
    ensures Tokens([node]) == [Open(node.open, node.n)] + (Tokens(node.inside) + [Shut(node.open, node.n)])
    ensures Ends([], Tokens([node]))
  {
    var none: seq<int>, o, t, c := [], [Open(node.open, node.n)], Tokens(node.inside), [Shut(node.open, node.n)];
    var one := [Entry(node.open, node.n)];
    assert [node][1..] == [];
    assert Tokens([node]) == o + t + c + [] == o + (t + c);
    assert c[1..] == [] && Ends(one, c);
    TokensBalance(one, node.inside, c);
    assert none + one == one;
    EndsOpen(none, node.open, node.n, t + c);
  }

  lemma NodeAlone(node: Node, post: string)
    requires node.Enclosed? && (post == "" || post[0] != Closer(node.open))
    ensures Tokens([node]) != [] && Alone(Tokens([node]), post)
  {
    NodeEnds(node);
  }

  /** A loose text does not begin with a closing character. */
  lemma {:induction false} LooseStart(nodes: seq<Node>)
    requires Loose(nodes) && Render(nodes) != ""
    ensures Render(nodes)[0] != '}' && Render(nodes)[0] != ']'
    decreases nodes
  {
    if nodes[0].Plain? && nodes[0].s == "" {
      assert Render(nodes) == Render(nodes[1..]);
      LooseStart(nodes[1..]);
    }
  }

  /** A run of plain characters does not keep the search from what follows. */
  lemma SpansSkip(pre: string, s: string, post: string)
    requires Clean(s)
    ensures Spans(pre + s + post, 0, |pre|) == Spans(pre + s + post, 0, |pre + s|)
  {
    hide Spans;
    PlainShows(pre, s, post, 0);
    PlainPassed(pre + s + post, |pre|, |pre + s|, 0, true);
    SpansBySearch(pre + s + post, 0, |pre|, |pre + s|);
  }

  lemma RenderSingle(nodes: seq<Node>)
    requires nodes != []
    ensures Render(nodes) == Render([nodes[0]]) + Render(nodes[1..])
    ensures |Render([nodes[0]])| == Size([nodes[0]])
    ensures nodes[0].Plain? ==> Render([nodes[0]]) == nodes[0].s && Size([nodes[0]]) == |nodes[0].s|
    ensures nodes[0].Enclosed? ==> Size([nodes[0]]) == 2 * nodes[0].n + Size(nodes[0].inside)
    ensures Loose(nodes) ==> Loose([nodes[0]])
  {
    hide Render, RenderOne, Clean;
    var one := [nodes[0]];
    assert one[1..] == [];
    RenderStep(nodes);
    RenderStep(one);
    RenderNothing(one[1..]);
    RenderSize(one);
    assert RenderOne(nodes[0]) + "" == RenderOne(nodes[0]);
    if nodes[0].Plain? {
      PlainIs(nodes[0]);
    }
  }

  lemma {:induction false} LooseSpans(pre: string, nodes: seq<Node>)
    requires Loose(nodes)
    ensures Spans(pre + Render(nodes), 0, |pre|) == Outermost(nodes, |pre|, 0)
    decreases nodes
  {
    hide Spans, Render, Clean, Times;
    if nodes == [] {
      assert Render(nodes) == "" by { RenderNothing(nodes); }
      NothingAtEnd(pre, 0);
      assert pre + "" == pre;
    } else {
      var one, more := Render([nodes[0]]), Render(nodes[1..]);
      RenderSingle(nodes);
      assert pre + Render(nodes) == (pre + one) + more == pre + one + more;
      LooseSpans(pre + one, nodes[1..]);
      match nodes[0]
      case Plain(s) =>
        SpansSkip(pre, s, more);
      case Enclosed(open, n, inside) =>
        if more != "" {
          LooseStart(nodes[1..]);
        }
        MergedSpan(pre, [nodes[0]], one, more);
    }
  }

  lemma RenderNothing(nodes: seq<Node>)
    requires nodes == []
    ensures Render(nodes) == ""
  {
  }

  /** For every text of nested structures, runs that touch included, the scanner for all kinds yields exactly the
      outermost ones, in order. */
  lemma LooseFound(nodes: seq<Node>)
    requires Loose(nodes)
    ensures Spans(Render(nodes), 0, 0) == Outermost(nodes, 0, 0)
  {
    hide Spans, Render, Outermost;
    assert "" + Render(nodes) == Render(nodes);
    LooseSpans("", nodes);
  }

  // ---------- runs of different length ----------

  lemma CloseAlone(c: char, n: nat, m: nat)
    requires (c == '{' || c == '[') && n >= 2 && m >= 2
    ensures CloseRun(c, [Entry(c, n)], m) == if m >= n then ([], m - n) else ([Entry(c, n - m)], m)
  {
    var none: seq<int>, more := [], Abs(m - n);
    assert [Entry(c, n)][..0] == none && CloseCurly(none, more) == CloseSquare(none, more) == (none, more);
    assert m < n ==> [] + [Entry(c, n - m)] == [Entry(c, n - m)];
  }

  /** The inner loop from an opener over plain text to a closing run, and on over plain text to the end. */
  lemma UnevenInner(text: string, at: nat, c: char, n: nat, s: string, m: nat, q: string)
    requires (c == '{' || c == '[') && n >= 2 && m >= 2 && Clean(s) && Clean(q) && at + n + |s| + m <= |text|
    requires text == text[..at + n] + s + (Times(Closer(c), m) + q)
    ensures Weight([Entry(c, n)]) == n
    ensures Inner(text, 0, at, [Entry(c, n)], at + n)
         == if m >= n then Yielded(at, at + n + |s| + n, at + n + |s| + m) else Finished
  {
    hide Inner, Weight, Clean, Times, WholeRun, CloseRun;
    var stack, close, end := [Entry(c, n)], at + n + |s|, at + n + |s| + m;
    var head := text[..at + n];
    assert [] + stack == stack;
    WeightOne(Entry(c, n));
    ReadsText(text, at, stack, at + n, s, Times(Closer(c), m) + q);
    assert text == (head + s) + Times(Closer(c), m) + q;
    CleanStart(q);
    RunBetween(head + s, m, Closer(c), q);
    ReadsCloser(text, at, stack, close, c, m);
    CloseAlone(c, n, m);
    if m < n {
      var left := [Entry(c, n - m)];
      assert text[..end] == head + s + Times(Closer(c), m) && q + "" == q;
      assert text == text[..end] + q + "";
      ReadsText(text, at, left, end, q, "");
      InnerEnds(text, at, left);
    }
  }

  lemma CleanStart(q: string)
    requires Clean(q)
    ensures q == "" || !Special(q[0])
  {
  }

  lemma InnerEnds(text: string, start: nat, stack: seq<int>)
    requires start < |text| && Weight(stack) <= |text| - start
    ensures Inner(text, 0, start, stack, |text|) == Finished
  {
  }

  /** A run of closing characters that is longer than the opening one leaves its rest outside as plain text; a
      shorter one closes nothing. */
  lemma UnevenFound(p: string, c: char, n: nat, s: string, m: nat, q: string)
    requires Clean(p) && Clean(s) && Clean(q) && n >= 2 && m >= 2 && (c == '{' || c == '[')
    ensures Spans(p + Times(c, n) + s + Times(Closer(c), m) + q, 0, 0)
         == if m >= n then [Span(|p|, |p| + n + |s| + n)] else []
  {
    hide *;
    var text := p + Times(c, n) + s + Times(Closer(c), m) + q;
    UnevenOuter(p, c, n, s, m, q, text);
    UnevenOpener(p, c, n, s, m, q, text);
    UnevenInner(text, |p|, c, n, s, m, q);
    UnevenWhole(text, |p|, c, n, |s|, m);
  }

  lemma Five(p: string, o: string, s: string, t: string, q: string)
    ensures p + o + s + t + q == p + (o + s + t + q)
    ensures |p + o + s + t| == |p| + |o| + |s| + |t|
  {
  }

  lemma UnevenOuter(p: string, c: char, n: nat, s: string, m: nat, q: string, text: string)
    requires Clean(p) && Clean(q) && text == p + Times(c, n) + s + Times(Closer(c), m) + q
    ensures |text| == |p| + n + |s| + m + |q|
    ensures Spans(text, 0, 0) == Spans(text, 0, |p|) && NothingFrom(text, |p| + n + |s| + m)
  {
    hide *;
    Five(p, Times(c, n), s, Times(Closer(c), m), q);
    UnevenStart(p, Times(c, n) + s + Times(Closer(c), m) + q, text);
    UnevenRest(text, p + Times(c, n) + s + Times(Closer(c), m), q, |p| + n + |s| + m);
  }

  lemma UnevenOpener(p: string, c: char, n: nat, s: string, m: nat, q: string, text: string)
    requires Clean(s) && n >= 2 && m >= 2 && (c == '{' || c == '[')
    requires text == p + Times(c, n) + s + Times(Closer(c), m) + q
    ensures WholeRun(text, |p|, n, c)
    ensures |p| + n <= |text| && text == text[..|p| + n] + s + (Times(Closer(c), m) + q)
  {
    hide Clean, WholeRun, Times;
    var o, t := Times(c, n), Times(Closer(c), m);
    assert text == p + o + (s + t + q) && text[..|p| + n] == p + o;
    PlainOrCloser(s, t, q, c);
    RunBetween(p, n, c, s + t + q);
  }

  lemma UnevenWhole(text: string, at: nat, c: char, n: nat, size: nat, m: nat)
    requires at + n + size + m <= |text| && n >= 2 && (c == '{' || c == '[')
    requires Spans(text, 0, 0) == Spans(text, 0, at) && NothingFrom(text, at + n + size + m)
    requires WholeRun(text, at, n, c) && Weight([Entry(c, n)]) == n
    requires Inner(text, 0, at, [Entry(c, n)], at + n)
          == if m >= n then Yielded(at, at + n + size + n, at + n + size + m) else Finished
    ensures Spans(text, 0, 0) == if m >= n then [Span(at, at + n + size + n)] else []
  {
    hide Spans, WholeRun, Weight, Inner, Entry;
    UnevenSpans(text, at, c, n, Inner(text, 0, at, [Entry(c, n)], at + n));
  }

  lemma UnevenStart(p: string, rest: string, text: string)
    requires Clean(p) && text == p + rest
    ensures Spans(text, 0, 0) == Spans(text, 0, |p|)
  {
    hide Spans, Clean;
    assert "" + p + rest == text && |"" + p| == |p|;
    SpansSkip("", p, rest);
  }

  predicate NothingFrom(text: string, at: nat) {
    at <= |text| && Spans(text, 0, at) == []
  }

  lemma UnevenRest(text: string, front: string, q: string, at: nat)
    requires Clean(q) && text == front + q && at == |front|
    ensures NothingFrom(text, at)
  {
    hide Spans, Clean;
    assert front + q + "" == text && |front + q| == |text|;
    SpansSkip(front, q, "");
    NothingAtEnd(text, 0);
  }

  lemma PlainOrCloser(s: string, t: string, q: string, c: char)
    requires Clean(s) && t != "" && t[0] == Closer(c) && (c == '{' || c == '[')
    ensures s + t + q != "" && (s + t + q)[0] != c
  {
  }

  lemma UnevenSpans(text: string, at: nat, c: char, n: nat, found: Found)
    requires WholeRun(text, at, n, c) && n >= 2 && (c == '{' || c == '[') && Weight([Entry(c, n)]) == n
    requires Inner(text, 0, at, [Entry(c, n)], at + n) == found
    ensures found.Yielded? ==>
              found.cur <= |text| && Spans(text, 0, at) == [Span(found.s, found.e)] + Spans(text, 0, found.cur)
    ensures found.Finished? ==> Spans(text, 0, at) == []
  {
    hide Inner, Search, Weight, WholeRun;
    SearchHits(text, at, n, c, 0, true);
    FirstChar(text, at, n, c);
    assert [] + [Entry(c, n)] == [Entry(c, n)];
    assert OpenStack(text, Match(at, at + n)) == [Entry(c, n)];
  }

  // ---------- openers that are too short for the rest ----------

  /** The inner loop with a least length gives up when the closing run leaves fewer braces open than that. */
  lemma InnerSkips(text: string, ldelim: nat, at: nat, n: nat, head: string, s: string, m: nat, rest: string)
    requires n >= ldelim > n - m > 0 && m >= 2 && Clean(s) && |head| == at + n
    requires text == head + s + Times('}', m) + rest && (rest == "" || rest[0] != '}')
    ensures Weight([n]) == n && |text| == at + n + |s| + m + |rest|
    ensures Inner(text, ldelim, at, [n], at + n) == Skipped(at + n + |s| + m)
  {
    hide Search, Weight, Clean, Times, WholeRun;
    var close := at + n + |s|;
    assert [] + [n] == [n];
    WeightOne(n);
    assert text == head + s + (Times('}', m) + rest);
    PlainShows(head, s, Times('}', m) + rest, ldelim);
    PlainPassed(text, at + n, close, ldelim, false);
    assert |head + s| == close;
    RunBetween(head + s, m, '}', rest);
    SearchHits(text, close, m, '}', ldelim, false);
    FirstChar(text, close, m, '}');
    assert [n][..0] == [] && [] + [n - m] == [n - m];
    assert CloseCurly([n], m) == ([n - m], m);
  }

  /** An ambiguous text: an opening run over two structures, of which only the inner one has the asked length. With
      that length nothing is found; without one it is the outer structure. */
  lemma AmbiguousSkipped(s: string, r: string, n: nat, m: nat)
    requires Clean(s) && Clean(r) && r != "" && n >= 2 && m > n
    ensures var text := Times('{', n + m) + s + Times('}', m) + r + Times('}', n);
            Spans(text, m, 0) == [] && Spans(text, 0, 0) == [Span(0, |text|)]
  {
    hide Spans, Clean, Times, Inner, Weight, WholeRun;
    var o, t, u := Times('{', n + m), Times('}', m), Times('}', n);
    var text := o + s + t + r + u;
    assert text == o + s + t + (r + u) && !Special(r[0]) by { CleanStart(r); }
    InnerSkips(text, m, 0, n + m, o, s, m, r + u);
    AmbiguousOpener(text, o, s, t, r, u, n, m);
    SkipSpans(text, m, n + m, n + m + |s| + m);
    AmbiguousRest(text, o + s + t, r, n, m);
    AmbiguousLoose(s, r, n, m);
  }

  lemma AmbiguousOpener(text: string, o: string, s: string, t: string, r: string, u: string, n: nat, m: nat)
    requires text == o + s + t + r + u && o == Times('{', n + m) && t == Times('}', m) && m > 0 && Clean(s)
    ensures WholeRun(text, 0, n + m, '{')
  {
    hide Clean, Times, WholeRun;
    var after := s + t + r + u;
    assert text == "" + o + after;
    assert after[0] == if s == "" then t[0] else s[0];
    assert t[0] == '}';
    CleanStart(s);
    RunBetween("", n + m, '{', after);
  }

  lemma SkipSpans(text: string, ldelim: nat, n: nat, next: nat)
    requires WholeRun(text, 0, n, '{') && n >= 2 && n >= ldelim && Weight([n]) == n
    requires Inner(text, ldelim, 0, [n], n) == Skipped(next)
    ensures next <= |text| && Spans(text, ldelim, 0) == Spans(text, ldelim, next)
  {
    hide Inner, Search, Weight, WholeRun;
    SearchHits(text, 0, n, '{', ldelim, true);
    FirstChar(text, 0, n, '{');
    assert [] + [n] == [n];
    assert OpenStack(text, Match(0, n)) == [n];
  }

  lemma AmbiguousRest(text: string, front: string, r: string, n: nat, m: nat)
    requires Clean(r) && text == front + r + Times('}', n) && m >= 2
    ensures Spans(text, m, |front|) == []
  {
    hide Spans, Clean, Times, WholeRun;
    var u, close := Times('}', n), |front + r|;
    PlainShows(front, r, u, m);
    PlainPassed(text, |front|, close, m, true);
    SpansBySearch(text, m, |front|, close);
    assert text == (front + r) + u + "";
    RunBetween(front + r, n, '}', "");
    RunPassed(text, close, n, '}', m, true);
    SpansBySearch(text, m, close, |text|);
    NothingAtEnd(text, m);
  }

  /** The same text as two nested structures whose openers touch. */
  lemma AmbiguousLoose(s: string, r: string, n: nat, m: nat)
    requires Clean(s) && Clean(r) && n >= 2 && m >= 2
    ensures var text := Times('{', n + m) + s + Times('}', m) + r + Times('}', n);
            Spans(text, 0, 0) == [Span(0, |text|)]
  {
    hide Spans, Clean, Times;
    var inner := Enclosed('{', m, [Plain(s)]);
    var inside := [inner, Plain(r)];
    var nodes := [Enclosed('{', n, inside)];
    RenderPair(s, r, m);
    assert nodes[1..] == [];
    var body := Times('{', m) + s + Times('}', m) + r;
    assert Render(nodes) == Times('{', n) + body + Times('}', n) + "" by { RenderStep(nodes); }
    assert Times('{', n) + Times('{', m) == Times('{', n + m) by { TimesSum(n, m); }
    var text := Times('{', n + m) + s + Times('}', m) + r + Times('}', n);
    assert Render(nodes) == text;
    LooseFound(nodes);
    RenderSize(nodes);
    assert Outermost(nodes[1..], |text|, 0) == [];
    assert Outermost(nodes, 0, 0) == [Span(0, |text|)] + [];
  }

  lemma TimesSum(n: nat, m: nat)
    ensures Times('{', n) + Times('{', m) == Times('{', n + m)
  {
  }

  lemma RenderPair(s: string, r: string, m: nat)
    requires Clean(s) && Clean(r) && m >= 2
    ensures var inside := [Enclosed('{', m, [Plain(s)]), Plain(r)];
            Render(inside) == Times('{', m) + s + Times('}', m) + r && Loose(inside)
  {
    hide Times, Clean;
    var inside := [Enclosed('{', m, [Plain(s)]), Plain(r)];
    LooseText(s);
    LooseText(r);
    assert inside[1..] == [Plain(r)];
  }

  lemma LooseText(s: string)
    requires Clean(s)
    ensures Loose([Plain(s)]) && Render([Plain(s)]) == s
  {
    assert [Plain(s)][1..] == [] && s + "" == s;
  }
}
