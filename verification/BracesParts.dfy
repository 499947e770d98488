/** Which parts the splitting gives. */
module BracesParts {
  import opened Braces
  import opened BracesFound
  import opened BracesMerged
  import opened Sequences
  import opened Wrappers

  // ---------- texts one after the other ----------

  lemma {:induction false} RenderAppend(a: seq<Node>, b: seq<Node>)
    ensures Render(a + b) == Render(a) + Render(b)
    decreases |a|
  {
    hide Render, RenderOne;
    if a == [] {
      assert a + b == b;
      RenderNothing(a);
      assert "" + Render(b) == Render(b);
    } else {
      assert (a + b)[1..] == a[1..] + b;
      RenderStep(a + b);
      RenderStep(a);
      RenderAppend(a[1..], b);
      Assoc(RenderOne(a[0]), Render(a[1..]), Render(b));
    }
  }

  lemma {:induction false} LooseAppend(a: seq<Node>, b: seq<Node>)
    requires Loose(a) && Loose(b)
    ensures Loose(a + b)
    decreases |a|
  {
    hide Clean;
    if a == [] {
      assert a + b == b;
    } else {
      assert (a + b)[1..] == a[1..] + b;
      LooseAppend(a[1..], b);
    }
  }

  /** Position j belongs to a structure. */
  predicate InStructure(nodes: seq<Node>, j: int)
    decreases |nodes|
  {
    nodes != [] && j >= 0 &&
    match nodes[0]
    case Plain(s) => InStructure(nodes[1..], j - |s|)
    case Enclosed(_, n, inside) => j < 2 * n + Size(inside) || InStructure(nodes[1..], j - 2 * n - Size(inside))
  }

  lemma {:induction false} InStructureAppend(a: seq<Node>, b: seq<Node>, j: int)
    ensures InStructure(a + b, j) <==> InStructure(a, j) || InStructure(b, j - Size(a))
    decreases |a|
  {
    if a == [] {
      assert a + b == b;
    } else {
      assert (a + b)[1..] == a[1..] + b;
      match a[0]
      case Plain(s) => InStructureAppend(a[1..], b, j - |s|);
      case Enclosed(_, n, inside) => InStructureAppend(a[1..], b, j - 2 * n - Size(inside));
      Negative(b, j - Size(a));
    }
  }

  lemma Negative(nodes: seq<Node>, j: int)
    ensures j < 0 ==> !InStructure(nodes, j)
  {
  }

  lemma {:induction false} StructureBound(nodes: seq<Node>, j: int)
    requires InStructure(nodes, j)
    ensures 0 <= j < Size(nodes)
    decreases |nodes|
  {
    match nodes[0]
    case Plain(s) => StructureBound(nodes[1..], j - |s|);
    case Enclosed(_, n, inside) =>
      if j >= 2 * n + Size(inside) {
        StructureBound(nodes[1..], j - 2 * n - Size(inside));
      }
  }

  /** The outermost spans cover exactly the structures. */
  lemma {:induction false} InsideOutermost(nodes: seq<Node>, at: nat, i: int)
    ensures Inside(Outermost(nodes, at, 0), i) <==> InStructure(nodes, i - at)
    decreases |nodes|
  {
    if nodes != [] {
      match nodes[0]
      case Plain(s) => InsideOutermost(nodes[1..], at + |s|, i);
      case Enclosed(open, n, inside) =>
        var end := at + 2 * n + Size(inside);
        InsideOutermost(nodes[1..], end, i);
        InsideCons(Span(at, end), Outermost(nodes[1..], end, 0), i);
        if InStructure(nodes[1..], i - end) {
          StructureBound(nodes[1..], i - end);
        }
    }
  }

  lemma InsideCons(first: Span, rest: seq<Span>, i: int)
    ensures Inside([first] + rest, i) <==> first.s <= i < first.e || Inside(rest, i)
  {
    var all := [first] + rest;
    if Inside(rest, i) {
      var k :| 0 <= k < |rest| && rest[k].s <= i < rest[k].e;
      assert all[k + 1] == rest[k];
    }
    if first.s <= i < first.e {
      assert all[0] == first;
    }
  }

  // ---------- parts ----------

  /** No bar of its own, outside structures. */
  predicate NoBar(nodes: seq<Node>) {
    forall k :: 0 <= k < |nodes| && nodes[k].Plain? ==> SEP !in nodes[k].s
  }

  lemma {:induction false} BarsInStructures(nodes: seq<Node>, j: nat)
    requires NoBar(nodes) && j < |Render(nodes)| && Render(nodes)[j] == SEP
    ensures InStructure(nodes, j)
    decreases |nodes|
  {
    hide Render, RenderOne;
    if nodes == [] {
      RenderNothing(nodes);
    } else {
      RenderStep(nodes);
      match nodes[0]
      case Plain(s) =>
        PlainIs(nodes[0]);
        assert forall i :: 0 <= i < |s| ==> s[i] in s;
        BarsInStructures(nodes[1..], j - |s|);
      case Enclosed(_, n, inside) =>
        EnclosedIs(nodes[0]);
        if j >= 2 * n + Size(inside) {
          BarsInStructures(nodes[1..], j - 2 * n - Size(inside));
        }
    }
  }

  /** A stretch whose bars all stand inside spans goes whole into the last part. */
  lemma {:induction false} NoCut(text: string, spans: seq<Span>, a: nat, b: nat)
    requires a <= b <= |text| && forall i :: a <= i < b && text[i] == SEP ==> Inside(spans, i)
    ensures var p := PartsTo(text, spans, a);
            PartsTo(text, spans, b) == p[|p| - 1 := p[|p| - 1] + text[a..b]]
    decreases b - a
  {
    hide Inside;
    var p := PartsTo(text, spans, a);
    if a < b {
      NoCut(text, spans, a, b - 1);
      assert text[a..b] == text[a..b - 1] + [text[b - 1]];
      Assoc(p[|p| - 1], text[a..b - 1], [text[b - 1]]);
    } else {
      assert p[|p| - 1] + text[a..b] == p[|p| - 1];
    }
  }

  const BAR: Node := Plain([SEP])

  /** The texts, with a bar between any two. */
  function Barred(docs: seq<seq<Node>>): seq<Node>
    requires docs != []
    decreases |docs|
  {
    if |docs| == 1 then docs[0] else docs[0] + ([BAR] + Barred(docs[1..]))
  }

  function Renders(docs: seq<seq<Node>>): (r: seq<string>)
    ensures |r| == |docs|
  {
    seq(|docs|, i requires 0 <= i < |docs| => Render(docs[i]))
  }

  predicate Parameters(docs: seq<seq<Node>>) {
    forall i :: 0 <= i < |docs| ==> Loose(docs[i]) && NoBar(docs[i])
  }

  lemma {:induction false} BarredLoose(docs: seq<seq<Node>>)
    requires docs != [] && Parameters(docs)
    ensures Loose(Barred(docs))
    decreases |docs|
  {
    if |docs| > 1 {
      BarredLoose(docs[1..]);
      LooseText([SEP]);
      LooseAppend([BAR], Barred(docs[1..]));
      LooseAppend(docs[0], [BAR] + Barred(docs[1..]));
    }
  }

  lemma BarInside(before: seq<Node>, doc: seq<Node>, after: seq<Node>, i: nat)
    requires NoBar(doc) && Size(before) <= i < Size(before) + |Render(doc)| && Render(doc)[i - Size(before)] == SEP
    ensures Inside(Outermost(before + (doc + after), 0, 0), i)
  {
    hide Render, Outermost, Size, InStructure, Inside;
    var j := i - Size(before);
    BarsInStructures(doc, j);
    InStructureAppend(doc, after, j);
    InStructureAppend(before, doc + after, i);
    InsideOutermost(before + (doc + after), 0, i);
  }

  /** One parameter behind those that are done. */
  lemma OneParameter(before: seq<Node>, doc: seq<Node>, after: seq<Node>, done: seq<string>)
    requires NoBar(doc)
    requires var all := before + (doc + after);
             Size(before) <= |Render(all)| && PartsTo(Render(all), Outermost(all, 0, 0), Size(before)) == done + [""]
    ensures var all := before + (doc + after);
            && Size(before) + Size(doc) <= |Render(all)|
            && PartsTo(Render(all), Outermost(all, 0, 0), Size(before) + Size(doc)) == done + [Render(doc)]
  {
    hide Render, Outermost, PartsTo, Size, InStructure, Inside;
    var all := before + (doc + after);
    var text, spans, a, b := Render(all), Outermost(all, 0, 0), Size(before), Size(before) + Size(doc);
    RenderAppend(before, doc + after);
    RenderAppend(doc, after);
    RenderSize(before);
    RenderSize(doc);
    assert text[a..b] == Render(doc);
    forall i | a <= i < b && text[i] == SEP
      ensures Inside(spans, i)
    {
      assert Render(doc)[i - a] == SEP;
      BarInside(before, doc, after, i);
    }
    NoCut(text, spans, a, b);
    var p := done + [""];
    assert p[|p| - 1] + text[a..b] == Render(doc);
  }

  /** The bar behind a parameter starts a new part. */
  lemma OneBar(before: seq<Node>, after: seq<Node>, done: seq<string>)
    requires var all := before + ([BAR] + after);
             Size(before) <= |Render(all)| && PartsTo(Render(all), Outermost(all, 0, 0), Size(before)) == done
    ensures var all := before + ([BAR] + after);
            && Size(before) < |Render(all)|
            && PartsTo(Render(all), Outermost(all, 0, 0), Size(before) + 1) == done + [""]
  {
    hide Render, Outermost, Size, Inside;
    var all, at := before + ([BAR] + after), Size(before);
    RenderAppend(before, [BAR] + after);
    RenderAppend([BAR], after);
    RenderSize(before);
    BarIs();
    assert Render(all)[at] == SEP;
    InStructureAppend(before, [BAR] + after, at);
    InStructureAppend([BAR], after, 0);
    Negative(after, -1);
    if InStructure(before, at) {
      StructureBound(before, at);
    }
    InsideOutermost(all, 0, at);
  }

  lemma BarIs()
    ensures Render([BAR]) == [SEP] && Size([BAR]) == 1 && !InStructure([BAR], 0)
  {
    assert [BAR][1..] == [] && [SEP] + "" == [SEP];
    assert Size([BAR][1..]) == 0;
  }

  lemma {:induction false} SplitFrom(before: seq<Node>, docs: seq<seq<Node>>, done: seq<string>)
    requires docs != [] && Parameters(docs)
    requires var all := before + Barred(docs);
             Size(before) <= |Render(all)| && PartsTo(Render(all), Outermost(all, 0, 0), Size(before)) == done + [""]
    ensures var all := before + Barred(docs);
            PartsTo(Render(all), Outermost(all, 0, 0), |Render(all)|) == done + Renders(docs)
    decreases |docs|
  {
    hide Render, Outermost, PartsTo, Size, Loose;
    var doc, all := docs[0], before + Barred(docs);
    RenderSize(all);
    if |docs| == 1 {
      assert doc + [] == doc;
      OneParameter(before, doc, [], done);
      SizeAppend(before, doc);
      assert Renders(docs) == [Render(doc)];
    } else {
      var rest, more := docs[1..], [BAR] + Barred(docs[1..]);
      var front := before + doc;
      OneParameter(before, doc, more, done);
      SizeAppend(before, doc);
      Assoc(before, doc, more);
      OneBar(front, Barred(rest), done + [Render(doc)]);
      BarIs();
      SizeAppend(front, [BAR]);
      Assoc(front, [BAR], Barred(rest));
      SplitFrom(front + [BAR], rest, done + [Render(doc)]);
      assert Renders(docs) == [Render(doc)] + Renders(rest);
      Assoc(done, [Render(doc)], Renders(rest));
    }
  }

  lemma SizeAppend(a: seq<Node>, b: seq<Node>)
    ensures Size(a + b) == Size(a) + Size(b)
  {
    hide Render, Size;
    RenderAppend(a, b);
    RenderSize(a);
    RenderSize(b);
    RenderSize(a + b);
  }

  /** Parameters without bars of their own, put together with bars, are what the splitting gives back: bars inside
      structures do not separate, and all others do. */
  lemma ParametersBack(docs: seq<seq<Node>>)
    requires docs != [] && Parameters(docs)
    ensures var text := Render(Barred(docs));
            PartsTo(text, Spans(text, 0, 0), |text|) == Renders(docs)
  {
    hide Render, Outermost, Loose, Spans;
    var none: seq<Node>, done: seq<string> := [], [];
    var all := Barred(docs);
    assert none + all == all;
    BarredLoose(docs);
    LooseFound(all);
    assert done + [""] == [""] && done + Renders(docs) == Renders(docs);
    assert Size(none) == 0;
    SplitFrom(none, docs, done);
  }
}
