/** When gathering declarations reports a conflict, and what it declares. */
module Gathering {
  import opened OptionEval
  import opened Meta
  import opened Wrappers

  /** A declaration of an algorithm of a type. */
  datatype Typed = Typed(typ: string, decl: Decl)

  /** Everything that a meta and its sub metas declare, in order. */
  function TreeDecls(m: Meta): seq<Typed>
    decreases m, 0
  {
    [Typed(m.typ, Decl(m.name, Options(m.calls), m.doc))] + CallDecls(m.calls)
  }

  function CallDecls(calls: seq<OptionCall>): seq<Typed>
    decreases calls
  {
    if calls == [] then []
    else
      (match calls[0]
       case Templated(_, sub) => TreeDecls(sub)
       case TemplatedDefault(_, sub, def) => TreeDecls(sub) + TreeDecls(def)
       case _ => [])
      + CallDecls(calls[1..])
  }

  /** Two declarations of one name of one type are the same. */
  predicate Agree(a: Typed, b: Typed) {
    a.typ == b.typ && a.decl.name == b.decl.name ==> a.decl == b.decl
  }

  predicate AgreesWith(types: Types, x: Typed) {
    x.typ in types ==> forall d :: d in types[x.typ] ==> Agree(Typed(x.typ, d), x)
  }

  /** No declaration differs from another of its type and name, among the known and the new ones. */
  predicate Consistent(types: Types, xs: seq<Typed>) {
    && (forall x :: x in xs ==> AgreesWith(types, x))
    && (forall x, y :: x in xs && y in xs ==> Agree(x, y))
  }

  predicate Declared(types: Types, x: Typed) {
    x.typ in types && x.decl in types[x.typ]
  }

  // ---------- one declaration after the other ----------

  function AddAll(types: Types, xs: seq<Typed>): Option<Types>
    decreases |xs|
  {
    if xs == [] then Some(types)
    else match AddDecl(types, xs[0].typ, xs[0].decl)
      case None => None
      case Some(t) => AddAll(t, xs[1..])
  }

  lemma {:induction false} AddAllAppend(types: Types, xs: seq<Typed>, ys: seq<Typed>)
    ensures AddAll(types, xs + ys) == match AddAll(types, xs) case None => None case Some(t) => AddAll(t, ys)
    decreases |xs|
  {
    hide AddDecl;
    if xs == [] {
      assert xs + ys == ys;
    } else {
      assert (xs + ys)[0] == xs[0] && (xs + ys)[1..] == xs[1..] + ys;
      match AddDecl(types, xs[0].typ, xs[0].decl)
      case None =>
      case Some(t) => AddAllAppend(t, xs[1..], ys);
    }
  }

  /** Gathering a tree is adding its declarations in order. */
  lemma {:induction false} GatherIsAddAll(types: Types, m: Meta)
    ensures Gather(types, m) == AddAll(types, TreeDecls(m))
    decreases m, 0
  {
    hide AddDecl;
    var own := Typed(m.typ, Definition(m));
    assert TreeDecls(m)[1..] == CallDecls(m.calls) && TreeDecls(m)[0] == own;
    match AddDecl(types, m.typ, Definition(m))
    case None =>
    case Some(t) => GatherCallsIsAddAll(t, m.calls);
  }

  lemma {:induction false} GatherCallsIsAddAll(types: Types, calls: seq<OptionCall>)
    ensures GatherCalls(types, calls) == AddAll(types, CallDecls(calls))
    decreases calls
  {
    hide Gather, TreeDecls;
    if calls != [] {
      var rest := CallDecls(calls[1..]);
      match calls[0] {
        case Templated(_, sub) =>
          GatherIsAddAll(types, sub);
          AddAllAppend(types, TreeDecls(sub), rest);
          match Gather(types, sub) {
            case None =>
            case Some(t) => GatherCallsIsAddAll(t, calls[1..]);
          }
        case TemplatedDefault(_, sub, def) =>
          GatherIsAddAll(types, sub);
          AddAllAppend(types, TreeDecls(sub), TreeDecls(def));
          AddAllAppend(types, TreeDecls(sub) + TreeDecls(def), rest);
          match Gather(types, sub) {
            case None =>
            case Some(s) =>
              GatherIsAddAll(s, def);
              match Gather(s, def) {
                case None =>
                case Some(t) => GatherCallsIsAddAll(t, calls[1..]);
              }
          }
        case _ =>
          assert [] + rest == rest;
          GatherCallsIsAddAll(types, calls[1..]);
      }
    }
  }

  /** One declaration is refused exactly if it differs from a known one of its type and name. */
  lemma AddDeclExact(types: Types, x: Typed)
    requires Unique(types)
    ensures AddDecl(types, x.typ, x.decl).Some? <==> AgreesWith(types, x)
    ensures AddDecl(types, x.typ, x.decl).Some? ==>
              var t := AddDecl(types, x.typ, x.decl).value;
              Unique(t) && forall y :: Declared(t, y) <==> Declared(types, y) || y == x
    ensures Declared(types, x) ==> AddDecl(types, x.typ, x.decl) == Some(types)
  {
    var known := if x.typ in types then types[x.typ] else [];
    var found := FirstNamed(known, x.decl.name);
    if found.Some? {
      SameName(known, found.value, x.decl.name);
      assert Agree(Typed(x.typ, found.value), x) <==> found.value == x.decl;
      assert x.typ in types && types[x.typ := known] == types;
    }
    if AddDecl(types, x.typ, x.decl).Some? {
      var t := AddDecl(types, x.typ, x.decl).value;
      AddDeclKeeps(types, x.typ, x.decl);
      forall y
        ensures Declared(t, y) <==> Declared(types, y) || y == x
      {
      }
    }
  }

  lemma SameName(ds: seq<Decl>, d: Decl, name: string)
    requires UniqueNames(ds) && d in ds && d.name == name
    ensures forall e :: e in ds && e.name == name ==> e == d
  {
  }

  lemma {:induction false} AddAllExact(types: Types, xs: seq<Typed>)
    requires Unique(types)
    ensures AddAll(types, xs).Some? <==> Consistent(types, xs)
    ensures AddAll(types, xs).Some? ==>
              forall y :: Declared(AddAll(types, xs).value, y) <==> Declared(types, y) || y in xs
    ensures (forall x :: x in xs ==> Declared(types, x)) ==> AddAll(types, xs) == Some(types)
    decreases |xs|
  {
    hide AddDecl, Unique, Agree, AgreesWith, Declared;
    if xs != [] {
      var x, rest := xs[0], xs[1..];
      assert xs == [x] + rest;
      AddDeclExact(types, x);
      match AddDecl(types, x.typ, x.decl) {
        case None => assert x in xs;
        case Some(t) =>
          AddAllExact(t, rest);
          ConsistentStep(types, t, x, rest);
          assert forall y :: y in xs <==> y == x || y in rest;
      }
    }
  }

  /** Adding a declaration moves it from the new ones to the known ones. */
  lemma ConsistentStep(types: Types, t: Types, x: Typed, rest: seq<Typed>)
    requires AgreesWith(types, x)
    requires forall y :: Declared(t, y) <==> Declared(types, y) || y == x
    ensures Consistent(types, [x] + rest) <==> Consistent(t, rest)
  {
    var xs := [x] + rest;
    assert xs[0] == x && forall y :: y in xs <==> y == x || y in rest;
    AgreesByDeclared(types);
    AgreesByDeclared(t);
    hide Declared, AgreesWith;
    if Consistent(types, xs) {
      forall y | y in rest
        ensures AgreesWith(t, y)
      {
        assert AgreesWith(types, y) && Agree(x, y);
      }
    }
    if Consistent(t, rest) {
      assert Declared(t, x);
      forall y | y in xs
        ensures AgreesWith(types, y) && Agree(x, y) && Agree(y, x)
      {
        if y in rest {
          assert AgreesWith(t, y) && Agree(x, y);
        }
      }
    }
  }

  lemma AgreesByDeclared(types: Types)
    ensures forall x :: AgreesWith(types, x) <==> forall y :: Declared(types, y) ==> Agree(y, x)
  {
    forall x
      ensures AgreesWith(types, x) <==> forall y :: Declared(types, y) ==> Agree(y, x)
    {
      if x.typ in types && forall y :: Declared(types, y) ==> Agree(y, x) {
        forall d | d in types[x.typ]
          ensures Agree(Typed(x.typ, d), x)
        {
          assert Declared(types, Typed(x.typ, d));
        }
      }
      if AgreesWith(types, x) {
        forall y | Declared(types, y)
          ensures Agree(y, x)
        {
          assert y.typ == x.typ ==> y == Typed(x.typ, y.decl);
        }
      }
    }
  }

  // ---------- whole trees ----------

  /** Gathering succeeds exactly if no two declarations of one type and name differ, in the tree and in what
      is known; it then declares the tree's algorithms besides the known ones, and nothing else. */
  lemma GatherSucceeds(types: Types, m: Meta)
    requires Unique(types)
    ensures Gather(types, m).Some? <==> Consistent(types, TreeDecls(m))
    ensures Gather(types, m).Some? ==>
              forall y :: Declared(Gather(types, m).value, y) <==> Declared(types, y) || y in TreeDecls(m)
  {
    hide Gather, TreeDecls, Consistent;
    GatherIsAddAll(types, m);
    AddAllExact(types, TreeDecls(m));
  }

  lemma {:induction false} KnowsDeclared(types: Types, m: Meta)
    ensures Knows(types, m) <==> forall x :: x in TreeDecls(m) ==> Declared(types, x)
    decreases m, 0
  {
    hide KnowsCalls, CallDecls;
    KnowsCallsDeclared(types, m.calls);
    var own, rest := Typed(m.typ, Definition(m)), CallDecls(m.calls);
    assert TreeDecls(m) == [own] + rest;
    assert forall x :: x in TreeDecls(m) <==> x == own || x in rest;
    assert Declared(types, own) <==> m.typ in types && Definition(m) in types[m.typ];
    if Knows(types, m) {
      assert forall x :: x in TreeDecls(m) ==> Declared(types, x);
    }
    if forall x :: x in TreeDecls(m) ==> Declared(types, x) {
      assert own in TreeDecls(m);
      assert forall x :: x in rest ==> x in TreeDecls(m);
    }
  }

  lemma {:induction false} KnowsCallsDeclared(types: Types, calls: seq<OptionCall>)
    ensures KnowsCalls(types, calls) <==> forall x :: x in CallDecls(calls) ==> Declared(types, x)
    decreases calls
  {
    hide Knows, TreeDecls, Declared;
    if calls != [] {
      KnowsCallsDeclared(types, calls[1..]);
      match calls[0] {
        case Templated(_, sub) => KnowsDeclared(types, sub);
        case TemplatedDefault(_, sub, def) => KnowsDeclared(types, sub); KnowsDeclared(types, def);
        case _ =>
      }
    }
  }

  /** Gathering a tree that is known changes nothing: algorithms may share what they are built from. */
  lemma GatherKnown(types: Types, m: Meta)
    requires Unique(types) && Knows(types, m)
    ensures Gather(types, m) == Some(types)
  {
    hide Gather, TreeDecls, Knows, Declared;
    KnowsDeclared(types, m);
    GatherIsAddAll(types, m);
    AddAllExact(types, TreeDecls(m));
  }

  const SHARED := Meta("coder", "bit", "", [])
  const FIRST := Meta("compressor", "a", "", [Templated("c", SHARED)])
  const SECOND := Meta("compressor", "b", "", [Templated("c", SHARED)])

  /** Two compressors that share a coder are gathered one after the other. */
  lemma SharedCoder()
    ensures Gather(map[], FIRST).Some? && Gather(Gather(map[], FIRST).value, SECOND).Some?
  {
    TwoDecls(FIRST);
    TwoDecls(SECOND);
    GatherSucceeds(map[], FIRST);
    GatherKeeps(map[], FIRST);
    var types := Gather(map[], FIRST).value;
    AgreesByDeclared(types);
    hide Gather, TreeDecls, Declared, AgreesWith, Knows;
    GatherSucceeds(types, SECOND);
    forall x | x in TreeDecls(SECOND)
      ensures AgreesWith(types, x)
    {
      forall y | Declared(types, y)
        ensures Agree(y, x)
      {
        assert y in TreeDecls(FIRST);
      }
    }
  }

  lemma TwoDecls(m: Meta)
    requires m.calls == [Templated("c", SHARED)]
    ensures TreeDecls(m) == [Typed(m.typ, Definition(m)), Typed("coder", Definition(SHARED))]
  {
    assert m.calls[1..] == [];
    assert TreeDecls(SHARED) == [Typed("coder", Definition(SHARED))];
  }
}
