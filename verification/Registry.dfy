/** The registry object, and what it lists and selects. */
module RegistryObject {
  import opened OptionEval
  import opened Meta
  import opened SelectionKeys
  import opened Enumeration
  import opened Reachability
  import opened Gathering
  import opened EnumerationOnce
  import opened Wrappers

  /** already_seen, shared by reference through the recursion. */
  class SeenStack {
    var types: seq<string>

    constructor ()
      ensures types == []
    {
      types := [];
    }
  }

  class Registry<C(==)> {
    const rootType: string
    var algorithms: Types
    var registered: map<Pattern, C>

    /** Names are unique per type and every key is a well-formed selection of the root type. */
    ghost predicate Valid()
      reads this
    {
      Unique(algorithms) && forall k :: k in registered ==> WellFormed(algorithms, rootType, k)
    }

    constructor (rootType: string)
      ensures Valid() && this.rootType == rootType && algorithms == map[] && registered == map[]
    {
      this.rootType, algorithms, registered := rootType, map[], map[];
    }

    /** gather_types for one meta: adds its declaration, then those of its sub metas. It fails exactly if
        two declarations of one type and name differ. */
    method GatherTypes(m: Meta) returns (ok: bool)
      requires Unique(algorithms)
      modifies this`algorithms
      ensures Unique(algorithms) && Extends(old(algorithms), algorithms)
      ensures match Gather(old(algorithms), m)
              case None => !ok
              case Some(t) => ok && algorithms == t
      ensures ok <==> Consistent(old(algorithms), TreeDecls(m))
      ensures ok ==> forall y :: Declared(algorithms, y) <==> Declared(old(algorithms), y) || y in TreeDecls(m)
      decreases m, 0
    {
      hide Unique, Extends, GatherCalls, Definition, Consistent, TreeDecls;
      GatherSucceeds(algorithms, m);
      var known := if m.typ in algorithms then algorithms[m.typ] else [];
      var decl := Definition(m);
      ghost var before := algorithms;
      ghost var added := AddDecl(algorithms, m.typ, decl);
      if added.Some? {
        AddDeclKeeps(algorithms, m.typ, decl);
      }
      ExtendsSelf(algorithms);
      ok := true;
      var i := 0;
      while i < |known| && known[i].name != decl.name
        invariant i <= |known| && FirstNamed(known, decl.name) == FirstNamed(known[i..], decl.name)
      {
        assert known[i..][1..] == known[i + 1..];
        i := i + 1;
      }
      if i < |known| {
        if known[i] != decl {
          return false;
        }
        algorithms := algorithms[m.typ := known];
      } else {
        algorithms := algorithms[m.typ := known + [decl]];
      }
      ghost var t := algorithms;
      ok := GatherSubMetas(m.calls);
      ExtendsTwice(before, t, algorithms);
    }

    method GatherSubMetas(calls: seq<OptionCall>) returns (ok: bool)
      requires Unique(algorithms)
      modifies this`algorithms
      ensures Unique(algorithms) && Extends(old(algorithms), algorithms)
      ensures match GatherCalls(old(algorithms), calls)
              case None => !ok
              case Some(t) => ok && algorithms == t
      decreases calls
    {
      hide Unique, Extends, Gather;
      ghost var before := algorithms;
      ExtendsSelf(algorithms);
      ok := true;
      if |calls| > 0 {
        match calls[0] {
          case Templated(_, sub) => ok := GatherTypes(sub);
          case TemplatedDefault(_, sub, def) =>
            ok := GatherTypes(sub);
            ghost var mid := algorithms;
            if ok {
              ok := GatherTypes(def);
              ExtendsTwice(before, mid, algorithms);
            }
          case _ =>
        }
        ghost var t := algorithms;
        if ok {
          ok := GatherSubMetas(calls[1..]);
          ExtendsTwice(before, t, algorithms);
        }
      }
    }

    /** Registers the constructor of an algorithm under the pattern of its static arguments. */
    method RegisterAlgorithm(m: Meta, ctor: C, fuel: nat) returns (ok: bool)
      requires Valid() && WellBuilt(m)
      modifies this`algorithms, this`registered
      ensures Valid() && Extends(old(algorithms), algorithms)
      ensures forall k :: k in old(registered) ==> k in registered && registered[k] == old(registered)[k]
      ensures var t := Gather(old(algorithms), m);
              var key := if t.Some? then PatternEval(fuel, StaticAst(m), rootType, t.value) else None;
              && ok == (key.Some? && key.value !in old(registered))
              && registered == (if ok then old(registered)[key.value := ctor] else old(registered))
              && (t.Some? ==> algorithms == t.value)
      ensures old(Closed(algorithms)) && Gather(old(algorithms), m).Some? ==> Closed(algorithms)
      ensures m.typ == rootType && fuel >= Depth(m) ==>
                (ok <==> && Consistent(old(algorithms), TreeDecls(m)) && Nameable(m)
                         && ToPattern(StaticAst(m)) !in old(registered))
      ensures m.typ == rootType && fuel >= Depth(m) && ok ==>
                registered == old(registered)[ToPattern(StaticAst(m)) := ctor]
    {
      hide Unique, Extends, Eval, WellFormed, Closed, Gather, Consistent, TreeDecls, Nameable, Depth, Knows;
      ghost var before := algorithms;
      if Gather(algorithms, m).Some? && m.typ == rootType && fuel >= Depth(m) {
        GatherKeeps(algorithms, m);
        OwnEval(fuel, m, Gather(algorithms, m).value);
      }
      if Closed(algorithms) && Gather(algorithms, m).Some? {
        GatherKeepsClosed(algorithms, m);
      }
      ok := GatherTypes(m);
      forall k | k in registered
        ensures WellFormed(algorithms, rootType, k)
      {
        WellFormedLater(before, algorithms, rootType, k);
      }
      if ok {
        var key := Evaluate(fuel, StaticAst(m), rootType, algorithms, true, EMPTY);
        ok := key.Some? && key.value.AlgorithmValue? && key.value.selection !in registered;
        if ok {
          SelectionWellFormed(fuel, StaticAst(m), rootType, algorithms, true, EMPTY);
          registered := registered[key.value.selection := ctor];
        }
      }
    }

    /** The constructor registered for a static selection, or the error that there is none. */
    method SelectAlgorithm(selection: Pattern) returns (r: Option<C>)
      ensures r == if selection in registered then Some(registered[selection]) else None
    {
      return if selection in registered then Some(registered[selection]) else None;
    }

    /** Selection by an option string that has been parsed. */
    method Select(v: Value, fuel: nat) returns (r: Option<C>)
      requires Valid()
      ensures var e := ClEval(fuel, v, rootType, algorithms, EMPTY);
              r.Some? <==> e.Some? && e.value.AlgorithmValue? && e.value.selection in registered
      ensures r.Some? ==> var key := PatternEval(fuel, v, rootType, algorithms);
                          key.Some? && key.value in registered && r.value == registered[key.value]
    {
      hide Eval, Unique, WellFormed;
      var e := Evaluate(fuel, v, rootType, algorithms, false, EMPTY);
      if e.None? || e.value.StringValue? {
        return None;
      }
      PatternEvalAgrees(fuel, v, rootType, algorithms, EMPTY);
      r := SelectAlgorithm(e.value.selection);
    }

    /** All static selections of a type, with already_seen pushed and popped around the arguments. */
    method AllInternal(seen: SeenStack, typ: string) returns (r: Option<seq<Pattern>>)
      requires SeenOk(algorithms, seen.types)
      modifies seen
      ensures r == Enum(algorithms, old(seen.types), typ)
      ensures r.Some? ==> seen.types == old(seen.types)
      decreases Room(algorithms, seen.types), 2
    {
      hide SeenOk, Patterns;
      if typ !in algorithms {
        return None;
      }
      ghost var start := seen.types;
      var ds := algorithms[typ];
      var all: seq<Pattern> := [];
      assert ds[0..] == ds;
      StartPatterns(EnumDecls(algorithms, start, typ, ds));
      for i := 0 to |ds|
        invariant seen.types == start
        invariant Enum(algorithms, start, typ) == PrependPatterns(all, EnumDecls(algorithms, start, typ, ds[i..]))
      {
        assert ds[i..][0] == ds[i] && ds[i..][1..] == ds[i + 1..];
        var found := CountSeen(seen, typ);
        if found > 2 {
          continue;
        }
        Enter(algorithms, start, typ);
        seen.types := seen.types + [typ];
        var variations := AllVariations(seen, ds[i].args);
        if variations.None? {
          return None;
        }
        seen.types := seen.types[..|seen.types| - 1];
        var ps := MakePatterns(ds[i].name, variations.value);
        StepPatterns(all, ps, EnumDecls(algorithms, start, typ, ds[i + 1..]));
        all := all + ps;
      }
      assert all + [] == all;
      return Some(all);
    }

    method CountSeen(seen: SeenStack, typ: string) returns (n: nat)
      ensures n == Count(seen.types, typ)
    {
      n := 0;
      for i := 0 to |seen.types|
        invariant n == Count(seen.types[..i], typ)
      {
        assert seen.types[..i + 1][..i] == seen.types[..i];
        if seen.types[i] == typ {
          n := n + 1;
        }
      }
      assert seen.types[..|seen.types|] == seen.types;
    }

    method AllVariations(seen: SeenStack, args: seq<DeclArg>) returns (r: Option<seq<seq<Args>>>)
      requires SeenOk(algorithms, seen.types)
      modifies seen
      ensures r == EnumArgs(algorithms, old(seen.types), args)
      ensures r.Some? ==> seen.types == old(seen.types)
      decreases Room(algorithms, seen.types), 3
    {
      hide SeenOk;
      ghost var start := seen.types;
      var all: seq<seq<Args>> := [];
      assert args[0..] == args;
      StartVariations(EnumArgs(algorithms, start, args));
      for i := 0 to |args|
        invariant seen.types == start
        invariant EnumArgs(algorithms, start, args) == PrependVariations(all, EnumArgs(algorithms, start, args[i..]))
      {
        assert args[i..][0] == args[i] && args[i..][1..] == args[i + 1..];
        if args[i].name == "" {
          return None;
        }
        if args[i].isStatic {
          var ps := AllInternal(seen, args[i].typ);
          if ps.None? {
            return None;
          }
          var variation := Wrap(args[i].name, ps.value);
          StepVariations(all, variation, EnumArgs(algorithms, start, args[i + 1..]));
          all := all + [variation];
        }
      }
      assert all + [] == all;
      return Some(all);
    }

    /** The registered selections among all of a type. With no unknown type it fails only for an
        unknown root and for a nameless option within reach. */
    method AllAlgorithmsWithStatic(typ: string) returns (r: Option<seq<Pattern>>)
      requires Valid()
      ensures r.Some? <==> SeenOk(algorithms, []) && Enum(algorithms, [], typ).Some?
      ensures Closed(algorithms) ==> (r.Some? <==> typ in algorithms && NamedWithin(algorithms, [], typ))
      ensures r.Some? ==> forall p :: p in r.value ==> p in registered
      ensures r.Some? && typ == rootType ==>
                forall p :: p in r.value <==> p in registered && AtMostThreeOnPath(algorithms, typ, p)
      ensures r.Some? ==> NoDuplicates(r.value)
    {
      hide NoDuplicates, Unique, WellFormed, Allowed, Bounded, AtMostThreeOnPath, Closed, NamedWithin, EnumDecls;
      var seen := new SeenStack();
      assert SeenOk(algorithms, []);
      if Closed(algorithms) && typ in algorithms {
        EnumSucceeds(algorithms, [], typ);
      }
      hide Enum;
      var all := AllInternal(seen, typ);
      if all.None? {
        return None;
      }
      EnumOnce(algorithms, [], typ);
      var filtered: seq<Pattern> := [];
      assert NoDuplicates(filtered) by { NothingTwice(filtered); }
      for i := 0 to |all.value|
        invariant forall p :: p in filtered <==> p in all.value[..i] && p in registered
        invariant NoDuplicates(filtered)
      {
        assert all.value[..i + 1] == all.value[..i] + [all.value[i]];
        KeepOnce(filtered, all.value, i);
        if all.value[i] in registered {
          filtered := filtered + [all.value[i]];
        }
      }
      assert all.value[..|all.value|] == all.value;
      if typ == rootType {
        forall p | p in registered
          ensures p in all.value <==> Allowed(algorithms, [], typ, p)
        {
          EnumExact(algorithms, [], typ, p);
        }
        forall p | p in registered
          ensures Allowed(algorithms, [], typ, p) <==> AtMostThreeOnPath(algorithms, typ, p)
        {
          AllowedIffBounded(algorithms, [], typ, p);
          BoundedFromStart(algorithms, typ, p);
        }
      }
      return Some(filtered);
    }

    /** Looks for unregistered selections among those already filtered by being registered, so it
        never reports one. */
    method CheckForUndefinedAlgorithms() returns (r: Option<seq<Pattern>>)
      requires Valid()
      ensures r.Some? ==> r.value == []
      ensures Closed(algorithms) ==> (r.Some? <==> rootType in algorithms && NamedWithin(algorithms, [], rootType))
    {
      var all := AllAlgorithmsWithStatic(rootType);
      if all.None? {
        return None;
      }
      var undefined := Unregistered(all.value);
      return Some(undefined);
    }

    method Unregistered(ps: seq<Pattern>) returns (r: seq<Pattern>)
      ensures forall p :: p in r <==> p in ps && p !in registered
      ensures (forall p :: p in ps ==> p in registered) ==> r == []
    {
      r := [];
      for i := 0 to |ps|
        invariant forall p :: p in r <==> p in ps[..i] && p !in registered
        invariant (forall j :: 0 <= j < i ==> ps[j] in registered) ==> r == []
      {
        assert ps[..i + 1] == ps[..i] + [ps[i]];
        if ps[i] !in registered {
          r := r + [ps[i]];
        }
      }
      assert ps[..|ps|] == ps;
    }
  }

  lemma NothingTwice(ps: seq<Pattern>)
    requires ps == []
    ensures NoDuplicates(ps)
  {
  }

  /** The next of a list without duplicates is not among those kept so far. */
  lemma KeepOnce(kept: seq<Pattern>, all: seq<Pattern>, i: nat)
    requires NoDuplicates(kept) && NoDuplicates(all) && i < |all| && forall p :: p in kept ==> p in all[..i]
    ensures NoDuplicates(kept + [all[i]])
  {
    forall k | 0 <= k < |kept|
      ensures kept[k] != all[i]
    {
      assert kept[k] in all[..i];
    }
  }

  /** No root-to-leaf path of the selection has more than three nodes of one type. */
  ghost predicate AtMostThreeOnPath(types: Types, typ: string, p: Pattern) {
    forall t :: OnPath(types, typ, p, t) <= MAX_ON_PATH
  }

  lemma BoundedFromStart(types: Types, typ: string, p: Pattern)
    ensures Bounded(types, [], typ, p) <==> AtMostThreeOnPath(types, typ, p)
  {
    hide OnPath;
    var none: seq<string> := [];
    assert forall t :: Count(none, t) == 0;
    if Bounded(types, none, typ, p) {
      forall t
        ensures OnPath(types, typ, p, t) <= MAX_ON_PATH
      {
        assert Count(none, t) + OnPath(types, typ, p, t) <= MAX_ON_PATH;
      }
    }
    if AtMostThreeOnPath(types, typ, p) {
      forall t
        ensures Count(none, t) + OnPath(types, typ, p, t) <= MAX_ON_PATH
      {
        assert OnPath(types, typ, p, t) <= MAX_ON_PATH;
      }
    }
  }

  method MakePatterns(name: string, variations: seq<seq<Args>>) returns (r: seq<Pattern>)
    ensures r == Patterns(name, variations)
  {
    if |variations| == 0 {
      return [Pattern(name, [])];
    }
    var xs := CrossLoop(variations);
    r := [];
    for i := 0 to |xs|
      invariant r == Patterns(name, variations)[..i]
    {
      r := r + [Pattern(name, xs[i])];
    }
  }

  ghost function PrependPatterns(ps: seq<Pattern>, r: Option<seq<Pattern>>): Option<seq<Pattern>> {
    match r
    case None => None
    case Some(rest) => Some(ps + rest)
  }

  lemma StartPatterns(r: Option<seq<Pattern>>)
    ensures PrependPatterns([], r) == r
  {
    if r.Some? {
      assert [] + r.value == r.value;
    }
  }

  lemma StepPatterns(a: seq<Pattern>, b: seq<Pattern>, r: Option<seq<Pattern>>)
    ensures PrependPatterns(a, PrependPatterns(b, r)) == PrependPatterns(a + b, r)
  {
    if r.Some? {
      assert a + (b + r.value) == a + b + r.value;
    }
  }

  ghost function PrependVariations(vs: seq<seq<Args>>, r: Option<seq<seq<Args>>>): Option<seq<seq<Args>>> {
    match r
    case None => None
    case Some(rest) => Some(vs + rest)
  }

  lemma StartVariations(r: Option<seq<seq<Args>>>)
    ensures PrependVariations([], r) == r
  {
    if r.Some? {
      assert [] + r.value == r.value;
    }
  }

  lemma StepVariations(a: seq<seq<Args>>, v: seq<Args>, r: Option<seq<seq<Args>>>)
    ensures PrependVariations(a, PrependVariations([v], r)) == PrependVariations(a + [v], r)
  {
    if r.Some? {
      assert a + ([v] + r.value) == a + [v] + r.value;
    }
  }
}
