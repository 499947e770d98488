/** Listing all static selections: the cross product of argument variations, and the recursion that
    allows a type at most three times on a path. */
module Enumeration {
  import opened OptionEval
  import opened Meta
  import opened SelectionKeys
  import opened Wrappers

  type Args = seq<PatternArg>

  // ---------- cross ----------

  function AppendToAll(x: Args, next: seq<Args>): (r: seq<Args>)
    ensures |r| == |next| && forall i :: 0 <= i < |r| ==> r[i] == x + next[i]
  {
    seq(|next|, i requires 0 <= i < |next| => x + next[i])
  }

  function Pairs(first: seq<Args>, next: seq<Args>): (r: seq<Args>)
    ensures |r| == |first| * |next|
  {
    if first == [] then [] else AppendToAll(first[0], next) + Pairs(first[1..], next)
  }

  /** cross with concatenation as the product function. */
  function Cross(vs: seq<seq<Args>>): seq<Args>
    decreases |vs|
  {
    if vs == [] then []
    else
      var next := Cross(vs[1..]);
      if next == [] then vs[0] else Pairs(vs[0], next)
  }

  lemma {:induction false} PairsMembers(first: seq<Args>, next: seq<Args>, x: Args)
    ensures x in Pairs(first, next) <==> exists a, b :: a in first && b in next && x == a + b
  {
    if first != [] {
      PairsMembers(first[1..], next, x);
      var head := AppendToAll(first[0], next);
      if x in head {
        var i :| 0 <= i < |head| && head[i] == x;
        assert first[0] in first && next[i] in next && x == first[0] + next[i];
      }
      if a, b :| a in first && b in next && x == a + b {
        if a == first[0] {
          var i :| 0 <= i < |next| && next[i] == b;
          assert head[i] == x;
        } else {
          assert a in first[1..];
        }
      }
      if x in Pairs(first[1..], next) {
        var a, b :| a in first[1..] && b in next && x == a + b;
        assert a in first;
      }
    }
  }

  predicate Singles(vs: seq<seq<Args>>) {
    forall i, j :: 0 <= i < |vs| && 0 <= j < |vs[i]| ==> |vs[i][j]| == 1
  }

  /** One element of each list. */
  predicate Chosen(vs: seq<seq<Args>>, x: Args)
    decreases |vs|
  {
    if vs == [] || x == [] then vs == [] && x == []
    else [x[0]] in vs[0] && Chosen(vs[1..], x[1..])
  }

  /** cross is the full product: among results with one argument per list, exactly the choices of one
      element from each list. A result for a product that is empty is shorter than the list of lists. */
  lemma {:induction false} CrossIsProduct(vs: seq<seq<Args>>, x: Args)
    requires vs != [] && Singles(vs)
    ensures x in Cross(vs) ==> 0 < |x| <= |vs|
    ensures Chosen(vs, x) <==> |x| == |vs| && x in Cross(vs)
    decreases |vs|
  {
    var tail := vs[1..];
    var next := Cross(tail);
    if tail == [] {
      assert Cross(vs) == vs[0];
      if |x| == 1 {
        assert x == [x[0]] && x[1..] == [];
      } else if |x| > 1 {
        assert x[1..] != [];
      }
    } else {
      assert Singles(tail) by { assert forall i :: 0 <= i < |tail| ==> tail[i] == vs[i + 1]; }
      if x != [] { CrossIsProduct(tail, x[1..]); }
      if next == [] {
        if x in vs[0] { assert |x| == 1; }
      } else {
        PairsMembers(vs[0], next, x);
        if a, b :| a in vs[0] && b in next && x == a + b {
          assert |a| == 1;
          CrossIsProduct(tail, b);
          assert x[0] == a[0] && [x[0]] == a && x[1..] == b;
        }
        if Chosen(vs, x) {
          assert x == [x[0]] + x[1..];
        }
      }
    }
  }

  function Sizes(vs: seq<seq<Args>>): nat
    decreases |vs|
  {
    if vs == [] then 1 else |vs[0]| * Sizes(vs[1..])
  }

  /** With no empty list cross has as many results as there are choices. */
  lemma {:induction false} CrossSize(vs: seq<seq<Args>>)
    requires vs != [] && forall i :: 0 <= i < |vs| ==> vs[i] != []
    ensures |Cross(vs)| == Sizes(vs) > 0
    decreases |vs|
  {
    if |vs| == 1 {
      assert vs[1..] == [];
      assert |vs[0]| * 1 == |vs[0]|;
    } else {
      CrossSize(vs[1..]);
      ProductPositive(|vs[0]|, Sizes(vs[1..]));
    }
  }

  lemma ProductPositive(a: nat, b: nat)
    requires a > 0 && b > 0
    ensures a * b > 0
  {
  }

  /** cross as the source computes it, with nested loops that push every pair. */
  method CrossLoop(vs: seq<seq<Args>>) returns (r: seq<Args>)
    ensures r == Cross(vs)
    decreases |vs|
  {
    if |vs| == 0 {
      return [];
    }
    var first := vs[0];
    var next := CrossLoop(vs[1..]);
    if |next| == 0 {
      return first;
    }
    r := [];
    assert first[0..] == first;
    for i := 0 to |first|
      invariant r + Pairs(first[i..], next) == Pairs(first, next)
    {
      ghost var start := r;
      assert first[i..][0] == first[i] && first[i..][1..] == first[i + 1..];
      for j := 0 to |next|
        invariant r == start + AppendToAll(first[i], next)[..j]
      {
        r := r + [first[i] + next[j]];
      }
      assert AppendToAll(first[i], next)[..|next|] == AppendToAll(first[i], next);
      assert r + Pairs(first[i + 1..], next) == start + (AppendToAll(first[i], next) + Pairs(first[i + 1..], next));
    }
    assert r + [] == r;
  }

  // ---------- types on the way down ----------

  function Count(seen: seq<string>, t: string): (n: nat)
    ensures n <= |seen|
  {
    if seen == [] then 0 else Count(seen[..|seen| - 1], t) + if seen[|seen| - 1] == t then 1 else 0
  }

  const MAX_ON_PATH: nat := 3

  /** What already_seen can hold: known types, each at most three times. */
  ghost predicate SeenOk(types: Types, seen: seq<string>) {
    && (forall t :: t in seen ==> t in types)
    && (forall t :: Count(seen, t) <= MAX_ON_PATH)
  }

  function Without(seen: seq<string>, t: string): (r: seq<string>)
    ensures |r| + Count(seen, t) == |seen|
    ensures forall u :: u in r ==> u in seen && u != t
    ensures forall u :: Count(r, u) <= Count(seen, u)
  {
    if seen == [] then []
    else
      var init, last := seen[..|seen| - 1], seen[|seen| - 1];
      var rest := Without(init, t);
      assert last in seen && forall u :: u in init ==> u in seen;
      if last == t then rest
      else
        assert (rest + [last])[..|rest|] == rest;
        rest + [last]
  }

  lemma {:induction false} SeenBound(keys: set<string>, seen: seq<string>)
    requires forall t :: t in seen ==> t in keys
    requires forall t :: Count(seen, t) <= MAX_ON_PATH
    ensures |seen| <= MAX_ON_PATH * |keys|
    decreases |keys|
  {
    if seen != [] {
      var k := seen[|seen| - 1];
      SeenBound(keys - {k}, Without(seen, k));
    }
  }

  /** How often a type can still be entered. */
  ghost function Room(types: Types, seen: seq<string>): nat
    requires SeenOk(types, seen)
  {
    SeenBound(types.Keys, seen);
    MAX_ON_PATH * |types.Keys| - |seen|
  }

  lemma Enter(types: Types, seen: seq<string>, typ: string)
    requires SeenOk(types, seen) && typ in types && Count(seen, typ) < MAX_ON_PATH
    ensures SeenOk(types, seen + [typ])
    ensures Room(types, seen + [typ]) < Room(types, seen)
    ensures forall t :: Count(seen + [typ], t) == Count(seen, t) + if t == typ then 1 else 0
  {
    assert (seen + [typ])[..|seen|] == seen;
  }

  // ---------- enumeration ----------

  function Wrap(name: string, ps: seq<Pattern>): (r: seq<Args>)
    ensures |r| == |ps| && forall i :: 0 <= i < |r| ==> r[i] == [PatternArg(name, ps[i])]
  {
    seq(|ps|, i requires 0 <= i < |ps| => [PatternArg(name, ps[i])])
  }

  function Patterns(name: string, variations: seq<seq<Args>>): seq<Pattern> {
    if variations == [] then [Pattern(name, [])]
    else
      var xs := Cross(variations);
      seq(|xs|, i requires 0 <= i < |xs| => Pattern(name, xs[i]))
  }

  /** all_algorithms_with_static_internal: None stands for an unknown type or an unnamed argument. */
  ghost function Enum(types: Types, seen: seq<string>, typ: string): Option<seq<Pattern>>
    requires SeenOk(types, seen)
    decreases Room(types, seen), 2, 0
  {
    if typ !in types then None else EnumDecls(types, seen, typ, types[typ])
  }

  ghost function EnumDecls(types: Types, seen: seq<string>, typ: string, ds: seq<Decl>): Option<seq<Pattern>>
    requires SeenOk(types, seen) && typ in types
    decreases Room(types, seen), 1, |ds|
  {
    if ds == [] then Some([])
    else if Count(seen, typ) >= MAX_ON_PATH then EnumDecls(types, seen, typ, ds[1..])
    else
      Enter(types, seen, typ);
      match EnumArgs(types, seen + [typ], ds[0].args)
      case None => None
      case Some(variations) =>
        match EnumDecls(types, seen, typ, ds[1..])
        case None => None
        case Some(rest) => Some(Patterns(ds[0].name, variations) + rest)
  }

  ghost function EnumArgs(types: Types, seen: seq<string>, args: seq<DeclArg>): Option<seq<seq<Args>>>
    requires SeenOk(types, seen)
    decreases Room(types, seen), 3, |args|
  {
    if args == [] then Some([])
    else if args[0].name == "" then None
    else if !args[0].isStatic then EnumArgs(types, seen, args[1..])
    else
      match Enum(types, seen, args[0].typ)
      case None => None
      case Some(ps) =>
        match EnumArgs(types, seen, args[1..])
        case None => None
        case Some(rest) => Some([Wrap(args[0].name, ps)] + rest)
  }

  // ---------- what is enumerated ----------

  /** A type is entered at most three times on the way to any node, counting those in seen. */
  ghost predicate Allowed(types: Types, seen: seq<string>, typ: string, p: Pattern)
    decreases p, 0
  {
    && Count(seen, typ) < MAX_ON_PATH
    && (typ in types && LastNamed(types[typ], p.name).Some? ==>
          ArgsAllowed(types, seen + [typ], Statics(LastNamed(types[typ], p.name).value.args), p.args))
  }

  ghost predicate ArgsAllowed(types: Types, seen: seq<string>, sig: seq<DeclArg>, args: seq<PatternArg>)
    decreases args
  {
    sig == [] || args == [] ||
    (ArgAllowed(types, seen, sig[0], args[0]) && ArgsAllowed(types, seen, sig[1..], args[1..]))
  }

  ghost predicate ArgAllowed(types: Types, seen: seq<string>, a: DeclArg, p: PatternArg)
    decreases p, 1
  {
    Allowed(types, seen, a.typ, p.algorithm)
  }

  lemma {:induction false} EnumArgsShape(types: Types, seen: seq<string>, args: seq<DeclArg>)
    requires SeenOk(types, seen) && EnumArgs(types, seen, args).Some?
    ensures |EnumArgs(types, seen, args).value| == |Statics(args)|
    ensures Singles(EnumArgs(types, seen, args).value)
    decreases |args|
  {
    hide Enum, SeenOk;
    if args != [] {
      EnumArgsShape(types, seen, args[1..]);
    }
  }

  lemma PatternsMembers(name: string, variations: seq<seq<Args>>, p: Pattern)
    requires Singles(variations)
    ensures p.name == name && |p.args| == |variations| ==>
              (p in Patterns(name, variations) <==> Chosen(variations, p.args))
    ensures p in Patterns(name, variations) ==> p.name == name
  {
    hide Cross, Chosen;
    if variations == [] {
      ChosenNone(p.args);
    } else {
      CrossIsProduct(variations, p.args);
      var xs := Cross(variations);
      if p.args in xs && p.name == name {
        var i :| 0 <= i < |xs| && xs[i] == p.args;
        assert Patterns(name, variations)[i] == p;
      }
    }
  }

  lemma ChosenNone(x: Args)
    ensures Chosen([], x) <==> x == []
  {
  }

  /** A well-formed selection is enumerated exactly if no type occurs more than three times on a path. */
  lemma {:induction false} EnumExact(types: Types, seen: seq<string>, typ: string, p: Pattern)
    requires SeenOk(types, seen) && Unique(types) && Enum(types, seen, typ).Some? && WellFormed(types, typ, p)
    ensures p in Enum(types, seen, typ).value <==> Allowed(types, seen, typ, p)
    decreases Room(types, seen), 2, 0
  {
    EnumDeclsExact(types, seen, typ, types[typ], p);
  }

  lemma {:induction false} EnumDeclsExact(types: Types, seen: seq<string>, typ: string, ds: seq<Decl>, p: Pattern)
    requires SeenOk(types, seen) && Unique(types) && EnumDecls.requires(types, seen, typ, ds)
    requires EnumDecls(types, seen, typ, ds).Some? && WellFormed(types, typ, p)
    requires UniqueNames(ds) && forall d :: d in ds ==> d in types[typ]
    ensures p in EnumDecls(types, seen, typ, ds).value
       <==> LastNamed(types[typ], p.name).value in ds && Allowed(types, seen, typ, p)
    decreases Room(types, seen), 1, |ds|
  {
    hide SeenOk, Unique, ArgsFit, ArgsAllowed, Patterns, EnumArgs;
    if ds != [] {
      EnumDeclsExact(types, seen, typ, ds[1..], p);
      if Count(seen, typ) < MAX_ON_PATH {
        Enter(types, seen, typ);
        var d := LastNamed(types[typ], p.name).value;
        var variations := EnumArgs(types, seen + [typ], ds[0].args).value;
        EnumArgsShape(types, seen + [typ], ds[0].args);
        PatternsMembers(ds[0].name, variations, p);
        if ds[0].name == p.name {
          OneDeclOfName(types, typ, ds[0]);
          EnumArgsExact(types, seen + [typ], d.args, p.args);
        }
      }
    }
  }

  lemma OneDeclOfName(types: Types, typ: string, d: Decl)
    requires Unique(types) && typ in types && d in types[typ]
    ensures LastNamed(types[typ], d.name) == Some(d)
  {
    UniqueLookup(types[typ], d);
  }

  lemma {:induction false} EnumArgsExact(types: Types, seen: seq<string>, sig: seq<DeclArg>, args: seq<PatternArg>)
    requires SeenOk(types, seen) && Unique(types)
    requires EnumArgs(types, seen, sig).Some? && ArgsFit(types, Statics(sig), args)
    ensures |args| == |Statics(sig)|
    ensures Chosen(EnumArgs(types, seen, sig).value, args) <==> ArgsAllowed(types, seen, Statics(sig), args)
    decreases Room(types, seen), 3, |sig|
  {
    hide SeenOk, Unique, WellFormed, Allowed;
    if sig != [] {
      if !sig[0].isStatic {
        assert Statics(sig) == Statics(sig[1..]);
        EnumArgsExact(types, seen, sig[1..], args);
      } else {
        assert Statics(sig) == [sig[0]] + Statics(sig[1..]) && Statics(sig)[1..] == Statics(sig[1..]);
        EnumArgsExact(types, seen, sig[1..], args[1..]);
        var p := args[0].algorithm;
        EnumExact(types, seen, sig[0].typ, p);
        WrapMembers(sig[0].name, Enum(types, seen, sig[0].typ).value, args[0]);
        var all := EnumArgs(types, seen, sig).value;
        assert all[1..] == EnumArgs(types, seen, sig[1..]).value;
      }
    }
  }

  lemma WrapMembers(name: string, ps: seq<Pattern>, a: PatternArg)
    requires a.name == name
    ensures [a] in Wrap(name, ps) <==> a.algorithm in ps
  {
    if a.algorithm in ps {
      var i :| 0 <= i < |ps| && ps[i] == a.algorithm;
      assert Wrap(name, ps)[i] == [a];
    }
    if [a] in Wrap(name, ps) {
      var i :| 0 <= i < |ps| && Wrap(name, ps)[i] == [a];
      assert [PatternArg(name, ps[i])][0] == [a][0];
    }
  }

  // ---------- the depth bound, said without already_seen ----------

  /** The most nodes of type t on a path from the root of p, read as type typ, to a leaf. */
  ghost function OnPath(types: Types, typ: string, p: Pattern, t: string): nat
    decreases p, 0
  {
    (if typ == t then 1 else 0)
    + if typ in types && LastNamed(types[typ], p.name).Some?
      then OnPathArgs(types, Statics(LastNamed(types[typ], p.name).value.args), p.args, t) else 0
  }

  ghost function OnPathArgs(types: Types, sig: seq<DeclArg>, args: seq<PatternArg>, t: string): nat
    decreases args
  {
    if sig == [] || args == [] then 0
    else
      var a, b := OnPathArg(types, sig[0], args[0], t), OnPathArgs(types, sig[1..], args[1..], t);
      if a > b then a else b
  }

  ghost function OnPathArg(types: Types, a: DeclArg, p: PatternArg, t: string): nat
    decreases p, 1
  {
    OnPath(types, a.typ, p.algorithm, t)
  }

  ghost predicate Bounded(types: Types, seen: seq<string>, typ: string, p: Pattern) {
    forall t :: Count(seen, t) + OnPath(types, typ, p, t) <= MAX_ON_PATH
  }

  ghost predicate ArgsBounded(types: Types, seen: seq<string>, sig: seq<DeclArg>, args: seq<PatternArg>) {
    forall t :: Count(seen, t) + OnPathArgs(types, sig, args, t) <= MAX_ON_PATH
  }

  /** The recursion's bound is a bound on every root-to-leaf path: at most three nodes of one type. */
  lemma {:induction false} AllowedIffBounded(types: Types, seen: seq<string>, typ: string, p: Pattern)
    requires forall t :: Count(seen, t) <= MAX_ON_PATH
    ensures Allowed(types, seen, typ, p) <==> Bounded(types, seen, typ, p)
    decreases p, 0
  {
    forall t
      ensures Count(seen + [typ], t) == Count(seen, t) + if t == typ then 1 else 0
    {
      assert (seen + [typ])[..|seen|] == seen;
    }
    if Count(seen, typ) >= MAX_ON_PATH {
      assert Count(seen, typ) + OnPath(types, typ, p, typ) > MAX_ON_PATH;
    } else if typ in types && LastNamed(types[typ], p.name).Some? {
      var sig := Statics(LastNamed(types[typ], p.name).value.args);
      ArgsAllowedIffBounded(types, seen + [typ], sig, p.args);
      forall t
        ensures Count(seen, t) + OnPath(types, typ, p, t) == Count(seen + [typ], t) + OnPathArgs(types, sig, p.args, t)
      {
      }
      if Bounded(types, seen, typ, p) {
        assert ArgsBounded(types, seen + [typ], sig, p.args);
      }
    }
  }

  lemma {:induction false} ArgsAllowedIffBounded(types: Types, seen: seq<string>, sig: seq<DeclArg>,
                                                 args: seq<PatternArg>)
    requires forall t :: Count(seen, t) <= MAX_ON_PATH
    ensures ArgsAllowed(types, seen, sig, args) <==> ArgsBounded(types, seen, sig, args)
    decreases args
  {
    hide Allowed, OnPath, Count;
    if sig != [] && args != [] {
      ArgAllowedIffBounded(types, seen, sig[0], args[0]);
      ArgsAllowedIffBounded(types, seen, sig[1..], args[1..]);
      BoundedSplit(types, seen, sig, args);
    }
  }

  lemma BoundedSplit(types: Types, seen: seq<string>, sig: seq<DeclArg>, args: seq<PatternArg>)
    requires sig != [] && args != []
    ensures ArgsBounded(types, seen, sig, args)
       <==> Bounded(types, seen, sig[0].typ, args[0].algorithm) && ArgsBounded(types, seen, sig[1..], args[1..])
  {
    hide OnPath, Count;
    var head, rest := args[0].algorithm, args[1..];
    if ArgsBounded(types, seen, sig, args) {
      forall t
        ensures Count(seen, t) + OnPath(types, sig[0].typ, head, t) <= MAX_ON_PATH
        ensures Count(seen, t) + OnPathArgs(types, sig[1..], rest, t) <= MAX_ON_PATH
      {
        assert Count(seen, t) + OnPathArgs(types, sig, args, t) <= MAX_ON_PATH;
      }
    }
    if Bounded(types, seen, sig[0].typ, head) && ArgsBounded(types, seen, sig[1..], rest) {
      forall t
        ensures Count(seen, t) + OnPathArgs(types, sig, args, t) <= MAX_ON_PATH
      {
        assert Count(seen, t) + OnPath(types, sig[0].typ, head, t) <= MAX_ON_PATH;
        assert Count(seen, t) + OnPathArgs(types, sig[1..], rest, t) <= MAX_ON_PATH;
      }
    }
  }

  lemma {:induction false} ArgAllowedIffBounded(types: Types, seen: seq<string>, a: DeclArg, p: PatternArg)
    requires forall t :: Count(seen, t) <= MAX_ON_PATH
    ensures ArgAllowed(types, seen, a, p) <==> Bounded(types, seen, a.typ, p.algorithm)
    decreases p, 1
  {
    AllowedIffBounded(types, seen, a.typ, p.algorithm);
  }
}
