/** Meta information trees, the declarations gathered from them, and their own static arguments. */
module Meta {
  import opened OptionEval
  import opened Wrappers

  /** A type's meta() function: its header and the option calls it makes, in order. */
  datatype Meta = Meta(typ: string, name: string, doc: string, calls: seq<OptionCall>)

  datatype OptionCall =
    | Templated(arg: string, sub: Meta)                      // option(arg).templated<T>(..)
    | TemplatedDefault(arg: string, sub: Meta, def: Meta)    // option(arg).templated<T, D>(..)
    | Dynamic(arg: string, value: Option<string>)            // option(arg).dynamic(..)
    | DynamicCompressor(arg: string)                         // option(arg).dynamic_compressor()

  function DeclOf(c: OptionCall): DeclArg
    decreases c, 1
  {
    match c
    case Templated(a, sub) => DeclArg(a, true, sub.typ, None)
    case TemplatedDefault(a, sub, def) => DeclArg(a, true, def.typ, Some(DefaultAst(def)))
    case Dynamic(a, v) => DeclArg(a, false, STRING, if v.Some? then Some(Str(v.value)) else None)
    case DynamicCompressor(a) => DeclArg(a, false, "compressor", None)
  }

  function Options(calls: seq<OptionCall>): (r: seq<DeclArg>)
    ensures |r| == |calls| && forall i :: 0 <= i < |r| ==> r[i].name == calls[i].arg
    decreases calls
  {
    if calls == [] then [] else [DeclOf(calls[0])] + Options(calls[1..])
  }

  /** build_ast_value_for_default: every option by keyword with its own default, or nothing. */
  function DefaultAst(m: Meta): Value
    decreases m, 0
  {
    Call(m.name, DefaultArgs(m.calls))
  }

  function DefaultArgs(calls: seq<OptionCall>): seq<Arg>
    decreases calls
  {
    if calls == [] then []
    else
      var d := DeclOf(calls[0]).default;
      [Arg(Some(calls[0].arg), None, if d.Some? then d.value else EMPTY)] + DefaultArgs(calls[1..])
  }

  /** build_static_args_ast_value. */
  function StaticAst(m: Meta): Value
    decreases m, 0
  {
    Call(m.name, StaticArgs(m.calls))
  }

  function StaticArgs(calls: seq<OptionCall>): seq<Arg>
    decreases calls
  {
    if calls == [] then []
    else
      (if calls[0].Templated? || calls[0].TemplatedDefault?
       then [Arg(Some(calls[0].arg), None, StaticAst(calls[0].sub))] else [])
      + StaticArgs(calls[1..])
  }

  function SubMetas(calls: seq<OptionCall>): seq<Meta> {
    if calls == [] then []
    else
      (match calls[0]
       case Templated(_, sub) => [sub]
       case TemplatedDefault(_, sub, def) => [sub, def]
       case _ => [])
      + SubMetas(calls[1..])
  }

  function Definition(m: Meta): Decl {
    Decl(m.name, Options(m.calls), m.doc)
  }

  /** No option is declared twice at any level, and a default has the type of what it stands for. */
  predicate WellBuilt(m: Meta)
    decreases m, 0
  {
    && (forall i, j :: 0 <= i < j < |m.calls| ==> m.calls[i].arg != m.calls[j].arg)
    && CallsWellBuilt(m.calls)
  }

  predicate CallsWellBuilt(calls: seq<OptionCall>)
    decreases calls
  {
    calls == [] ||
    ((match calls[0]
      case Templated(_, sub) => WellBuilt(sub)
      case TemplatedDefault(_, sub, def) => WellBuilt(sub) && WellBuilt(def) && sub.typ == def.typ
      case _ => true)
     && CallsWellBuilt(calls[1..]))
  }

  // ---------- gathering declarations ----------

  function FirstNamed(ds: seq<Decl>, name: string): (r: Option<Decl>)
    ensures r.Some? ==> r.value in ds && r.value.name == name
    ensures r.None? ==> forall d :: d in ds ==> d.name != name
  {
    if ds == [] then None else if ds[0].name == name then Some(ds[0]) else FirstNamed(ds[1..], name)
  }

  /** Adds one declaration; None is the error of a name declared twice with differing details. */
  function AddDecl(types: Types, typ: string, d: Decl): Option<Types> {
    var known := if typ in types then types[typ] else [];
    match FirstNamed(known, d.name)
    case None => Some(types[typ := known + [d]])
    case Some(seen) => if seen != d then None else Some(types[typ := known])
  }

  function Gather(types: Types, m: Meta): Option<Types>
    decreases m, 0
  {
    match AddDecl(types, m.typ, Definition(m))
    case None => None
    case Some(t) => GatherCalls(t, m.calls)
  }

  /** Gathers the sub metas of the calls in order. */
  function GatherCalls(types: Types, calls: seq<OptionCall>): Option<Types>
    decreases calls
  {
    if calls == [] then Some(types)
    else
      var first :=
        match calls[0]
        case Templated(_, sub) => Gather(types, sub)
        case TemplatedDefault(_, sub, def) =>
          (match Gather(types, sub) case None => None case Some(t) => Gather(t, def))
        case _ => Some(types);
      match first
      case None => None
      case Some(t) => GatherCalls(t, calls[1..])
  }

  predicate UniqueNames(ds: seq<Decl>) {
    forall i, j :: 0 <= i < j < |ds| ==> ds[i].name != ds[j].name
  }

  predicate Unique(types: Types) {
    forall t :: t in types ==> UniqueNames(types[t])
  }

  /** Every declaration of types is declared in later too. */
  predicate Extends(types: Types, later: Types) {
    forall t :: t in types ==> t in later && forall d :: d in types[t] ==> d in later[t]
  }

  predicate Knows(types: Types, m: Meta)
    decreases m, 0
  {
    m.typ in types && Definition(m) in types[m.typ] && KnowsCalls(types, m.calls)
  }

  predicate KnowsCalls(types: Types, calls: seq<OptionCall>)
    decreases calls
  {
    calls == [] ||
    ((match calls[0]
      case Templated(_, sub) => Knows(types, sub)
      case TemplatedDefault(_, sub, def) => Knows(types, sub) && Knows(types, def)
      case _ => true)
     && KnowsCalls(types, calls[1..]))
  }

  lemma AddDeclKeeps(types: Types, typ: string, d: Decl)
    requires Unique(types) && AddDecl(types, typ, d).Some?
    ensures var t := AddDecl(types, typ, d).value;
            Unique(t) && Extends(types, t) && typ in t && d in t[typ]
  {
    var known := if typ in types then types[typ] else [];
    var t := AddDecl(types, typ, d).value;
    if FirstNamed(known, d.name).None? {
      assert UniqueNames(known + [d]);
      assert d in known + [d];
    }
  }

  lemma {:induction false} KnowsLater(types: Types, later: Types, m: Meta)
    requires Extends(types, later) && Knows(types, m)
    ensures Knows(later, m)
    decreases m, 0
  {
    KnowsCallsLater(types, later, m.calls);
  }

  lemma {:induction false} KnowsCallsLater(types: Types, later: Types, calls: seq<OptionCall>)
    requires Extends(types, later) && KnowsCalls(types, calls)
    ensures KnowsCalls(later, calls)
    decreases calls
  {
    hide Extends, Knows;
    if calls != [] {
      match calls[0] {
        case Templated(_, sub) => KnowsLater(types, later, sub);
        case TemplatedDefault(_, sub, def) => KnowsLater(types, later, sub); KnowsLater(types, later, def);
        case _ =>
      }
      KnowsCallsLater(types, later, calls[1..]);
    }
  }

  /** Gathering without a conflict keeps names unique per type and everything declared before,
      and declares every algorithm of the tree. */
  lemma {:induction false} GatherKeeps(types: Types, m: Meta)
    requires Unique(types) && Gather(types, m).Some?
    ensures var t := Gather(types, m).value;
            Unique(t) && Extends(types, t) && Knows(t, m)
    decreases m, 0
  {
    hide Unique, Extends, AddDecl;
    AddDeclKeeps(types, m.typ, Definition(m));
    var t := AddDecl(types, m.typ, Definition(m)).value;
    GatherCallsKeeps(t, m.calls);
    var u := GatherCalls(t, m.calls).value;
    ExtendsTwice(types, t, u);
    ExtendsHas(t, u, m.typ, Definition(m));
  }

  lemma ExtendsTwice(a: Types, b: Types, c: Types)
    requires Extends(a, b) && Extends(b, c)
    ensures Extends(a, c)
  {
  }

  lemma ExtendsHas(a: Types, b: Types, typ: string, d: Decl)
    requires Extends(a, b) && typ in a && d in a[typ]
    ensures typ in b && d in b[typ]
  {
  }

  lemma ExtendsSelf(a: Types)
    ensures Extends(a, a)
  {
  }

  lemma {:induction false} GatherCallsKeeps(types: Types, calls: seq<OptionCall>)
    requires Unique(types) && GatherCalls(types, calls).Some?
    ensures var t := GatherCalls(types, calls).value;
            Unique(t) && Extends(types, t) && KnowsCalls(t, calls)
    decreases calls
  {
    hide Unique, Extends, Gather, Knows;
    if calls == [] {
      ExtendsSelf(types);
    } else {
      var t := types;
      match calls[0] {
        case Templated(_, sub) =>
          GatherKeeps(types, sub);
          t := Gather(types, sub).value;
        case TemplatedDefault(_, sub, def) =>
          GatherKeeps(types, sub);
          var s := Gather(types, sub).value;
          GatherKeeps(s, def);
          t := Gather(s, def).value;
          ExtendsTwice(types, s, t);
          KnowsLater(s, t, sub);
        case _ => ExtendsSelf(types);
      }
      GatherCallsKeeps(t, calls[1..]);
      var u := GatherCalls(t, calls[1..]).value;
      ExtendsTwice(types, t, u);
      match calls[0] {
        case Templated(_, sub) => KnowsLater(t, u, sub);
        case TemplatedDefault(_, sub, def) => KnowsLater(t, u, sub); KnowsLater(t, u, def);
        case _ =>
      }
    }
  }

  // ---------- evaluating a meta's own static arguments ----------

  /** Every sub meta standing for a static argument has a name, and no type is called "string". */
  predicate Nameable(m: Meta)
    decreases m, 0
  {
    m.typ != STRING && CallsNameable(m.calls)
  }

  predicate CallsNameable(calls: seq<OptionCall>)
    decreases calls
  {
    calls == [] ||
    ((calls[0].Templated? || calls[0].TemplatedDefault? ==> calls[0].sub.name != "" && Nameable(calls[0].sub))
     && CallsNameable(calls[1..]))
  }

  function Depth(m: Meta): nat
    decreases m, 0
  {
    1 + CallsDepth(m.calls)
  }

  function CallsDepth(calls: seq<OptionCall>): nat
    decreases calls
  {
    if calls == [] then 0
    else
      var d := if calls[0].Templated? || calls[0].TemplatedDefault? then Depth(calls[0].sub) else 0;
      var e := CallsDepth(calls[1..]);
      if d > e then d else e
  }

  lemma {:induction false} UniqueLookup(ds: seq<Decl>, d: Decl)
    requires UniqueNames(ds) && d in ds
    ensures LastNamed(ds, d.name) == Some(d)
  {
    if ds != [] && ds[|ds| - 1] != d {
      var init := ds[..|ds| - 1];
      var i :| 0 <= i < |ds| && ds[i] == d;
      assert init[i] == d;
      UniqueLookup(init, d);
    }
  }

  /** The keywords of static arguments name themselves. */
  function StaticNames(calls: seq<OptionCall>): (r: seq<string>)
    ensures |r| == |StaticArgs(calls)|
    ensures forall n :: n in r ==> exists i :: 0 <= i < |calls| && calls[i].arg == n
  {
    if calls == [] then []
    else
      (if calls[0].Templated? || calls[0].TemplatedDefault? then [calls[0].arg] else []) + StaticNames(calls[1..])
  }

  lemma {:induction false} StaticArgNames(sig: seq<DeclArg>, calls: seq<OptionCall>, positionalOk: bool, i: nat)
    requires forall k :: 0 <= k < |calls| ==> Declares(sig, calls[k].arg)
    ensures ArgNames(StaticArgs(calls), sig, positionalOk, i) == Some(StaticNames(calls))
    decreases calls
  {
    hide StaticAst, Declares;
    if calls != [] {
      assert forall k :: 0 <= k < |calls| - 1 ==> calls[1..][k] == calls[k + 1];
      if calls[0].Templated? || calls[0].TemplatedDefault? {
        assert StaticArgs(calls)[1..] == StaticArgs(calls[1..]);
        StaticArgNames(sig, calls[1..], false, i);
      } else {
        assert StaticArgs(calls) == StaticArgs(calls[1..]) && StaticNames(calls) == StaticNames(calls[1..]);
        StaticArgNames(sig, calls[1..], positionalOk, i);
      }
    }
  }

  predicate IsStatic(c: OptionCall) { c.Templated? || c.TemplatedDefault? }

  predicate Distinct(calls: seq<OptionCall>) {
    forall i, j :: 0 <= i < j < |calls| ==> calls[i].arg != calls[j].arg
  }

  lemma {:induction false} StaticLookup(calls: seq<OptionCall>, k: nat)
    requires Distinct(calls) && k < |calls| && IsStatic(calls[k])
    ensures calls[k].arg in StaticNames(calls)
    ensures forall j :: 0 <= j < |StaticNames(calls)| && StaticNames(calls)[j] == calls[k].arg
                    ==> StaticArgs(calls)[j].value == StaticAst(calls[k].sub)
  {
    hide StaticAst;
    var tail := calls[1..];
    var own := if IsStatic(calls[0]) then [calls[0].arg] else [];
    assert StaticNames(calls) == own + StaticNames(tail);
    if k > 0 {
      assert calls[k] == tail[k - 1];
      StaticLookup(tail, k - 1);
      assert calls[0].arg != calls[k].arg;
    } else {
      assert forall i :: 0 <= i < |tail| ==> tail[i] == calls[i + 1];
      assert calls[0].arg !in StaticNames(tail);
    }
  }

  lemma {:induction false} StaticArgsUntyped(calls: seq<OptionCall>)
    ensures forall i :: 0 <= i < |StaticArgs(calls)| ==> StaticArgs(calls)[i].typ.None?
  {
    if calls != [] {
      StaticArgsUntyped(calls[1..]);
    }
  }

  /** One static argument of a meta evaluates to the static tree of its sub meta, if that is nameable. */
  lemma {:induction false} OwnArg(fuel: nat, m: Meta, k: nat, types: Types)
    requires Unique(types) && WellBuilt(m) && k < |m.calls| && IsStatic(m.calls[k])
    requires Knows(types, m.calls[k].sub) && WellBuilt(m.calls[k].sub) && fuel >= Depth(m.calls[k].sub)
    ensures var v := Supplied(DeclOf(m.calls[k]), StaticArgs(m.calls), StaticNames(m.calls));
            var sub := m.calls[k].sub;
            && v == StaticAst(sub)
            && (HasValue(v) <==> sub.name != "")
            && var r := Eval(fuel, v, sub.typ, types, true, EMPTY);
               if Nameable(sub)
               then r.Some? && r.value.AlgorithmValue? && r.value.selection == ToPattern(StaticAst(sub))
               else r.None?
    decreases m.calls[k].sub, 2
  {
    StaticLookup(m.calls, k);
    StaticArgsUntyped(m.calls[k].sub.calls);
    OwnEval(fuel, m.calls[k].sub, types);
  }

  lemma {:induction false} OwnArgs(fuel: nat, m: Meta, k: nat, types: Types)
    requires Unique(types) && WellBuilt(m) && k <= |m.calls|
    requires KnowsCalls(types, m.calls[k..]) && CallsWellBuilt(m.calls[k..]) && fuel >= CallsDepth(m.calls[k..])
    ensures var rest := m.calls[k..];
            var r := EvalArgs(fuel, Options(rest), StaticArgs(m.calls), StaticNames(m.calls), types, true, None);
            if CallsNameable(rest) then r.Some? && r.value.0 == ToPatternArgs(StaticArgs(rest)) else r.None?
    decreases m, 0, |m.calls| - k
  {
    hide HasValue, LastIndex, Supplied, StaticAst, Unique, WellBuilt, Knows, Nameable, Depth, Eval;
    hide ToPattern, ToPatternArgs;
    var rest := m.calls[k..];
    if rest != [] {
      var c := rest[0];
      assert c == m.calls[k] && rest[1..] == m.calls[k + 1..];
      assert Options(rest)[0] == DeclOf(c) && Options(rest)[1..] == Options(rest[1..]);
      OwnArgs(fuel, m, k + 1, types);
      if IsStatic(c) {
        OwnArg(fuel, m, k, types);
        StaticAstName(c.sub);
        StaticArgsFirst(rest);
      } else {
        assert StaticArgs(rest) == StaticArgs(rest[1..]);
      }
    }
  }

  lemma StaticArgsFirst(calls: seq<OptionCall>)
    requires calls != [] && IsStatic(calls[0])
    ensures ToPatternArgs(StaticArgs(calls))
         == [PatternArg(calls[0].arg, ToPattern(StaticAst(calls[0].sub)))] + ToPatternArgs(StaticArgs(calls[1..]))
  {
    hide StaticAst;
    var first := Arg(Some(calls[0].arg), None, StaticAst(calls[0].sub));
    assert StaticArgs(calls) == [first] + StaticArgs(calls[1..]);
    assert StaticArgs(calls)[1..] == StaticArgs(calls[1..]);
  }

  lemma StaticAstName(m: Meta)
    ensures ToPattern(StaticAst(m)).name == m.name
  {
  }

  /** pattern_eval of a meta's own static arguments gives back that same tree, exactly when every
      sub meta that stands for a static argument has a name and no type of the tree is "string". */
  lemma {:induction false} OwnEval(fuel: nat, m: Meta, types: Types)
    requires Unique(types) && WellBuilt(m) && Knows(types, m) && fuel >= Depth(m)
    ensures PatternEval(fuel, StaticAst(m), m.typ, types) == if Nameable(m) then Some(ToPattern(StaticAst(m))) else None
    ensures var r := Eval(fuel, StaticAst(m), m.typ, types, true, EMPTY);
            r.Some? ==> r.value.AlgorithmValue?
    decreases m, 1
  {
    hide EvalArgs, StaticArgs, StaticNames, ToPatternArgs, CallsNameable, CallsDepth, KnowsCalls;
    hide CallsWellBuilt, LastNamed, ArgNames, Options;
    if m.typ != STRING {
      UniqueLookup(types[m.typ], Definition(m));
      OptionsDeclare(m.calls);
      StaticArgNames(Options(m.calls), m.calls, true, 0);
      assert m.calls[0..] == m.calls;
      OwnArgs(fuel - 1, m, 0, types);
    }
  }

  const STRING_TYPED := Meta("string", "a", "", [])

  const NAMELESS := Meta("t", "", "", [])
  const OVER_NAMELESS := Meta("t", "a", "", [Templated("x", NAMELESS)])

  /** An algorithm of the type "string" and one over an algorithm without a name: both are declared
      without a conflict, and neither evaluates. */
  lemma UnnameableIsNotEvaluated(fuel: nat)
    ensures WellBuilt(STRING_TYPED) && Gather(map[], STRING_TYPED).Some?
    ensures PatternEval(fuel, StaticAst(STRING_TYPED), STRING, Gather(map[], STRING_TYPED).value).None?
    ensures WellBuilt(OVER_NAMELESS) && Gather(map[], OVER_NAMELESS).Some?
    ensures PatternEval(fuel, StaticAst(OVER_NAMELESS), "t", Gather(map[], OVER_NAMELESS).value).None?
  {
    var m := OVER_NAMELESS;
    assert WellBuilt(NAMELESS) && m.calls[1..] == [];
    assert CallsWellBuilt(m.calls);
    var own := AddDecl(map[], "t", Definition(m)).value;
    assert own["t"] == [Definition(m)];
    var all := AddDecl(own, "t", Definition(NAMELESS)).value;
    assert Gather(own, NAMELESS) == Some(all);
    assert GatherCalls(own, m.calls) == Some(all);
    GatherKeeps(map[], m);
    var v := StaticAst(m);
    hide Eval, Gather, StaticAst;
    if Eval(fuel, v, "t", all, true, EMPTY).Some? {
      MoreFuel(fuel, fuel + Depth(m), v, "t", all, true, EMPTY);
      OwnEval(fuel + Depth(m), m, all);
    }
  }

  lemma OptionsDeclare(calls: seq<OptionCall>)
    ensures forall k :: 0 <= k < |calls| ==> Declares(Options(calls), calls[k].arg)
  {
    forall k | 0 <= k < |calls|
      ensures Declares(Options(calls), calls[k].arg)
    {
      assert Options(calls)[k].name == calls[k].arg;
    }
  }

  // ---------- the option builder ----------

  function StaticArgOf(c: OptionCall): seq<Arg> {
    if IsStatic(c) then [Arg(Some(c.arg), None, StaticAst(c.sub))] else []
  }

  function SubMetasOf(c: OptionCall): seq<Meta> {
    match c
    case Templated(_, sub) => [sub]
    case TemplatedDefault(_, sub, def) => [sub, def]
    case _ => []
  }

  predicate CallWellBuilt(c: OptionCall) {
    match c
    case Templated(_, sub) => WellBuilt(sub)
    case TemplatedDefault(_, sub, def) => WellBuilt(sub) && WellBuilt(def) && sub.typ == def.typ
    case _ => true
  }

  lemma {:induction false} OptionsAppend(calls: seq<OptionCall>, c: OptionCall)
    ensures Options(calls + [c]) == Options(calls) + [DeclOf(c)]
  {
    hide DeclOf;
    if calls == [] {
      assert calls + [c] == [c] && [c][1..] == [];
    } else {
      OptionsAppend(calls[1..], c);
      assert (calls + [c])[1..] == calls[1..] + [c] && (calls + [c])[0] == calls[0];
    }
  }

  lemma {:induction false} StaticArgsAppend(calls: seq<OptionCall>, c: OptionCall)
    ensures StaticArgs(calls + [c]) == StaticArgs(calls) + StaticArgOf(c)
  {
    hide StaticAst;
    if calls == [] {
      assert calls + [c] == [c] && [c][1..] == [];
    } else {
      StaticArgsAppend(calls[1..], c);
      assert (calls + [c])[1..] == calls[1..] + [c] && (calls + [c])[0] == calls[0];
    }
  }

  lemma {:induction false} SubMetasAppend(calls: seq<OptionCall>, c: OptionCall)
    ensures SubMetas(calls + [c]) == SubMetas(calls) + SubMetasOf(c)
  {
    hide StaticAst;
    if calls == [] {
      assert calls + [c] == [c] && [c][1..] == [];
    } else {
      SubMetasAppend(calls[1..], c);
      assert (calls + [c])[1..] == calls[1..] + [c] && (calls + [c])[0] == calls[0];
    }
  }

  lemma {:induction false} WellBuiltAppend(calls: seq<OptionCall>, c: OptionCall)
    ensures CallsWellBuilt(calls + [c]) <==> CallsWellBuilt(calls) && CallWellBuilt(c)
  {
    hide WellBuilt;
    if calls == [] {
      assert calls + [c] == [c] && [c][1..] == [];
    } else {
      WellBuiltAppend(calls[1..], c);
      assert (calls + [c])[1..] == calls[1..] + [c] && (calls + [c])[0] == calls[0];
    }
  }

  lemma CallsAppend(calls: seq<OptionCall>, c: OptionCall)
    ensures Options(calls + [c]) == Options(calls) + [DeclOf(c)]
    ensures StaticArgs(calls + [c]) == StaticArgs(calls) + StaticArgOf(c)
    ensures SubMetas(calls + [c]) == SubMetas(calls) + SubMetasOf(c)
    ensures CallsWellBuilt(calls + [c]) <==> CallsWellBuilt(calls) && CallWellBuilt(c)
  {
    OptionsAppend(calls, c);
    StaticArgsAppend(calls, c);
    SubMetasAppend(calls, c);
    WellBuiltAppend(calls, c);
  }

  /** A Meta object while its option calls are being made. */
  class MetaObject {
    const typ: string
    const name: string
    const doc: string
    var options: seq<DeclArg>
    var staticArgs: Value
    var subMetas: seq<Meta>
    ghost var calls: seq<OptionCall>  // the calls made so far

    /** What the calls so far amount to as a value. */
    ghost function AsMeta(): Meta
      reads this
    {
      Meta(typ, name, doc, calls)
    }

    ghost predicate Valid()
      reads this
    {
      && WellBuilt(AsMeta())
      && options == Options(calls) && staticArgs == StaticAst(AsMeta()) && subMetas == SubMetas(calls)
    }

    constructor (typ: string, name: string, doc: string)
      ensures Valid() && AsMeta() == Meta(typ, name, doc, [])
    {
      this.typ, this.name, this.doc := typ, name, doc;
      options, staticArgs, subMetas, calls := [], Call(name, []), [], [];
    }

    /** Fails if the option has been declared already. */
    method CheckArg(arg: string) returns (ok: bool)
      ensures ok <==> forall i :: 0 <= i < |options| ==> options[i].name != arg
    {
      for i := 0 to |options|
        invariant forall j :: 0 <= j < i ==> options[j].name != arg
      {
        if options[i].name == arg {
          return false;
        }
      }
      return true;
    }

    ghost predicate Declared(arg: string)
      reads this
    {
      exists i :: 0 <= i < |calls| && calls[i].arg == arg
    }

    method Templated(arg: string, sub: Meta) returns (ok: bool)
      requires Valid() && WellBuilt(sub)
      modifies this
      ensures Valid() && ok == !old(Declared(arg))
      ensures calls == if ok then old(calls) + [OptionCall.Templated(arg, sub)] else old(calls)
    {
      hide Options, StaticArgs, SubMetas, CallsWellBuilt;
      ok := CheckArg(arg);
      if ok {
        ghost var c := OptionCall.Templated(arg, sub);
        CallsAppend(calls, c);
        subMetas := subMetas + [sub];
        staticArgs := Call(staticArgs.name, staticArgs.args + [Arg(Some(arg), None, StaticAst(sub))]);
        options := options + [DeclArg(arg, true, sub.typ, None)];
        calls := calls + [c];
      }
    }

    /** Declares the option without a default, then replaces the declaration. */
    method TemplatedDefault(arg: string, sub: Meta, def: Meta) returns (ok: bool)
      requires Valid() && WellBuilt(sub) && WellBuilt(def) && sub.typ == def.typ
      modifies this
      ensures Valid() && ok == !old(Declared(arg))
      ensures calls == if ok then old(calls) + [OptionCall.TemplatedDefault(arg, sub, def)] else old(calls)
    {
      hide Options, StaticArgs, SubMetas, CallsWellBuilt;
      ghost var before := calls;
      ok := Templated(arg, sub);
      if ok {
        ghost var c := OptionCall.TemplatedDefault(arg, sub, def);
        CallsAppend(before, OptionCall.Templated(arg, sub));
        CallsAppend(before, c);
        options := options[..|options| - 1];
        subMetas := subMetas + [def];
        options := options + [DeclArg(arg, true, def.typ, Some(DefaultAst(def)))];
        calls := before + [c];
      }
    }

    method Dynamic(arg: string, value: Option<string>) returns (ok: bool)
      requires Valid()
      modifies this
      ensures Valid() && ok == !old(Declared(arg))
      ensures calls == if ok then old(calls) + [OptionCall.Dynamic(arg, value)] else old(calls)
    {
      hide Options, StaticArgs, SubMetas, CallsWellBuilt;
      ok := CheckArg(arg);
      if ok {
        CallsAppend(calls, OptionCall.Dynamic(arg, value));
        options := options + [DeclArg(arg, false, STRING, if value.Some? then Some(Str(value.value)) else None)];
        calls := calls + [OptionCall.Dynamic(arg, value)];
      }
    }

    method DynamicCompressor(arg: string) returns (ok: bool)
      requires Valid()
      modifies this
      ensures Valid() && ok == !old(Declared(arg))
      ensures calls == if ok then old(calls) + [OptionCall.DynamicCompressor(arg)] else old(calls)
    {
      hide Options, StaticArgs, SubMetas, CallsWellBuilt;
      ok := CheckArg(arg);
      if ok {
        CallsAppend(calls, OptionCall.DynamicCompressor(arg));
        options := options + [DeclArg(arg, false, "compressor", None)];
        calls := calls + [OptionCall.DynamicCompressor(arg)];
      }
    }
  }
}
