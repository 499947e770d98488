/** Static selections as registry keys: stable, well formed, and the same on every way to them. */
module SelectionKeys {
  import opened OptionEval
  import opened Meta
  import opened Wrappers

  // ---------- later registrations change nothing ----------

  lemma LookupLater(types: Types, later: Types, typ: string, name: string)
    requires Extends(types, later) && Unique(later) && typ in types
    ensures LastNamed(types[typ], name).Some? ==>
              typ in later && LastNamed(later[typ], name) == LastNamed(types[typ], name)
  {
    var d := LastNamed(types[typ], name);
    if d.Some? {
      UniqueLookup(later[typ], d.value);
    }
  }

  /** Declaring more algorithms never changes what an accepted invocation evaluates to. */
  lemma {:induction false} EvalLater(fuel: nat, v: Value, typ: string, types: Types, later: Types, pattern: bool,
                                     fixed: Value)
    requires Extends(types, later) && Unique(later)
    requires Eval(fuel, v, typ, types, pattern, fixed).Some?
    ensures Eval(fuel, v, typ, later, pattern, fixed) == Eval(fuel, v, typ, types, pattern, fixed)
    decreases fuel, 0
  {
    hide Extends, Unique;
    if typ != STRING {
      LookupLater(types, later, typ, v.name);
      var decl := LastNamed(types[typ], v.name).value;
      var names := ArgNames(v.args, decl.args, true, 0).value;
      EvalArgsLater(fuel - 1, decl.args, v.args, names, types, later, pattern,
                    if fixed.IsEmpty() then None else Some(fixed.args));
    }
  }

  lemma {:induction false} EvalArgsLater(fuel: nat, sig: seq<DeclArg>, args: seq<Arg>, names: seq<string>,
                                         types: Types, later: Types, pattern: bool, fixed: Option<seq<Arg>>)
    requires |names| == |args| && Extends(types, later) && Unique(later)
    requires EvalArgs(fuel, sig, args, names, types, pattern, fixed).Some?
    ensures EvalArgs(fuel, sig, args, names, later, pattern, fixed)
         == EvalArgs(fuel, sig, args, names, types, pattern, fixed)
    decreases fuel, |sig| + 1
  {
    hide Extends, Unique, HasValue, LastIndex;
    if sig != [] {
      var a := sig[0];
      if pattern && !a.isStatic {
        EvalArgsLater(fuel, sig[1..], args, names, types, later, pattern, fixed);
      } else {
        var override := fixed.Some? && a.isStatic;
        var fixedValue := if override then fixed.value[0].value else EMPTY;
        var value := if override && a.name !in names then fixedValue else Supplied(a, args, names);
        EvalLater(fuel, value, a.typ, types, later, pattern, fixedValue);
        EvalArgsLater(fuel, sig[1..], args, names, types, later, pattern,
                      if override then Some(fixed.value[1..]) else fixed);
      }
    }
  }

  // ---------- well-formed selections ----------

  function Statics(sig: seq<DeclArg>): seq<DeclArg> {
    if sig == [] then [] else (if sig[0].isStatic then [sig[0]] else []) + Statics(sig[1..])
  }

  /** A selection that names a declared algorithm and one selection for each of its static arguments. */
  predicate WellFormed(types: Types, typ: string, p: Pattern)
    decreases p, 0
  {
    && typ in types
    && LastNamed(types[typ], p.name).Some?
    && ArgsFit(types, Statics(LastNamed(types[typ], p.name).value.args), p.args)
  }

  predicate ArgsFit(types: Types, sig: seq<DeclArg>, args: seq<PatternArg>)
    decreases args
  {
    if sig == [] || args == [] then sig == [] && args == []
    else ArgFits(types, sig[0], args[0]) && ArgsFit(types, sig[1..], args[1..])
  }

  predicate ArgFits(types: Types, a: DeclArg, p: PatternArg)
    decreases p, 1
  {
    a.name == p.name && WellFormed(types, a.typ, p.algorithm)
  }

  /** Every static selection that evaluation produces is well formed. */
  lemma {:induction false} SelectionWellFormed(fuel: nat, v: Value, typ: string, types: Types, pattern: bool,
                                               fixed: Value)
    requires Eval(fuel, v, typ, types, pattern, fixed).Some?
    ensures var r := Eval(fuel, v, typ, types, pattern, fixed).value;
            r.AlgorithmValue? ==> r.selection.name == v.name && WellFormed(types, typ, r.selection)
    ensures typ != STRING ==> v.Call?
    decreases fuel, 0
  {
    if typ != STRING {
      var decl := LastNamed(types[typ], v.name).value;
      var names := ArgNames(v.args, decl.args, true, 0).value;
      SelectionArgsFit(fuel - 1, decl.args, v.args, names, types, pattern,
                       if fixed.IsEmpty() then None else Some(fixed.args));
    }
  }

  lemma {:induction false} SelectionArgsFit(fuel: nat, sig: seq<DeclArg>, args: seq<Arg>, names: seq<string>,
                                            types: Types, pattern: bool, fixed: Option<seq<Arg>>)
    requires |names| == |args|
    requires EvalArgs(fuel, sig, args, names, types, pattern, fixed).Some?
    ensures ArgsFit(types, Statics(sig), EvalArgs(fuel, sig, args, names, types, pattern, fixed).value.0)
    decreases fuel, |sig| + 1
  {
    hide LastIndex, WellFormed;
    if sig != [] {
      var a := sig[0];
      var fixed' := if fixed.Some? && a.isStatic then Some(fixed.value[1..]) else fixed;
      SelectionArgsFit(fuel, sig[1..], args, names, types, pattern, fixed');
      if a.isStatic {
        var fixedValue := if fixed.Some? then fixed.value[0].value else EMPTY;
        var value := if fixed.Some? && a.name !in names then fixedValue else Supplied(a, args, names);
        SelectionWellFormed(fuel, value, a.typ, types, pattern, fixedValue);
        var rest := EvalArgs(fuel, sig[1..], args, names, types, pattern, fixed').value.0;
        var r := Eval(fuel, value, a.typ, types, pattern, fixedValue).value;
        assert StaticPart(a, r) == [PatternArg(a.name, r.selection)];
        assert ([PatternArg(a.name, r.selection)] + rest)[1..] == rest;
        assert Statics(sig)[1..] == Statics(sig[1..]);
      } else {
        assert Statics(sig) == Statics(sig[1..]);
        if !pattern {
          assert [] + EvalArgs(fuel, sig[1..], args, names, types, pattern, fixed').value.0
              == EvalArgs(fuel, sig[1..], args, names, types, pattern, fixed').value.0;
        }
      }
    }
  }

  lemma {:induction false} WellFormedLater(types: Types, later: Types, typ: string, p: Pattern)
    requires Extends(types, later) && Unique(later) && WellFormed(types, typ, p)
    ensures WellFormed(later, typ, p)
    decreases p, 0
  {
    LookupLater(types, later, typ, p.name);
    ArgsFitLater(types, later, Statics(LastNamed(types[typ], p.name).value.args), p.args);
  }

  lemma {:induction false} ArgsFitLater(types: Types, later: Types, sig: seq<DeclArg>, args: seq<PatternArg>)
    requires Extends(types, later) && Unique(later) && ArgsFit(types, sig, args)
    ensures ArgsFit(later, sig, args)
    decreases args
  {
    hide Extends, Unique, WellFormed;
    if args != [] {
      ArgFitsLater(types, later, sig[0], args[0]);
      ArgsFitLater(types, later, sig[1..], args[1..]);
    }
  }

  lemma {:induction false} ArgFitsLater(types: Types, later: Types, a: DeclArg, p: PatternArg)
    requires Extends(types, later) && Unique(later) && ArgFits(types, a, p)
    ensures ArgFits(later, a, p)
    decreases p, 1
  {
    WellFormedLater(types, later, a.typ, p.algorithm);
  }

  // ---------- keys ----------

  /** The key an invocation selects by on the command line is the key that pattern evaluation,
      and so registration, computes for it; more fuel and later declarations do not change it. */
  lemma SelectionKey(fuel: nat, more: nat, v: Value, typ: string, types: Types, later: Types)
    requires typ != STRING && fuel <= more && Extends(types, later) && Unique(later)
    requires ClEval(fuel, v, typ, types, EMPTY).Some?
    ensures ClEval(more, v, typ, later, EMPTY) == ClEval(fuel, v, typ, types, EMPTY)
    ensures ClEval(fuel, v, typ, types, EMPTY).value.AlgorithmValue?
    ensures PatternEval(more, v, typ, later) == Some(ClEval(fuel, v, typ, types, EMPTY).value.selection)
  {
    hide Eval;
    AlgorithmResult(fuel, v, typ, types, false, EMPTY);
    EvalLater(fuel, v, typ, types, later, false, EMPTY);
    MoreFuel(fuel, more, v, typ, later, false, EMPTY);
    PatternEvalAgrees(more, v, typ, later, EMPTY);
  }

  lemma AlgorithmResult(fuel: nat, v: Value, typ: string, types: Types, pattern: bool, fixed: Value)
    requires typ != STRING && Eval(fuel, v, typ, types, pattern, fixed).Some?
    ensures Eval(fuel, v, typ, types, pattern, fixed).value.AlgorithmValue?
  {
  }

  /** A builder evaluates the user's options under the algorithm's own static arguments as fixed ones:
      whatever the options say, a success selects the key the algorithm is registered under. Only for
      an algorithm whose own name is empty do the options decide alone. */
  lemma BuilderSelectsRegisteredKey(fuel: nat, regFuel: nat, options: Value, m: Meta, types: Types, later: Types)
    requires WellBuilt(m) && Nameable(m) && Knows(types, m) && Unique(types) && regFuel >= Depth(m)
    requires Extends(types, later) && Unique(later)
    requires ClEval(fuel, options, m.typ, later, StaticAst(m)).Some?
    ensures ClEval(fuel, options, m.typ, later, StaticAst(m)).value.AlgorithmValue?
    ensures var selected := ClEval(fuel, options, m.typ, later, StaticAst(m)).value.selection;
            m.name != "" ==> PatternEval(regFuel, StaticAst(m), m.typ, types) == Some(selected)
    ensures m.name == "" ==>
              ClEval(fuel, options, m.typ, later, StaticAst(m)) == ClEval(fuel, options, m.typ, later, EMPTY)
  {
    hide Extends, Unique, Knows, WellBuilt, EvalArgs;
    AlgorithmResult(fuel, options, m.typ, later, false, StaticAst(m));
    if m.name != "" {
      hide Eval;
      OwnEval(regFuel, m, types);
      PatternEvalNamed(regFuel, m, types);
      FixedArgumentsWin(fuel, options, m.typ, later, false, StaticAst(m));
    }
  }

  lemma PatternEvalNamed(fuel: nat, m: Meta, types: Types)
    requires PatternEval(fuel, StaticAst(m), m.typ, types) == Some(ToPattern(StaticAst(m)))
    ensures NamedBelow(ToPattern(StaticAst(m)))
  {
    SelectionNamedBelow(fuel, StaticAst(m), m.typ, types, true, EMPTY);
  }
}
