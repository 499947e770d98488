/** What the defaults that a meta declares mean for an invocation that writes no arguments. */
module Defaults {
  import opened OptionEval
  import opened OptionArgs
  import opened Meta
  import opened Wrappers

  // ---------- a default expression ----------

  lemma {:induction false} OptionAt(calls: seq<OptionCall>, k: nat)
    requires k < |calls|
    ensures Options(calls)[k] == DeclOf(calls[k])
  {
    if k > 0 {
      OptionAt(calls[1..], k - 1);
    }
  }

  lemma {:induction false} DefaultAt(calls: seq<OptionCall>, k: nat)
    requires k < |calls|
    ensures |DefaultArgs(calls)| == |calls|
    ensures var d := DeclOf(calls[k]).default;
            DefaultArgs(calls)[k] == Arg(Some(calls[k].arg), None, if d.Some? then d.value else EMPTY)
  {
    if k > 0 {
      DefaultAt(calls[1..], k - 1);
    } else if |calls| > 1 {
      DefaultAt(calls[1..], 0);
    } else {
      assert calls[1..] == [];
    }
  }

  lemma {:induction false} SameArguments(fuel: nat, sig: seq<DeclArg>, args: seq<Arg>, names: seq<string>,
                                         args': seq<Arg>, names': seq<string>, types: Types, pattern: bool)
    requires |names| == |args| && |names'| == |args'|
    requires forall a :: a in sig ==> Supplied(a, args, names) == Supplied(a, args', names')
    ensures EvalArgs(fuel, sig, args, names, types, pattern, None)
         == EvalArgs(fuel, sig, args', names', types, pattern, None)
    decreases |sig|
  {
    hide Supplied, HasValue, Eval;
    if sig != [] {
      SameArguments(fuel, sig[1..], args, names, args', names', types, pattern);
    }
  }

  /** The arguments of a default expression give each option what it would get without any. */
  lemma DefaultsSupplied(m: Meta)
    requires WellBuilt(m)
    ensures var args, sig := DefaultArgs(m.calls), Options(m.calls);
            var names := ArgNames(args, sig, true, 0);
            names.Some? && forall a :: a in sig ==> Supplied(a, args, names.value) == Supplied(a, [], [])
  {
    hide DefaultArgs, Options, CallsWellBuilt, DeclOf, LastIndex;
    var args, sig := DefaultArgs(m.calls), Options(m.calls);
    OptionsDeclare(m.calls);
    ArgNamesByIndex(args, sig);
    if m.calls == [] {
      assert args == [] by { NoDefaults(m.calls); }
      assert ArgNames(args, sig, true, 0) == Some([]);
    } else {
      DefaultAt(m.calls, 0);
      forall j | 0 <= j < |args|
        ensures args[j].keyword == Some(m.calls[j].arg) && Names(args, sig, j)
      {
        DefaultAt(m.calls, j);
      }
      var names := ArgNames(args, sig, true, 0).value;
      forall a | a in sig
        ensures Supplied(a, args, names) == Supplied(a, [], [])
      {
        var k :| 0 <= k < |sig| && sig[k] == a;
        OptionAt(m.calls, k);
        DefaultAt(m.calls, k);
        assert names[k] == NameAt(args, sig, k) == a.name;
        var found := LastIndex(names, a.name).value;
        assert names[found] == NameAt(args, sig, found) == m.calls[found].arg;
        assert found == k;
      }
    }
  }

  lemma NoDefaults(calls: seq<OptionCall>)
    requires calls == []
    ensures DefaultArgs(calls) == []
  {
  }

  /** The expression that is declared for a default algorithm evaluates as the algorithm does when it is invoked
      without arguments: every option by its own default. */
  lemma DefaultMeansBare(fuel: nat, m: Meta, types: Types, pattern: bool)
    requires Unique(types) && WellBuilt(m) && Knows(types, m)
    ensures Eval(fuel, DefaultAst(m), m.typ, types, pattern, EMPTY)
         == Eval(fuel, Call(m.name, []), m.typ, types, pattern, EMPTY)
  {
    hide DefaultArgs, Options, CallsWellBuilt, KnowsCalls, EvalArgs, LastNamed, Supplied;
    if m.typ != STRING && fuel > 0 {
      UniqueLookup(types[m.typ], Definition(m));
      DefaultsSupplied(m);
      var names := ArgNames(DefaultArgs(m.calls), Options(m.calls), true, 0).value;
      SameArguments(fuel - 1, Options(m.calls), DefaultArgs(m.calls), names, [], [], types, pattern);
    }
  }

  // ---------- invocations without arguments ----------

  /** The option has a default that evaluates. */
  predicate Defaulted(fuel: nat, c: OptionCall, types: Types) {
    match c
    case TemplatedDefault(_, _, def) =>
      def.name != "" && Eval(fuel, Call(def.name, []), def.typ, types, false, EMPTY).Some?
    case Dynamic(_, value) => value.Some? && value.value != ""
    case _ => false
  }

  /** What an option gets when nothing is written for it. */
  function DefaultValue(fuel: nat, c: OptionCall, types: Types): OptionValue
    requires Defaulted(fuel, c, types)
  {
    match c
    case TemplatedDefault(_, _, def) => Eval(fuel, Call(def.name, []), def.typ, types, false, EMPTY).value
    case Dynamic(_, value) => StringValue(value.value)
  }

  lemma {:induction false} CallAt(types: Types, calls: seq<OptionCall>, k: nat)
    requires k < |calls| && KnowsCalls(types, calls) && CallsWellBuilt(calls)
    ensures calls[k].TemplatedDefault? ==> Knows(types, calls[k].def) && WellBuilt(calls[k].def)
  {
    hide Knows, WellBuilt;
    if k > 0 {
      CallAt(types, calls[1..], k - 1);
    }
  }

  lemma {:induction false} Untyped(calls: seq<OptionCall>)
    ensures forall i :: 0 <= i < |DefaultArgs(calls)| ==> DefaultArgs(calls)[i].typ.None?
  {
    hide DeclOf;
    if calls != [] {
      Untyped(calls[1..]);
    }
  }

  lemma BareArgument(fuel: nat, m: Meta, k: nat, types: Types)
    requires Unique(types) && WellBuilt(m) && Knows(types, m) && k < |m.calls|
    ensures var w := Walk(fuel, Options(m.calls), [], types, false, None);
            && (w.HasResult(k) <==> Defaulted(fuel, m.calls[k], types))
            && forall r :: w.Gives(k, r) ==>
                 Defaulted(fuel, m.calls[k], types) && r == DefaultValue(fuel, m.calls[k], types)
  {
    hide Options, CallsWellBuilt, KnowsCalls, Eval, DefaultArgs, LastNamed;
    var w := Walk(fuel, Options(m.calls), [], types, false, None);
    var c := m.calls[k];
    OptionAt(m.calls, k);
    var d := w.sig[k].default;
    var none: seq<Arg> := [];
    assert Unwritten(none, w.sig, c.arg) && forall j :: !WritesLast(none, w.sig, c.arg, j);
    assert forall v, o :: w.Given(k, v, o) <==> o == EMPTY && d == Some(v);
    match c {
      case TemplatedDefault(_, _, def) =>
        CallAt(types, m.calls, k);
        DefaultMeansBare(fuel, def, types, false);
        Untyped(def.calls);
        AlgorithmOnly(fuel, Call(def.name, []), def.typ, types);
        assert HasValue(DefaultAst(def)) <==> def.name != "";
        if Defaulted(fuel, c, types) {
          var r := DefaultValue(fuel, c, types);
          assert w.Given(k, DefaultAst(def), EMPTY) && w.GivenGives(k, DefaultAst(def), EMPTY, r);
          assert w.Gives(k, r);
        }
      case Dynamic(_, value) =>
        StringOnly(fuel, types);
        if Defaulted(fuel, c, types) {
          var r := StringValue(value.value);
          assert w.Given(k, Str(value.value), EMPTY) && w.GivenGives(k, Str(value.value), EMPTY, r);
          assert w.Gives(k, r);
        }
      case _ =>
    }
  }

  lemma AlgorithmOnly(fuel: nat, v: Value, typ: string, types: Types)
    requires v.Call?
    ensures var r := Eval(fuel, v, typ, types, false, EMPTY);
            r.Some? ==> r.value.AlgorithmValue?
  {
  }

  lemma StringOnly(fuel: nat, types: Types)
    ensures forall s :: Eval(fuel, Str(s), STRING, types, false, EMPTY) == Some(StringValue(s))
  {
  }

  /** Exactly the options, each with its default. */
  ghost predicate AllDefault(fuel: nat, calls: seq<OptionCall>, types: Types, results: map<string, OptionValue>) {
    && (forall n :: n in results ==> exists k :: 0 <= k < |calls| && calls[k].arg == n)
    && (forall k :: 0 <= k < |calls| ==> HasDefault(fuel, calls[k], types, results))
  }

  ghost predicate HasDefault(fuel: nat, c: OptionCall, types: Types, results: map<string, OptionValue>) {
    Defaulted(fuel, c, types) && c.arg in results && results[c.arg] == DefaultValue(fuel, c, types)
  }

  lemma BareResults(fuel: nat, m: Meta, types: Types, selected: seq<PatternArg>, results: map<string, OptionValue>)
    requires Unique(types) && WellBuilt(m) && Knows(types, m)
    requires Walk(fuel, Options(m.calls), [], types, false, None).Holds(0, selected, results)
    ensures AllDefault(fuel, m.calls, types, results)
  {
    hide WellBuilt, Knows, Unique, Defaulted, DefaultValue, Walk.Gives, Options, Rank;
    var w := Walk(fuel, Options(m.calls), [], types, false, None);
    forall k | 0 <= k < |m.calls|
      ensures HasDefault(fuel, m.calls[k], types, results)
    {
      assert w.sig[k].name == m.calls[k].arg && w.Considers(k);
      BareArgument(fuel, m, k, types);
      assert w.Gives(k, results[w.sig[k].name]);
    }
  }

  lemma BareSucceeds(fuel: nat, m: Meta, types: Types)
    requires Unique(types) && WellBuilt(m) && Knows(types, m)
    ensures Walk(fuel, Options(m.calls), [], types, false, None).Succeeds(0)
       <==> forall k :: 0 <= k < |m.calls| ==> Defaulted(fuel, m.calls[k], types)
  {
    hide WellBuilt, Knows, Unique, Defaulted, DefaultValue, Walk.HasResult, Walk.Gives, Options, Rank;
    var w := Walk(fuel, Options(m.calls), [], types, false, None);
    forall k | 0 <= k < |m.calls|
      ensures w.Considers(k) && (w.HasResult(k) <==> Defaulted(fuel, m.calls[k], types))
    {
      BareArgument(fuel, m, k, types);
    }
  }

  /** A gathered algorithm can be invoked without arguments exactly if each of its options has a default that
      evaluates: a string that is not empty, or an algorithm that can itself be invoked so. Each option then has
      its default. */
  lemma BareInvocation(fuel: nat, m: Meta, types: Types)
    requires Unique(types) && WellBuilt(m) && Knows(types, m) && m.typ != STRING && fuel > 0
    ensures var r := Eval(fuel, Call(m.name, []), m.typ, types, false, EMPTY);
            && (r.Some? <==> forall k :: 0 <= k < |m.calls| ==> Defaulted(fuel - 1, m.calls[k], types))
            && (r.Some? ==>
                  && r.value.AlgorithmValue? && r.value.name == m.name
                  && AllDefault(fuel - 1, m.calls, types, r.value.args))
  {
    hide Options, CallsWellBuilt, KnowsCalls, Eval, LastNamed, Defaulted, AllDefault, Walk.Succeeds, Walk.Holds;
    var v := Call(m.name, []);
    UniqueLookup(types[m.typ], Definition(m));
    ArgumentValues(fuel, v, m.typ, types, false, EMPTY, Definition(m));
    BareSucceeds(fuel - 1, m, types);
    var r := Eval(fuel, v, m.typ, types, false, EMPTY);
    if r.Some? {
      BareResults(fuel - 1, m, types, r.value.selection.args, r.value.args);
    }
  }
}
