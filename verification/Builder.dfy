/** When an algorithm can be built by its type, with its own static arguments fixed. */
module Builder {
  import opened OptionEval
  import opened OptionArgs
  import opened Meta
  import opened Defaults
  import opened Wrappers

  // ---------- the fixed arguments are those of the signature ----------

  lemma {:induction false} RankIs(calls: seq<OptionCall>, k: nat)
    requires k <= |calls|
    ensures |StaticArgs(calls[..k])| == Rank(Options(calls), k)
  {
    hide StaticAst, DeclOf;
    if k > 0 {
      RankIs(calls, k - 1);
      OptionAt(calls, k - 1);
      StaticArgsAppend(calls[..k - 1], calls[k - 1]);
      assert calls[..k] == calls[..k - 1] + [calls[k - 1]];
      assert IsStatic(calls[k - 1]) <==> DeclOf(calls[k - 1]).isStatic by { StaticDecl(calls[k - 1]); }
    } else {
      assert calls[..0] == [];
    }
  }

  lemma StaticDecl(c: OptionCall)
    ensures DeclOf(c).isStatic <==> IsStatic(c)
    ensures DeclOf(c).name == c.arg
  {
  }

  lemma {:induction false} StaticArgsSplit(front: seq<OptionCall>, back: seq<OptionCall>)
    ensures StaticArgs(front + back) == StaticArgs(front) + StaticArgs(back)
    decreases |back|
  {
    hide StaticArgs, StaticAst;
    if back == [] {
      assert front + back == front;
      assert StaticArgs(back) == [] by { NoStatics(back); }
    } else {
      var init, last := back[..|back| - 1], back[|back| - 1];
      StaticArgsSplit(front, init);
      StaticArgsAppend(front + init, last);
      StaticArgsAppend(init, last);
      assert front + back == front + init + [last] && back == init + [last];
    }
  }

  lemma NoStatics(calls: seq<OptionCall>)
    requires calls == []
    ensures StaticArgs(calls) == []
  {
  }

  /** Static argument k of the signature has its own fixed argument, in its place. */
  lemma FixedAt(calls: seq<OptionCall>, k: nat)
    requires k < |calls| && IsStatic(calls[k])
    ensures var i := Rank(Options(calls), k);
            && i < |StaticArgs(calls)|
            && StaticArgs(calls)[i] == Arg(Some(calls[k].arg), None, StaticAst(calls[k].sub))
  {
    hide StaticArgs, StaticAst;
    RankIs(calls, k);
    StaticArgsSplit(calls[..k], calls[k..]);
    StaticArgsSplit([calls[k]], calls[k + 1..]);
    assert calls[..k] + calls[k..] == calls && calls[k..] == [calls[k]] + calls[k + 1..];
    StaticArgsAppend([], calls[k]);
    NoStatics([]);
    assert [] + [calls[k]] == [calls[k]];
    assert StaticArgs([calls[k]]) == [Arg(Some(calls[k].arg), None, StaticAst(calls[k].sub))];
  }

  // ---------- what can be built ----------

  /** Every dynamic option has a default that is not empty, and every static argument is an algorithm with a name
      that can be built in turn. */
  predicate Buildable(m: Meta)
    decreases m, 0
  {
    m.typ != STRING && CallsBuildable(m.calls)
  }

  predicate CallsBuildable(calls: seq<OptionCall>)
    decreases calls
  {
    calls == [] ||
    ((match calls[0]
      case Templated(_, sub) => sub.name != "" && Buildable(sub)
      case TemplatedDefault(_, sub, _) => sub.name != "" && Buildable(sub)
      case Dynamic(_, value) => value.Some? && value.value != ""
      case DynamicCompressor(_) => false)
     && CallsBuildable(calls[1..]))
  }

  predicate CallBuildable(c: OptionCall) {
    match c
    case Templated(_, sub) => sub.name != "" && Buildable(sub)
    case TemplatedDefault(_, sub, _) => sub.name != "" && Buildable(sub)
    case Dynamic(_, value) => value.Some? && value.value != ""
    case DynamicCompressor(_) => false
  }

  lemma {:induction false} CallsBuildableAt(calls: seq<OptionCall>)
    ensures CallsBuildable(calls) <==> forall k :: 0 <= k < |calls| ==> CallBuildable(calls[k])
  {
    hide Buildable;
    if calls != [] {
      CallsBuildableAt(calls[1..]);
      assert forall k :: 1 <= k < |calls| ==> calls[k] == calls[1..][k - 1];
    }
  }

  /** The options say nothing, or repeat the static arguments. */
  predicate Bare(m: Meta, v: Value) {
    v == Call(m.name, []) || v == StaticAst(m)
  }

  lemma BareNames(m: Meta, v: Value)
    requires WellBuilt(m) && Bare(m, v)
    ensures var sig := Options(m.calls);
            var names := ArgNames(v.args, sig, true, 0);
            && names.Some? && NamesOf(names.value, v.args, sig)
            && names.value == if v.args == [] then [] else StaticNames(m.calls)
    ensures v.Call? && v.name == m.name && (v.args == [] || v.args == StaticArgs(m.calls))
  {
    hide Options, StaticArgs, StaticNames, Names, NameAt, CallsWellBuilt;
    ArgNamesByIndex(v.args, Options(m.calls));
    if v.args == [] {
      assert ArgNames(v.args, Options(m.calls), true, 0) == Some([]);
    } else {
      OptionsDeclare(m.calls);
      StaticArgNames(Options(m.calls), m.calls, true, 0);
    }
  }

  lemma KnownSub(types: Types, calls: seq<OptionCall>, k: nat)
    requires k < |calls| && IsStatic(calls[k]) && KnowsCalls(types, calls) && CallsWellBuilt(calls)
    ensures Knows(types, calls[k].sub) && WellBuilt(calls[k].sub) && DeclOf(calls[k]).typ == calls[k].sub.typ
    ensures CallsDepth(calls) >= Depth(calls[k].sub)
    decreases k
  {
    hide Knows, WellBuilt, Depth, DefaultAst;
    if k > 0 {
      KnownSub(types, calls[1..], k - 1);
    }
  }

  lemma Named(m: Meta)
    ensures HasValue(StaticAst(m)) <==> m.name != ""
    ensures StaticAst(m).IsEmpty() <==> m.name == ""
  {
    StaticArgsUntyped(m.calls);
  }

  lemma StaticWritten(m: Meta, v: Value, k: nat, names: seq<string>)
    requires WellBuilt(m) && Bare(m, v) && v.Call? && k < |m.calls| && |names| == |v.args|
    requires v.args == [] || v.args == StaticArgs(m.calls)
    requires names == if v.args == [] then [] else StaticNames(m.calls)
    ensures var a := DeclOf(m.calls[k]);
            if IsStatic(m.calls[k]) then a.name in names ==> Supplied(a, v.args, names) == StaticAst(m.calls[k].sub)
            else a.name !in names
  {
    hide StaticAst, StaticArgs, StaticNames, DefaultAst, CallsWellBuilt;
    StaticDecl(m.calls[k]);
    if v.args != [] {
      if IsStatic(m.calls[k]) {
        StaticLookup(m.calls, k);
      } else {
        NotStatic(m.calls, k);
      }
    }
  }

  lemma {:induction false} NotStatic(calls: seq<OptionCall>, k: nat)
    requires Distinct(calls) && k < |calls| && !IsStatic(calls[k])
    ensures calls[k].arg !in StaticNames(calls)
  {
    hide StaticAst;
    var tail := calls[1..];
    var own := if IsStatic(calls[0]) then [calls[0].arg] else [];
    assert StaticNames(calls) == own + StaticNames(tail);
    assert forall i :: 0 <= i < |tail| ==> tail[i] == calls[i + 1];
    if k > 0 {
      NotStatic(tail, k - 1);
      assert calls[0].arg != calls[k].arg;
    } else {
      assert calls[0].arg !in StaticNames(tail);
    }
  }

  lemma {:induction false} BuildsArgument(fuel: nat, m: Meta, v: Value, k: nat, types: Types, names: seq<string>)
    requires Unique(types) && WellBuilt(m) && Knows(types, m) && Bare(m, v) && k < |m.calls|
    requires fuel >= CallsDepth(m.calls) && ArgNames(v.args, Options(m.calls), true, 0) == Some(names)
    requires v.Call? && NamesOf(names, v.args, Options(m.calls)) && |names| == |v.args|
    ensures var w := Walk(fuel, Options(m.calls), v.args, types, false, Some(StaticArgs(m.calls)));
            w.HasResult(k) <==> CallBuildable(m.calls[k])
    decreases m, 1
  {
    hide Options, StaticArgs, StaticNames, Eval, ArgNames, NamesOf, LastNamed, Supplied, Depth, DefaultAst, Rank;
    var w := Walk(fuel, Options(m.calls), v.args, types, false, Some(StaticArgs(m.calls)));
    var c := m.calls[k];
    BareNames(m, v);
    OptionAt(m.calls, k);
    StaticWritten(m, v, k, names);
    RankIs(m.calls, k);
    StaticArgsSplit(m.calls[..k], m.calls[k..]);
    assert m.calls[..k] + m.calls[k..] == m.calls;
    TakenIsGiven(w, k, names);
    if IsStatic(c) {
      KnownSub(types, m.calls, k);
      FixedAt(m.calls, k);
      Named(c.sub);
      if c.sub.name != "" {
        Builds(fuel, c.sub, StaticAst(c.sub), types);
        AlgorithmUnderFixed(fuel, StaticAst(c.sub), c.sub.typ, types, StaticAst(c.sub));
      }
    } else {
      StringOnly(fuel, types);
      SuppliedDefault(w.sig[k], v.args, names);
    }
  }

  lemma SuppliedDefault(a: DeclArg, args: seq<Arg>, names: seq<string>)
    requires |names| == |args| && a.name !in names
    ensures Supplied(a, args, names) == if a.default.Some? then a.default.value else EMPTY
  {
  }

  lemma AlgorithmUnderFixed(fuel: nat, v: Value, typ: string, types: Types, fixed: Value)
    requires v.Call?
    ensures var r := Eval(fuel, v, typ, types, false, fixed);
            r.Some? ==> r.value.AlgorithmValue?
  {
  }

  /** Building an algorithm by its type succeeds exactly if everything it is put together from can be built, whether
      the options are left out or repeat the static arguments. */
  lemma {:induction false} Builds(fuel: nat, m: Meta, v: Value, types: Types)
    requires Unique(types) && WellBuilt(m) && Knows(types, m) && fuel >= Depth(m) && m.name != "" && Bare(m, v)
    ensures ClEval(fuel, v, m.typ, types, StaticAst(m)).Some? <==> Buildable(m)
    decreases m, 2
  {
    hide Options, StaticArgs, StaticNames, Eval, ArgNames, LastNamed, CallsBuildable, CallsDepth, Rank, Names,
         CallsWellBuilt, KnowsCalls, CallBuildable, Walk.HasResult;
    if m.typ == STRING {
      NoStrings(fuel, v, types, StaticAst(m));
    } else {
      var sig, fixed := Options(m.calls), StaticAst(m);
      BareNames(m, v);
      UniqueLookup(types[m.typ], Definition(m));
      ArgumentValues(fuel, v, m.typ, types, false, fixed, Definition(m));
      var w := WalkOf(fuel, v, Definition(m), types, false, fixed);
      var names := ArgNames(v.args, sig, true, 0).value;
      ArgNamesByIndex(v.args, sig);
      RankIs(m.calls, |m.calls|);
      assert m.calls[..|m.calls|] == m.calls;
      forall k | 0 <= k < |m.calls|
        ensures w.HasResult(k) <==> CallBuildable(m.calls[k])
      {
        BuildsArgument(fuel - 1, m, v, k, types, names);
      }
      CallsBuildableAt(m.calls);
    }
  }

  lemma NoStrings(fuel: nat, v: Value, types: Types, fixed: Value)
    requires v.Call?
    ensures ClEval(fuel, v, STRING, types, fixed).None?
  {
  }
}
