/** What every argument of an evaluated invocation is. */
module OptionArgs {
  import opened OptionEval
  import opened SelectionKeys
  import opened Meta
  import opened Wrappers

  // ---------- which expression an argument gets ----------

  /** Written argument j is one for the signature argument of this name. */
  predicate Writes(args: seq<Arg>, sig: seq<DeclArg>, name: string, j: nat) {
    j < |args| && Names(args, sig, j) && NameAt(args, sig, j) == name
  }

  /** ... and the last one. */
  predicate WritesLast(args: seq<Arg>, sig: seq<DeclArg>, name: string, j: nat) {
    Writes(args, sig, name, j) && forall i :: j < i < |args| ==> !Writes(args, sig, name, i)
  }

  predicate Unwritten(args: seq<Arg>, sig: seq<DeclArg>, name: string) {
    forall j :: 0 <= j < |args| ==> !Writes(args, sig, name, j)
  }

  /** The value is the last one written for the name, or otherwise when nothing is written for it. */
  ghost predicate WrittenOr(args: seq<Arg>, sig: seq<DeclArg>, name: string, value: Value, otherwise: Option<Value>) {
    || (exists j: nat :: WritesLast(args, sig, name, j) && value == args[j].value)
    || (Unwritten(args, sig, name) && otherwise == Some(value))
  }

  /** The number of static arguments among the first k. */
  function Rank(sig: seq<DeclArg>, k: nat): (r: nat)
    requires k <= |sig|
    ensures r <= k
  {
    if k == 0 then 0 else Rank(sig, k - 1) + if sig[k - 1].isStatic then 1 else 0
  }

  /** An invocation of a declared algorithm, with the fixed static arguments if there are any. */
  datatype Walk = Walk(fuel: nat, sig: seq<DeclArg>, args: seq<Arg>, types: Types, pattern: bool,
                       fixed: Option<seq<Arg>>) {
    /** Pattern evaluation looks at static arguments only. */
    predicate Considers(k: nat)
      requires k < |sig|
    {
      pattern ==> sig[k].isStatic
    }

    predicate Overridden(k: nat)
      requires k < |sig|
    {
      fixed.Some? && sig[k].isStatic
    }

    /** Argument k is this expression, with this tree fixed for it. The fixed arguments stand for the static
        ones in order, and take the place of the declared default. */
    ghost predicate Given(k: nat, value: Value, over: Value)
      requires k < |sig|
    {
      var a := sig[k];
      if Overridden(k) then
        && Rank(sig, k) < |fixed.value|
        && var f := fixed.value[Rank(sig, k)];
           f.Keyword() == a.name && over == f.value && WrittenOr(args, sig, a.name, value, Some(over))
      else over == EMPTY && WrittenOr(args, sig, a.name, value, a.default)
    }

    /** Argument k evaluates to r. */
    ghost predicate Gives(k: nat, r: OptionValue)
      requires k < |sig|
    {
      exists value, over :: Given(k, value, over) && GivenGives(k, value, over, r)
    }

    ghost predicate GivenGives(k: nat, value: Value, over: Value, r: OptionValue)
      requires k < |sig|
    {
      && HasValue(value)
      && Eval(fuel, value, sig[k].typ, types, pattern, over) == Some(r)
      && (sig[k].isStatic ==> r.AlgorithmValue?)
    }

    ghost predicate HasResult(k: nat)
      requires k < |sig|
    {
      exists r :: Gives(k, r)
    }

    /** From argument k on: one fixed argument for every static one, and a result for every argument. */
    ghost predicate Succeeds(k: nat) {
      && (fixed.Some? ==> |fixed.value| == Rank(sig, |sig|))
      && forall i :: k <= i < |sig| && Considers(i) ==> HasResult(i)
    }

    /** From argument k on: each argument under its name, the static ones in order in the selection. */
    ghost predicate Holds(k: nat, selected: seq<PatternArg>, results: map<string, OptionValue>)
      requires k <= |sig|
    {
      && (forall n :: n in results ==> exists i :: k <= i < |sig| && Considers(i) && sig[i].name == n)
      && (forall i :: k <= i < |sig| && Considers(i) ==> sig[i].name in results && Gives(i, results[sig[i].name]))
      && |selected| == Rank(sig, |sig|) - Rank(sig, k)
      && (forall i :: k <= i < |sig| && sig[i].isStatic ==> Selects(i, k, selected, results))
    }

    ghost predicate Selects(i: nat, k: nat, selected: seq<PatternArg>, results: map<string, OptionValue>)
      requires k <= i < |sig|
    {
      && 0 <= Rank(sig, i) - Rank(sig, k) < |selected|
      && sig[i].name in results && results[sig[i].name].AlgorithmValue?
      && selected[Rank(sig, i) - Rank(sig, k)] == PatternArg(sig[i].name, results[sig[i].name].selection)
    }
  }

  predicate DistinctNames(sig: seq<DeclArg>) {
    forall i, j :: 0 <= i < j < |sig| ==> sig[i].name != sig[j].name
  }

  // ---------- one argument ----------

  lemma {:induction false} LastIndexIsLast(names: seq<string>, name: string)
    ensures LastIndex(names, name).Some? ==> forall i :: LastIndex(names, name).value < i < |names| ==> names[i] != name
  {
    if names != [] && names[|names| - 1] != name {
      LastIndexIsLast(names[..|names| - 1], name);
    }
  }

  ghost predicate NamesOf(names: seq<string>, args: seq<Arg>, sig: seq<DeclArg>) {
    |names| == |args| && forall j :: 0 <= j < |args| ==> Names(args, sig, j) && names[j] == NameAt(args, sig, j)
  }

  lemma WritesByName(names: seq<string>, args: seq<Arg>, sig: seq<DeclArg>, name: string)
    requires NamesOf(names, args, sig)
    ensures forall j: nat :: Writes(args, sig, name, j) <==> j < |names| && names[j] == name
  {
    hide Names, NameAt;
  }

  lemma WrittenByIndex(names: seq<string>, args: seq<Arg>, sig: seq<DeclArg>, name: string, value: Value,
                       otherwise: Option<Value>)
    requires |names| == |args| && NamesOf(names, args, sig)
    ensures WrittenOr(args, sig, name, value, otherwise)
       <==> var found := LastIndex(names, name);
            if found.Some? then value == args[found.value].value else otherwise == Some(value)
  {
    hide LastIndex, Writes, NamesOf, WrittenOr;
    WritesByName(names, args, sig, name);
    LastIndexIsLast(names, name);
    var found := LastIndex(names, name);
    if found.Some? {
      LastGives(args, sig, name, found.value, value, otherwise);
    } else {
      NothingGives(args, sig, name, value, otherwise);
    }
  }

  lemma LastGives(args: seq<Arg>, sig: seq<DeclArg>, name: string, j: nat, value: Value, otherwise: Option<Value>)
    requires WritesLast(args, sig, name, j)
    ensures WrittenOr(args, sig, name, value, otherwise) <==> value == args[j].value
  {
    hide Names, NameAt;
  }

  lemma NothingGives(args: seq<Arg>, sig: seq<DeclArg>, name: string, value: Value, otherwise: Option<Value>)
    requires Unwritten(args, sig, name)
    ensures WrittenOr(args, sig, name, value, otherwise) <==> otherwise == Some(value)
  {
    hide Names, NameAt;
  }

  /** What EvalArgs takes for argument k. */
  lemma GivenIsSupplied(w: Walk, k: nat, names: seq<string>, value: Value, over: Value)
    requires k < |w.sig| && |names| == |w.args| && NamesOf(names, w.args, w.sig)
    requires w.fixed.Some? ==> Rank(w.sig, k) <= |w.fixed.value|
    ensures var a := w.sig[k];
            var rest := if w.fixed.Some? then w.fixed.value[Rank(w.sig, k)..] else [];
            w.Given(k, value, over) <==>
              if w.Overridden(k) then
                && rest != [] && rest[0].Keyword() == a.name && over == rest[0].value
                && value == (if a.name !in names then over else Supplied(a, w.args, names))
              else
                over == EMPTY && (a.name in names || a.default.Some?) && value == Supplied(a, w.args, names)
  {
    hide WrittenOr;
    var a := w.sig[k];
    if w.Overridden(k) {
      WrittenByIndex(names, w.args, w.sig, a.name, value, Some(over));
    } else {
      WrittenByIndex(names, w.args, w.sig, a.name, value, a.default);
    }
  }

  /** The result that EvalArgs gets for argument k. */
  ghost function Taken(w: Walk, k: nat, names: seq<string>): Option<OptionValue>
    requires k < |w.sig| && |names| == |w.args|
    requires w.fixed.Some? ==> Rank(w.sig, k) <= |w.fixed.value|
  {
    var a := w.sig[k];
    var rest := if w.fixed.Some? then w.fixed.value[Rank(w.sig, k)..] else [];
    if w.Overridden(k) && (rest == [] || rest[0].Keyword() != a.name) then None
    else
      var over := if w.Overridden(k) then rest[0].value else EMPTY;
      var value := if w.Overridden(k) && a.name !in names then over else Supplied(a, w.args, names);
      if !HasValue(value) then None
      else
        match Eval(w.fuel, value, a.typ, w.types, w.pattern, over)
        case None => None
        case Some(r) => if a.isStatic && r.StringValue? then None else Some(r)
  }

  lemma TakenIsGiven(w: Walk, k: nat, names: seq<string>)
    requires k < |w.sig| && |names| == |w.args| && NamesOf(names, w.args, w.sig)
    requires w.fixed.Some? ==> Rank(w.sig, k) <= |w.fixed.value|
    ensures forall r :: w.Gives(k, r) <==> Taken(w, k, names) == Some(r)
    ensures w.HasResult(k) <==> Taken(w, k, names).Some?
    ensures Taken(w, k, names).Some? && w.sig[k].isStatic ==>
              Taken(w, k, names).value.AlgorithmValue? && Taken(w, k, names).value.selection.name != ""
  {
    hide Eval, Rank, NamesOf;
    var a := w.sig[k];
    var rest := if w.fixed.Some? then w.fixed.value[Rank(w.sig, k)..] else [];
    var over := if w.Overridden(k) && rest != [] then rest[0].value else EMPTY;
    var value := if w.Overridden(k) && a.name !in names then over else Supplied(a, w.args, names);
    forall v, o
      ensures w.Given(k, v, o) ==> v == value && o == over
      ensures w.Given(k, v, o) ==> !w.Overridden(k) || (rest != [] && rest[0].Keyword() == a.name)
    {
      GivenIsSupplied(w, k, names, v, o);
    }
    GivenIsSupplied(w, k, names, value, over);
    hide Walk.Given;
    forall r
      ensures w.Gives(k, r) <==> Taken(w, k, names) == Some(r)
    {
      if Taken(w, k, names) == Some(r) {
        assert w.Given(k, value, over) && w.GivenGives(k, value, over, r);
      }
    }
    if Taken(w, k, names).Some? && a.isStatic {
      AlgorithmIsNamed(w.fuel, value, a.typ, w.types, w.pattern, over);
    }
  }

  lemma AlgorithmIsNamed(fuel: nat, value: Value, typ: string, types: Types, pattern: bool, over: Value)
    requires HasValue(value) && Eval(fuel, value, typ, types, pattern, over).Some?
    requires Eval(fuel, value, typ, types, pattern, over).value.AlgorithmValue?
    ensures Eval(fuel, value, typ, types, pattern, over).value.selection.name != ""
  {
    SelectionWellFormed(fuel, value, typ, types, pattern, over);
  }

  // ---------- all arguments ----------

  /** EvalArgs on the arguments from k on, with the fixed ones that are left. */
  ghost function WalkAt(w: Walk, k: nat, names: seq<string>): Option<(seq<PatternArg>, map<string, OptionValue>)>
    requires k <= |w.sig| && |names| == |w.args|
    requires w.fixed.Some? ==> Rank(w.sig, k) <= |w.fixed.value|
  {
    EvalArgs(w.fuel, w.sig[k..], w.args, names, w.types, w.pattern,
             if w.fixed.Some? then Some(w.fixed.value[Rank(w.sig, k)..]) else None)
  }

  lemma WalkEnds(w: Walk, names: seq<string>)
    requires |names| == |w.args|
    requires w.fixed.Some? ==> Rank(w.sig, |w.sig|) <= |w.fixed.value|
    ensures WalkAt(w, |w.sig|, names)
         == if w.fixed.Some? && |w.fixed.value| != Rank(w.sig, |w.sig|) then None else Some(([], map[]))
  {
  }

  lemma WalkSkips(w: Walk, k: nat, names: seq<string>)
    requires k < |w.sig| && |names| == |w.args| && !w.Considers(k)
    requires w.fixed.Some? ==> Rank(w.sig, k) <= |w.fixed.value|
    ensures Rank(w.sig, k + 1) == Rank(w.sig, k) && WalkAt(w, k, names) == WalkAt(w, k + 1, names)
  {
    assert w.sig[k..][1..] == w.sig[k + 1..];
  }

  lemma WalkStops(w: Walk, k: nat, names: seq<string>)
    requires k < |w.sig| && |names| == |w.args| && w.Considers(k)
    requires w.fixed.Some? ==> Rank(w.sig, k) <= |w.fixed.value|
    requires Taken(w, k, names).None?
    ensures WalkAt(w, k, names).None?
  {
    hide Rank, Supplied, HasValue;
  }

  lemma WalkTakes(w: Walk, k: nat, names: seq<string>)
    requires k < |w.sig| && |names| == |w.args| && w.Considers(k)
    requires w.fixed.Some? ==> Rank(w.sig, k) <= |w.fixed.value|
    requires Taken(w, k, names).Some?
    ensures w.fixed.Some? ==> Rank(w.sig, k + 1) <= |w.fixed.value|
    ensures match WalkAt(w, k + 1, names)
            case None => WalkAt(w, k, names).None?
            case Some(r) =>
              var a, x := w.sig[k], Taken(w, k, names).value;
              WalkAt(w, k, names) == Some((StaticPart(a, x) + r.0, map[a.name := x] + r.1))
  {
    hide Supplied, HasValue, StaticPart;
    assert w.sig[k..][1..] == w.sig[k + 1..];
    if w.Overridden(k) {
      assert w.fixed.value[Rank(w.sig, k)..][1..] == w.fixed.value[Rank(w.sig, k + 1)..];
    }
  }

  /** The walk from argument k on succeeds exactly if every argument has a result, and puts it in its place. */
  lemma {:induction false} WalkFrom(w: Walk, k: nat, names: seq<string>)
    requires k <= |w.sig| && |names| == |w.args| && NamesOf(names, w.args, w.sig) && DistinctNames(w.sig)
    requires w.fixed.Some? ==> Rank(w.sig, k) <= |w.fixed.value|
    ensures WalkAt(w, k, names).Some? <==> w.Succeeds(k)
    ensures WalkAt(w, k, names).Some? ==> w.Holds(k, WalkAt(w, k, names).value.0, WalkAt(w, k, names).value.1)
    decreases |w.sig| - k
  {
    hide WalkAt, Taken, NamesOf, Walk.HasResult, Walk.Gives;
    if k == |w.sig| {
      WalkEnds(w, names);
    } else if !w.Considers(k) {
      WalkSkips(w, k, names);
      WalkFrom(w, k + 1, names);
      if WalkAt(w, k, names).Some? {
        HoldsSkipped(w, k, WalkAt(w, k, names).value.0, WalkAt(w, k, names).value.1);
      }
    } else {
      TakenIsGiven(w, k, names);
      if Taken(w, k, names).None? {
        WalkStops(w, k, names);
      } else {
        WalkTakes(w, k, names);
        WalkFrom(w, k + 1, names);
        if WalkAt(w, k, names).Some? {
          var r := WalkAt(w, k + 1, names).value;
          HoldsTaken(w, k, Taken(w, k, names).value, r.0, r.1);
        }
      }
    }
  }

  lemma HoldsSkipped(w: Walk, k: nat, selected: seq<PatternArg>, results: map<string, OptionValue>)
    requires k < |w.sig| && !w.Considers(k) && w.Holds(k + 1, selected, results)
    ensures w.Holds(k, selected, results)
  {
    hide Walk.Gives;
    assert Rank(w.sig, k + 1) == Rank(w.sig, k);
    forall i | k <= i < |w.sig| && w.sig[i].isStatic
      ensures w.Selects(i, k, selected, results)
    {
      assert w.Selects(i, k + 1, selected, results);
    }
  }

  lemma HoldsTaken(w: Walk, k: nat, x: OptionValue, selected: seq<PatternArg>, results: map<string, OptionValue>)
    requires k < |w.sig| && w.Considers(k) && DistinctNames(w.sig) && w.Holds(k + 1, selected, results)
    requires w.Gives(k, x) && (w.sig[k].isStatic ==> x.AlgorithmValue? && x.selection.name != "")
    ensures w.Holds(k, StaticPart(w.sig[k], x) + selected, map[w.sig[k].name := x] + results)
  {
    hide Walk.Gives;
    var name := w.sig[k].name;
    var more := map[name := x] + results;
    assert name !in results;
    assert more[name] == x;
    var part := StaticPart(w.sig[k], x);
    assert |part| == Rank(w.sig, k + 1) - Rank(w.sig, k);
    forall i | k <= i < |w.sig| && w.sig[i].isStatic
      ensures w.Selects(i, k, part + selected, more)
    {
      if i > k {
        assert w.Selects(i, k + 1, selected, results);
      }
    }
  }

  // ---------- invocations ----------

  /** The walk that an invocation of the declared algorithm makes. */
  function WalkOf(fuel: nat, v: Value, decl: Decl, types: Types, pattern: bool, fixed: Value): Walk
    requires fuel > 0 && v.Call? && (fixed.IsEmpty() || fixed.Call?)
  {
    Walk(fuel - 1, decl.args, v.args, types, pattern, if fixed.IsEmpty() then None else Some(fixed.args))
  }

  /** An invocation of a known algorithm succeeds exactly if its written arguments are accepted, there is one
      fixed argument for every static one, and every argument that is looked at has a result. Then the result
      holds exactly these arguments, each under its name with the value of the last expression written for it,
      else of the fixed one or of the declared default; and the selection lists the static ones in order. */
  lemma ArgumentValues(fuel: nat, v: Value, typ: string, types: Types, pattern: bool, fixed: Value, decl: Decl)
    requires typ != STRING && fuel > 0 && v.Call? && typ in types && LastNamed(types[typ], v.name) == Some(decl)
    requires DistinctNames(decl.args) && (fixed.IsEmpty() || (fixed.Call? && fixed.name == v.name))
    ensures var w := WalkOf(fuel, v, decl, types, pattern, fixed);
            var r := Eval(fuel, v, typ, types, pattern, fixed);
            && (r.Some? <==> (forall j :: 0 <= j < |v.args| ==> Names(v.args, decl.args, j)) && w.Succeeds(0))
            && (r.Some? ==>
                  && r.value.AlgorithmValue? && r.value.name == v.name == r.value.selection.name
                  && w.Holds(0, r.value.selection.args, r.value.args))
  {
    hide Names, EvalArgs;
    var w := WalkOf(fuel, v, decl, types, pattern, fixed);
    ArgNamesByIndex(v.args, decl.args);
    var names := ArgNames(v.args, decl.args, true, 0);
    if names.Some? {
      hide Walk.Succeeds, Walk.Holds;
      WalkFrom(w, 0, names.value);
      assert w.sig[0..] == w.sig;
      assert w.fixed.Some? ==> w.fixed.value[0..] == w.fixed.value;
    }
  }
}
