/** The option evaluator: invocations, declared defaults and fixed static arguments. */
module OptionEval {
  import opened Wrappers

  // ---------- syntax, declarations, results ----------

  /** An expression: a string, or an algorithm invocation. */
  datatype Value = Str(text: string) | Call(name: string, args: seq<Arg>) {
    predicate IsEmpty() {
      match this
      case Str(t) => t == ""
      case Call(n, _) => n == ""
    }
  }

  datatype Arg = Arg(keyword: Option<string>, typ: Option<string>, value: Value) {
    /** A missing keyword reads as the empty string. */
    function Keyword(): string {
      if keyword.Some? then keyword.value else ""
    }
  }

  const EMPTY: Value := Str("")

  const STRING: string := "string"

  datatype DeclArg = DeclArg(name: string, isStatic: bool, typ: string, default: Option<Value>)

  datatype Decl = Decl(name: string, args: seq<DeclArg>, doc: string)

  type Types = map<string, seq<Decl>>

  /** The part of an algorithm that selects an implementation. */
  datatype Pattern = Pattern(name: string, args: seq<PatternArg>)

  datatype PatternArg = PatternArg(name: string, algorithm: Pattern)

  datatype OptionValue =
    | StringValue(text: string)
    | AlgorithmValue(name: string, args: map<string, OptionValue>, selection: Pattern)

  // ---------- evaluation ----------

  function LastNamed(ds: seq<Decl>, name: string): (r: Option<Decl>)
    ensures r.Some? ==> r.value in ds && r.value.name == name
    ensures r.None? ==> forall d :: d in ds ==> d.name != name
  {
    if ds == [] then None
    else if ds[|ds| - 1].name == name then Some(ds[|ds| - 1])
    else LastNamed(ds[..|ds| - 1], name)
  }

  predicate Declares(args: seq<DeclArg>, name: string) {
    exists i :: 0 <= i < |args| && args[i].name == name
  }

  /** The argument name of each written argument, from position i on. */
  function ArgNames(args: seq<Arg>, sig: seq<DeclArg>, positionalOk: bool, i: nat): (r: Option<seq<string>>)
    ensures r.Some? ==> |r.value| == |args|
  {
    if args == [] then Some([])
    else
      var name :=
        if args[0].keyword.Some? then args[0].keyword
        else if positionalOk && i < |sig| then Some(sig[i].name)
        else None;
      if name.None? || !Declares(sig, name.value) then None
      else
        var ok := positionalOk && args[0].keyword.None?;
        match ArgNames(args[1..], sig, ok, if args[0].keyword.None? then i + 1 else i)
        case None => None
        case Some(rest) => Some([name.value] + rest)
  }

  /** Argument j names an argument of the signature: a keyword by itself, a positional one by its
      place, and only in front of every keyword. */
  predicate Names(args: seq<Arg>, sig: seq<DeclArg>, j: nat)
    requires j < |args|
  {
    match args[j].keyword
    case Some(k) => Declares(sig, k)
    case None => j < |sig| && forall i :: 0 <= i < j ==> args[i].keyword.None?
  }

  function NameAt(args: seq<Arg>, sig: seq<DeclArg>, j: nat): string
    requires j < |args| && Names(args, sig, j)
  {
    if args[j].keyword.Some? then args[j].keyword.value else sig[j].name
  }

  /** The written arguments are accepted exactly when each of them names one of the signature, and the
      name is its keyword or the one at its place. */
  lemma ArgNamesByIndex(args: seq<Arg>, sig: seq<DeclArg>)
    ensures ArgNames(args, sig, true, 0).Some? <==> forall j :: 0 <= j < |args| ==> Names(args, sig, j)
    ensures ArgNames(args, sig, true, 0).Some? ==>
              forall j :: 0 <= j < |args| ==> ArgNames(args, sig, true, 0).value[j] == NameAt(args, sig, j)
  {
    assert args[0..] == args;
    ArgNamesFrom(args, sig, 0);
  }

  /** Every argument in front of n is positional. */
  predicate Positional(args: seq<Arg>, n: nat)
    requires n <= |args|
  {
    forall i :: 0 <= i < n ==> args[i].keyword.None?
  }

  lemma {:induction false} ArgNamesFrom(args: seq<Arg>, sig: seq<DeclArg>, n: nat, i: nat := n)
    requires n <= |args| && (Positional(args, n) ==> i == n)
    ensures var r := ArgNames(args[n..], sig, Positional(args, n), i);
            && (r.Some? <==> forall j :: n <= j < |args| ==> Names(args, sig, j))
            && (r.Some? ==> forall j :: n <= j < |args| ==> r.value[j - n] == NameAt(args, sig, j))
    decreases |args| - n
  {
    if n < |args| {
      var rest, positional := args[n..], args[n].keyword.None?;
      assert rest[0] == args[n] && rest[1..] == args[n + 1..];
      assert Positional(args, n + 1) <==> Positional(args, n) && positional;
      assert positional && n < |sig| ==> Declares(sig, sig[n].name);
      ArgNamesFrom(args, sig, n + 1, if positional then i + 1 else i);
      assert Names(args, sig, n) || ArgNames(rest, sig, Positional(args, n), i).None?;
    }
  }

  function LastIndex(names: seq<string>, name: string): (r: Option<nat>)
    ensures r.Some? ==> r.value < |names| && names[r.value] == name
    ensures r.None? <==> name !in names
  {
    if names == [] then None
    else if names[|names| - 1] == name then Some(|names| - 1)
    else LastIndex(names[..|names| - 1], name)
  }

  /** An argument must have a value, and its own arguments no types. */
  predicate HasValue(v: Value) {
    && !v.IsEmpty()
    && (v.Call? ==> forall i :: 0 <= i < |v.args| ==> v.args[i].typ.None?)
  }

  /** The value of a signature argument before overriding: the last one written for it, else its default. */
  function Supplied(a: DeclArg, args: seq<Arg>, names: seq<string>): Value
    requires |names| == |args|
  {
    var found := LastIndex(names, a.name);
    if found.Some? then args[found.value].value
    else if a.default.Some? then a.default.value
    else EMPTY
  }

  /** eval: None stands for every exception and failed check, and for fuel that is used up. */
  function Eval(fuel: nat, v: Value, typ: string, types: Types, pattern: bool, fixed: Value): Option<OptionValue>
    decreases fuel, 0
  {
    if typ == STRING then
      if v.Call? then None else Some(StringValue(v.text))
    else if fuel == 0 || !v.Call? || typ !in types then None
    else if !fixed.IsEmpty() && !(fixed.Call? && fixed.name == v.name) then None
    else
      match LastNamed(types[typ], v.name)
      case None => None
      case Some(decl) =>
        match ArgNames(v.args, decl.args, true, 0)
        case None => None
        case Some(names) =>
          var fixedArgs := if fixed.IsEmpty() then None else Some(fixed.args);
          match EvalArgs(fuel - 1, decl.args, v.args, names, types, pattern, fixedArgs)
          case None => None
          case Some(r) => Some(AlgorithmValue(decl.name, r.1, Pattern(decl.name, r.0)))
  }

  /** Step 2 of eval on the remaining signature arguments; fixed holds the fixed static arguments
      not used yet, and None if there are none at all. */
  function EvalArgs(fuel: nat, sig: seq<DeclArg>, args: seq<Arg>, names: seq<string>, types: Types, pattern: bool,
                    fixed: Option<seq<Arg>>): Option<(seq<PatternArg>, map<string, OptionValue>)>
    requires |names| == |args|
    decreases fuel, |sig| + 1
  {
    if sig == [] then
      if fixed.Some? && fixed.value != [] then None else Some(([], map[]))
    else
      var a := sig[0];
      if pattern && !a.isStatic then EvalArgs(fuel, sig[1..], args, names, types, pattern, fixed)
      else
        var override := fixed.Some? && a.isStatic;
        if override && (fixed.value == [] || fixed.value[0].Keyword() != a.name) then None
        else
          var fixedValue := if override then fixed.value[0].value else EMPTY;
          var value := if override && a.name !in names then fixedValue else Supplied(a, args, names);
          var fixed' := if override then Some(fixed.value[1..]) else fixed;
          if !HasValue(value) then None
          else
            match Eval(fuel, value, a.typ, types, pattern, fixedValue)
            case None => None
            case Some(r) =>
              if a.isStatic && r.StringValue? then None
              else
                match EvalArgs(fuel, sig[1..], args, names, types, pattern, fixed')
                case None => None
                case Some(rest) => Some((StaticPart(a, r) + rest.0, map[a.name := r] + rest.1))
  }

  /** What an evaluated argument adds to the static selection. */
  function StaticPart(a: DeclArg, r: OptionValue): seq<PatternArg> {
    if a.isStatic && r.AlgorithmValue? && r.selection.name != "" then [PatternArg(a.name, r.selection)] else []
  }

  /** Evaluation on the command line, with all arguments. */
  function ClEval(fuel: nat, v: Value, typ: string, types: Types, fixed: Value): Option<OptionValue> {
    Eval(fuel, v, typ, types, false, fixed)
  }

  /** Evaluation to a static selection; dynamic arguments are not looked at. */
  function PatternEval(fuel: nat, v: Value, typ: string, types: Types): Option<Pattern> {
    match Eval(fuel, v, typ, types, true, EMPTY)
    case None => None
    case Some(r) => if r.AlgorithmValue? then Some(r.selection) else None
  }

  // ---------- fuel ----------

  /** What evaluates with some fuel evaluates to the same with more. */
  lemma {:induction false} MoreFuel(fuel: nat, more: nat, v: Value, typ: string, types: Types, pattern: bool,
                                    fixed: Value)
    requires fuel <= more && Eval(fuel, v, typ, types, pattern, fixed).Some?
    ensures Eval(more, v, typ, types, pattern, fixed) == Eval(fuel, v, typ, types, pattern, fixed)
    decreases fuel, 0
  {
    if typ != STRING {
      var decl := LastNamed(types[typ], v.name).value;
      var names := ArgNames(v.args, decl.args, true, 0).value;
      MoreFuelArgs(fuel - 1, more - 1, decl.args, v.args, names, types, pattern,
                   if fixed.IsEmpty() then None else Some(fixed.args));
    }
  }

  lemma {:induction false} MoreFuelArgs(fuel: nat, more: nat, sig: seq<DeclArg>, args: seq<Arg>, names: seq<string>,
                                        types: Types, pattern: bool, fixed: Option<seq<Arg>>)
    requires |names| == |args| && fuel <= more
    requires EvalArgs(fuel, sig, args, names, types, pattern, fixed).Some?
    ensures EvalArgs(more, sig, args, names, types, pattern, fixed)
         == EvalArgs(fuel, sig, args, names, types, pattern, fixed)
    decreases fuel, |sig| + 1
  {
    hide HasValue, LastIndex;
    if sig != [] {
      var a := sig[0];
      if pattern && !a.isStatic {
        MoreFuelArgs(fuel, more, sig[1..], args, names, types, pattern, fixed);
      } else {
        var override := fixed.Some? && a.isStatic;
        var fixedValue := if override then fixed.value[0].value else EMPTY;
        var value := if override && a.name !in names then fixedValue else Supplied(a, args, names);
        MoreFuel(fuel, more, value, a.typ, types, pattern, fixedValue);
        MoreFuelArgs(fuel, more, sig[1..], args, names, types, pattern,
                     if override then Some(fixed.value[1..]) else fixed);
      }
    }
  }

  // ---------- fixed static arguments ----------

  /** The static selection that an expression spells out. */
  function ToPattern(v: Value): Pattern {
    match v
    case Str(t) => Pattern(t, [])
    case Call(n, args) => Pattern(n, ToPatternArgs(args))
  }

  function ToPatternArgs(args: seq<Arg>): (r: seq<PatternArg>)
    ensures |r| == |args|
  {
    if args == [] then [] else [ToPatternArg(args[0])] + ToPatternArgs(args[1..])
  }

  function ToPatternArg(a: Arg): PatternArg {
    PatternArg(a.Keyword(), ToPattern(a.value))
  }

  /** Every algorithm below the top has a name. */
  predicate NamedBelow(p: Pattern) {
    forall i :: 0 <= i < |p.args| ==> p.args[i].algorithm.name != "" && NamedBelow(p.args[i].algorithm)
  }

  /** No static selection holds a nameless algorithm below its top. */
  lemma {:induction false} SelectionNamedBelow(fuel: nat, v: Value, typ: string, types: Types, pattern: bool,
                                               fixed: Value)
    requires Eval(fuel, v, typ, types, pattern, fixed).Some?
    ensures var r := Eval(fuel, v, typ, types, pattern, fixed).value;
            r.AlgorithmValue? ==> NamedBelow(r.selection)
    decreases fuel, 0
  {
    if typ != STRING {
      var decl := LastNamed(types[typ], v.name).value;
      var names := ArgNames(v.args, decl.args, true, 0).value;
      SelectionArgsNamed(fuel - 1, decl.args, v.args, names, types, pattern,
                         if fixed.IsEmpty() then None else Some(fixed.args));
    }
  }

  lemma {:induction false} SelectionArgsNamed(fuel: nat, sig: seq<DeclArg>, args: seq<Arg>, names: seq<string>,
                                              types: Types, pattern: bool, fixed: Option<seq<Arg>>)
    requires |names| == |args|
    requires EvalArgs(fuel, sig, args, names, types, pattern, fixed).Some?
    ensures forall p :: p in EvalArgs(fuel, sig, args, names, types, pattern, fixed).value.0
                    ==> p.algorithm.name != "" && NamedBelow(p.algorithm)
    decreases fuel, |sig| + 1
  {
    hide HasValue, LastIndex, NamedBelow;
    if sig != [] {
      var a := sig[0];
      if pattern && !a.isStatic {
        SelectionArgsNamed(fuel, sig[1..], args, names, types, pattern, fixed);
      } else {
        var override := fixed.Some? && a.isStatic;
        var fixedValue := if override then fixed.value[0].value else EMPTY;
        var value := if override && a.name !in names then fixedValue else Supplied(a, args, names);
        SelectionNamedBelow(fuel, value, a.typ, types, pattern, fixedValue);
        SelectionArgsNamed(fuel, sig[1..], args, names, types, pattern,
                           if override then Some(fixed.value[1..]) else fixed);
      }
    }
  }

  /** Fixed static arguments win over what the user wrote and over declared defaults, at every level:
      the selection is the fixed tree exactly when no part of that tree is left empty. */
  lemma FixedArgumentsWin(fuel: nat, v: Value, typ: string, types: Types, pattern: bool, fixed: Value)
    requires typ != STRING && !fixed.IsEmpty()
    requires Eval(fuel, v, typ, types, pattern, fixed).Some?
    ensures Eval(fuel, v, typ, types, pattern, fixed).value.AlgorithmValue?
    ensures var selected := Eval(fuel, v, typ, types, pattern, fixed).value.selection;
            selected == ToPattern(fixed) <==> NamedBelow(ToPattern(fixed))
  {
    SelectionNamedBelow(fuel, v, typ, types, pattern, fixed);
    if NamedBelow(ToPattern(fixed)) {
      FixedWins(fuel, v, typ, types, pattern, fixed);
    }
  }

  lemma {:induction false} FixedWins(fuel: nat, v: Value, typ: string, types: Types, pattern: bool, fixed: Value)
    requires typ != STRING && !fixed.IsEmpty() && NamedBelow(ToPattern(fixed))
    requires Eval(fuel, v, typ, types, pattern, fixed).Some?
    ensures Eval(fuel, v, typ, types, pattern, fixed).value.AlgorithmValue?
    ensures Eval(fuel, v, typ, types, pattern, fixed).value.selection == ToPattern(fixed)
    decreases fuel, 0
  {
    var decl := LastNamed(types[typ], v.name).value;
    var names := ArgNames(v.args, decl.args, true, 0).value;
    FixedArgsWin(fuel - 1, decl.args, v.args, names, types, pattern, fixed.args);
  }

  lemma {:induction false} FixedArgsWin(fuel: nat, sig: seq<DeclArg>, args: seq<Arg>, names: seq<string>,
                                        types: Types, pattern: bool, fixed: seq<Arg>)
    requires |names| == |args|
    requires forall i :: 0 <= i < |fixed| ==>
               ToPatternArgs(fixed)[i].algorithm.name != "" && NamedBelow(ToPatternArgs(fixed)[i].algorithm)
    requires EvalArgs(fuel, sig, args, names, types, pattern, Some(fixed)).Some?
    ensures EvalArgs(fuel, sig, args, names, types, pattern, Some(fixed)).value.0 == ToPatternArgs(fixed)
    decreases fuel, |sig| + 1
  {
    hide HasValue, LastIndex, NamedBelow;
    if sig != [] {
      var a := sig[0];
      if !a.isStatic {
        FixedArgsWin(fuel, sig[1..], args, names, types, pattern, fixed);
      } else {
        var f := fixed[0];
        assert ToPatternArgs(fixed)[0] == ToPatternArg(f) && ToPatternArgs(fixed)[0].algorithm == ToPattern(f.value);
        assert forall i :: 0 <= i < |fixed| - 1 ==> ToPatternArgs(fixed[1..])[i] == ToPatternArgs(fixed)[i + 1];
        FixedArgsWin(fuel, sig[1..], args, names, types, pattern, fixed[1..]);
        if a.typ != STRING {
          FixedWins(fuel, if a.name !in names then f.value else Supplied(a, args, names), a.typ, types, pattern,
                    f.value);
        }
      }
    }
  }

  const TREE_TYPES: Types := map["t" := [Decl("a", [DeclArg("x", true, "t", None)], ""), Decl("b", [], "")]]

  /** a(x = v). */
  function TreeOver(v: Value): Value {
    Call("a", [Arg(Some("x"), None, v)])
  }

  /** A fixed argument that is left empty gives way: with x fixed to the empty algorithm, a(x = b) selects b. */
  lemma EmptyFixedPartGivesWay()
    ensures var fixed, written := TreeOver(Call("", [])), TreeOver(Call("b", []));
            var r := Eval(2, written, "t", TREE_TYPES, false, fixed);
            r.Some? && r.value.AlgorithmValue? && r.value.selection == ToPattern(written) != ToPattern(fixed)
  {
    var fixed, written := TreeOver(Call("", [])), TreeOver(Call("b", []));
    var sig := [DeclArg("x", true, "t", None)];
    var ds := TREE_TYPES["t"];
    assert LastNamed(ds[..1], "a") == Some(ds[0]);
    assert LastNamed(ds, "a") == Some(ds[0]) && LastNamed(ds, "b") == Some(ds[1]);
    ArgNamesByIndex(written.args, sig);
    assert sig[0].name == "x" && Declares(sig, "x");
    assert Names(written.args, sig, 0) && NameAt(written.args, sig, 0) == "x";
    assert ArgNames(written.args, sig, true, 0).value == ["x"];
    assert Supplied(sig[0], written.args, ["x"]) == Call("b", []);
    assert EvalArgs(0, [], [], [], TREE_TYPES, false, None) == Some(([], map[]));
    var b := Eval(1, Call("b", []), "t", TREE_TYPES, false, Call("", []));
    assert b == Some(AlgorithmValue("b", map[], Pattern("b", [])));
    assert sig[1..] == [];
    assert EvalArgs(1, sig, written.args, ["x"], TREE_TYPES, false, Some(fixed.args)).value.0
        == [PatternArg("x", Pattern("b", []))];
    assert ToPatternArgs(written.args)[0] == PatternArg("x", Pattern("b", []));
    assert ToPatternArgs(fixed.args)[0] == PatternArg("x", Pattern("", []));
  }

  // ---------- pattern evaluation ----------

  /** Whenever evaluation succeeds, pattern evaluation succeeds with the same static selection. */
  lemma {:induction false} PatternEvalAgrees(fuel: nat, v: Value, typ: string, types: Types, fixed: Value)
    requires Eval(fuel, v, typ, types, false, fixed).Some?
    ensures Eval(fuel, v, typ, types, true, fixed).Some?
    ensures var r, p := Eval(fuel, v, typ, types, false, fixed).value, Eval(fuel, v, typ, types, true, fixed).value;
            if r.AlgorithmValue? then p.AlgorithmValue? && p.selection == r.selection else p == r
    decreases fuel, 0
  {
    if typ != STRING {
      var decl := LastNamed(types[typ], v.name).value;
      var names := ArgNames(v.args, decl.args, true, 0).value;
      PatternEvalArgsAgrees(fuel - 1, decl.args, v.args, names, types,
                            if fixed.IsEmpty() then None else Some(fixed.args));
    }
  }

  lemma {:induction false} PatternEvalArgsAgrees(fuel: nat, sig: seq<DeclArg>, args: seq<Arg>, names: seq<string>,
                                                 types: Types, fixed: Option<seq<Arg>>)
    requires |names| == |args|
    requires EvalArgs(fuel, sig, args, names, types, false, fixed).Some?
    ensures EvalArgs(fuel, sig, args, names, types, true, fixed).Some?
    ensures EvalArgs(fuel, sig, args, names, types, true, fixed).value.0
         == EvalArgs(fuel, sig, args, names, types, false, fixed).value.0
    decreases fuel, |sig| + 1
  {
    hide HasValue, LastIndex;
    if sig != [] {
      var a := sig[0];
      var override := fixed.Some? && a.isStatic;
      var fixedValue := if override then fixed.value[0].value else EMPTY;
      var value := if override && a.name !in names then fixedValue else Supplied(a, args, names);
      PatternEvalArgsAgrees(fuel, sig[1..], args, names, types, if override then Some(fixed.value[1..]) else fixed);
      if a.isStatic {
        PatternEvalAgrees(fuel, value, a.typ, types, fixedValue);
      }
    }
  }

  // ---------- the loops of eval ----------

  function Reversed(args: seq<Arg>): (r: seq<Arg>)
    ensures |r| == |args|
  {
    if args == [] then [] else Reversed(args[1..]) + [args[0]]
  }

  lemma {:induction false} ReversedTwice(args: seq<Arg>)
    ensures Reversed(Reversed(args)) == args
  {
    if args != [] {
      ReversedTwice(args[1..]);
      ReversedSnoc(Reversed(args[1..]), args[0]);
    }
  }

  lemma {:induction false} ReversedSnoc(args: seq<Arg>, a: Arg)
    ensures Reversed(args + [a]) == [a] + Reversed(args)
  {
    if args == [] {
      assert (args + [a])[1..] == [];
    } else {
      ReversedSnoc(args[1..], a);
      assert (args + [a])[1..] == args[1..] + [a];
    }
  }

  /** Step 1 of eval: the argument name of every written argument. */
  method FindArgNames(args: seq<Arg>, sig: seq<DeclArg>) returns (r: Option<seq<string>>)
    ensures r == ArgNames(args, sig, true, 0)
  {
    var names: seq<string>, positionalOk, i: nat := [], true, 0;
    ghost var want := ArgNames(args, sig, true, 0);
    assert args[0..] == args;
    PrependNone(want);
    for k := 0 to |args|
      invariant |names| == k && want == PrependNames(names, ArgNames(args[k..], sig, positionalOk, i))
    {
      var name: string;
      assert args[k..][0] == args[k] && args[k..][1..] == args[k + 1..];
      if args[k].keyword.None? {
        if !positionalOk || i >= |sig| {
          return None;
        }
        name := sig[i].name;
        i := i + 1;
      } else {
        positionalOk := false;
        name := args[k].keyword.value;
      }
      if !Declares(sig, name) {
        return None;
      }
      PrependOne(names, name, ArgNames(args[k + 1..], sig, positionalOk, i));
      names := names + [name];
    }
    assert names + [] == names;
    return Some(names);
  }

  ghost function PrependNames(names: seq<string>, r: Option<seq<string>>): Option<seq<string>> {
    match r
    case None => None
    case Some(rest) => Some(names + rest)
  }

  lemma PrependNone(r: Option<seq<string>>)
    ensures PrependNames([], r) == r
  {
    if r.Some? {
      assert [] + r.value == r.value;
    }
  }

  lemma PrependOne(names: seq<string>, name: string, r: Option<seq<string>>)
    ensures PrependNames(names, PrependNames([name], r)) == PrependNames(names + [name], r)
  {
    if r.Some? {
      assert names + ([name] + r.value) == names + [name] + r.value;
    }
  }

  /** The last index at which a name stands, as the source's loop without break finds it. */
  method FindLast(names: seq<string>, name: string) returns (r: Option<nat>)
    ensures r == LastIndex(names, name)
  {
    r := None;
    for i := 0 to |names|
      invariant r == LastIndex(names[..i], name)
    {
      assert names[..i + 1][..i] == names[..i];
      if names[i] == name {
        r := Some(i);
      }
    }
    assert names[..|names|] == names;
  }

  method FindDecl(ds: seq<Decl>, name: string) returns (r: Option<Decl>)
    ensures r == LastNamed(ds, name)
  {
    r := None;
    for i := 0 to |ds|
      invariant r == LastNamed(ds[..i], name)
    {
      assert ds[..i + 1][..i] == ds[..i];
      if ds[i].name == name {
        r := Some(ds[i]);
      }
    }
    assert ds[..|ds|] == ds;
  }

  /** The value written for an argument, else its default, else nothing. */
  method SelectValue(a: DeclArg, args: seq<Arg>, names: seq<string>) returns (value: Value, found: bool)
    requires |names| == |args|
    ensures value == Supplied(a, args, names) && found == (a.name in names)
  {
    var at := FindLast(names, a.name);
    found, value := at.Some?, EMPTY;
    if at.Some? {
      value := args[at.value].value;
    } else if a.default.Some? {
      value := a.default.value;
    }
  }

  method PopBack(stack: seq<Arg>) returns (last: Arg, rest: seq<Arg>)
    requires stack != []
    ensures Reversed(stack)[0] == last && Reversed(stack)[1..] == Reversed(rest)
  {
    last, rest := stack[|stack| - 1], stack[..|stack| - 1];
    ReversedSnoc(rest, last);
    assert stack == rest + [last];
  }

  /** Step 2 of eval: walks the signature; the fixed arguments lie reversed and are taken from the back. */
  method WalkSignature(fuel: nat, sig: seq<DeclArg>, args: seq<Arg>, names: seq<string>, types: Types, pattern: bool,
                       hasFixed: bool, fixed: seq<Arg>)
    returns (r: Option<(seq<PatternArg>, map<string, OptionValue>)>)
    requires |names| == |args|
    ensures r == EvalArgs(fuel, sig, args, names, types, pattern, if hasFixed then Some(fixed) else None)
    decreases fuel, 1
  {
    hide HasValue, Supplied, Reversed, Eval, StaticPart, Prepend;
    ghost var want := EvalArgs(fuel, sig, args, names, types, pattern, if hasFixed then Some(fixed) else None);
    var stack := Reversed(fixed);
    var staticArgs: seq<PatternArg>, dynamicArgs: map<string, OptionValue> := [], map[];
    ReversedTwice(fixed);
    assert sig[0..] == sig;
    StartWith(want);
    for j := 0 to |sig|
      invariant want == Prepend(staticArgs, dynamicArgs,
                  EvalArgs(fuel, sig[j..], args, names, types, pattern,
                           if hasFixed then Some(Reversed(stack)) else None))
    {
      var a := sig[j];
      assert sig[j..][0] == a && sig[j..][1..] == sig[j + 1..];
      EndWith(staticArgs, dynamicArgs);
      if pattern && !a.isStatic {
        continue;
      }
      var value, found := SelectValue(a, args, names);
      var fixedValue := EMPTY;
      if hasFixed && a.isStatic {
        if |stack| == 0 {
          return None;
        }
        var current;
        current, stack := PopBack(stack);
        if current.Keyword() != a.name {
          return None;
        }
        fixedValue := current.value;
        if !found {
          value := current.value;
        }
      }
      if !HasValue(value) {
        return None;
      }
      var e := Evaluate(fuel, value, a.typ, types, pattern, fixedValue);
      if e.None? || (a.isStatic && e.value.StringValue?) {
        return None;
      }
      ghost var rest := EvalArgs(fuel, sig[j + 1..], args, names, types, pattern,
                                 if hasFixed then Some(Reversed(stack)) else None);
      StepWith(staticArgs, dynamicArgs, StaticPart(a, e.value), map[a.name := e.value], rest);
      assert dynamicArgs + map[a.name := e.value] == dynamicArgs[a.name := e.value];
      staticArgs := staticArgs + StaticPart(a, e.value);
      dynamicArgs := dynamicArgs[a.name := e.value];
    }
    EndWith(staticArgs, dynamicArgs);
    if hasFixed && |stack| != 0 {
      return None;
    }
    r := Some((staticArgs, dynamicArgs));
  }

  ghost function Prepend(s: seq<PatternArg>, d: map<string, OptionValue>,
                         r: Option<(seq<PatternArg>, map<string, OptionValue>)>)
    : Option<(seq<PatternArg>, map<string, OptionValue>)>
  {
    match r
    case None => None
    case Some(x) => Some((s + x.0, d + x.1))
  }

  lemma StartWith(r: Option<(seq<PatternArg>, map<string, OptionValue>)>)
    ensures Prepend([], map[], r) == r
  {
    if r.Some? {
      assert [] + r.value.0 == r.value.0 && map[] + r.value.1 == r.value.1;
    }
  }

  lemma EndWith(s: seq<PatternArg>, d: map<string, OptionValue>)
    ensures Prepend(s, d, None) == None
    ensures Prepend(s, d, Some(([], map[]))) == Some((s, d))
  {
    assert s + [] == s && d + map[] == d;
  }

  lemma StepWith(s: seq<PatternArg>, d: map<string, OptionValue>, s1: seq<PatternArg>, d1: map<string, OptionValue>,
                 r: Option<(seq<PatternArg>, map<string, OptionValue>)>)
    ensures Prepend(s, d, Prepend(s1, d1, r)) == Prepend(s + s1, d + d1, r)
    ensures Prepend(s1, d1, r) == if r.None? then None else Some((s1 + r.value.0, d1 + r.value.1))
  {
    if r.Some? {
      assert s + (s1 + r.value.0) == s + s1 + r.value.0;
      assert d + (d1 + r.value.1) == d + d1 + r.value.1;
    }
  }

  /** eval as the source runs it. */
  method Evaluate(fuel: nat, v: Value, typ: string, types: Types, pattern: bool, fixed: Value)
    returns (r: Option<OptionValue>)
    ensures r == Eval(fuel, v, typ, types, pattern, fixed)
    decreases fuel, 0
  {
    if typ == STRING {
      return if v.Call? then None else Some(StringValue(v.text));
    }
    if fuel == 0 {
      return None;
    }
    var hasFixed := !fixed.IsEmpty();
    if hasFixed && !(fixed.Call? && v.Call? && fixed.name == v.name) {
      return None;
    }
    if typ !in types || !v.Call? {
      return None;
    }
    var found := FindDecl(types[typ], v.name);
    if found.None? {
      return None;
    }
    var names := FindArgNames(v.args, found.value.args);
    if names.None? {
      return None;
    }
    var walked := WalkSignature(fuel - 1, found.value.args, v.args, names.value, types, pattern, hasFixed,
                                if hasFixed then fixed.args else []);
    if walked.None? {
      return None;
    }
    return Some(AlgorithmValue(found.value.name, walked.value.1, Pattern(found.value.name, walked.value.0)));
  }
}
