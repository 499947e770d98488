/** When listing all selections succeeds: the types known to a registry, and what can be reached from one. */
module Reachability {
  import opened OptionEval
  import opened Meta
  import opened Enumeration
  import opened Wrappers

  // ---------- no static argument of an unknown type ----------

  /** The type of every static argument is known. */
  predicate ArgsKnown(types: Types, d: Decl) {
    forall i :: 0 <= i < |d.args| && d.args[i].isStatic ==> d.args[i].typ in types
  }

  predicate Closed(types: Types) {
    forall t :: t in types ==> DeclsKnown(types, types[t])
  }

  predicate DeclsKnown(types: Types, ds: seq<Decl>) {
    forall d :: d in ds ==> ArgsKnown(types, d)
  }

  /** Every declaration of later is one of types, or the types of its static arguments are known. */
  predicate NewKnown(types: Types, later: Types) {
    forall t, d :: t in later && d in later[t] ==> (t in types && d in types[t]) || ArgsKnown(later, d)
  }

  lemma NewKnownTwice(a: Types, b: Types, c: Types)
    requires NewKnown(a, b) && NewKnown(b, c) && Extends(b, c)
    ensures NewKnown(a, c)
  {
    forall t, d | t in c && d in c[t]
      ensures (t in a && d in a[t]) || ArgsKnown(c, d)
    {
      if t in b && d in b[t] {
        assert ArgsKnown(b, d) ==> ArgsKnown(c, d);
      }
    }
  }

  lemma {:induction false} OptionsKnown(types: Types, calls: seq<OptionCall>)
    requires KnowsCalls(types, calls)
    ensures forall i :: 0 <= i < |calls| && Options(calls)[i].isStatic ==> Options(calls)[i].typ in types
    decreases calls
  {
    if calls != [] {
      OptionsKnown(types, calls[1..]);
      assert forall i :: 0 < i < |calls| ==> Options(calls)[i] == Options(calls[1..])[i - 1];
    }
  }

  lemma DefinitionKnown(types: Types, m: Meta)
    requires KnowsCalls(types, m.calls)
    ensures ArgsKnown(types, Definition(m))
  {
    OptionsKnown(types, m.calls);
  }

  /** Gathering a whole tree brings the types of its static arguments along. */
  lemma {:induction false} GatherNewKnown(types: Types, m: Meta)
    requires Unique(types) && Gather(types, m).Some?
    ensures NewKnown(types, Gather(types, m).value)
    decreases m, 0
  {
    hide Unique, Extends, Knows, KnowsCalls, NewKnown, ArgsKnown;
    var d := Definition(m);
    var own := AddDecl(types, m.typ, d).value;
    var all := GatherCalls(own, m.calls).value;
    AddDeclKeeps(types, m.typ, d);
    GatherCallsKeeps(own, m.calls);
    GatherCallsNewKnown(own, m.calls);
    DefinitionKnown(all, m);
    OwnKnown(types, own, all, m.typ, d);
  }

  /** A declaration that was added is known by the time its sub metas have been gathered. */
  lemma OwnKnown(types: Types, own: Types, all: Types, typ: string, d: Decl)
    requires AddDecl(types, typ, d) == Some(own) && NewKnown(own, all) && ArgsKnown(all, d)
    ensures NewKnown(types, all)
  {
    hide ArgsKnown;
    forall t, e | t in all && e in all[t]
      ensures (t in types && e in types[t]) || ArgsKnown(all, e)
    {
    }
  }

  lemma {:induction false} GatherCallsNewKnown(types: Types, calls: seq<OptionCall>)
    requires Unique(types) && GatherCalls(types, calls).Some?
    ensures NewKnown(types, GatherCalls(types, calls).value)
    decreases calls
  {
    hide Unique, Extends, Gather, Knows, ArgsKnown;
    if calls != [] {
      var t := types;
      match calls[0] {
        case Templated(_, sub) =>
          GatherKeeps(types, sub);
          GatherNewKnown(types, sub);
          t := Gather(types, sub).value;
        case TemplatedDefault(_, sub, def) =>
          GatherKeeps(types, sub);
          GatherNewKnown(types, sub);
          var s := Gather(types, sub).value;
          GatherKeeps(s, def);
          GatherNewKnown(s, def);
          t := Gather(s, def).value;
          NewKnownTwice(types, s, t);
        case _ =>
      }
      GatherCallsKeeps(t, calls[1..]);
      GatherCallsNewKnown(t, calls[1..]);
      NewKnownTwice(types, t, GatherCalls(t, calls[1..]).value);
    }
  }

  /** Gathering without a conflict keeps the type of every static argument known. */
  lemma GatherKeepsClosed(types: Types, m: Meta)
    requires Unique(types) && Closed(types) && Gather(types, m).Some?
    ensures Closed(Gather(types, m).value)
  {
    hide Gather;
    var later := Gather(types, m).value;
    GatherKeeps(types, m);
    GatherNewKnown(types, m);
    forall t, d | t in later && d in later[t]
      ensures ArgsKnown(later, d)
    {
      if t in types && d in types[t] {
        assert DeclsKnown(types, types[t]);
        assert ArgsKnown(types, d);
      }
    }
  }

  /** The declarations of several metas, gathered one after the other. */
  function GatherAll(types: Types, ms: seq<Meta>): Option<Types>
    decreases |ms|
  {
    if ms == [] then Some(types)
    else match Gather(types, ms[0])
      case None => None
      case Some(t) => GatherAll(t, ms[1..])
  }

  /** Registering any algorithms without a conflict leaves unique names and no unknown type. */
  lemma {:induction false} RegistrationsClose(types: Types, ms: seq<Meta>)
    requires Unique(types) && Closed(types) && GatherAll(types, ms).Some?
    ensures Unique(GatherAll(types, ms).value) && Closed(GatherAll(types, ms).value)
    decreases |ms|
  {
    hide Unique, Closed, Gather;
    if ms != [] {
      GatherKeeps(types, ms[0]);
      GatherKeepsClosed(types, ms[0]);
      RegistrationsClose(Gather(types, ms[0]).value, ms[1..]);
    }
  }

  // ---------- what can be reached ----------

  /** Some algorithm of type a has a static argument of type b. */
  predicate Uses(types: Types, a: string, b: string) {
    a in types && exists d :: d in types[a] && HasStatic(d, b)
  }

  predicate HasStatic(d: Decl, b: string) {
    exists i :: 0 <= i < |d.args| && d.args[i].isStatic && d.args[i].typ == b
  }

  ghost predicate WithinLimit(seen: seq<string>) {
    forall t :: Count(seen, t) <= MAX_ON_PATH
  }

  /** A way down from typ through static arguments, behind seen, no type on it more than three times. */
  ghost predicate Way(types: Types, seen: seq<string>, typ: string, path: seq<string>) {
    && path != [] && path[0] == typ
    && (forall i :: 0 <= i < |path| - 1 ==> Uses(types, path[i], path[i + 1]))
    && WithinLimit(seen + path)
  }

  predicate DeclNamed(d: Decl) {
    forall i :: 0 <= i < |d.args| ==> d.args[i].name != ""
  }

  /** Every option of every algorithm of the type has a name. */
  predicate OptionsNamed(types: Types, typ: string) {
    typ in types ==> forall d :: d in types[typ] ==> DeclNamed(d)
  }

  /** No option that is reached from the type within the limit is nameless. */
  ghost predicate NamedWithin(types: Types, seen: seq<string>, typ: string) {
    forall path :: Way(types, seen, typ, path) ==> OptionsNamed(types, path[|path| - 1])
  }

  lemma {:induction false} CountAppend(a: seq<string>, b: seq<string>, t: string)
    ensures Count(a + b, t) == Count(a, t) + Count(b, t)
  {
    if b == [] {
      assert a + b == a;
    } else {
      CountAppend(a, b[..|b| - 1], t);
      assert (a + b)[..|a + b| - 1] == a + b[..|b| - 1];
    }
  }

  lemma NoWayIntoFull(types: Types, seen: seq<string>, typ: string, path: seq<string>)
    requires Count(seen, typ) >= MAX_ON_PATH
    ensures !Way(types, seen, typ, path)
  {
    hide Uses;
    if path != [] && path[0] == typ {
      var first := [typ];
      assert first[..0] == [] && Count(first, typ) == 1;
      CountAppend(first, path[1..], typ);
      assert path == first + path[1..];
      CountAppend(seen, path, typ);
      assert Count(seen + path, typ) > MAX_ON_PATH;
    }
  }

  /** A way is a single type, or a step and a way from there. */
  lemma WayStep(types: Types, seen: seq<string>, typ: string, path: seq<string>)
    requires |path| > 1
    ensures Way(types, seen, typ, path)
       <==> path[0] == typ && Uses(types, typ, path[1]) && Way(types, seen + [typ], path[1], path[1..])
  {
    hide Uses, WithinLimit;
    var rest := path[1..];
    if path[0] == typ {
      assert seen + path == seen + [typ] + rest;
      if Uses(types, typ, path[1]) && Way(types, seen + [typ], path[1], rest) {
        forall i | 0 <= i < |path| - 1
          ensures Uses(types, path[i], path[i + 1])
        {
          assert i > 0 ==> Uses(types, rest[i - 1], rest[i]);
        }
      }
    }
  }

  lemma WayOne(types: Types, seen: seq<string>, typ: string)
    requires SeenOk(types, seen) && typ in types && Count(seen, typ) < MAX_ON_PATH
    ensures Way(types, seen, typ, [typ])
  {
    Enter(types, seen, typ);
  }

  /** One level: the options of the type are named, and whatever its static arguments lead to. */
  lemma NamedOneLevel(types: Types, seen: seq<string>, typ: string)
    requires SeenOk(types, seen) && typ in types && Count(seen, typ) < MAX_ON_PATH
    ensures NamedWithin(types, seen, typ)
       <==> OptionsNamed(types, typ) && forall b :: Uses(types, typ, b) ==> NamedWithin(types, seen + [typ], b)
  {
    hide SeenOk, Uses, OptionsNamed;
    var below := seen + [typ];
    if NamedWithin(types, seen, typ) {
      WayOne(types, seen, typ);
      assert OptionsNamed(types, [typ][|[typ]| - 1]);
      forall b, rest | Uses(types, typ, b) && Way(types, below, b, rest)
        ensures OptionsNamed(types, rest[|rest| - 1])
      {
        var path := [typ] + rest;
        assert path[1..] == rest && path[1] == b;
        WayStep(types, seen, typ, path);
        assert path[|path| - 1] == rest[|rest| - 1];
      }
    }
    if OptionsNamed(types, typ) && forall b :: Uses(types, typ, b) ==> NamedWithin(types, below, b) {
      forall path | Way(types, seen, typ, path)
        ensures OptionsNamed(types, path[|path| - 1])
      {
        if |path| > 1 {
          WayStep(types, seen, typ, path);
          assert NamedWithin(types, below, path[1]);
          assert path[1..][|path[1..]| - 1] == path[|path| - 1];
        }
      }
    }
  }

  // ---------- when enumeration succeeds ----------

  /** Listing all selections of a known type succeeds exactly when no option that is reached within the
      limit is nameless. */
  lemma {:induction false} EnumSucceeds(types: Types, seen: seq<string>, typ: string)
    requires SeenOk(types, seen) && Closed(types) && typ in types
    ensures Enum(types, seen, typ).Some? <==> NamedWithin(types, seen, typ)
    decreases Room(types, seen), 2, 0
  {
    hide SeenOk, DeclsKnown, NamedWithin, Way, Uses;
    EnumDeclsSucceed(types, seen, typ, types[typ]);
    if Count(seen, typ) >= MAX_ON_PATH {
      FullIsNamed(types, seen, typ);
    } else {
      NamedOneLevel(types, seen, typ);
      UsesSplit(types, seen, typ);
    }
  }

  lemma FullIsNamed(types: Types, seen: seq<string>, typ: string)
    requires Count(seen, typ) >= MAX_ON_PATH
    ensures NamedWithin(types, seen, typ)
  {
    forall path
      ensures !Way(types, seen, typ, path)
    {
      NoWayIntoFull(types, seen, typ, path);
    }
  }

  /** A declaration with named options whose static arguments all lead to named options only. */
  ghost predicate Listed(types: Types, seen: seq<string>, d: Decl) {
    DeclNamed(d) && forall b :: HasStatic(d, b) ==> NamedWithin(types, seen, b)
  }

  lemma UsesSplit(types: Types, seen: seq<string>, typ: string)
    requires typ in types
    ensures (OptionsNamed(types, typ) && forall b :: Uses(types, typ, b) ==> NamedWithin(types, seen + [typ], b))
       <==> forall d :: d in types[typ] ==> Listed(types, seen + [typ], d)
  {
    hide NamedWithin, HasStatic, DeclNamed;
  }

  lemma {:induction false} EnumDeclsSucceed(types: Types, seen: seq<string>, typ: string, ds: seq<Decl>)
    requires SeenOk(types, seen) && Closed(types) && typ in types && DeclsKnown(types, ds)
    ensures EnumDecls(types, seen, typ, ds).Some?
       <==> Count(seen, typ) >= MAX_ON_PATH || forall d :: d in ds ==> Listed(types, seen + [typ], d)
    decreases Room(types, seen), 1, |ds|
  {
    hide SeenOk, Closed, Listed, ArgsKnown;
    if ds != [] {
      EnumDeclsSucceed(types, seen, typ, ds[1..]);
      if Count(seen, typ) < MAX_ON_PATH {
        Enter(types, seen, typ);
        assert ds[0] in ds;
        EnumArgsSucceed(types, seen + [typ], ds[0]);
      }
    }
  }

  lemma EnumArgsSucceed(types: Types, seen: seq<string>, d: Decl)
    requires SeenOk(types, seen) && Closed(types) && ArgsKnown(types, d)
    ensures EnumArgs(types, seen, d.args).Some? <==> Listed(types, seen, d)
    decreases Room(types, seen), 4, 0
  {
    hide SeenOk, Closed, NamedWithin;
    EnumArgsFrom(types, seen, d.args);
    if forall i :: 0 <= i < |d.args| ==> ArgListed(types, seen, d.args[i]) {
      assert DeclNamed(d);
    }
    if Listed(types, seen, d) {
      forall i | 0 <= i < |d.args|
        ensures ArgListed(types, seen, d.args[i])
      {
        assert d.args[i].isStatic ==> HasStatic(d, d.args[i].typ);
      }
    }
  }

  ghost predicate ArgListed(types: Types, seen: seq<string>, a: DeclArg) {
    a.name != "" && (a.isStatic ==> NamedWithin(types, seen, a.typ))
  }

  lemma {:induction false} EnumArgsFrom(types: Types, seen: seq<string>, args: seq<DeclArg>)
    requires SeenOk(types, seen) && Closed(types)
    requires forall i :: 0 <= i < |args| && args[i].isStatic ==> args[i].typ in types
    ensures EnumArgs(types, seen, args).Some? <==> forall i :: 0 <= i < |args| ==> ArgListed(types, seen, args[i])
    decreases Room(types, seen), 3, |args|
  {
    hide SeenOk, Closed, NamedWithin, Enum;
    if args != [] {
      EnumArgsFrom(types, seen, args[1..]);
      if args[0].isStatic {
        EnumSucceeds(types, seen, args[0].typ);
      }
      assert forall i :: 0 < i < |args| ==> args[i] == args[1..][i - 1];
    }
  }
}
