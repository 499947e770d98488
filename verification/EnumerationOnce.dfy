/** Every static selection is listed once. */
module EnumerationOnce {
  import opened OptionEval
  import opened Meta
  import opened Enumeration
  import opened Wrappers

  predicate NoDuplicates<T(==)>(s: seq<T>) {
    forall i, j :: 0 <= i < j < |s| ==> s[i] != s[j]
  }

  lemma NoDuplicatesAppend<T>(a: seq<T>, b: seq<T>)
    requires NoDuplicates(a) && NoDuplicates(b) && forall x :: x in a ==> x !in b
    ensures NoDuplicates(a + b)
  {
    var c := a + b;
    forall i, j | 0 <= i < j < |c|
      ensures c[i] != c[j]
    {
      if i < |a| <= j {
        assert c[i] in a && c[j] in b;
      }
    }
  }

  lemma {:induction false} PairsOnce(first: seq<Args>, next: seq<Args>)
    requires NoDuplicates(first) && NoDuplicates(next) && forall i :: 0 <= i < |first| ==> |first[i]| == 1
    ensures NoDuplicates(Pairs(first, next))
  {
    if first != [] {
      var head, tail := AppendToAll(first[0], next), Pairs(first[1..], next);
      PairsOnce(first[1..], next);
      forall i, j | 0 <= i < j < |head|
        ensures head[i] != head[j]
      {
        assert head[i][1..] == next[i] && head[j][1..] == next[j];
      }
      forall x | x in head
        ensures x !in tail
      {
        PairsMembers(first[1..], next, x);
        assert x[..1] == first[0];
        forall a, b | a in first[1..] && b in next
          ensures x != a + b
        {
          assert (a + b)[..1] == a != first[0];
        }
      }
      NoDuplicatesAppend(head, tail);
    }
  }

  lemma {:induction false} CrossOnce(vs: seq<seq<Args>>)
    requires Singles(vs) && forall i :: 0 <= i < |vs| ==> NoDuplicates(vs[i])
    ensures NoDuplicates(Cross(vs))
    decreases |vs|
  {
    if vs != [] {
      CrossOnce(vs[1..]);
      PairsOnce(vs[0], Cross(vs[1..]));
    }
  }

  lemma PatternsOnce(name: string, variations: seq<seq<Args>>)
    requires Singles(variations) && forall i :: 0 <= i < |variations| ==> NoDuplicates(variations[i])
    ensures NoDuplicates(Patterns(name, variations))
  {
    hide Cross;
    CrossOnce(variations);
  }

  /** No type's list names a selection twice. */
  lemma {:induction false} EnumOnce(types: Types, seen: seq<string>, typ: string)
    requires SeenOk(types, seen) && Unique(types) && Enum(types, seen, typ).Some?
    ensures NoDuplicates(Enum(types, seen, typ).value)
    decreases Room(types, seen), 2, 0
  {
    hide SeenOk, NoDuplicates;
    EnumDeclsOnce(types, seen, typ, types[typ]);
  }

  lemma {:induction false} EnumDeclsOnce(types: Types, seen: seq<string>, typ: string, ds: seq<Decl>)
    requires SeenOk(types, seen) && Unique(types) && typ in types && UniqueNames(ds)
    requires EnumDecls(types, seen, typ, ds).Some?
    ensures NoDuplicates(EnumDecls(types, seen, typ, ds).value)
    ensures forall p :: p in EnumDecls(types, seen, typ, ds).value ==> exists i :: 0 <= i < |ds| && ds[i].name == p.name
    decreases Room(types, seen), 1, |ds|
  {
    hide SeenOk, Unique, EnumArgs, Patterns, Room;
    if ds != [] {
      EnumDeclsOnce(types, seen, typ, ds[1..]);
      var rest := EnumDecls(types, seen, typ, ds[1..]).value;
      assert forall i :: 0 <= i < |ds| - 1 ==> ds[1..][i] == ds[i + 1];
      if Count(seen, typ) < MAX_ON_PATH {
        Enter(types, seen, typ);
        EnumArgsOnce(types, seen + [typ], ds[0].args);
        var variations := EnumArgs(types, seen + [typ], ds[0].args).value;
        var ps := Patterns(ds[0].name, variations);
        PatternsOnce(ds[0].name, variations);
        forall p | p in ps
          ensures p.name == ds[0].name && p !in rest
        {
          PatternsMembers(ds[0].name, variations, p);
        }
        NoDuplicatesAppend(ps, rest);
      }
    }
  }

  lemma {:induction false} EnumArgsOnce(types: Types, seen: seq<string>, args: seq<DeclArg>)
    requires SeenOk(types, seen) && Unique(types) && EnumArgs(types, seen, args).Some?
    ensures var vs := EnumArgs(types, seen, args).value;
            Singles(vs) && forall i :: 0 <= i < |vs| ==> NoDuplicates(vs[i])
    decreases Room(types, seen), 3, |args|
  {
    hide SeenOk, Unique, Enum, Singles, Room;
    EnumArgsShape(types, seen, args);
    if args != [] {
      EnumArgsOnce(types, seen, args[1..]);
      if args[0].isStatic {
        EnumOnce(types, seen, args[0].typ);
        WrapOnce(args[0].name, Enum(types, seen, args[0].typ).value);
      }
    }
  }

  lemma WrapOnce(name: string, ps: seq<Pattern>)
    requires NoDuplicates(ps)
    ensures NoDuplicates(Wrap(name, ps))
  {
    var r: seq<Args> := Wrap(name, ps);
    forall i, j | 0 <= i < j < |r|
      ensures r[i] != r[j]
    {
      var a: PatternArg, b: PatternArg := r[i][0], r[j][0];
      assert a.algorithm == ps[i] && b.algorithm == ps[j];
    }
  }
}
