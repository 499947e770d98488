/** Splitting the generated instances into groups by the names in their hierarchies. */
module GroupSplit {
  import opened Wrappers

  datatype Instance = Instance(id: nat, hierarchy: seq<string>)

  type Group = seq<Instance>

  // ---------- stable sorting by a key, then reversing ----------

  /** Puts x behind every element whose key is not larger: list.sort is stable. */
  function Insert<T(!new)>(s: seq<T>, x: T, key: T -> nat): (r: seq<T>)
    ensures |r| == |s| + 1
    ensures forall y :: y in r <==> y in s || y == x
    ensures Rising(s, key) ==> Rising(r, key)
    decreases |s|
  {
    if s == [] || key(s[|s| - 1]) <= key(x) then
      assert forall y :: y in s + [x] <==> y in s || y == x;
      s + [x]
    else
      var init, last := s[..|s| - 1], s[|s| - 1];
      assert s == init + [last];
      var r := Insert(init, x, key);
      assert Rising(s, key) ==> Rising(init, key);
      assert Rising(s, key) ==> forall y :: y in r ==> key(y) <= key(last);
      assert forall y :: y in r + [last] <==> y in r || y == last;
      assert Rising(s, key) ==> forall i :: 0 <= i < |r| ==> r[i] in r;
      r + [last]
  }

  ghost predicate Rising<T(!new)>(s: seq<T>, key: T -> nat) {
    forall i, j :: 0 <= i < j < |s| ==> key(s[i]) <= key(s[j])
  }

  function Sort<T(!new)>(s: seq<T>, key: T -> nat): (r: seq<T>)
    ensures |r| == |s| && Rising(r, key) && forall y :: y in r <==> y in s
  {
    if s == [] then [] else
      assert s == s[..|s| - 1] + [s[|s| - 1]];
      Insert(Sort(s[..|s| - 1], key), s[|s| - 1], key)
  }

  /** The elements with one key, in order. */
  function ByKey<T(!new)>(s: seq<T>, key: T -> nat, k: nat): seq<T> {
    if s == [] then [] else ByKey(s[..|s| - 1], key, k) + if key(s[|s| - 1]) == k then [s[|s| - 1]] else []
  }

  lemma ByKeyLast<T(!new)>(s: seq<T>, x: T, key: T -> nat, k: nat)
    ensures ByKey(s + [x], key, k) == ByKey(s, key, k) + if key(x) == k then [x] else []
  {
    assert (s + [x])[..|s|] == s;
  }

  lemma {:induction false} InsertStable<T(!new)>(s: seq<T>, x: T, key: T -> nat, k: nat)
    ensures ByKey(Insert(s, x, key), key, k) == ByKey(s, key, k) + if key(x) == k then [x] else []
    decreases |s|
  {
    if s == [] || key(s[|s| - 1]) <= key(x) {
      ByKeyLast(s, x, key, k);
    } else {
      var init, last := s[..|s| - 1], s[|s| - 1];
      InsertStable(init, x, key, k);
      ByKeyLast(Insert(init, x, key), last, key, k);
      if key(last) == k {
        assert key(x) != k;
      }
    }
  }

  /** Sorting keeps the order of elements with the same key. */
  lemma {:induction false} SortStable<T(!new)>(s: seq<T>, key: T -> nat, k: nat)
    ensures ByKey(Sort(s, key), key, k) == ByKey(s, key, k)
  {
    if s != [] {
      SortStable(s[..|s| - 1], key, k);
      InsertStable(Sort(s[..|s| - 1], key), s[|s| - 1], key, k);
    }
  }

  function Reverse<T>(s: seq<T>): (r: seq<T>)
    ensures |r| == |s| && forall i :: 0 <= i < |s| ==> r[i] == s[|s| - 1 - i]
  {
    seq(|s|, i requires 0 <= i < |s| => s[|s| - 1 - i])
  }

  lemma ReverseMembers<T(!new)>(s: seq<T>)
    ensures forall y :: y in Reverse(s) <==> y in s
  {
    forall y | y in s
      ensures y in Reverse(s)
    {
      var i :| 0 <= i < |s| && s[i] == y;
      assert Reverse(s)[|s| - 1 - i] == y;
    }
  }

  // ---------- what a partition holds ----------

  function Total(groups: seq<Group>): multiset<Instance> {
    if groups == [] then multiset{} else Total(groups[..|groups| - 1]) + multiset(groups[|groups| - 1])
  }

  lemma TotalSnoc(groups: seq<Group>, g: Group)
    ensures Total(groups + [g]) == Total(groups) + multiset(g)
  {
    assert (groups + [g])[..|groups|] == groups;
  }

  lemma {:induction false} TotalCons(groups: seq<Group>)
    requires groups != []
    ensures Total(groups) == multiset(groups[0]) + Total(groups[1..])
  {
    if |groups| == 1 {
      assert groups[1..] == [] && groups[..0] == [];
    } else {
      TotalCons(groups[..|groups| - 1]);
      TotalConsStep(groups);
    }
  }

  lemma TotalConsStep(groups: seq<Group>)
    requires |groups| > 1
    requires var init := groups[..|groups| - 1]; Total(init) == multiset(init[0]) + Total(init[1..])
    ensures Total(groups) == multiset(groups[0]) + Total(groups[1..])
  {
    hide Total;
    var init, last := groups[..|groups| - 1], groups[|groups| - 1];
    assert Total(groups) == Total(init) + multiset(last) by {
      TotalSnoc(init, last);
      assert groups == init + [last];
    }
    assert Total(groups[1..]) == Total(init[1..]) + multiset(last) by {
      TotalSnoc(init[1..], last);
      assert groups[1..] == init[1..] + [last];
    }
  }

  lemma {:induction false} TotalInsert(groups: seq<Group>, g: Group)
    ensures Total(Insert(groups, g, Size)) == Total(groups) + multiset(g)
    decreases |groups|
  {
    if groups == [] || Size(groups[|groups| - 1]) <= Size(g) {
      TotalSnoc(groups, g);
    } else {
      var init := groups[..|groups| - 1];
      TotalInsert(init, g);
      TotalSnoc(Insert(init, g, Size), groups[|groups| - 1]);
    }
  }

  lemma {:induction false} TotalSort(groups: seq<Group>)
    ensures Total(Sort(groups, Size)) == Total(groups)
  {
    if groups != [] {
      TotalSort(groups[..|groups| - 1]);
      TotalInsert(Sort(groups[..|groups| - 1], Size), groups[|groups| - 1]);
    }
  }

  lemma {:induction false} TotalReverse(groups: seq<Group>)
    ensures Total(Reverse(groups)) == Total(groups)
  {
    if groups != [] {
      var init, last := groups[..|groups| - 1], groups[|groups| - 1];
      TotalReverse(init);
      assert Reverse(groups) == [last] + Reverse(init);
      TotalCons(Reverse(groups));
      assert Reverse(groups)[1..] == Reverse(init);
    }
  }

  function Size(g: Group): nat { |g| }

  /** Each group has one element only: as many elements as groups. */
  lemma {:induction false} TotalOfSingles(groups: seq<Group>)
    requires forall g :: g in groups ==> |g| == 1
    ensures |Total(groups)| == |groups|
  {
    if groups != [] {
      assert groups[|groups| - 1] in groups;
      forall g | g in groups[..|groups| - 1]
        ensures |g| == 1
      {
        assert g in groups;
      }
      TotalOfSingles(groups[..|groups| - 1]);
    }
  }

  // ---------- counting names ----------

  predicate DuplicateFree(h: seq<string>) {
    forall i, j :: 0 <= i < j < |h| ==> h[i] != h[j]
  }

  function Names(x: Instance): set<string> {
    set n | n in x.hierarchy
  }

  /** Hierarchies without repeated names, pairwise different as sets of names. */
  predicate Distinguishable(g: Group) {
    && (forall i :: 0 <= i < |g| ==> DuplicateFree(g[i].hierarchy))
    && (forall i, j :: 0 <= i < j < |g| ==> Names(g[i]) != Names(g[j]))
  }

  function Occurrences(h: seq<string>, b: string): (n: nat)
    ensures n > 0 <==> b in h
  {
    if h == [] then 0 else Occurrences(h[..|h| - 1], b) + if h[|h| - 1] == b then 1 else 0
  }

  lemma {:induction false} OccursOnce(h: seq<string>, b: string)
    requires DuplicateFree(h)
    ensures Occurrences(h, b) == if b in h then 1 else 0
  {
    if h != [] {
      OccursOnce(h[..|h| - 1], b);
    }
  }

  function CountIn(g: Group, b: string): nat {
    if g == [] then 0 else CountIn(g[..|g| - 1], b) + Occurrences(g[|g| - 1].hierarchy, b)
  }

  datatype Entry = Entry(name: string, count: nat)

  function CountOf(e: Entry): nat { e.count }

  predicate Listed(counter: seq<Entry>, b: string, n: nat) {
    if n == 0 then forall e :: e in counter ==> e.name != b
    else exists i :: 0 <= i < |counter| && counter[i] == Entry(b, n)
  }

  /** counter[b] += 1, in an ordered dictionary. */
  method Increment(counter: seq<Entry>, b: string) returns (r: seq<Entry>)
    requires forall i, j :: 0 <= i < j < |counter| ==> counter[i].name != counter[j].name
    ensures forall i, j :: 0 <= i < j < |r| ==> r[i].name != r[j].name
    ensures forall c, n: nat :: Listed(counter, c, n) ==> Listed(r, c, if c == b then n + 1 else n)
  {
    var k := 0;
    while k < |counter| && counter[k].name != b
      invariant k <= |counter| && forall i :: 0 <= i < k ==> counter[i].name != b
    {
      k := k + 1;
    }
    if k < |counter| {
      r := counter[k := Entry(b, counter[k].count + 1)];
    } else {
      r := counter + [Entry(b, 1)];
    }
    assert k < |counter| ==> counter[k] in counter;
    forall c, n: nat | Listed(counter, c, n)
      ensures Listed(r, c, if c == b then n + 1 else n)
    {
      if n > 0 {
        var i :| 0 <= i < |counter| && counter[i] == Entry(c, n);
        assert r[i] == if c == b then Entry(c, n + 1) else Entry(c, n);
      } else if c == b {
        assert r[k] == Entry(b, 1);
      }
    }
  }

  method CountNames(first: Group) returns (counter: seq<Entry>)
    ensures forall b :: Listed(counter, b, CountIn(first, b))
    ensures forall i, j :: 0 <= i < j < |counter| ==> counter[i].name != counter[j].name
  {
    counter := [];
    for i := 0 to |first|
      invariant forall b :: Listed(counter, b, CountIn(first[..i], b))
      invariant forall j, k :: 0 <= j < k < |counter| ==> counter[j].name != counter[k].name
    {
      var h := first[i].hierarchy;
      assert first[..i + 1][..i] == first[..i];
      for m := 0 to |h|
        invariant forall b :: Listed(counter, b, CountIn(first[..i], b) + Occurrences(h[..m], b))
        invariant forall j, k :: 0 <= j < k < |counter| ==> counter[j].name != counter[k].name
      {
        assert h[..m + 1][..m] == h[..m];
        ghost var before := counter;
        counter := Increment(counter, h[m]);
        forall b
          ensures Listed(counter, b, CountIn(first[..i], b) + Occurrences(h[..m + 1], b))
        {
          assert Listed(before, b, CountIn(first[..i], b) + Occurrences(h[..m], b));
        }
      }
      assert h[..|h|] == h;
    }
    assert first[..|first|] == first;
  }

  /** An entry says how often its name occurs. */
  lemma EntryCounts(counter: seq<Entry>, first: Group, e: Entry)
    requires forall b :: Listed(counter, b, CountIn(first, b))
    requires forall i, j :: 0 <= i < j < |counter| ==> counter[i].name != counter[j].name
    requires e in counter
    ensures e.count == CountIn(first, e.name) > 0
  {
    assert Listed(counter, e.name, CountIn(first, e.name));
  }

  /** The most frequent name that does not occur as often as there are instances; None is the index
      error when there is no such name. */
  method ChooseName(first: Group) returns (r: Option<string>)
    ensures r.Some? ==> var n := CountIn(first, r.value);
                        0 < n != |first| && forall b :: CountIn(first, b) > n ==> CountIn(first, b) == |first|
    ensures r.None? ==> forall b :: CountIn(first, b) == 0 || CountIn(first, b) == |first|
  {
    hide CountIn, Listed;
    var counter := CountNames(first);
    var sorted := Reverse(Sort(counter, CountOf));
    ReverseMembers(Sort(counter, CountOf));
    var i := 0;
    while i < |sorted| && sorted[i].count == |first|
      invariant i <= |sorted| && forall j :: 0 <= j < i ==> sorted[j].count == |first|
    {
      i := i + 1;
    }
    forall b | CountIn(first, b) > 0
      ensures exists j :: 0 <= j < |sorted| && sorted[j] == Entry(b, CountIn(first, b))
    {
      EntryListed(counter, b, CountIn(first, b));
      assert Entry(b, CountIn(first, b)) in sorted;
    }
    if i == |sorted| {
      return None;
    }
    EntryCounts(counter, first, sorted[i]);
    return Some(sorted[i].name);
  }

  lemma EntryListed(counter: seq<Entry>, b: string, n: nat)
    requires Listed(counter, b, n) && n > 0
    ensures Entry(b, n) in counter
  {
  }

  // ---------- one split ----------

  function With(g: Group, b: string): (r: Group)
    ensures forall x :: x in r ==> x in g
  {
    if g == [] then []
    else
      assert forall x :: x in g[..|g| - 1] ==> x in g;
      With(g[..|g| - 1], b) + if b in g[|g| - 1].hierarchy then [g[|g| - 1]] else []
  }

  function WithOut(g: Group, b: string): (r: Group)
    ensures forall x :: x in r ==> x in g
  {
    if g == [] then []
    else
      assert forall x :: x in g[..|g| - 1] ==> x in g;
      WithOut(g[..|g| - 1], b) + if b in g[|g| - 1].hierarchy then [] else [g[|g| - 1]]
  }

  /** The instances that have the name, and those that do not. */
  lemma {:induction false} SplitMembers(g: Group, b: string)
    ensures forall x :: x in With(g, b) <==> x in g && b in x.hierarchy
    ensures forall x :: x in WithOut(g, b) <==> x in g && b !in x.hierarchy
  {
    if g != [] {
      SplitMembers(g[..|g| - 1], b);
      assert g == g[..|g| - 1] + [g[|g| - 1]];
    }
  }

  lemma {:induction false} SplitPartitions(g: Group, b: string)
    ensures multiset(With(g, b)) + multiset(WithOut(g, b)) == multiset(g)
    ensures |With(g, b)| + |WithOut(g, b)| == |g|
  {
    if g != [] {
      var init, last := g[..|g| - 1], [g[|g| - 1]];
      SplitPartitions(init, b);
      assert g == init + last;
    }
  }

  lemma {:induction false} SplitDistinguishable(g: Group, b: string)
    requires Distinguishable(g)
    ensures Distinguishable(With(g, b)) && Distinguishable(WithOut(g, b))
    ensures |With(g, b)| == CountIn(g, b)
  {
    if g != [] {
      hide Names, DuplicateFree, Distinguishable;
      var init, last := g[..|g| - 1], g[|g| - 1];
      assert g == init + [last];
      DistinguishableFront(init, last);
      SplitDistinguishable(init, b);
      OccursOnce(last.hierarchy, b);
      if b in last.hierarchy {
        DistinguishableSnoc(init, With(init, b), last);
      } else {
        DistinguishableSnoc(init, WithOut(init, b), last);
      }
    }
  }

  lemma DistinguishableFront(g: Group, x: Instance)
    requires Distinguishable(g + [x])
    ensures Distinguishable(g) && DuplicateFree(x.hierarchy)
  {
    hide Names, DuplicateFree;
    var all := g + [x];
    assert all[|g|] == x && forall i :: 0 <= i < |g| ==> all[i] == g[i];
  }

  lemma DistinguishableSnoc(g: Group, part: Group, x: Instance)
    requires Distinguishable(g + [x]) && Distinguishable(part)
    requires forall y :: y in part ==> y in g
    ensures Distinguishable(part + [x]) && DuplicateFree(x.hierarchy)
  {
    hide Names, DuplicateFree;
    var r := part + [x];
    assert (g + [x])[|g|] == x;
    forall i, j | 0 <= i < j < |r|
      ensures Names(r[i]) != Names(r[j])
    {
      if j == |part| {
        assert r[i] in part;
        var k :| 0 <= k < |g| && g[k] == r[i];
        assert (g + [x])[k] == r[i];
      }
    }
  }

  lemma {:induction false} CountFew(g: Group, b: string, k: nat)
    requires Distinguishable(g) && k < |g|
    ensures CountIn(g, b) <= |g|
    ensures b in g[k].hierarchy ==> CountIn(g, b) > 0
    ensures b !in g[k].hierarchy ==> CountIn(g, b) < |g|
  {
    OccursOnce(g[|g| - 1].hierarchy, b);
    if |g| > 1 {
      CountFew(g[..|g| - 1], b, if k < |g| - 1 then k else 0);
    } else {
      assert CountIn(g[..0], b) == 0;
    }
  }

  /** Two distinguishable instances are told apart by a name. */
  lemma NameExists(g: Group) returns (b: string)
    requires Distinguishable(g) && |g| >= 2
    ensures 0 < CountIn(g, b) < |g|
  {
    var x, y := g[0], g[1];
    if n :| n in Names(x) && n !in Names(y) {
      b := n;
    } else {
      assert Names(x) <= Names(y);
      var n :| n in Names(y) && n !in Names(x);
      b := n;
    }
    CountFew(g, b, 0);
    CountFew(g, b, 1);
  }

  // ---------- the loop ----------

  predicate Falling(groups: seq<Group>) {
    forall i, j :: 0 <= i < j < |groups| ==> |groups[i]| >= |groups[j]|
  }

  /** Sorting by size and reversing gives falling sizes and the same groups. */
  lemma Reorder(groups: seq<Group>)
    ensures var r := Reverse(Sort(groups, Size));
            && |r| == |groups| && Falling(r) && Total(r) == Total(groups)
            && forall g :: g in r <==> g in groups
  {
    var s := Sort(groups, Size);
    TotalSort(groups);
    TotalReverse(s);
    ReverseMembers(s);
    var r := Reverse(s);
    forall i, j | 0 <= i < j < |r|
      ensures |r[i]| >= |r[j]|
    {
      assert Size(s[|s| - 1 - j]) <= Size(s[|s| - 1 - i]);
    }
  }

  /** One round of the loop: the largest group makes way for its two halves. */
  function Round(groups: seq<Group>, b: string): seq<Group>
    requires groups != []
  {
    Reverse(Sort(groups[1..] + [With(groups[0], b)] + [WithOut(groups[0], b)], Size))
  }

  lemma RoundKeepsTotal(groups: seq<Group>, b: string)
    requires groups != []
    ensures Total(Round(groups, b)) == Total(groups) && Falling(Round(groups, b))
    ensures |Round(groups, b)| == |groups| + 1
  {
    hide Total, Sort, Reverse, With, WithOut;
    var rest, head, tail := groups[1..], With(groups[0], b), WithOut(groups[0], b);
    TotalCons(groups);
    SplitPartitions(groups[0], b);
    TotalSnoc(rest, head);
    TotalSnoc(rest + [head], tail);
    Reorder(rest + [head] + [tail]);
  }

  // ---------- what tells the groups apart ----------

  /** All instances of one group have the name and none of the other. */
  predicate Separates(b: string, g: Group, h: Group) {
    || ((forall x :: x in g ==> b in x.hierarchy) && (forall x :: x in h ==> b !in x.hierarchy))
    || ((forall x :: x in g ==> b !in x.hierarchy) && (forall x :: x in h ==> b in x.hierarchy))
  }

  ghost predicate Separated(g: Group, h: Group) {
    exists b :: Separates(b, g, h)
  }

  /** Any two groups are told apart by a name. */
  ghost predicate AllSeparated(groups: seq<Group>) {
    forall i, j :: 0 <= i < j < |groups| ==> Separated(groups[i], groups[j])
  }

  ghost predicate SeparatedFrom(groups: seq<Group>, g: Group) {
    forall i :: 0 <= i < |groups| ==> Separated(groups[i], g)
  }

  lemma SeparatedPart(g: Group, h: Group, part: Group)
    requires Separated(g, h) && forall x :: x in part ==> x in h
    ensures Separated(g, part) && Separated(part, g)
  {
    var b :| Separates(b, g, h);
    assert Separates(b, g, part) && Separates(b, part, g);
  }

  lemma {:induction false} SeparatedInsert(groups: seq<Group>, g: Group, other: Group)
    requires SeparatedFrom(groups, other) && Separated(g, other)
    ensures SeparatedFrom(Insert(groups, g, Size), other)
    decreases |groups|
  {
    hide Separated;
    if groups != [] && Size(groups[|groups| - 1]) > Size(g) {
      SeparatedInsert(groups[..|groups| - 1], g, other);
    }
  }

  lemma {:induction false} AllSeparatedInsert(groups: seq<Group>, g: Group)
    requires AllSeparated(groups) && SeparatedFrom(groups, g)
    ensures AllSeparated(Insert(groups, g, Size))
    decreases |groups|
  {
    hide Separated;
    if groups == [] || Size(groups[|groups| - 1]) <= Size(g) {
    } else {
      var init, last := groups[..|groups| - 1], groups[|groups| - 1];
      AllSeparatedInsert(init, g);
      assert SeparatedFrom(init, last);
      SeparatedBack(last, g);
      SeparatedInsert(init, g, last);
    }
  }

  lemma SeparatedBack(g: Group, h: Group)
    requires Separated(g, h)
    ensures Separated(h, g)
  {
    SeparatedPart(g, h, h);
  }

  lemma {:induction false} SeparatedSort(groups: seq<Group>)
    requires AllSeparated(groups)
    ensures AllSeparated(Sort(groups, Size))
    ensures forall g :: SeparatedFrom(groups, g) ==> SeparatedFrom(Sort(groups, Size), g)
  {
    hide Separated;
    if groups != [] {
      var init, last := groups[..|groups| - 1], groups[|groups| - 1];
      SeparatedSort(init);
      assert SeparatedFrom(init, last);
      AllSeparatedInsert(Sort(init, Size), last);
      forall g | SeparatedFrom(groups, g)
        ensures SeparatedFrom(Sort(groups, Size), g)
      {
        assert SeparatedFrom(init, g) && Separated(last, g);
        SeparatedInsert(Sort(init, Size), last, g);
      }
    }
  }

  lemma SeparatedReverse(groups: seq<Group>)
    requires AllSeparated(groups)
    ensures AllSeparated(Reverse(groups))
  {
    var r := Reverse(groups);
    forall i, j | 0 <= i < j < |r|
      ensures Separated(r[i], r[j])
    {
      SeparatedBack(groups[|r| - 1 - j], groups[|r| - 1 - i]);
    }
  }

  /** A round tells the two halves apart by its name, and keeps the others apart from both. */
  lemma RoundSeparates(groups: seq<Group>, b: string)
    requires groups != [] && AllSeparated(groups)
    ensures AllSeparated(Round(groups, b))
    ensures Separates(b, With(groups[0], b), WithOut(groups[0], b))
  {
    hide Sort, Reverse, Separated;
    var rest, head, tail := groups[1..], With(groups[0], b), WithOut(groups[0], b);
    SplitMembers(groups[0], b);
    assert Separates(b, head, tail);
    assert Separated(head, tail) by { SeparatedBy(b, head, tail); }
    forall i | 0 <= i < |rest|
      ensures Separated(rest[i], head) && Separated(rest[i], tail)
    {
      assert Separated(groups[0], groups[i + 1]);
      SeparatedBack(groups[0], rest[i]);
      SeparatedPart(rest[i], groups[0], head);
      SeparatedPart(rest[i], groups[0], tail);
    }
    var all := rest + [head] + [tail];
    forall i, j | 0 <= i < j < |all|
      ensures Separated(all[i], all[j])
    {
      if j < |rest| {
        assert Separated(groups[i + 1], groups[j + 1]);
      }
    }
    SeparatedSort(all);
    SeparatedReverse(Sort(all, Size));
  }

  lemma SeparatedBy(b: string, g: Group, h: Group)
    requires Separates(b, g, h)
    ensures Separated(g, h)
  {
  }

  ghost predicate Splittable(groups: seq<Group>) {
    forall g :: g in groups ==> g != [] && Distinguishable(g)
  }

  lemma RoundKeepsGroups(groups: seq<Group>, b: string)
    requires groups != [] && Splittable(groups) && 0 < CountIn(groups[0], b) < |groups[0]|
    ensures Splittable(Round(groups, b))
  {
    hide Sort, Reverse, With, WithOut, CountIn, Distinguishable;
    var rest, head, tail := groups[1..], With(groups[0], b), WithOut(groups[0], b);
    assert groups[0] in groups;
    SplitDistinguishable(groups[0], b);
    SplitPartitions(groups[0], b);
    var all := rest + [head] + [tail];
    Reorder(all);
    assert forall g :: g in rest ==> g in groups;
    assert forall g :: g in all ==> g in rest || g == head || g == tail;
  }

  /** As long as the largest group holds two instances, some name splits it. */
  lemma NameSplits(g: Group, r: Option<string>)
    requires Distinguishable(g) && |g| >= 2
    requires r.Some? ==> 0 < CountIn(g, r.value) != |g|
    requires r.None? ==> forall b :: CountIn(g, b) == 0 || CountIn(g, b) == |g|
    ensures r.Some? && 0 < CountIn(g, r.value) < |g|
  {
    hide Distinguishable, CountIn;
    var b := NameExists(g);
    if r.Some? {
      CountFew(g, r.value, 0);
    }
  }

  /** Too few groups with nothing left to split: every instance sits alone. */
  lemma AllSingles(groups: seq<Group>, instances: Group)
    requires groups != [] && Falling(groups) && Splittable(groups) && |groups[0]| == 1
    requires Total(groups) == multiset(instances)
    ensures |groups| == |instances|
  {
    forall g | g in groups
      ensures |g| == 1
    {
      var i :| 0 <= i < |groups| && groups[i] == g;
      assert i == 0 || |groups[0]| >= |groups[i]|;
    }
    TotalOfSingles(groups);
  }

  method Partition(first: Group, b: string) returns (head: Group, tail: Group)
    ensures head == With(first, b) && tail == WithOut(first, b)
  {
    head, tail := [], [];
    for i := 0 to |first|
      invariant head == With(first[..i], b) && tail == WithOut(first[..i], b)
    {
      assert first[..i + 1][..i] == first[..i];
      if b in first[i].hierarchy {
        head := head + [first[i]];
      } else {
        tail := tail + [first[i]];
      }
    }
    assert first[..|first|] == first;
  }

  /** The grouping loop; None is the index error on instances that no name tells apart. */
  method SplitGroups(instances: Group, group: nat) returns (r: Option<seq<Group>>)
    requires 1 <= group <= |instances|
    ensures r.Some? ==> Total(r.value) == multiset(instances) && Falling(r.value) && |r.value| <= group
    ensures r.Some? ==> AllSeparated(r.value)
    ensures Distinguishable(instances) ==>
              r.Some? && |r.value| == group && forall g :: g in r.value ==> g != []
  {
    hide Total, Sort, Reverse, CountIn, Distinguishable, Falling, Splittable, AllSeparated, With, WithOut;
    var groups := [instances];
    ghost var good := Distinguishable(instances);
    assert Total(groups) == multiset(instances) && Falling(groups) && AllSeparated(groups)
      && (good ==> Splittable(groups)) by {
      StartGroups(instances);
    }
    while |groups| < group
      invariant 1 <= |groups| <= group && Falling(groups) && Total(groups) == multiset(instances)
      invariant AllSeparated(groups) && (good ==> Splittable(groups))
      decreases group - |groups|
    {
      var first := groups[0];
      if |first| == 1 {
        if good {
          AllSingles(groups, instances);
          assert false;
        }
        break;
      }
      var name := ChooseName(first);
      if good {
        LargestSplittable(groups);
        NameSplits(first, name);
        RoundKeepsGroups(groups, name.value);
      }
      if name.None? {
        return None;
      }
      RoundKeepsTotal(groups, name.value);
      RoundSeparates(groups, name.value);
      var head, tail := Partition(first, name.value);
      groups := Reverse(Sort(groups[1..] + [head] + [tail], Size));
    }
    if good {
      NoneEmpty(groups);
    }
    return Some(groups);
  }

  lemma StartGroups(instances: Group)
    requires instances != []
    ensures Total([instances]) == multiset(instances) && Falling([instances]) && AllSeparated([instances])
    ensures Distinguishable(instances) ==> Splittable([instances])
  {
    TotalSnoc([], instances);
    assert [] + [instances] == [instances];
    assert Total([]) == multiset{};
  }

  lemma LargestSplittable(groups: seq<Group>)
    requires groups != [] && Splittable(groups)
    ensures groups[0] != [] && Distinguishable(groups[0])
  {
    assert groups[0] in groups;
  }

  lemma NoneEmpty(groups: seq<Group>)
    requires Splittable(groups)
    ensures forall g :: g in groups ==> g != []
  {
  }
}
