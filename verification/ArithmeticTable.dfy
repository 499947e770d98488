/** The interval table of a text: strictly increasing at the literals that occur, constant
    elsewhere, ending in the normalised total; and what that means for the codebook. */
module ArithmeticTable {
  import opened BitStream
  import opened ArithmeticModel

  /** Texts whose counters neither wrap nor miss literal 255. */
  ghost predicate Countable(text: seq<Lit>) {
    0 < |text| < W32 && 255 !in text
  }

  /** Literal 0 keeps a non-empty interval after normalisation. */
  ghost predicate ZeroSafe(text: seq<Lit>) {
    0 in text ==> multiset(text)[0] >= MinCount(text)
  }

  function Table(text: seq<Lit>): (t: seq<nat>)
    ensures |t| == 256
  {
    Normalised(Histogram(text))
  }

  function Total(text: seq<Lit>): nat { Table(text)[255] }

  /** The number of literals of the text that are at most i. */
  function Below(text: seq<Lit>, i: nat): (r: nat)
    ensures r <= |text|
  {
    if text == [] then 0
    else Below(text[..|text| - 1], i) + if text[|text| - 1] <= i then 1 else 0
  }

  lemma {:induction false} BelowStep(text: seq<Lit>, i: nat)
    requires i < 256
    ensures Below(text, i) == (if i == 0 then 0 else Below(text, i - 1)) + multiset(text)[i]
  {
    if text != [] {
      var init, last := text[..|text| - 1], text[|text| - 1];
      assert text == init + [last];
      BelowStep(init, i);
    }
  }

  lemma {:induction false} BelowAll(text: seq<Lit>, i: nat)
    requires forall v: Lit :: v in text ==> v <= i
    ensures Below(text, i) == |text|
  {
    if text != [] {
      var init := text[..|text| - 1];
      assert text[|text| - 1] in text;
      forall v | v in init
        ensures v <= i
      {
        assert v in text;
      }
      BelowAll(init, i);
    }
  }

  lemma {:induction false} CumIsBelow(text: seq<Lit>, i: nat)
    requires i < 256
    ensures CumAt(Histogram(text), i) == Below(text, i) % W32
  {
    BelowStep(text, i);
    if i > 0 {
      CumIsBelow(text, i - 1);
      AddMod(multiset(text)[i], Below(text, i - 1));
    }
  }

  lemma AddMod(a: nat, b: nat)
    ensures (a % W32 + b % W32) % W32 == (a + b) % W32
  {
  }

  lemma HistogramExact(text: seq<Lit>, v: nat)
    requires Countable(text) && v < 256
    ensures Histogram(text)[v] == multiset(text)[v]
  {
  }

  /** The least number of times that one of the literals 1..255 occurs, 2^32 - 1 if none does. */
  ghost predicate LeastCount(text: seq<Lit>, m: nat) {
    if exists v: Lit :: v > 0 && v in text then
      && (exists v: Lit :: v > 0 && v in text && m == multiset(text)[v])
      && (forall v: Lit :: v > 0 && v in text ==> m <= multiset(text)[v])
    else m == W32 - 1
  }

  lemma {:induction false} MinWitness(text: seq<Lit>, i: nat)
    requires i < 256
    ensures var m := MinAt(Histogram(text), i);
            m == W32 - 1 || exists v: Lit :: v > 0 && v in text && m == Histogram(text)[v]
  {
    var h := Histogram(text);
    if i > 0 {
      MinWitness(text, i - 1);
      if h[i] != 0 && h[i] < MinAt(h, i - 1) {
        assert multiset(text)[i] > 0;
        assert i in text && MinAt(h, i) == h[i];
      }
    }
  }

  lemma MinCountIsLeast(text: seq<Lit>, m: nat)
    requires Countable(text)
    ensures LeastCount(text, m) <==> m == MinCount(text)
  {
    var least := MinCount(text);
    MinWitness(text, 255);
    forall v: Lit | v > 0 && v in text
      ensures least <= multiset(text)[v] < W32
    {
      HistogramExact(text, v);
      assert multiset(text)[v] > 0;
    }
    if v: Lit :| v > 0 && v in text {
      if least == W32 - 1 {
        assert multiset(text)[v] == W32 - 1;
      } else {
        var w: Lit :| w > 0 && w in text && least == Histogram(text)[w];
        HistogramExact(text, w);
      }
    }
  }

  /** Every entry of the table, and so of the codebook: the number of literals up to this one, divided by
      the least count and rounded down. */
  lemma TableIsScaled(text: seq<Lit>, m: nat, i: nat)
    requires Countable(text) && LeastCount(text, m) && i < 256
    ensures m > 0 && PlanOf(text).table[i] == Below(text, i) / m
  {
    MinCountIsLeast(text, m);
    CumIsBelow(text, i);
  }

  lemma DivStep(a: nat, b: nat, m: nat)
    requires m > 0 && b >= m
    ensures Quot(a + b, m) > Quot(a, m)
  {
    var q, r := a / m, a % m;
    assert a == m * q + r;
    var q' := (a + b) / m;
    var r' := (a + b) % m;
    assert a + b == m * q' + r';
    if q' <= q {
      if q' < q { MulGap(m, q', q); }
      assert false;
    }
  }

  /** One step of the normalised table; only literal 0 can lose its interval. */
  lemma TableStep(text: seq<Lit>, i: nat)
    requires Countable(text) && i < 256
    ensures var t := Table(text);
            var below := if i == 0 then 0 else t[i - 1];
            if i in text && (i == 0 ==> ZeroSafe(text)) then below < t[i] else t[i] == below
  {
    hide Quot;
    var h, m := Histogram(text), MinCount(text);
    CumIsBelow(text, i);
    BelowStep(text, i);
    HistogramExact(text, i);
    assert i in text <==> multiset(text)[i] > 0;
    if i == 0 {
      SmallQuotient(0, m);
      if i in text && ZeroSafe(text) {
        DivStep(0, CumAt(h, 0), m);
      } else {
        SmallQuotient(CumAt(h, 0), m);
      }
    } else {
      CumIsBelow(text, i - 1);
      assert CumAt(h, i) == CumAt(h, i - 1) + h[i];
      if i in text {
        DivStep(CumAt(h, i - 1), h[i], m);
      }
    }
  }

  lemma {:induction false} TableMonotone(text: seq<Lit>, i: nat, j: nat)
    requires Countable(text) && ZeroSafe(text) && i <= j < 256
    ensures Table(text)[i] <= Table(text)[j]
    decreases j - i
  {
    if i < j {
      TableMonotone(text, i, j - 1);
      TableStep(text, j);
    }
  }

  /** The table ends in the normalised number of literals, on both sides' min_range. */
  lemma TotalIsNormalisedLength(text: seq<Lit>)
    requires Countable(text)
    ensures Total(text) == Quot(|text|, MinCount(text)) == Table(text)[254]
    ensures PlanOf(text).literalCount == |text|
    ensures Total(text) <= |text|
  {
    hide Quot;
    CumIsLength(text, 254);
    CumIsLength(text, 255);
    DivAtMost(|text|, MinCount(text));
  }

  lemma CumIsLength(text: seq<Lit>, i: nat)
    requires Countable(text) && 254 <= i < 256
    ensures CumAt(Histogram(text), i) == |text|
  {
    CumIsBelow(text, i);
    BelowAll(text, i);
  }

  lemma DivAtMost(a: nat, m: nat)
    requires m > 0
    ensures Quot(a, m) <= a
  {
    assert a == m * (a / m) + a % m;
    if a / m > a {
      MulGap(a / m, 0, m);
      assert false;
    }
  }

  lemma TotalPositive(text: seq<Lit>)
    requires Countable(text) && ZeroSafe(text)
    ensures Total(text) > 0
  {
    TableStep(text, text[0]);
    TableMonotone(text, text[0], 255);
  }

  // ---------- the codebook ----------

  /** Entries are written for exactly the literals that occur, so their number is codebook_size. */
  lemma {:induction false} BookSize(text: seq<Lit>, i: nat)
    requires Countable(text) && ZeroSafe(text) && i < 256
    ensures |Book(Table(text), i)| == PresentUpTo(Histogram(text), i)
  {
    TableStep(text, i);
    HistogramExact(text, i);
    if i > 0 {
      BookSize(text, i - 1);
    }
  }

  /** A literal 0 that is rarer than every other literal is counted but gets no entry. */
  lemma {:induction false} BookSizeWithoutZero(text: seq<Lit>, i: nat)
    requires Countable(text) && !ZeroSafe(text) && i < 256
    ensures |Book(Table(text), i)| + 1 == PresentUpTo(Histogram(text), i)
  {
    TableStep(text, i);
    HistogramExact(text, i);
    if i > 0 {
      BookSizeWithoutZero(text, i - 1);
    }
  }

  lemma SmallQuotient(a: nat, m: nat)
    requires a < m
    ensures Quot(a, m) == 0
  {
  }

  lemma {:induction false} PresentBound(text: seq<Lit>, i: nat)
    requires i < 256
    ensures Countable(text) ==> PresentUpTo(Histogram(text), i) <= if i == 255 then 255 else i + 1
    ensures 0 < |text| < W32 && (exists v :: v in text && v <= i) ==> PresentUpTo(Histogram(text), i) > 0
  {
    if i > 0 {
      PresentBound(text, i - 1);
    }
    if 0 < |text| < W32 && (exists v :: v in text && v <= i) {
      var v :| v in text && v <= i;
      if v < i {
        assert PresentUpTo(Histogram(text), i - 1) > 0;
      } else {
        assert multiset(text)[i] > 0;
        assert Histogram(text)[i] == multiset(text)[i];
      }
    }
  }

  /** Positive, strictly increasing values that end in top; no entry means top is zero. */
  ghost predicate Rising(b: seq<Entry>, top: nat) {
    && (forall j :: 0 <= j < |b| ==> 0 < b[j].value <= top)
    && (forall j, k :: 0 <= j < k < |b| ==> b[j].value < b[k].value)
    && (if b == [] then top == 0 else b[|b| - 1].value == top)
  }

  lemma RisingExtend(b: seq<Entry>, top: nat, e: Entry)
    requires Rising(b, top) && top < e.value
    ensures Rising(b + [e], e.value)
  {
    var c := b + [e];
    forall j, k | 0 <= j < k < |c|
      ensures c[j].value < c[k].value
    {
      if k < |b| {
        assert c[j] == b[j] && c[k] == b[k];
      } else {
        assert c[j] == b[j] && c[k] == e;
      }
    }
  }

  /** The codebook's values rise to the table's last entry. */
  lemma {:induction false} BookValues(text: seq<Lit>, i: nat)
    requires Countable(text) && ZeroSafe(text) && i < 256
    ensures Rising(Book(Table(text), i), Table(text)[i])
  {
    hide Table, MinCount, Book, Rising;
    var t := Table(text);
    TableStep(text, i);
    BookStep(t, i);
    if i > 0 {
      BookValues(text, i - 1);
      if t[i] != t[i - 1] {
        RisingExtend(Book(t, i - 1), t[i - 1], Entry(i, t[i]));
      }
    } else {
      RisingEmpty();
      if t[0] != 0 {
        RisingExtend([], 0, Entry(0, t[0]));
        assert [] + [Entry(0, t[0])] == [Entry(0, t[0])];
      }
    }
  }

  lemma RisingEmpty()
    ensures Rising([], 0)
  {
  }

  lemma {:induction false} BookPrefix(t: seq<nat>, i: nat, j: nat)
    requires |t| == 256 && i <= j < 256
    ensures Book(t, i) <= Book(t, j)
    decreases j - i
  {
    if i < j {
      BookPrefix(t, i, j - 1);
    }
  }

  /** The codebook index of a literal that occurs, and the entries around it. */
  lemma BookIndex(text: seq<Lit>, v: Lit) returns (j: nat)
    requires Countable(text) && ZeroSafe(text) && v in text
    ensures var b, t := Book(Table(text), 255), Table(text);
            var below := if v == 0 then 0 else t[v - 1];
            && j < |b| && b[j] == Entry(v, t[v])
            && (if j == 0 then below == 0 else b[j - 1].value == below)
            && (forall i :: 0 <= i < j ==> b[i].value <= below)
  {
    hide Table, Book;
    var t := Table(text);
    TableStep(text, v);
    BookStep(t, v);
    BookPrefix(t, v, 255);
    j := |Book(t, v)| - 1;
    if v > 0 {
      BookValues(text, v - 1);
      assert forall i :: 0 <= i < j ==> Book(t, 255)[i] == Book(t, v)[i] == Book(t, v - 1)[i];
    }
  }
}
