/** Two short texts, worked out to the last number: an interval table that is rounded down, and a whole stream. Both
    say in plain values what the general theorems say by the table and the intervals, and fix the order of the
    fields in the stream, their widths, and the lower bounds that become code words. */
module ArithmeticExamples {
  import opened BitStream
  import opened ArithmeticModel
  import opened ArithmeticTable
  import opened ArithmeticRoundTrip
  import opened ArithmeticDomain
  import opened ArithmeticStream
  import opened Wrappers

  const ROUNDED: seq<Lit> := [1, 1, 1, 2, 2, 3, 3, 3]

  lemma RoundedCounts()
    ensures LeastCount(ROUNDED, 2) && Countable(ROUNDED)
    ensures Below(ROUNDED, 0) == 0 && Below(ROUNDED, 1) == 3 && Below(ROUNDED, 2) == 5 && Below(ROUNDED, 3) == 8
  {
    var text := ROUNDED;
    assert multiset(text) == multiset{1 as Lit, 1, 1, 2, 2, 3, 3, 3};
    assert 2 in text && multiset(text)[2] == 2;
    BelowStep(text, 0);
    BelowStep(text, 1);
    BelowStep(text, 2);
    BelowStep(text, 3);
  }

  /** Three, two and three occurrences: the cumulative counts 3, 5 and 8 are halved to 1, 2 and 4. */
  lemma RoundedDown()
    ensures var t := PlanOf(ROUNDED).table;
            t[0] == 0 && t[1] == 1 && t[2] == 2 && t[3] == 4
  {
    hide PlanOf, Below;
    RoundedCounts();
    TableIsScaled(ROUNDED, 2, 0);
    TableIsScaled(ROUNDED, 2, 1);
    TableIsScaled(ROUNDED, 2, 2);
    TableIsScaled(ROUNDED, 2, 3);
  }

  const TWO: seq<Lit> := [1, 2]

  const QUARTER: nat := 0x3fff_ffff_ffff_ffff

  lemma TwoTable()
    ensures Countable(TWO) && ZeroSafe(TWO)
    ensures var t := Table(TWO); t == PlanOf(TWO).table && t[0] == 0 && t[1] == 1 && t[2] == 2 == t[254] == t[255]
  {
    hide MinAt;
    assert multiset(TWO) == multiset{1 as Lit, 2};
    assert 1 in TWO && multiset(TWO)[1] == 1;
    assert LeastCount(TWO, 1);
    BelowStep(TWO, 0);
    BelowStep(TWO, 1);
    BelowAll(TWO, 2);
    BelowAll(TWO, 254);
    BelowAll(TWO, 255);
    TableIsScaled(TWO, 1, 0);
    TableIsScaled(TWO, 1, 1);
    TableIsScaled(TWO, 1, 2);
    TableIsScaled(TWO, 1, 254);
    TableIsScaled(TWO, 1, 255);
  }

  /** One entry for each of the two literals and no other. */
  lemma TwoBook()
    ensures Book(Table(TWO), 255) == [Entry(1, 1), Entry(2, 2)]
  {
    hide Table, Book;
    var b := Book(Table(TWO), 255);
    TwoTable();
    var j := BookIndex(TWO, 1);
    var k := BookIndex(TWO, 2);
    BookValues(TWO, 255);
  }

  lemma TwoSteps(p: Plan)
    requires |p.table| == 256 && p.literalCount == 2
    requires p.table[0] == 0 && p.table[1] == 1 && p.table[2] == p.table[254] == p.table[255] == 2
    ensures EncRun(p, ENC_START, TWO).Some? && EncRun(p, ENC_START, TWO).value.words == [QUARTER, MAX64]
  {
    var half := 2 * QUARTER + 1;
    assert Narrow(p.table, FRESH, 1) == Bounds(0, half);
    assert Narrow(p.table, Bounds(0, half), 2) == Bounds(QUARTER, 2 * QUARTER);
    var s := EncState(Bounds(0, half), 1, []);
    assert EncStep(p, ENC_START, 1) == Some(s);
    assert EncStep(p, s, 2).value.words == [] + [QUARTER, MAX64];
    assert TWO[1..] == [2] && TWO[1..][1..] == [];
  }

  /** The whole stream of the text 1, 2: length, codebook size, two entries of 8 and 32 bits, the code word
      of the second literal's half of the first one's half, and the dummy. */
  lemma TwoLiterals()
    ensures EncodeText(TWO)
         == Some(ToBits(2, 32) + ToBits(2, 8)
                 + (ToBits(1, 8) + ToBits(1, 32) + (ToBits(2, 8) + ToBits(2, 32)))
                 + (ToBits(QUARTER, 64) + ToBits(MAX64, 64)))
  {
    hide ToBits, PlanOf, Table, Book, EncRun;
    TwoTable();
    TwoBook();
    TotalIsNormalisedLength(TWO);
    PlanOfText(TWO);
    PlanTable(TWO);
    TwoSteps(PlanOf(TWO));
    TwoBookBits();
    WordBitsFront(QUARTER, [MAX64]);
    WordBitsFront(MAX64, []);
    var p, words := PlanOf(TWO), ToBits(QUARTER, 64) + ToBits(MAX64, 64);
    assert [QUARTER] + [MAX64] == [QUARTER, MAX64] && [MAX64] + [] == [MAX64];
    assert WordBits([QUARTER, MAX64]) == words by { assert ToBits(MAX64, 64) + [] == ToBits(MAX64, 64); }
    assert p.literalCount == 2 && p.codebookSize == 2;
  }

  lemma TwoBookBits()
    ensures BookBits([Entry(1, 1), Entry(2, 2)]) == ToBits(1, 8) + ToBits(1, 32) + (ToBits(2, 8) + ToBits(2, 32))
  {
    hide ToBits;
    var first, second := Entry(1, 1), Entry(2, 2);
    BookBitsFront(first, [second]);
    BookBitsFront(second, []);
    assert [first] + [second] == [first, second] && [second] + [] == [second];
    assert EntryBits(second) + [] == EntryBits(second);
  }
}
