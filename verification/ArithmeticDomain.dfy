/** The round trip holds for every supported text and for no other. Literal 255 and overlong texts fail by
    the announced length, and a rare zero by the missing codebook entry. A normalised total of 2^31 or more
    fails by the sign of the decoder's int: each code word then gives at most one literal, and there are too
    few of them. */
module ArithmeticDomain {
  import opened BitStream
  import opened ArithmeticModel
  import opened ArithmeticTable
  import opened ArithmeticRoundTrip
  import opened Wrappers

  // ---------- what is written ----------

  lemma TableFits(text: seq<Lit>, i: nat)
    requires i < 256
    ensures Table(text)[i] < W32
  {
    hide Quot;
    DivAtMost(CumAt(Histogram(text), i), MinCount(text));
  }

  lemma {:induction false} BookFits(text: seq<Lit>, i: nat)
    requires i < 256
    ensures forall j :: 0 <= j < |Book(Table(text), i)| ==> Book(Table(text), i)[j].value < W32
  {
    hide Table;
    TableFits(text, i);
    if i > 0 {
      BookFits(text, i - 1);
    }
  }

  ghost predicate Fits(ws: seq<nat>) {
    forall j :: 0 <= j < |ws| ==> ws[j] < W64
  }

  lemma {:induction false} RunFits(p: Plan, s: EncState, text: seq<Lit>)
    requires |p.table| == 256 && Fits(s.words) && s.bounds.lo < W64
    ensures EncRun(p, s, text).Some? ==> Fits(EncRun(p, s, text).value.words)
    decreases |text|
  {
    hide Offset;
    if text != [] {
      match EncStep(p, s, text[0])
      case None =>
      case Some(s') => RunFits(p, s', text[1..]);
    }
  }

  /** Whatever the text, the stream is a header, the codebook and 64-bit words. */
  lemma EncodedShape(text: seq<Lit>)
    requires EncodeText(text).Some?
    ensures var p := PlanOf(text);
            var s := EncRun(p, ENC_START, text);
            && s.Some? && Fits(s.value.words)
            && var b := Book(Table(text), 255);
               EncodeText(text) == Some(StreamBits(p.literalCount, p.codebookSize, b, s.value.words))
  {
    hide ToBits, BookBits, WordBits, EncRun, Histogram, Normalised, CumAt, PresentUpTo;
    var p := PlanOf(text);
    assert p.table == Table(text);
    var ws := EncRun(p, ENC_START, text).value.words;
    RunFits(p, ENC_START, text);
    var b := BookBits(Book(p.table, 255));
    assert HeaderBits(p) + WordBits(ws)
        == ToBits(p.literalCount, 32) + ToBits(p.codebookSize, 8) + (b + WordBits(ws));
  }

  // ---------- supported texts ----------

  lemma PlanOfText(text: seq<Lit>)
    requires Countable(text) && ZeroSafe(text)
    ensures var p, b := PlanOf(text), Book(Table(text), 255);
            p.literalCount == |text| && p.codebookSize == |b| && 0 < |b| < 256
  {
    hide Quot, Table, Histogram;
    TotalIsNormalisedLength(text);
    BookSize(text, 255);
    assert text[0] in text && text[0] <= 255;
    PresentBound(text, 255);
  }

  /** What the decoder reads from the stream of a text whose codebook is complete. */
  lemma ParseEncoded(text: seq<Lit>)
    requires Countable(text) && ZeroSafe(text)
    ensures Total(text) > 0
    ensures EncodeText(text).Some?
    ensures Parse(EncodeText(text).value) == Some((HeaderOf(text), RestWords(Table(text), FRESH, text)))
    ensures HeaderOf(text).Valid()
  {
    hide Table, StreamBits, EncRun, Book, PlanOf, Parse, ZeroSafe;
    TotalPositive(text);
    var ws := RestWords(Table(text), FRESH, text);
    RunWritesRestWords(text, ENC_START, text);
    assert ENC_START.words + ws == ws;
    EncodedShape(text);
    PlanOfText(text);
    BookFits(text, 255);
    ParseStream(|text|, Book(Table(text), 255), ws);
  }

  /** For every supported text decoding inverts encoding, whatever the number of blocks. */
  lemma SupportedRoundTrips(text: seq<Lit>)
    requires Supported(text)
    ensures RoundTrips(text)
  {
    hide EncodeText, Parse, Table, Book, DecodeBlock, RestWords, Supported;
    HeaderParts(text);
    ParseEncoded(text);
    var ws := RestWords(Table(text), FRESH, text);
    Lockstep(text, FRESH, text);
    assert DecodeWords(HeaderOf(text), 0, ws) == DecodeFrom(HeaderOf(text), 0, FRESH, ws);
  }

  // ---------- block lengths ----------

  /** A fresh interval has room for at least two literals. */
  lemma SecondLiteralFits(text: seq<Lit>, v: Lit)
    requires Countable(text) && ZeroSafe(text) && v in text
    ensures Total(text) > 0
    ensures Narrow(Table(text), FRESH, v).Range() >= Total(text)
  {
    hide Quot, Narrow, Table;
    TotalPositive(text);
    TotalIsNormalisedLength(text);
    NarrowNests(text, FRESH, v);
    assert Total(text) * W32 <= MAX64;
    QuotientAtLeast(MAX64, Total(text), W32);
  }

  /** The most code words, with the dummy word, that n literals can take. */
  function MaxWords(n: nat): nat
    requires n > 0
  {
    (n - 1) / 2 + 2
  }

  lemma {:induction false} BlocksHoldTwo(text: seq<Lit>, b: Bounds, rest: seq<Lit>)
    requires Countable(text) && ZeroSafe(text) && (forall v :: v in rest ==> v in text)
    requires Total(text) > 0
    ensures |RestWords(Table(text), b, rest)| <= if rest == [] then 2 else 1 + MaxWords(|rest|)
    ensures b == FRESH && rest != [] ==> |RestWords(Table(text), b, rest)| <= MaxWords(|rest|)
    decreases |rest|, if b == FRESH then 0 else 1
  {
    hide Table, Narrow;
    var t := Table(text);
    if rest != [] {
      TotalIsNormalisedLength(text);
      if b == FRESH {
        var n := Narrow(t, FRESH, rest[0]);
        SecondLiteralFits(text, rest[0]);
        if |rest| > 1 {
          BlocksHoldTwo(text, Narrow(t, n, rest[1]), rest[1..][1..]);
          assert rest[1..] != [] && rest[1..][0] == rest[1];
          assert RestWords(t, n, rest[1..]) == RestWords(t, Narrow(t, n, rest[1]), rest[1..][1..]);
        } else {
          assert rest[1..] == [];
        }
      } else if b.Range() < Total(text) {
        BlocksHoldTwo(text, FRESH, rest);
      } else {
        BlocksHoldTwo(text, Narrow(t, b, rest[0]), rest[1..]);
      }
    }
  }

  /** n supported literals take at most (n - 1) / 2 + 2 code words, and only the last is the dummy. */
  lemma WordCount(text: seq<Lit>)
    requires Supported(text)
    ensures var s := EncRun(PlanOf(text), ENC_START, text);
            && s.Some? && 2 <= |s.value.words| <= (|text| - 1) / 2 + 2
            && (forall i :: 0 <= i < |s.value.words| ==> (s.value.words[i] == MAX64 <==> i == |s.value.words| - 1))
  {
    hide Table;
    HeaderParts(text);
    RunWritesRestWords(text, ENC_START, text);
    assert [] + RestWords(Table(text), FRESH, text) == RestWords(Table(text), FRESH, text);
    BlocksHoldTwo(text, FRESH, text);
    OnlyLastIsDummy(text, FRESH, text);
  }

  lemma {:induction false} OnlyLastIsDummy(text: seq<Lit>, b: Bounds, rest: seq<Lit>)
    requires Countable(text) && ZeroSafe(text) && (forall v :: v in rest ==> v in text)
    requires b.lo < b.hi <= MAX64 && Total(text) > 0
    ensures var ws := RestWords(Table(text), b, rest);
            && |ws| >= 2 && ws[0] < b.hi
            && forall i :: 0 <= i < |ws| ==> (ws[i] == MAX64 <==> i == |ws| - 1)
    decreases |rest|, if b == FRESH then 0 else 1
  {
    hide Table, Narrow;
    if rest != [] {
      TotalIsNormalisedLength(text);
      if b.Range() < Total(text) {
        OnlyLastIsDummy(text, FRESH, rest);
      } else {
        NarrowNests(text, b, rest[0]);
        OnlyLastIsDummy(text, Narrow(Table(text), b, rest[0]), rest[1..]);
      }
    }
  }

  // ---------- unsupported texts ----------

  lemma {:induction false} NonePresent(i: nat)
    requires i < 256
    ensures PresentUpTo(Histogram([]), i) == 0
  {
    if i > 0 {
      NonePresent(i - 1);
    }
  }

  lemma DecodedAtMostAnnounced(text: seq<Lit>)
    requires RoundTrips(text)
    ensures |text| <= Below(text, 254) % W32
  {
    hide StreamBits, Parse, EncodeText;
    EncodedShape(text);
    CumIsBelow(text, 254);
    var p := PlanOf(text);
    ParseLiteralCount(p.literalCount, p.codebookSize, Book(Table(text), 255), EncRun(p, ENC_START, text).value.words);
  }

  /** Literal 255 is not counted in the announced length, and 2^32 literals wrap it. */
  lemma RoundTripCountable(text: seq<Lit>)
    requires RoundTrips(text)
    ensures Countable(text)
  {
    hide RoundTrips;
    DecodedAtMostAnnounced(text);
    BelowStep(text, 255);
    assert 255 in text ==> multiset(text)[255] > 0;
    if text == [] {
      EmptyDoesNotRoundTrip();
    }
  }

  lemma EmptyDoesNotRoundTrip()
    ensures !RoundTrips([])
  {
    hide StreamBits, Parse, EncodeText;
    NonePresent(255);
    if EncodeText([]).Some? {
      EncodedShape([]);
      var p := PlanOf([]);
      ParseMisframed(p.literalCount, 0, Book(Table([]), 255), EncRun(p, ENC_START, []).value.words);
    }
  }

  /** A literal 0 without an interval leaves the stream one codebook entry short. */
  lemma RoundTripZeroSafe(text: seq<Lit>)
    requires RoundTrips(text) && Countable(text)
    ensures ZeroSafe(text)
  {
    hide StreamBits, Parse, EncodeText, EncRun, Histogram, Table, Book, ZeroSafe, Normalised;
    if !ZeroSafe(text) {
      EncodedShape(text);
      var p := PlanOf(text);
      BookSizeWithoutZero(text, 255);
      PresentBound(text, 255);
      ParseMisframed(p.literalCount, p.codebookSize, Book(Table(text), 255), EncRun(p, ENC_START, text).value.words);
    }
  }

  // A normalised total of 2^31 or more is read back as a negative int: the decoder then finds
  // at most one literal in a code word.

  ghost predicate HugeTotal(h: Header) {
    && |h.book| >= 2
    && (forall j :: 0 <= j < |h.book| ==> 0 < h.book[j].value < W32)
    && (forall j, k :: 0 <= j < k < |h.book| ==> h.book[j].value < h.book[k].value)
    && SIGN32 <= h.book[|h.book| - 1].value
  }

  lemma HugeUpper(h: Header, range: nat, i: nat)
    requires HugeTotal(h) && h.Valid() && h.Parts() <= range < W64 && i < |h.book|
    ensures 0 < h.Parts() < W64
    ensures if h.Parts() < range then Upper(h, 0, range, i) == SignExtend(h.book[i].value)
            else Upper(h, 0, range, i) <= 1
  {
    var parts, x := h.Parts(), SignExtend(h.book[i].value);
    assert 0 < x < W64;
    if range <= parts {
      SmallerHalf(range * x % W64, parts);
    } else {
      QuotientUnique(range, parts, 1, range - parts);
    }
  }

  lemma SmallerHalf(a: nat, m: nat)
    requires 0 < m && a < m + m
    ensures Quot(a, m) <= 1
  {
    if a < m {
      QuotientUnique(a, m, 0, a);
    } else {
      QuotientUnique(a, m, 1, a - m);
    }
  }

  lemma {:induction false} HugeSearch(h: Header, i: nat, inner: nat, up: nat, range: nat, code: nat)
    requires HugeTotal(h) && h.Valid() && h.Parts() <= range < W64 && i <= |h.book|
    requires h.Parts() > 0 && up < W64 && inner <= code
    requires i > 0 ==> inner == Upper(h, 0, range, i - 1)
    ensures var r := Search(h, i, 0, inner, up, range, code);
            if r.Found? then r.bounds.Range() < h.Parts() else r.bounds.lo == 0 && r.bounds.hi < W64
    decreases |h.book| - i
  {
    hide Offset;
    if i < |h.book| {
      HugeUpper(h, range, i);
      if code < Upper(h, 0, range, i) {
        if i > 0 {
          HugeUpper(h, range, i - 1);
        }
        assert i < |h.book| - 1 ==> SignExtend(h.book[i].value) < h.Parts();
        assert inner <= code < Upper(h, 0, range, i);
        assert Search(h, i, 0, inner, up, range, code).bounds == Bounds(inner, Upper(h, 0, range, i));
      } else {
        HugeSearch(h, i + 1, Upper(h, 0, range, i), Upper(h, 0, range, i), range, code);
      }
    }
  }

  lemma {:induction false} HugeBlock(h: Header, counter: nat, hi: nat, code: nat)
    requires HugeTotal(h) && h.Valid() && hi < W64
    ensures DecodeBlock(h, counter, Bounds(0, hi), code).Some?
         ==> |DecodeBlock(h, counter, Bounds(0, hi), code).value.0| <= 1
    decreases h.literalCount - counter
  {
    hide Search;
    var b := Bounds(0, hi);
    if h.Parts() <= b.Range() && counter < h.literalCount {
      HugeSearch(h, 0, 0, hi, hi, code);
      match Search(h, 0, 0, 0, hi, hi, code)
      case Found(v, b') =>
      case NotFound(b') => HugeBlock(h, counter + 1, b'.hi, code);
    }
  }

  lemma {:induction false} HugeWords(h: Header, counter: nat, ws: seq<nat>)
    requires HugeTotal(h) && h.Valid()
    ensures DecodeWords(h, counter, ws).Some? ==> |DecodeWords(h, counter, ws).value| <= |ws|
    decreases |ws|
  {
    hide DecodeBlock;
    if ws != [] {
      if ws[0] == MAX64 {
        HugeWords(h, counter, ws[1..]);
      } else {
        HugeBlock(h, counter, MAX64, ws[0]);
        match DecodeBlock(h, counter, FRESH, ws[0])
        case None =>
        case Some(block) => HugeWords(h, block.1, ws[1..]);
      }
    }
  }

  lemma {:induction false} AllEqual(text: seq<Lit>, v: Lit)
    requires forall x :: x in text ==> x == v
    ensures multiset(text)[v] == |text|
  {
    if text != [] {
      var init := text[..|text| - 1];
      assert text == init + [text[|text| - 1]];
      assert text[|text| - 1] in text;
      forall x | x in init
        ensures x == v
      {
        assert x in text;
      }
      AllEqual(init, v);
    }
  }

  /** A total of at least two needs two different literals. */
  lemma TwoEntries(text: seq<Lit>)
    requires Countable(text) && ZeroSafe(text) && Total(text) >= 2
    ensures |Book(Table(text), 255)| >= 2
  {
    hide Table, Book;
    TotalIsNormalisedLength(text);
    var m := MinCount(text);
    assert |text| >= m + m by {
      if |text| < m + m { SmallerHalf(|text|, m); }
    }
    MinWitness(text, 255);
    var v: Lit :| v in text && m == Histogram(text)[v];
    HistogramExact(text, v);
    if forall x :: x in text ==> x == v {
      AllEqual(text, v);
    }
    var w: Lit :| w in text && w != v;
    var i := BookIndex(text, v);
    var j := BookIndex(text, w);
  }

  lemma HeaderIsHuge(text: seq<Lit>)
    requires Countable(text) && ZeroSafe(text) && Total(text) >= SIGN32
    ensures HeaderOf(text).Valid() && HugeTotal(HeaderOf(text))
  {
    hide Table, Book;
    TwoEntries(text);
    BookValues(text, 255);
    BookFits(text, 255);
  }

  lemma RoundTripTotal(text: seq<Lit>)
    requires RoundTrips(text) && Countable(text) && ZeroSafe(text)
    ensures Total(text) < SIGN32
  {
    hide EncodeText, Parse, Table, Book, RestWords, HugeTotal;
    if Total(text) >= SIGN32 {
      TotalIsNormalisedLength(text);
      HeaderIsHuge(text);
      ParseEncoded(text);
      BlocksHoldTwo(text, FRESH, text);
      HugeWords(HeaderOf(text), 0, RestWords(Table(text), FRESH, text));
    }
  }

  /** Encoding then decoding gives the text back, with the stream fully consumed, for exactly
      the supported texts. */
  lemma RoundTripIffSupported(text: seq<Lit>)
    ensures RoundTrips(text) <==> Supported(text)
  {
    hide RoundTrips;
    if Supported(text) {
      SupportedRoundTrips(text);
    }
    if RoundTrips(text) {
      RoundTripCountable(text);
      RoundTripZeroSafe(text);
      RoundTripTotal(text);
      TotalIsNormalisedLength(text);
    }
  }

  /** 2^31 twos and a single one: the rarest literal occurs once, so nothing shrinks the total. */
  lemma LongTextIsLost()
    ensures !RoundTrips([1 as Lit] + seq(SIGN32, _ => 2 as Lit))
  {
    hide RoundTrips;
    var twos: seq<Lit> := seq(SIGN32, _ => 2);
    var text := [1 as Lit] + twos;
    RoundTripIffSupported(text);
    AllEqual(twos, 2);
    assert multiset(text) == multiset{1 as Lit} + multiset(twos);
    assert Histogram(text)[1] == 1;
    assert MinCount(text) == 1;
    assert Quot(|text|, 1) == |text|;
  }

  /** Literal 255 is not in the total that the header announces. */
  lemma TopLiteralIsLost()
    ensures !RoundTrips([255])
  {
    assert 255 in [255 as Lit];
    RoundTripIffSupported([255]);
  }
}
