/** The decoder on any stream of bits: reads past the end give zero bits, as the source's do. Every
    supported text comes back; a text that starts with a rare zero ends in a division by zero. */
module ArithmeticStream {
  import opened BitStream
  import opened Sequences
  import opened ArithmeticModel
  import opened ArithmeticTable
  import opened ArithmeticRoundTrip
  import opened ArithmeticDomain
  import opened Wrappers

  // ---------- the decoder's calls ----------

  /** k codebook entries and what is left. */
  function ReadBook(bits: seq<bool>, k: nat): (r: (seq<Entry>, seq<bool>))
    ensures |r.0| == k
    decreases k
  {
    if k == 0 then ([], bits)
    else
      var (e, rest) := ReadEntry(bits);
      var more := ReadBook(rest, k - 1);
      ([e] + more.0, more.1)
  }

  function ReadEntry(bits: seq<bool>): (Entry, seq<bool>) {
    assert Pow2(8) == 256 by { Pow2_8(); }
    (Entry(FromBits(Padded(bits, 8)), FromBits(Padded(Drop(bits, 8), 32))), Drop(Drop(bits, 8), 32))
  }

  /** What the constructor reads, and what is left. */
  function ReadHeader(bits: seq<bool>): (Header, seq<bool>) {
    var book := ReadBook(Drop(Drop(bits, 32), 8), FromBits(Padded(Drop(bits, 32), 8)));
    (Header(FromBits(Padded(bits, 32)), book.0), book.1)
  }

  /** literal_counter, the buffer of decoded literals, how many of them have been returned, and the
      bits not yet read. */
  datatype DecState = DecState(counter: nat, decoded: seq<Lit>, read: nat, rest: seq<bool>)

  /** Reads a code word and, unless it is the dummy, decodes it into the buffer. */
  function Refill(h: Header, s: DecState): Option<DecState>
    requires h.Valid()
  {
    var code, rest := FromBits(Padded(s.rest, 64)), Drop(s.rest, 64);
    if code == MAX64 then Some(s.(rest := rest))
    else match DecodeBlock(h, s.counter, FRESH, code)
      case None => None
      case Some(block) => Some(DecState(block.1, block.0, 0, rest))
  }

  /** One call of decode: the character behind the buffer is a zero, the one behind that is not defined. */
  function Next(h: Header, s: DecState): Option<(Lit, DecState)>
    requires h.Valid()
  {
    match if s.decoded == [] then Refill(h, s) else Some(s)
    case None => None
    case Some(t) =>
      if t.read > |t.decoded| then None
      else
        var val := if t.read == |t.decoded| then 0 else t.decoded[t.read];
        var u := t.(read := t.read + 1);
        match if u.read == |u.decoded| then Refill(h, u) else Some(u)
        case None => None
        case Some(v) => Some((val, v))
  }

  /** A call reads on, or it goes on in the buffer. */
  lemma NextShrinks(h: Header, s: DecState)
    requires h.Valid() && s.rest != [] && Next(h, s).Some?
    ensures var t := Next(h, s).value.1;
            || |t.rest| < |s.rest|
            || (t.rest == s.rest && t.decoded == s.decoded && s.read <= |s.decoded| && t.read == s.read + 1)
  {
    hide DecodeBlock, FromBits;
  }

  /** The literals returned until the stream is at its end. */
  function DecodeRest(h: Header, s: DecState): Option<seq<Lit>>
    requires h.Valid()
    decreases |s.rest|, |s.decoded| + 1 - s.read
  {
    if s.rest == [] then Some([])
    else match Next(h, s)
      case None => None
      case Some(r) =>
        NextShrinks(h, s);
        match DecodeRest(h, r.1)
        case None => None
        case Some(more) => Some([r.0] + more)
  }

  /** Opening a decoder on a stream and decoding until its end; None is a division by zero or an access
      outside an array. */
  function DecodeBits(bits: seq<bool>): Option<seq<Lit>> {
    var (h, rest) := ReadHeader(bits);
    if h.book == [] then None else DecodeRest(h, DecState(0, [], 0, rest))
  }

  // ---------- code words that go on giving literals ----------

  lemma {:induction false} WordBitsFront(w: nat, ws: seq<nat>)
    ensures WordBits([w] + ws) == ToBits(w, 64) + WordBits(ws)
  {
    hide ToBits;
    if ws == [] {
      assert [w] + ws == [w];
      assert [w][..0] == [];
    } else {
      WordBitsFront(w, ws[..|ws| - 1]);
      assert ([w] + ws)[..|ws|] == [w] + ws[..|ws| - 1];
    }
  }

  /** Every word but the last gives literals, and the last is the dummy. */
  ghost predicate GoodWords(h: Header, counter: nat, ws: seq<nat>)
    requires h.Valid()
    decreases |ws|
  {
    && ws != []
    && ws[0] < W64
    && (|ws| == 1 <==> ws[0] == MAX64)
    && (|ws| > 1 ==>
          var block := DecodeBlock(h, counter, FRESH, ws[0]);
          block.Some? && block.value.0 != [] && GoodWords(h, block.value.1, ws[1..]))
  }

  lemma {:induction false} GoodWordsDecode(h: Header, counter: nat, ws: seq<nat>)
    requires h.Valid() && GoodWords(h, counter, ws)
    ensures DecodeWords(h, counter, ws).Some?
    ensures |ws| > 1 <==> DecodeWords(h, counter, ws).value != []
    decreases |ws|
  {
    hide DecodeBlock;
    if |ws| > 1 {
      GoodWordsDecode(h, DecodeBlock(h, counter, FRESH, ws[0]).value.1, ws[1..]);
    } else {
      assert ws[1..] == [];
    }
  }

  /** The literals of the code words not yet read. */
  ghost function Later(h: Header, counter: nat, ws: seq<nat>): seq<Lit>
    requires h.Valid() && GoodWords(h, counter, ws)
  {
    GoodWordsDecode(h, counter, ws);
    DecodeWords(h, counter, ws).value
  }

  /** The first word finishes the block decoded from b, and the words after it are good. */
  ghost predicate GoodFrom(h: Header, counter: nat, b: Bounds, ws: seq<nat>)
    requires h.Valid() && ws != []
  {
    var block := DecodeBlock(h, counter, b, ws[0]);
    ws[0] < W64 && block.Some? && GoodWords(h, block.value.1, ws[1..])
  }

  /** The words of a supported text are good from every point of its encoding on. */
  lemma {:induction false} RestWordsGood(text: seq<Lit>, b: Bounds, rest: seq<Lit>)
    requires Supported(text) && |rest| <= |text| && (forall v :: v in rest ==> v in text)
    requires b.lo < b.hi <= MAX64
    requires Total(text) > 0 && HeaderOf(text).Valid()
    ensures GoodFrom(HeaderOf(text), |text| - |rest|, b, RestWords(Table(text), b, rest))
    decreases |rest|, if b.Range() < Total(text) then 1 else 0
  {
    hide Table, MinCount, Narrow, Search, Quot, Offset, GoodFrom, RestWords, DecodeBlock, DecodeFrom;
    var h, t, counter := HeaderOf(text), Table(text), |text| - |rest|;
    HeaderParts(text);
    TotalIsNormalisedLength(text);
    RestWordsStep(t, b, rest);
    if rest == [] {
      GoodEnd(h, b);
    } else if b.Range() < Total(text) {
      RestWordsGood(text, FRESH, rest);
      FirstSearch(text, FRESH, rest);
      OnlyLastIsDummy(text, FRESH, rest);
      GoodFlush(h, counter, b, RestWords(t, FRESH, rest));
    } else {
      var n := Narrow(t, b, rest[0]);
      NarrowNests(text, b, rest[0]);
      RestWordsGood(text, n, rest[1..]);
      FirstSearch(text, b, rest);
      GoodStep(h, counter, b, RestWords(t, b, rest), rest[0], n);
    }
  }

  /** The first code word leads the search to the next literal. */
  lemma FirstSearch(text: seq<Lit>, b: Bounds, rest: seq<Lit>)
    requires Supported(text) && 0 < |rest| <= |text| && (forall v :: v in rest ==> v in text)
    requires b.lo < b.hi <= MAX64 && Total(text) <= b.Range()
    requires Total(text) > 0 && HeaderOf(text).Valid() && HeaderOf(text).Parts() > 0
    ensures Search(HeaderOf(text), 0, b.lo, b.lo, b.hi, b.Range(), RestWords(Table(text), b, rest)[0])
         == Found(rest[0], Narrow(Table(text), b, rest[0]))
  {
    hide Table, MinCount, Narrow, Search, Quot, Offset, RestWords, DecodeFrom;
    NarrowNests(text, b, rest[0]);
    TotalIsNormalisedLength(text);
    RestWordsStep(Table(text), b, rest);
    Lockstep(text, Narrow(Table(text), b, rest[0]), rest[1..]);
    SearchFindsLiteral(text, b, rest[0], RestWords(Table(text), b, rest)[0]);
  }

  lemma GoodEnd(h: Header, b: Bounds)
    requires h.Valid() && b.lo < W64
    ensures GoodFrom(h, h.literalCount, b, [b.lo, MAX64])
  {
    assert [b.lo, MAX64][1..] == [MAX64];
  }

  lemma GoodFlush(h: Header, counter: nat, b: Bounds, ws: seq<nat>)
    requires h.Valid() && 0 < h.Parts() <= MAX64 && counter < h.literalCount
    requires b.Range() < h.Parts() && b.lo < W64
    requires |ws| > 1 && ws[0] != MAX64 && GoodFrom(h, counter, FRESH, ws)
    requires Search(h, 0, 0, 0, MAX64, MAX64, ws[0]).Found?
    ensures GoodFrom(h, counter, b, [b.lo] + ws)
  {
    hide Search;
    assert ([b.lo] + ws)[1..] == ws;
  }

  lemma GoodStep(h: Header, counter: nat, b: Bounds, ws: seq<nat>, v: Lit, n: Bounds)
    requires h.Valid() && ws != [] && 0 < h.Parts() <= b.Range() && counter < h.literalCount
    requires Search(h, 0, b.lo, b.lo, b.hi, b.Range(), ws[0]) == Found(v, n)
    requires GoodFrom(h, counter + 1, n, ws)
    ensures GoodFrom(h, counter, b, ws)
  {
    hide Search;
  }

  /** The words of a supported text as a decoder meets them. */
  lemma EncodedGood(text: seq<Lit>)
    requires Supported(text)
    ensures Total(text) > 0 && HeaderOf(text).Valid()
    ensures var ws := RestWords(Table(text), FRESH, text);
            |ws| > 1 && GoodWords(HeaderOf(text), 0, ws) && Later(HeaderOf(text), 0, ws) == text
  {
    hide Table, MinCount, Search, Narrow, RestWords, DecodeBlock;
    HeaderParts(text);
    TotalIsNormalisedLength(text);
    var ws, h := RestWords(Table(text), FRESH, text), HeaderOf(text);
    RestWordsGood(text, FRESH, text);
    OnlyLastIsDummy(text, FRESH, text);
    Lockstep(text, FRESH, text);
    FirstSearch(text, FRESH, text);
    BlockStarts(h, ws[0]);
    assert DecodeWords(h, 0, ws) == DecodeFrom(h, 0, FRESH, ws);
  }

  lemma BlockStarts(h: Header, code: nat)
    requires h.Valid() && 0 < h.Parts() <= MAX64 && 0 < h.literalCount
    requires Search(h, 0, 0, 0, MAX64, MAX64, code).Found?
    ensures DecodeBlock(h, 0, FRESH, code).Some? ==> DecodeBlock(h, 0, FRESH, code).value.0 != []
  {
    hide Search;
  }

  // ---------- reading what was written ----------

  lemma {:induction false} BookBitsFront(e: Entry, b: seq<Entry>)
    ensures BookBits([e] + b) == EntryBits(e) + BookBits(b)
  {
    hide EntryBits;
    if b == [] {
      assert [e] + b == [e];
      assert [e][..0] == [];
    } else {
      BookBitsFront(e, b[..|b| - 1]);
      assert ([e] + b)[..|b|] == [e] + b[..|b| - 1];
    }
  }

  /** Header, codebook and words as the reads of the constructor find them. */
  lemma {:induction false} ReadBookBits(b: seq<Entry>, tail: seq<bool>)
    requires forall j :: 0 <= j < |b| ==> b[j].value < W32
    ensures ReadBook(BookBits(b) + tail, |b|) == (b, tail)
  {
    hide EntryBits, BookBits, ReadEntry;
    if b == [] {
      NoBookLeft(b, tail);
    } else {
      assert b == [b[0]] + b[1..];
      BookBitsFront(b[0], b[1..]);
      Assoc(EntryBits(b[0]), BookBits(b[1..]), tail);
      ReadEntryBits(b[0], BookBits(b[1..]) + tail);
      ReadBookBits(b[1..], tail);
    }
  }

  lemma NoBookLeft(b: seq<Entry>, tail: seq<bool>)
    requires b == []
    ensures BookBits(b) + tail == tail
  {
  }

  lemma ReadEntryBits(e: Entry, rest: seq<bool>)
    requires e.value < W32
    ensures ReadEntry(EntryBits(e) + rest) == (e, rest)
  {
    hide ToBits, FromBits, Pow2, Padded, Drop;
    ReadBack(e.lit, e.value, 0);
    Assoc(ToBits(e.lit, 8), ToBits(e.value, 32), rest);
    ReadsFront(ToBits(e.lit, 8), ToBits(e.value, 32) + rest);
    ReadsFront(ToBits(e.value, 32), rest);
  }

  lemma ReadCounts(n: nat, k: nat, rest: seq<bool>)
    requires n < W32 && k < 256
    ensures ReadHeader(ToBits(n, 32) + ToBits(k, 8) + rest)
         == (Header(n, ReadBook(rest, k).0), ReadBook(rest, k).1)
  {
    hide ToBits, FromBits, Pow2, Padded, Drop, ReadBook;
    ReadBack(k, n, 0);
    Assoc(ToBits(n, 32), ToBits(k, 8), rest);
    ReadsFront(ToBits(n, 32), ToBits(k, 8) + rest);
    ReadsFront(ToBits(k, 8), rest);
  }

  lemma ReadStream(h: Header, ws: seq<nat>)
    requires h.literalCount < W32 && |h.book| < 256
    requires forall j :: 0 <= j < |h.book| ==> h.book[j].value < W32
    ensures ReadHeader(StreamBits(h.literalCount, |h.book|, h.book, ws)) == (h, WordBits(ws))
  {
    hide ToBits, BookBits, WordBits, ReadBook, ReadHeader;
    ReadCounts(h.literalCount, |h.book|, BookBits(h.book) + WordBits(ws));
    ReadBookBits(h.book, WordBits(ws));
  }

  lemma ReadWord(w: nat, ws: seq<nat>)
    requires w < W64
    ensures FromBits(Padded(WordBits([w] + ws), 64)) == w && Drop(WordBits([w] + ws), 64) == WordBits(ws)
  {
    hide ToBits, FromBits, WordBits, Pow2, Padded, Drop;
    WordBitsFront(w, ws);
    ReadsFront(ToBits(w, 64), WordBits(ws));
    ReadBack(0, 0, w);
  }

  // ---------- supported texts ----------

  /** Between two calls: literals are left in the buffer and good words behind it, or all is over, or
      nothing has been read yet. */
  ghost predicate Going(h: Header, s: DecState, ws: seq<nat>)
    requires h.Valid()
  {
    && s.rest == WordBits(ws)
    && s.read <= |s.decoded|
    && if s.read < |s.decoded| then GoodWords(h, s.counter, ws)
       else if s.decoded != [] then ws == []
       else |ws| > 1 && GoodWords(h, s.counter, ws)
  }

  /** The literals that the coming calls return. */
  ghost function Ahead(h: Header, s: DecState, ws: seq<nat>): seq<Lit>
    requires h.Valid() && Going(h, s, ws)
  {
    if ws == [] then [] else s.decoded[s.read..] + Later(h, s.counter, ws)
  }

  lemma RefillGoes(h: Header, s: DecState, ws: seq<nat>)
    requires h.Valid() && GoodWords(h, s.counter, ws) && s.rest == WordBits(ws)
    requires s.read == |s.decoded| && (s.decoded == [] ==> |ws| > 1)
    ensures Refill(h, s).Some?
    ensures var t := Refill(h, s).value;
            Going(h, t, ws[1..]) && Ahead(h, t, ws[1..]) == Later(h, s.counter, ws)
            && (|ws| > 1 ==> t.decoded != [] && t.read == 0)
  {
    hide WordBits, FromBits, Padded, Drop, DecodeBlock;
    assert ws == [ws[0]] + ws[1..];
    ReadWord(ws[0], ws[1..]);
    GoodWordsDecode(h, s.counter, ws);
    if |ws| > 1 {
      var block := DecodeBlock(h, s.counter, FRESH, ws[0]).value;
      GoodWordsDecode(h, block.1, ws[1..]);
      assert block.0[0..] == block.0;
    }
  }

  lemma NextGoes(h: Header, s: DecState, ws: seq<nat>) returns (rest: seq<nat>)
    requires h.Valid() && Going(h, s, ws) && ws != []
    ensures Ahead(h, s, ws) != [] && Next(h, s).Some? && Next(h, s).value.0 == Ahead(h, s, ws)[0]
    ensures Going(h, Next(h, s).value.1, rest) && Ahead(h, Next(h, s).value.1, rest) == Ahead(h, s, ws)[1..]
  {
    hide Refill, Later, GoodWords, WordBits;
    var t, us := s, ws;
    if s.decoded == [] {
      RefillGoes(h, s, ws);
      t, us := Refill(h, s).value, ws[1..];
    }
    var u := t.(read := t.read + 1);
    rest := us;
    assert t.decoded[t.read..][1..] == u.decoded[u.read..];
    if u.read == |u.decoded| {
      assert u.decoded[u.read..] == [];
      RefillGoes(h, u, us);
      rest := us[1..];
    }
  }

  lemma AtEnd(h: Header, s: DecState, ws: seq<nat>)
    requires h.Valid() && Going(h, s, ws)
    ensures s.rest == [] <==> ws == []
    ensures ws == [] ==> Ahead(h, s, ws) == []
  {
  }

  /** The calls return exactly the literals ahead, and then the stream is at its end. */
  lemma {:induction false} DecodeRestGoes(h: Header, s: DecState, ws: seq<nat>)
    requires h.Valid() && Going(h, s, ws)
    ensures DecodeRest(h, s) == Some(Ahead(h, s, ws))
    decreases |s.rest|, |s.decoded| + 1 - s.read
  {
    hide Going, Ahead, Next;
    AtEnd(h, s, ws);
    if ws != [] {
      var rest := NextGoes(h, s, ws);
      var (val, t) := Next(h, s).value;
      NextShrinks(h, s);
      DecodeRestGoes(h, t, rest);
      var ahead := Ahead(h, s, ws);
      assert ahead == [ahead[0]] + ahead[1..];
    }
  }

  // ---------- whole texts ----------

  lemma EncodedStream(text: seq<Lit>)
    requires Supported(text)
    ensures Total(text) > 0 && HeaderOf(text).Valid()
    ensures var ws, h := RestWords(Table(text), FRESH, text), HeaderOf(text);
            && h.literalCount < W32 && |h.book| < 256
            && (forall j :: 0 <= j < |h.book| ==> h.book[j].value < W32)
            && EncodeText(text) == Some(StreamBits(h.literalCount, |h.book|, h.book, ws))
  {
    hide Table, Book, MinCount, EncodeText, StreamBits, EncRun, PlanOf;
    HeaderParts(text);
    TotalIsNormalisedLength(text);
    PlanOfText(text);
    BookFits(text, 255);
    var ws := RestWords(Table(text), FRESH, text);
    RunWritesRestWords(text, ENC_START, text);
    assert ENC_START.words + ws == ws;
    ParseEncoded(text);
    EncodedShape(text);
  }

  /** For every supported text decoding with padded reads gives the text back, too. */
  lemma SupportedComesBack(text: seq<Lit>)
    requires Supported(text)
    ensures EncodeText(text).Some? && DecodeBits(EncodeText(text).value) == Some(text)
  {
    hide EncodeText, StreamBits, WordBits, HeaderOf, Supported, GoodWords, Later, RestWords, Table;
    hide DecodeRest, ReadHeader;
    EncodedGood(text);
    EncodedStream(text);
    var h, ws := HeaderOf(text), RestWords(Table(text), FRESH, text);
    ReadStream(h, ws);
    var s := DecState(0, [], 0, WordBits(ws));
    DecodeRestGoes(h, s, ws);
    assert [] + Later(h, 0, ws) == Later(h, 0, ws);
  }

  // ---------- rare zeros ----------

  /** With one entry too few the decoder takes the next 40 bits for the last one. */
  lemma {:induction false} ReadBookTooFar(b: seq<Entry>, tail: seq<bool>)
    requires forall j :: 0 <= j < |b| ==> b[j].value < W32
    ensures ReadBook(BookBits(b) + tail, |b| + 1) == (b + [ReadEntry(tail).0], ReadEntry(tail).1)
  {
    hide EntryBits, BookBits, ReadEntry;
    if b == [] {
      NoBookLeft(b, tail);
      var (e, rest) := ReadEntry(tail);
      assert ReadBook(rest, 0) == ([], rest) && ReadBook(tail, 1).0 == [e] + [] == b + [e];
    } else {
      assert b == [b[0]] + b[1..];
      BookBitsFront(b[0], b[1..]);
      Assoc(EntryBits(b[0]), BookBits(b[1..]), tail);
      ReadEntryBits(b[0], BookBits(b[1..]) + tail);
      ReadBookTooFar(b[1..], tail);
      var e := ReadEntry(tail).0;
      assert ReadBook(BookBits(b) + tail, |b| + 1).0 == [b[0]] + (b[1..] + [e]) == b + [e];
    }
  }

  lemma {:induction false} LeadingZeroBit(b: seq<bool>)
    requires b != [] && !b[0]
    ensures FromBits(b) < Pow2(|b| - 1)
  {
    if |b| == 1 {
      assert b[..0] == [];
    } else {
      LeadingZeroBit(b[..|b| - 1]);
    }
  }

  /** A code word of value 0 read as an entry: it gives literal 0 and the value 0, and leaves 24 zeros. */
  lemma ZeroWordAsEntry(ws: seq<nat>)
    requires ws != [] && ws[0] == 0
    ensures ReadEntry(WordBits(ws)).0 == Entry(0, 0)
    ensures var rest := ReadEntry(WordBits(ws)).1;
            rest != [] && FromBits(Padded(rest, 64)) != MAX64
  {
    hide ToBits, FromBits, WordBits, Pow2;
    var more := WordBits(ws[1..]);
    assert ws == [0] + ws[1..];
    WordBitsFront(0, ws[1..]);
    ZeroBits(64);
    ZeroBits(8);
    ZeroBits(32);
    assert Zeros(64) + more == Zeros(8) + (Zeros(32) + (Zeros(24) + more));
    ReadsFront(Zeros(8), Zeros(32) + (Zeros(24) + more));
    ReadsFront(Zeros(32), Zeros(24) + more);
    var rest := Zeros(24) + more;
    assert ReadEntry(WordBits(ws)) == (Entry(0, 0), rest);
    assert !rest[0] && !Padded(rest, 64)[0];
    LeadingZeroBit(Padded(rest, 64));
    Pow2_64();
    assert Pow2(64) == 2 * Pow2(63) by { HalfOf64(); }
  }

  lemma HalfOf64()
    ensures Pow2(64) == 2 * Pow2(63)
  {
  }

  /** A rare zero leaves the codebook one entry short. If the first code word is 0, the entry read from it
      makes the total 0, and the first call divides by it. */
  lemma ZeroWordDividesByZero(text: seq<Lit>)
    requires Countable(text) && !ZeroSafe(text) && EncodeText(text).Some?
    requires var run := EncRun(PlanOf(text), ENC_START, text);
             run.Some? ==> run.value.words != [] && run.value.words[0] == 0
    ensures DecodeBits(EncodeText(text).value).None?
  {
    hide ToBits, FromBits, BookBits, WordBits, ReadBook, ReadEntry, Table, Book, EncRun, PlanOf;
    hide ZeroSafe, Padded, Drop, EncodeText;
    EncodedShape(text);
    var ws, b := EncRun(PlanOf(text), ENC_START, text).value.words, Book(Table(text), 255);
    TotalIsNormalisedLength(text);
    PlanWithoutZero(text);
    BookFits(text, 255);
    ReadCounts(|text|, |b| + 1, BookBits(b) + WordBits(ws));
    ReadBookTooFar(b, WordBits(ws));
    ZeroWordAsEntry(ws);
    var h := Header(|text|, b + [Entry(0, 0)]);
    var s := DecState(0, [], 0, ReadEntry(WordBits(ws)).1);
    assert h.Parts() == 0;
    assert Refill(h, s).None?;
  }

  lemma PlanWithoutZero(text: seq<Lit>)
    requires Countable(text) && !ZeroSafe(text)
    ensures PlanOf(text).codebookSize == |Book(Table(text), 255)| + 1 < 256
  {
    hide Quot, Table, Histogram;
    BookSizeWithoutZero(text, 255);
    PresentBound(text, 255);
  }

  lemma {:induction false} RunKeepsWords(p: Plan, s: EncState, text: seq<Lit>)
    requires |p.table| == 256 && EncRun(p, s, text).Some?
    ensures s.words <= EncRun(p, s, text).value.words
    decreases |text|
  {
    hide Narrow;
    if text != [] {
      RunKeepsWords(p, EncStep(p, s, text[0]).value, text[1..]);
    }
  }

  /** A zero without an interval empties the current one. */
  lemma ZeroEmptiesInterval(t: seq<nat>, b: Bounds)
    requires |t| == 256 && t[0] == 0 && t[255] > 0 && b.lo < W64
    ensures Narrow(t, b, 0) == Bounds(b.lo, b.lo)
  {
    assert Quot(0, t[255]) == 0 by { QuotientUnique(0, t[255], 0, 0); }
    assert Offset(b.Range(), t[255], 0) == 0;
  }

  lemma RareZeroTable(text: seq<Lit>)
    requires Countable(text) && !ZeroSafe(text)
    ensures Table(text)[0] == 0 && Total(text) == Table(text)[254] == Quot(|text|, MinCount(text))
  {
    TotalIsNormalisedLength(text);
    HistogramExact(text, 0);
    SmallQuotient(multiset(text)[0], MinCount(text));
  }

  lemma PlanTable(text: seq<Lit>)
    ensures PlanOf(text).table == Table(text)
  {
  }

  /** No text that starts with a rare zero comes back: decoding it divides by zero. */
  lemma LeadingRareZeroIsLost(text: seq<Lit>)
    requires Countable(text) && !ZeroSafe(text) && text[0] == 0
    ensures EncodeText(text).Some? ==> DecodeBits(EncodeText(text).value).None?
  {
    hide Table, Narrow, DecodeBits, HeaderBits, WordBits, ZeroSafe, MinCount, Quot;
    if EncodeText(text).Some? {
      hide PlanOf;
      var p := PlanOf(text);
      RareZeroTable(text);
      TotalIsNormalisedLength(text);
      PlanTable(text);
      ZeroEmptiesInterval(p.table, FRESH);
      var s := EncStep(p, ENC_START, 0).value;
      assert s.bounds == Bounds(0, 0);
      if |text| == 1 {
        assert text[1..] == [];
      } else {
        var rest, s' := text[1..], EncStep(p, s, text[1]).value;
        assert rest[0] == text[1] && rest[1..] == text[2..];
        assert EncRun(p, ENC_START, text) == EncRun(p, s, rest) == EncRun(p, s', text[2..]);
        assert s'.words[0] == 0;
        RunKeepsWords(p, s', text[2..]);
      }
      ZeroWordDividesByZero(text);
    }
  }

  const RARE_ZERO: seq<Lit> := [1, 1, 0]

  lemma RareZeroCounts()
    ensures var counts := multiset(RARE_ZERO);
            counts[0] == 1 && counts[1] == 2 && 255 !in RARE_ZERO
    ensures MinCount(RARE_ZERO) == 2
  {
    var text := RARE_ZERO;
    assert multiset(text) == multiset{1 as Lit, 1, 0};
    assert Histogram(text)[1] == 2;
    MinWitness(text, 255);
  }

  lemma RareZeroPlan()
    ensures Countable(RARE_ZERO) && !ZeroSafe(RARE_ZERO) && !Supported(RARE_ZERO)
    ensures var t := Table(RARE_ZERO); t[0] == 0 && t[1] == t[254] == t[255] == 1
  {
    hide Quot, Histogram, MinAt, CumAt, MinCount;
    var text := RARE_ZERO;
    RareZeroCounts();
    assert 0 in text;
    RareZeroTable(text);
    BelowAll(text, 1);
    CumIsBelow(text, 1);
    assert MinAt(Histogram(text), 255) == MinCount(text) by { MinCountIs(text); }
    assert Quot(3, 2) == 1 by { QuotientThreeHalves(); }
  }

  lemma MinCountIs(text: seq<Lit>)
    ensures MinAt(Histogram(text), 255) == MinCount(text)
  {
  }

  lemma QuotientThreeHalves()
    ensures Quot(3, 2) == 1
  {
  }

  /** One literal that has the whole interval keeps it. */
  lemma WholeInterval(t: seq<nat>)
    requires |t| == 256 && t[0] == 0 && t[1] == t[255] == 1
    ensures Narrow(t, FRESH, 1) == FRESH
  {
    assert Quot(MAX64, 1) == MAX64;
  }

  /** A zero rarer than every other literal is rounded away: 1, 1, 0 ends in a division by zero. */
  lemma RareZeroIsLost()
    ensures !RoundTrips(RARE_ZERO)
    ensures EncodeText(RARE_ZERO).Some? && DecodeBits(EncodeText(RARE_ZERO).value).None?
  {
    hide Table, Narrow, DecodeBits, HeaderBits, WordBits, ZeroSafe, MinCount, Quot, PlanOf, RoundTrips;
    var text, p := RARE_ZERO, PlanOf(RARE_ZERO);
    RoundTripIffSupported(text);
    RareZeroPlan();
    TotalIsNormalisedLength(text);
    PlanTable(text);
    WholeInterval(p.table);
    ZeroEmptiesInterval(p.table, FRESH);
    assert EncStep(p, ENC_START, 1) == Some(EncState(FRESH, 1, []));
    assert EncStep(p, EncState(FRESH, 1, []), 1) == Some(EncState(FRESH, 2, []));
    assert [] + [0, MAX64] == [0, MAX64];
    assert EncStep(p, EncState(FRESH, 2, []), 0) == Some(EncState(Bounds(0, 0), 3, [0, MAX64]));
    assert text[1..] == [1, 0] && text[1..][1..] == [0] && text[1..][1..][1..] == [];
    assert EncRun(p, ENC_START, text) == Some(EncState(Bounds(0, 0), 3, [0, MAX64]));
    ZeroWordDividesByZero(text);
  }
}
