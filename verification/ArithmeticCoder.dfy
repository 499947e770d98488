/** The arithmetic coder's Encoder and Decoder classes, tied to the functions of ArithmeticModel. */
module ArithmeticCoder {
  import opened BitStream
  import opened Sequences
  import opened ArithmeticModel
  import opened ArithmeticTable
  import opened ArithmeticRoundTrip
  import opened ArithmeticDomain
  import opened ArithmeticStream
  import opened Wrappers

  lemma SumStep(h: seq<nat>, i: nat)
    requires |h| == 256 && i < 256 && h[i] < W32
    ensures CumAt(h, i) == if i == 0 then h[0] else (h[i] + CumAt(h, i - 1)) % W32
    ensures MinAt(h, i) == if i == 0 then W32 - 1
                           else if h[i] != 0 && h[i] < MinAt(h, i - 1) then h[i] else MinAt(h, i - 1)
    ensures PresentUpTo(h, i) == (if i == 0 then 0 else PresentUpTo(h, i - 1)) + if h[i] != 0 then 1 else 0
  {
  }

  lemma CountOneMore(n: nat)
    ensures (n % W32 + 1) % W32 == (n + 1) % W32
  {
  }

  method CountAlphabetLiterals(input: seq<Lit>) returns (c: array<nat>)
    ensures fresh(c) && c[..] == Histogram(input)
  {
    c := new nat[256](_ => 0);
    for i := 0 to |input|
      invariant c.Length == 256
      invariant forall v :: 0 <= v < 256 ==> c[v] == multiset(input[..i])[v] % W32
    {
      var v := input[i];
      ghost var counts := multiset(input[..i]);
      assert multiset(input[..i + 1]) == counts + multiset{v} by {
        assert input[..i + 1] == input[..i] + [v];
      }
      CountOneMore(counts[v]);
      c[v] := (c[v] + 1) % W32;
    }
    assert input[..|input|] == input;
  }

  lemma ExtendBook(prefix: seq<bool>, b: seq<Entry>, e: Entry)
    ensures prefix + BookBits(b) + EntryBits(e) == prefix + BookBits(b + [e])
  {
    hide EntryBits, BookBits;
    BookBitsLast(b, e);
    Assoc(prefix, BookBits(b), EntryBits(e));
  }

  class Encoder {
    const out: BitOStream
    const C: array<nat>
    var lowerBound: nat
    var upperBound: nat
    var codebookSize: nat
    var literalCount: nat
    var literalCounter: nat
    var minRange: nat
    ghost var words: seq<nat>      // the code words written so far
    ghost const before: seq<bool>  // what the stream held when the encoder was made

    ghost predicate Shaped()
      reads this, C
    {
      C.Length == 256
    }

    ghost function CurrentPlan(): Plan
      reads this, C
      requires Shaped()
    {
      Plan(literalCount, codebookSize, C[..])
    }

    ghost function State(): EncState
      reads this
    {
      EncState(Bounds(lowerBound, upperBound), literalCounter, words)
    }

    ghost predicate Valid()
      reads this, C, out
    {
      && Shaped()
      && out.Valid()
      && minRange == C[254]
      && out.Written() == before + HeaderBits(CurrentPlan()) + WordBits(words)
    }

    /** Counts the literals, builds the intervals and writes the codebook. */
    constructor (out: BitOStream, literals: seq<Lit>)
      requires out.Valid()
      modifies out
      ensures Valid() && this.out == out && before == old(out.Written()) && fresh(C)
      ensures CurrentPlan() == PlanOf(literals) && State() == ENC_START
      ensures forall m, i :: Countable(literals) && LeastCount(literals, m) && 0 <= i < 256 ==>
                m > 0 && C[i] == Below(literals, i) / m
    {
      hide ToBits, HeaderBits;
      this.out, before := out, out.Written();
      var counts := CountAlphabetLiterals(literals);
      C := counts;
      lowerBound, upperBound, words := 0, MAX64, [];
      codebookSize, literalCount, literalCounter, minRange := 0, 0, 0, W32 - 1;
      new;
      BuildIntervals();
      WriteCodebook();
      assert out.Written() == before + HeaderBits(CurrentPlan()) + WordBits([]);
      forall m: nat, i | Countable(literals) && LeastCount(literals, m) && 0 <= i < 256
        ensures m > 0 && C[i] == Below(literals, i) / m
      {
        TableIsScaled(literals, m, i);
      }
    }

    /** Turns the counts into normalised cumulative intervals, in place. */
    method BuildIntervals()
      requires Shaped() && codebookSize == 0 && forall j :: 0 <= j < 256 ==> C[j] < W32
      modifies this`codebookSize, this`literalCount, this`minRange, C
      ensures CurrentPlan() == ArithmeticModel.BuildIntervals(old(C[..])) && minRange == C[254]
    {
      hide Quot, CumAt, MinAt, PresentUpTo;
      ghost var h := C[..];
      SumStep(h, 0);
      if C[0] != 0 {
        codebookSize := (codebookSize + 1) % 256;
      }
      var min := W32 - 1;
      for i := 1 to 256
        invariant min == MinAt(h, i - 1) && codebookSize == PresentUpTo(h, i - 1) % 256
        invariant forall j :: 0 <= j < i ==> C[j] == CumAt(h, j)
        invariant forall j :: i <= j < 256 ==> C[j] == h[j]
      {
        SumStep(h, i);
        if C[i] != 0 {
          codebookSize := (codebookSize + 1) % 256;
          min := if C[i] < min then C[i] else min;
        }
        C[i] := (C[i] + C[i - 1]) % W32;
      }
      literalCount := C[254];
      Normalise(h, min);
      minRange := C[254];
    }

    /** The second loop of build_intervals. */
    method Normalise(ghost h: seq<nat>, min: nat)
      requires Shaped() && |h| == 256 && min == MinAt(h, 255)
      requires forall j :: 0 <= j < 256 ==> C[j] == CumAt(h, j)
      modifies C
      ensures C[..] == Normalised(h)
    {
      hide Quot, CumAt, MinAt;
      for i := 0 to 256
        invariant forall j :: 0 <= j < i ==> C[j] == TableAt(h, j)
        invariant forall j :: i <= j < 256 ==> C[j] == CumAt(h, j)
      {
        C[i] := Quot(C[i], min);
      }
    }

    method WriteCodebook()
      requires Shaped() && out.Valid()
      modifies out
      ensures out.Valid() && out.Written() == old(out.Written()) + HeaderBits(CurrentPlan())
    {
      hide ToBits, BookBits, EntryBits, Book, BitOStream.Written, BitOStream.Valid;
      ghost var start, t := out.Written(), C[..];
      ghost var counts := ToBits(literalCount, 32) + ToBits(codebookSize, 8);
      out.WriteInt(literalCount, 32);
      out.WriteInt(codebookSize, 8);
      Assoc(start, ToBits(literalCount, 32), ToBits(codebookSize, 8));
      BookStep(t, 0);
      if C[0] != 0 {
        WriteEntry(Entry(0, C[0]));
        ExtendBook(start + counts, [], Entry(0, C[0]));
        assert [] + [Entry(0, C[0])] == Book(t, 0);
      }
      for i := 1 to 256
        invariant C[..] == t && out.Valid()
        invariant out.Written() == start + counts + BookBits(Book(t, i - 1))
      {
        BookStep(t, i);
        if C[i] != C[i - 1] {
          WriteEntry(Entry(i, C[i]));
          ExtendBook(start + counts, Book(t, i - 1), Entry(i, C[i]));
        }
      }
      Assoc(start, counts, BookBits(Book(t, 255)));
    }

    method WriteEntry(e: Entry)
      requires out.Valid()
      modifies out
      ensures out.Valid() && out.Written() == old(out.Written()) + EntryBits(e)
    {
      hide ToBits;
      Assoc(out.Written(), ToBits(e.lit, 8), ToBits(e.value, 32));
      out.WriteInt(e.lit, 8);
      out.WriteInt(e.value, 32);
    }

    method WriteCode(code: nat)
      requires Valid()
      modifies this`words, out
      ensures Valid() && words == old(words) + [code]
    {
      hide ToBits, WordBits, HeaderBits;
      out.WriteInt(code, 64);
      WordBitsLast(words, code);
      Assoc(before + HeaderBits(CurrentPlan()), WordBits(words), ToBits(code, 64));
      words := words + [code];
    }

    /** Narrows the bounds to literal v, flushing a block first when the range is too small. */
    method SetNewBounds(v: Lit)
      requires Valid() && C[255] > 0
      modifies this`lowerBound, this`upperBound, this`words, out
      ensures Valid()
      ensures var flush := old(State().bounds.Range()) < C[254];
              && words == (if flush then old(words) + [old(lowerBound)] else old(words))
              && Bounds(lowerBound, upperBound) == Narrow(C[..], if flush then FRESH else old(State().bounds), v)
    {
      hide HeaderBits, WordBits, Quot, BitOStream.Written, BitOStream.Valid;
      var range := Sub64(upperBound, lowerBound);
      if range < minRange {
        WriteCode(lowerBound);
        lowerBound, upperBound := 0, MAX64;
        range := Sub64(upperBound, lowerBound);
      }
      var total := C[255];
      var offsetUpper :=
        if range <= total then Quot(range * C[v] % W64, total) else Quot(range, total) * C[v] % W64;
      upperBound := (lowerBound + offsetUpper) % W64;
      if v != 0 {
        var offsetLower :=
          if range <= total then Quot(range * C[v - 1] % W64, total) else Quot(range, total) * C[v - 1] % W64;
        lowerBound := (lowerBound + offsetLower) % W64;
      }
    }

    /** Writes the last block and the dummy word. */
    method PostProcessing()
      requires Valid()
      modifies this`words, out
      ensures Valid() && words == old(words) + [lowerBound, MAX64]
    {
      WriteCode(lowerBound);
      WriteCode(MAX64);
    }

    /** Encodes one literal; not ok is the division by zero of an all-zero table. */
    method Encode(v: Lit) returns (ok: bool)
      requires Valid()
      modifies this`lowerBound, this`upperBound, this`words, this`literalCounter, out
      ensures Valid()
      ensures match EncStep(CurrentPlan(), old(State()), v)
              case None => !ok
              case Some(s) => ok && State() == s
    {
      hide HeaderBits, WordBits, Narrow;
      literalCounter := (literalCounter + 1) % W32;
      if C[255] == 0 {
        return false;
      }
      SetNewBounds(v);
      if literalCounter == literalCount {
        PostProcessing();
      }
      return true;
    }
  }

  // ---------- decoding ----------

  lemma BookStart(bits: seq<bool>, k: nat, b: seq<Entry>)
    requires b == []
    ensures ReadBook(bits, k) == (b + ReadBook(bits, k).0, ReadBook(bits, k).1)
  {
    assert b + ReadBook(bits, k).0 == ReadBook(bits, k).0;
  }

  lemma BookGrows(bits: seq<bool>, k: nat, b: seq<Entry>)
    requires k > 0
    ensures var (e, rest) := ReadEntry(bits);
            && b + ReadBook(bits, k).0 == b + [e] + ReadBook(rest, k - 1).0
            && ReadBook(bits, k).1 == ReadBook(rest, k - 1).1
  {
    hide ReadEntry;
  }

  lemma BookDone(bits: seq<bool>, b: seq<Entry>)
    ensures b + ReadBook(bits, 0).0 == b && ReadBook(bits, 0).1 == bits
  {
  }

  class Decoder {
    const input: BitIStream
    var literals: seq<Entry>
    var decoded: seq<Lit>
    var codebookSize: nat
    var literalCount: nat
    var literalCounter: nat
    var literalsRead: nat
    var minRange: nat

    ghost function CurrentHeader(): Header
      reads this
    {
      Header(literalCount, literals)
    }

    ghost predicate Shaped()
      reads this
    {
      CurrentHeader().Valid() && codebookSize == |literals| && minRange == CurrentHeader().Parts()
    }

    ghost predicate Valid()
      reads this, input
    {
      Shaped() && input.Valid()
    }

    ghost function State(): DecState
      reads this, input
      requires input.Valid()
    {
      DecState(literalCounter, decoded, literalsRead, input.Remaining())
    }

    /** Reads the header and the codebook. Without an entry there is no last one to take the minimal
        range from, and the decoder is not valid. */
    constructor (input: BitIStream)
      requires input.Valid()
      modifies input
      ensures this.input == input && input.Valid()
      ensures var (h, rest) := ReadHeader(old(input.Remaining()));
              CurrentHeader() == h && State() == DecState(0, [], 0, rest) && (h.book != [] ==> Valid())
    {
      hide ReadHeader;
      this.input := input;
      decoded, literalCounter, literalsRead := [], 0, 0;
      codebookSize, literalCount, minRange, literals := 0, 0, MAX64, [];
      new;
      ReadCodebook();
    }

    method ReadCodebook()
      requires input.Valid() && literals == []
      modifies this`codebookSize, this`literalCount, this`minRange, this`literals, input
      ensures input.Valid()
      ensures (CurrentHeader(), input.Remaining()) == ReadHeader(old(input.Remaining()))
      ensures literals != [] ==> Shaped()
    {
      hide FromBits, Pow2, Padded, Drop, ReadBook, ReadEntry;
      literalCount := input.ReadInt(32);
      codebookSize := input.ReadInt(8);
      ghost var n, k, bits := literalCount, codebookSize, input.Remaining();
      BookStart(bits, k, literals);
      for i := 0 to codebookSize
        invariant input.Valid() && |literals| == i && codebookSize == k && literalCount == n
        invariant ReadBook(bits, k)
               == (literals + ReadBook(input.Remaining(), k - i).0, ReadBook(input.Remaining(), k - i).1)
      {
        BookGrows(input.Remaining(), k - i, literals);
        var e := NextEntry();
        literals := literals + [e];
      }
      BookDone(input.Remaining(), literals);
      if codebookSize > 0 {
        minRange := SignExtend(literals[codebookSize - 1].value);
      }
    }

    method NextEntry() returns (e: Entry)
      requires input.Valid()
      modifies input
      ensures input.Valid() && (e, input.Remaining()) == ReadEntry(old(input.Remaining()))
    {
      hide FromBits, Padded, Drop, Pow2;
      Pow2_8();
      var c := input.ReadInt(8);
      var val := input.ReadInt(32);
      return Entry(c, val);
    }

    /** The interval search of one literal. */
    method SearchInterval(lowerBound: nat, upperBound: nat, range: nat, code: nat) returns (r: SearchResult)
      requires Shaped() && CurrentHeader().Parts() > 0
      ensures r == Search(CurrentHeader(), 0, lowerBound, lowerBound, upperBound, range, code)
    {
      hide Quot;
      var parts := SignExtend(literals[codebookSize - 1].value);
      var inner: nat, up: nat, i: nat := lowerBound, upperBound, 0;
      while i < codebookSize
        invariant i <= codebookSize
        invariant Search(CurrentHeader(), 0, lowerBound, lowerBound, upperBound, range, code)
               == Search(CurrentHeader(), i, lowerBound, inner, up, range, code)
      {
        var second := SignExtend(literals[i].value);
        var offset := if range <= parts then Quot(range * second % W64, parts) else Quot(range, parts) * second % W64;
        up := (lowerBound + offset) % W64;
        if code < up {
          return Found(literals[i].lit, Bounds(inner, up));
        }
        inner := up;
        i := i + 1;
      }
      return NotFound(Bounds(lowerBound, up));
    }

    /** Decodes one code word into the buffer; not ok is the division by zero of an empty table. */
    method DecodeCode(code: nat) returns (ok: bool)
      requires Shaped()
      modifies this`decoded, this`literalsRead, this`literalCounter
      ensures match DecodeBlock(CurrentHeader(), old(literalCounter), FRESH, code)
              case None => !ok
              case Some(block) => ok && decoded == block.0 && literalCounter == block.1 && literalsRead == 0
    {
      hide Search;
      ghost var h, want := CurrentHeader(), DecodeBlock(CurrentHeader(), literalCounter, FRESH, code);
      var b := FRESH;
      var os: seq<Lit> := [];
      if want.Some? {
        assert os + want.value.0 == want.value.0;
      }
      while minRange <= b.Range() && literalCounter < literalCount
        invariant CurrentHeader() == h
        invariant var rest := DecodeBlock(h, literalCounter, b, code);
                  if want.None? then rest.None? else rest.Some? && want.value == (os + rest.value.0, rest.value.1)
        decreases literalCount - literalCounter
      {
        if minRange == 0 {
          return false;
        }
        var found := SearchInterval(b.lo, b.hi, b.Range(), code);
        if found.Found? {
          ghost var rest := DecodeBlock(h, literalCounter + 1, found.bounds, code);
          if rest.Some? {
            Assoc(os, [found.lit], rest.value.0);
          }
          os := os + [found.lit];
        }
        b := found.bounds;
        literalCounter := literalCounter + 1;
      }
      ghost var none: seq<Lit> := [];
      assert os + none == os;
      decoded, literalsRead := os, 0;
      return true;
    }

    /** Reads a code word and, unless it is the dummy, decodes it into the buffer. */
    method NextBlock() returns (ok: bool)
      requires Valid()
      modifies this`decoded, this`literalsRead, this`literalCounter, input
      ensures Valid()
      ensures match Refill(CurrentHeader(), old(State()))
              case None => !ok
              case Some(s) => ok && State() == s
    {
      hide FromBits, Padded, Drop, DecodeBlock;
      ok := true;
      var code := input.ReadInt(64);
      if code != MAX64 {
        ok := DecodeCode(code);
      }
    }

    /** Returns the next literal, reading the next code word as soon as the buffer is used up; None is a
        division by zero or an access behind the buffer's closing zero. */
    method Decode() returns (val: Option<Lit>)
      requires Valid()
      modifies this`decoded, this`literalsRead, this`literalCounter, input
      ensures Valid()
      ensures match Next(CurrentHeader(), old(State()))
              case None => val.None?
              case Some(r) => val == Some(r.0) && State() == r.1
    {
      hide Refill;
      if |decoded| == 0 {
        var ok := NextBlock();
        if !ok {
          return None;
        }
      }
      if literalsRead > |decoded| {
        return None;
      }
      val := Some(if literalsRead == |decoded| then 0 else decoded[literalsRead]);
      literalsRead := literalsRead + 1;
      if literalsRead == |decoded| {
        var ok := NextBlock();
        if !ok {
          return None;
        }
      }
    }

    function Eof(): (r: bool)
      reads this, input
      requires Valid()
      ensures r <==> State().rest == []
    {
      input.Eof()
    }
  }

  // ---------- both classes together ----------

  /** Encodes every literal of a text and closes the stream. */
  method EncodeAll(text: seq<Lit>) returns (ok: bool, stream: seq<Byte>)
    ensures match EncodeText(text)
            case None => !ok
            case Some(bits) => ok && stream == Seal(bits)
  {
    hide EncRun, EncStep, PlanOf, HeaderBits, WordBits, Seal;
    ghost var p := PlanOf(text);
    var out := new BitOStream();
    var encoder := new Encoder(out, text);
    assert text[0..] == text;
    for i := 0 to |text|
      invariant encoder.Valid() && encoder.CurrentPlan() == p && encoder.before == []
      invariant EncRun(p, encoder.State(), text[i..]) == EncRun(p, ENC_START, text)
    {
      RunStep(p, encoder.State(), text[i..]);
      assert text[i..][1..] == text[i + 1..];
      ok := encoder.Encode(text[i]);
      if !ok {
        return false, [];
      }
    }
    RunEnd(p, encoder.State(), text[|text|..]);
    assert [] + HeaderBits(p) == HeaderBits(p);
    out.Close();
    return true, out.stream;
  }

  /** Opens a closed stream and decodes until its end. */
  method DecodeAll(stream: seq<Byte>) returns (r: Option<seq<Lit>>)
    ensures r == DecodeBits(Unseal(stream))
  {
    hide Unseal, ReadHeader, Next, DecodeRest;
    var input := new BitIStream(stream);
    var decoder := new Decoder(input);
    ghost var want := DecodeBits(Unseal(stream));
    if |decoder.literals| == 0 {
      return None;
    }
    ghost var h := decoder.CurrentHeader();
    var decoded: seq<Lit> := [];
    Given(want);
    while !decoder.Eof()
      invariant decoder.input == input && decoder.Valid() && decoder.CurrentHeader() == h
      invariant want == Behind(decoded, DecodeRest(h, decoder.State()))
      decreases |decoder.State().rest|, |decoder.State().decoded| + 1 - decoder.State().read
    {
      ghost var s := decoder.State();
      NextRest(h, s);
      var val := decoder.Decode();
      if val.None? {
        return None;
      }
      NextShrinks(h, s);
      OneMore(decoded, val.value, DecodeRest(h, decoder.State()));
      decoded := decoded + [val.value];
    }
    NoMore(h, decoder.State(), decoded);
    return Some(decoded);
  }

  ghost function Behind(front: seq<Lit>, r: Option<seq<Lit>>): Option<seq<Lit>> {
    if r.None? then None else Some(front + r.value)
  }

  lemma Given(r: Option<seq<Lit>>)
    ensures Behind([], r) == r
  {
    assert r.Some? ==> [] + r.value == r.value;
  }

  lemma NextRest(h: Header, s: DecState)
    requires h.Valid() && s.rest != []
    ensures DecodeRest(h, s) == if Next(h, s).None? then None
                                else Behind([Next(h, s).value.0], DecodeRest(h, Next(h, s).value.1))
  {
    hide Next;
    if Next(h, s).Some? {
      NextShrinks(h, s);
    }
  }

  lemma OneMore(front: seq<Lit>, v: Lit, r: Option<seq<Lit>>)
    ensures Behind(front, Behind([v], r)) == Behind(front + [v], r)
  {
    assert r.Some? ==> front + ([v] + r.value) == front + [v] + r.value;
  }

  lemma NoMore(h: Header, s: DecState, front: seq<Lit>)
    requires h.Valid() && s.rest == []
    ensures Behind(front, DecodeRest(h, s)) == Some(front)
  {
    assert DecodeRest(h, s) == Some([]);
    var none: seq<Lit> := [];
    assert front + none == front;
  }

  /** The test of the coder on any text, through a closed stream: every supported text comes back. */
  method EncodeAndDecode(text: seq<Lit>) returns (r: Option<seq<Lit>>)
    ensures r == if EncodeText(text).None? then None else DecodeBits(EncodeText(text).value)
    ensures Supported(text) ==> r == Some(text)
  {
    hide EncodeText, DecodeBits, Seal, Unseal, Supported;
    if Supported(text) {
      SupportedComesBack(text);
    }
    var ok, stream := EncodeAll(text);
    if !ok {
      return None;
    }
    UnsealSeal(EncodeText(text).value);
    r := DecodeAll(stream);
  }

  lemma RunStep(p: Plan, s: EncState, text: seq<Lit>)
    requires |p.table| == 256 && text != []
    ensures EncRun(p, s, text) == match EncStep(p, s, text[0])
                                  case None => None
                                  case Some(s') => EncRun(p, s', text[1..])
  {
  }

  lemma RunEnd(p: Plan, s: EncState, text: seq<Lit>)
    requires |p.table| == 256 && text == []
    ensures EncRun(p, s, text) == Some(s)
  {
  }
}
