/** Encoder and decoder narrow their intervals in step, so decoding an encoded text gives the text back for
    every supported text. Products and sums stay inside 64 bits as long as the range has room for every
    literal; the search then finds the encoded literal, and header, codebook and words are read as written. */
module ArithmeticRoundTrip {
  import opened BitStream
  import opened Sequences
  import opened ArithmeticModel
  import opened ArithmeticTable
  import opened Wrappers

  // ---------- 64-bit arithmetic that does not wrap ----------

  lemma QuotientAtLeast(v: nat, d: nat, q: nat)
    requires d > 0 && d * q <= v
    ensures q <= Quot(v, d)
  {
    assert v == d * (v / d) + v % d;
    if v / d < q { MulGap(d, v / d, q); }
  }

  lemma ProductBound(a: nat, b: nat)
    requires a < W32 && b < W32
    ensures a * b < W64
  {
    assert a * b <= a * W32 == W32 * a <= W32 * (W32 - 1);
  }

  /** The part of a range that belongs to c of total. */
  function Share(range: nat, total: nat, c: nat): nat
    requires total > 0
  {
    Quot(range, total) * c
  }

  /** On a range that has room for every literal the offset is c's share: no intermediate product
      exceeds 64 bits and the offset stays inside the range. */
  lemma OffsetExact(range: nat, total: nat, c: nat)
    requires 0 < total <= range < W64 && total < W32 && c <= total
    ensures Offset(range, total, c) == Share(range, total, c) <= range
    ensures Quot(range, total) >= 1
    ensures Share(range, total, 0) == 0
  {
    var q := Quot(range, total);
    assert range == total * q + range % total;
    QuotientAtLeast(range, total, 1);
    assert q * total == total * q;
    if range == total {
      QuotientUnique(range, total, 1, 0);
      ProductBound(range, c);
      QuotientUnique(range * c, total, c, 0);
    }
  }

  lemma ShareGrows(range: nat, total: nat, c: nat, d: nat)
    requires total > 0 && c <= d
    ensures Share(range, total, c) <= Share(range, total, d)
    ensures c < d ==> Share(range, total, c) + Quot(range, total) <= Share(range, total, d)
  {
    hide Quot;
    if c < d {
      MulGap(Quot(range, total), c, d);
    }
  }

  // ---------- one literal ----------

  function BelowOf(t: seq<nat>, v: Lit): nat
    requires |t| == 256
  {
    if v == 0 then 0 else t[v - 1]
  }

  lemma NarrowExact(t: seq<nat>, b: Bounds, v: Lit)
    requires |t| == 256 && 0 < t[255] < W32 && BelowOf(t, v) < t[v] <= t[255]
    requires b.lo < b.hi <= MAX64 && t[255] <= b.Range()
    ensures Narrow(t, b, v)
         == Bounds(b.lo + Share(b.Range(), t[255], BelowOf(t, v)), b.lo + Share(b.Range(), t[255], t[v]))
    ensures b.lo <= Narrow(t, b, v).lo < Narrow(t, b, v).hi <= b.hi
    ensures Quot(b.Range(), t[255]) <= Narrow(t, b, v).Range()
  {
    hide Quot, Offset, Share;
    OffsetExact(b.Range(), t[255], t[v]);
    OffsetExact(b.Range(), t[255], BelowOf(t, v));
    ShareGrows(b.Range(), t[255], BelowOf(t, v), t[v]);
  }

  /** The interval of an occurring literal is a non-empty part of the current one. */
  lemma NarrowNests(text: seq<Lit>, b: Bounds, v: Lit)
    requires Countable(text) && ZeroSafe(text) && v in text
    requires b.lo < b.hi <= MAX64 && Total(text) <= b.Range()
    ensures Total(text) > 0
    ensures var n, t := Narrow(Table(text), b, v), Table(text);
            && BelowOf(t, v) < t[v] <= Total(text)
            && n.lo == b.lo + Share(b.Range(), Total(text), BelowOf(t, v))
            && n.hi == b.lo + Share(b.Range(), Total(text), t[v])
            && b.lo <= n.lo < n.hi <= b.hi
            && Quot(b.Range(), Total(text)) <= n.Range()
  {
    hide Quot, Offset, Narrow, Share;
    TotalPositive(text);
    TotalIsNormalisedLength(text);
    TableStep(text, v);
    TableMonotone(text, v, 255);
    NarrowExact(Table(text), b, v);
  }

  /** The header a decoder reads back from the encoder's codebook. */
  function HeaderOf(text: seq<Lit>): Header {
    Header(|text|, Book(Table(text), 255))
  }

  lemma HeaderParts(text: seq<Lit>)
    requires Supported(text)
    ensures Countable(text) && ZeroSafe(text)
    ensures HeaderOf(text).Valid()
    ensures HeaderOf(text).Parts() == Total(text)
    ensures 0 < Total(text) < SIGN32
    ensures var b := HeaderOf(text).book;
            forall j :: 0 <= j < |b| ==> SignExtend(b[j].value) == b[j].value
  {
    TotalPositive(text);
    TotalIsNormalisedLength(text);
    BookValues(text, 255);
  }

  /** The upper bound the search computes for entry i. */
  function Upper(h: Header, lo: nat, range: nat, i: nat): nat
    requires h.Valid() && h.Parts() > 0 && i < |h.book|
  {
    (lo + Offset(range, h.Parts(), SignExtend(h.book[i].value))) % W64
  }

  /** The interval search stops at the first upper bound above the code. */
  lemma {:induction false} SearchFinds(h: Header, i: nat, j: nat, lo: nat, inner: nat, up: nat, range: nat, code: nat)
    requires h.Valid() && h.Parts() > 0 && i <= j < |h.book|
    requires forall k :: i <= k < j ==> Upper(h, lo, range, k) <= code
    requires code < Upper(h, lo, range, j)
    ensures Search(h, i, lo, inner, up, range, code)
         == Found(h.book[j].lit, Bounds(if i == j then inner else Upper(h, lo, range, j - 1), Upper(h, lo, range, j)))
    decreases j - i
  {
    if i < j {
      SearchFinds(h, i + 1, j, lo, Upper(h, lo, range, i), Upper(h, lo, range, i), range, code);
    }
  }

  /** The search finds the literal whose interval holds the code, and the encoder's bounds. */
  lemma SearchFindsLiteral(text: seq<Lit>, b: Bounds, v: Lit, code: nat)
    requires Supported(text) && v in text
    requires b.lo < b.hi <= MAX64 && Total(text) <= b.Range()
    requires Total(text) > 0 && HeaderOf(text).Valid() && HeaderOf(text).Parts() > 0
    requires var n := Narrow(Table(text), b, v); n.lo <= code < n.hi
    ensures Search(HeaderOf(text), 0, b.lo, b.lo, b.hi, b.Range(), code) == Found(v, Narrow(Table(text), b, v))
  {
    hide Quot, Offset, Share, Table;
    var h, t := HeaderOf(text), Table(text);
    var below := BelowOf(t, v);
    HeaderParts(text);
    NarrowNests(text, b, v);
    var j := BookIndex(text, v);
    forall k | 0 <= k <= j
      ensures Upper(h, b.lo, b.Range(), k) == b.lo + Share(b.Range(), Total(text), h.book[k].value)
    {
      UpperExact(text, b, k);
    }
    forall k | 0 <= k < j
      ensures Upper(h, b.lo, b.Range(), k) <= code
    {
      ShareGrows(b.Range(), Total(text), h.book[k].value, below);
    }
    SearchFinds(h, 0, j, b.lo, b.lo, b.hi, b.Range(), code);
    OffsetExact(b.Range(), Total(text), t[v]);
  }

  lemma UpperExact(text: seq<Lit>, b: Bounds, k: nat)
    requires Supported(text) && b.lo < b.hi <= MAX64
    requires 0 < Total(text) <= b.Range() && k < |HeaderOf(text).book|
    requires HeaderOf(text).Parts() > 0
    ensures Upper(HeaderOf(text), b.lo, b.Range(), k)
         == b.lo + Share(b.Range(), Total(text), HeaderOf(text).book[k].value)
  {
    hide Quot, Offset, Share;
    HeaderParts(text);
    BookValues(text, 255);
    OffsetExact(b.Range(), Total(text), HeaderOf(text).book[k].value);
  }

  // ---------- a whole text ----------

  /** The code words still to be written when the bounds are b and rest is still to be encoded. */
  function RestWords(t: seq<nat>, b: Bounds, rest: seq<Lit>): (ws: seq<nat>)
    requires |t| == 256 && t[255] > 0
    ensures ws != []
    decreases |rest|
  {
    if rest == [] then [b.lo, MAX64]
    else if b.Range() < t[255] then [b.lo] + RestWords(t, Narrow(t, FRESH, rest[0]), rest[1..])
    else RestWords(t, Narrow(t, b, rest[0]), rest[1..])
  }

  lemma {:induction false} RunWritesRestWords(text: seq<Lit>, s: EncState, rest: seq<Lit>)
    requires Countable(text) && ZeroSafe(text) && rest != [] && s.counter + |rest| == |text|
    requires Total(text) > 0
    ensures var r := EncRun(PlanOf(text), s, rest);
            r.Some? && r.value.words == s.words + RestWords(Table(text), s.bounds, rest)
    decreases |rest|
  {
    hide Narrow, Quot, Offset, Countable, ZeroSafe, Histogram;
    TotalIsNormalisedLength(text);
    var p, t := PlanOf(text), Table(text);
    var s' := EncStep(p, s, rest[0]).value;
    if |rest| == 1 {
      assert rest[1..] == [];
      assert EncRun(p, s', rest[1..]) == Some(s');
    } else {
      RunWritesRestWords(text, s', rest[1..]);
    }
  }

  /** Where the decoder stands with the bounds b: it finishes the current block with ws[0]. */
  function DecodeFrom(h: Header, counter: nat, b: Bounds, ws: seq<nat>): Option<seq<Lit>>
    requires h.Valid() && ws != []
  {
    match DecodeBlock(h, counter, b, ws[0])
    case None => None
    case Some(block) =>
      match DecodeWords(h, block.1, ws[1..])
      case None => None
      case Some(rest) => Some(block.0 + rest)
  }

  /** With equal bounds on both sides the decoder reads exactly what the encoder still has to
      write, and the current block's code lies in the current interval. */
  lemma {:induction false} Lockstep(text: seq<Lit>, b: Bounds, rest: seq<Lit>)
    requires Supported(text) && |rest| <= |text| && (forall v :: v in rest ==> v in text)
    requires b.lo < b.hi <= MAX64
    requires Total(text) > 0 && HeaderOf(text).Valid()
    ensures var ws := RestWords(Table(text), b, rest);
            && b.lo <= ws[0] < b.hi
            && DecodeFrom(HeaderOf(text), |text| - |rest|, b, ws) == Some(rest)
    decreases |rest|, if b.Range() < Total(text) then 1 else 0
  {
    hide Table, MinCount, Narrow, Search, Quot, Offset, DecodeFrom, RestWords;
    var h, t, counter := HeaderOf(text), Table(text), |text| - |rest|;
    var ws := RestWords(t, b, rest);
    HeaderParts(text);
    TotalIsNormalisedLength(text);
    RestWordsStep(t, b, rest);
    if rest == [] {
      LockstepEnd(h, b);
    } else if b.Range() < Total(text) {
      Lockstep(text, FRESH, rest);
      LockstepFlush(h, counter, b, RestWords(t, FRESH, rest), rest);
    } else {
      var n := Narrow(t, b, rest[0]);
      NarrowNests(text, b, rest[0]);
      Lockstep(text, n, rest[1..]);
      SearchFindsLiteral(text, b, rest[0], ws[0]);
      LockstepStep(h, counter, b, ws, rest[0], n, rest[1..]);
      assert rest == [rest[0]] + rest[1..];
    }
  }

  lemma RestWordsStep(t: seq<nat>, b: Bounds, rest: seq<Lit>)
    requires |t| == 256 && t[255] > 0
    requires t[255] <= MAX64
    ensures RestWords(t, b, rest)
         == if rest == [] then [b.lo, MAX64]
            else if b.Range() < t[255] then [b.lo] + RestWords(t, FRESH, rest)
            else RestWords(t, Narrow(t, b, rest[0]), rest[1..])
  {
    hide Narrow;
  }

  lemma LockstepEnd(h: Header, b: Bounds)
    requires h.Valid()
    ensures DecodeFrom(h, h.literalCount, b, [b.lo, MAX64]) == Some([])
  {
    assert [b.lo, MAX64][1..] == [MAX64] && [MAX64][1..] == [];
    assert DecodeWords(h, h.literalCount, [MAX64]) == Some([]);
    var none: seq<Lit> := [];
    assert none + none == none;
  }

  lemma LockstepFlush(h: Header, counter: nat, b: Bounds, ws: seq<nat>, rest: seq<Lit>)
    requires h.Valid() && b.Range() < h.Parts()
    requires ws != [] && ws[0] != MAX64 && DecodeFrom(h, counter, FRESH, ws) == Some(rest)
    ensures DecodeFrom(h, counter, b, [b.lo] + ws) == Some(rest)
  {
    hide Search;
    assert ([b.lo] + ws)[1..] == ws;
    assert DecodeWords(h, counter, ws) == DecodeFrom(h, counter, FRESH, ws);
    assert [] + rest == rest;
  }

  lemma LockstepStep(h: Header, counter: nat, b: Bounds, ws: seq<nat>, v: Lit, n: Bounds, rest: seq<Lit>)
    requires h.Valid() && ws != [] && 0 < h.Parts() <= b.Range() && counter < h.literalCount
    requires Search(h, 0, b.lo, b.lo, b.hi, b.Range(), ws[0]) == Found(v, n)
    requires DecodeFrom(h, counter + 1, n, ws) == Some(rest)
    ensures DecodeFrom(h, counter, b, ws) == Some([v] + rest)
  {
    hide Search;
    var tail := DecodeBlock(h, counter + 1, n, ws[0]).value;
    var more := DecodeWords(h, tail.1, ws[1..]).value;
    assert [v] + tail.0 + more == [v] + (tail.0 + more);
  }

  // ---------- the stream ----------

  lemma {:induction false} ParseBookBits(b: seq<Entry>)
    requires forall j :: 0 <= j < |b| ==> b[j].value < W32
    ensures ParseBook(BookBits(b), |b|) == b
  {
    hide ToBits, FromBits, Pow2;
    if b != [] {
      var init, e := b[..|b| - 1], b[|b| - 1];
      ParseBookBits(init);
      ReadBack(e.lit, e.value, 0);
      Slices(BookBits(init), ToBits(e.lit, 8), ToBits(e.value, 32));
    }
  }

  lemma ReadBack(x8: nat, x32: nat, x64: nat)
    requires x8 < 256 && x32 < W32 && x64 < W64
    ensures FromBits(ToBits(x8, 8)) == x8
    ensures FromBits(ToBits(x32, 32)) == x32
    ensures FromBits(ToBits(x64, 64)) == x64
  {
    Pow2_8();
    Pow2_32();
    Pow2_64();
    FromBitsToBits(x8, 8);
    FromBitsToBits(x32, 32);
    FromBitsToBits(x64, 64);
  }

  lemma {:induction false} ParseWordBits(ws: seq<nat>)
    requires forall j :: 0 <= j < |ws| ==> ws[j] < W64
    ensures ParseWords(WordBits(ws), |ws|) == ws
  {
    hide ToBits, FromBits, Pow2;
    if ws != [] {
      var k := |ws| - 1;
      var bits := WordBits(ws);
      ParseWordBits(ws[..k]);
      assert bits[..64 * k] == WordBits(ws[..k]);
      assert bits[64 * k..] == ToBits(ws[k], 64);
      ReadBack(0, 0, ws[k]);
    }
  }

  lemma ParseCounts(n: nat, k: nat, rest: seq<bool>)
    requires n < W32 && k < 256
    ensures var bits := ToBits(n, 32) + ToBits(k, 8) + rest;
            && FromBits(bits[..32]) == n && FromBits(bits[32..40]) == k && bits[40..] == rest
  {
    var bits := ToBits(n, 32) + ToBits(k, 8) + rest;
    ReadBack(k, n, 0);
    assert bits[..32] == ToBits(n, 32);
    assert bits[32..40] == ToBits(k, 8);
  }

  function StreamBits(n: nat, k: nat, b: seq<Entry>, ws: seq<nat>): (r: seq<bool>)
    ensures |r| == 40 + 40 * |b| + 64 * |ws|
  {
    ToBits(n, 32) + ToBits(k, 8) + (BookBits(b) + WordBits(ws))
  }

  /** Header, codebook and words written one after the other are read back as they were written. */
  lemma ParseStream(n: nat, b: seq<Entry>, ws: seq<nat>)
    requires n < W32 && 0 < |b| < 256
    requires forall j :: 0 <= j < |b| ==> b[j].value < W32
    requires forall j :: 0 <= j < |ws| ==> ws[j] < W64
    ensures Parse(StreamBits(n, |b|, b, ws)) == Some((Header(n, b), ws))
  {
    hide ToBits, FromBits, BookBits, WordBits, ParseBook, ParseWords, Pow2;
    var k, rest := |b|, BookBits(b) + WordBits(ws);
    var bits := StreamBits(n, k, b, ws);
    ParseCounts(n, k, rest);
    assert bits[40..40 + 40 * k] == BookBits(b);
    assert bits[40 + 40 * k..] == WordBits(ws);
    ParseBookBits(b);
    ParseWordBits(ws);
  }

  /** A codebook that is one entry short leaves a stream that no decoder can frame. */
  lemma ParseMisframed(n: nat, k: nat, b: seq<Entry>, ws: seq<nat>)
    requires n < W32 && k < 256 && (k == 0 || k == |b| + 1)
    ensures Parse(StreamBits(n, k, b, ws)).None?
  {
    hide ToBits, FromBits, BookBits, WordBits, ParseBook, ParseWords, Pow2;
    ParseCounts(n, k, BookBits(b) + WordBits(ws));
    assert (64 * |ws| - 40) % 64 == 24;
  }

  lemma ParseLiteralCount(n: nat, k: nat, b: seq<Entry>, ws: seq<nat>)
    requires n < W32 && k < 256
    ensures Parse(StreamBits(n, k, b, ws)).Some? ==> Parse(StreamBits(n, k, b, ws)).value.0.literalCount == n
  {
    ParseCounts(n, k, BookBits(b) + WordBits(ws));
  }
}
