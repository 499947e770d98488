/** The block-wise arithmetic coder as functions: interval table, codebook, narrowing, block decoding. All
    machine arithmetic wraps as the source's unsigned types do: counters, table entries and the announced
    length at 32 bits, bounds, offsets and code words at 64, and a codebook value is read back as a signed
    32-bit number before it becomes an unsigned 64-bit one. */
module ArithmeticModel {
  import opened BitStream
  import opened Wrappers

  const W32: nat := 0x1_0000_0000
  const W64: nat := 0x1_0000_0000_0000_0000
  const MAX64: nat := W64 - 1
  const SIGN32: nat := 0x8000_0000

  /** An uliteral_t. */
  type Lit = x: nat | x < 256

  /** Unsigned integer division. */
  function Quot(a: nat, m: nat): nat
    requires m > 0
  {
    a / m
  }

  // ---------- the interval table ----------

  /** The 32-bit counters after counting every literal of the text. */
  function Histogram(text: seq<Lit>): (h: seq<nat>)
    ensures |h| == 256
  {
    seq(256, v requires 0 <= v < 256 => multiset(text)[v] % W32)
  }

  /** c[i] after the summing loop has passed i. */
  function CumAt(h: seq<nat>, i: nat): (r: nat)
    requires |h| == 256 && i < 256
    ensures r < W32
  {
    (h[i] + if i == 0 then 0 else CumAt(h, i - 1)) % W32
  }

  /** The smallest non-zero counter among 1..i; counter 0 is not looked at. */
  function MinAt(h: seq<nat>, i: nat): (r: nat)
    requires |h| == 256 && i < 256
    ensures 0 < r < W32
    ensures forall v :: 1 <= v <= i && h[v] != 0 ==> r <= h[v]
  {
    if i == 0 then W32 - 1
    else if h[i] != 0 && h[i] < MinAt(h, i - 1) then h[i]
    else MinAt(h, i - 1)
  }

  /** The number of non-zero counters among 0..i. */
  function PresentUpTo(h: seq<nat>, i: nat): (r: nat)
    requires |h| == 256 && i < 256
    ensures r <= i + 1
  {
    (if i == 0 then 0 else PresentUpTo(h, i - 1)) + if h[i] != 0 then 1 else 0
  }

  /** What the encoder knows after build_intervals. */
  datatype Plan = Plan(literalCount: nat, codebookSize: nat, table: seq<nat>) {
    ghost predicate Shaped() {
      |table| == 256 && forall i :: 0 <= i < 256 ==> table[i] < W32
    }
  }

  function TableAt(h: seq<nat>, i: nat): nat
    requires |h| == 256 && i < 256
  {
    Quot(CumAt(h, i), MinAt(h, 255))
  }

  function Normalised(h: seq<nat>): (t: seq<nat>)
    requires |h| == 256
    ensures |t| == 256
  {
    seq(256, i requires 0 <= i < 256 => TableAt(h, i))
  }

  function BuildIntervals(h: seq<nat>): (p: Plan)
    requires |h| == 256
    ensures |p.table| == 256
  {
    Plan(CumAt(h, 254), PresentUpTo(h, 255) % 256, Normalised(h))
  }

  function PlanOf(text: seq<Lit>): (p: Plan)
    ensures |p.table| == 256
  {
    BuildIntervals(Histogram(text))
  }

  // ---------- the codebook ----------

  datatype Entry = Entry(lit: Lit, value: nat)

  /** The entries writeCodebook emits for the literals 0..i. */
  function Book(t: seq<nat>, i: nat): (b: seq<Entry>)
    requires |t| == 256 && i < 256
    ensures |b| <= i + 1
  {
    if i == 0 then if t[0] != 0 then [Entry(0, t[0])] else []
    else Book(t, i - 1) + if t[i] != t[i - 1] then [Entry(i, t[i])] else []
  }

  lemma BookStep(t: seq<nat>, i: nat)
    requires |t| == 256 && i < 256
    ensures var e := Entry(i, t[i]);
            Book(t, i) == if i == 0 then if t[0] != 0 then [e] else []
                          else if t[i] != t[i - 1] then Book(t, i - 1) + [e] else Book(t, i - 1)
  {
    if i > 0 {
      assert Book(t, i - 1) + [] == Book(t, i - 1);
    }
  }

  function EntryBits(e: Entry): (r: seq<bool>)
    ensures |r| == 40
  {
    ToBits(e.lit, 8) + ToBits(e.value, 32)
  }

  function BookBits(b: seq<Entry>): (r: seq<bool>)
    ensures |r| == 40 * |b|
  {
    if b == [] then [] else BookBits(b[..|b| - 1]) + EntryBits(b[|b| - 1])
  }

  lemma BookBitsLast(b: seq<Entry>, e: Entry)
    ensures BookBits(b + [e]) == BookBits(b) + EntryBits(e)
  {
    assert (b + [e])[..|b|] == b;
  }

  function HeaderBits(p: Plan): seq<bool>
    requires |p.table| == 256
  {
    ToBits(p.literalCount, 32) + ToBits(p.codebookSize, 8) + BookBits(Book(p.table, 255))
  }

  function WordBits(ws: seq<nat>): (r: seq<bool>)
    ensures |r| == 64 * |ws|
  {
    if ws == [] then [] else WordBits(ws[..|ws| - 1]) + ToBits(ws[|ws| - 1], 64)
  }

  lemma WordBitsLast(ws: seq<nat>, w: nat)
    ensures WordBits(ws + [w]) == WordBits(ws) + ToBits(w, 64)
  {
    assert (ws + [w])[..|ws|] == ws;
  }

  // ---------- the encoder ----------

  /** The offset of cumulative count c of total inside a range, in 64-bit arithmetic. */
  function Offset(range: nat, total: nat, c: nat): (r: nat)
    requires total > 0
  {
    if range <= total then Quot(range * c % W64, total) else Quot(range, total) * c % W64
  }

  function Sub64(a: nat, b: nat): (r: nat)
    ensures r < W64
    ensures b <= a < W64 ==> r == a - b
  {
    (a - b) % W64
  }

  datatype Bounds = Bounds(lo: nat, hi: nat) {
    function Range(): nat { Sub64(hi, lo) }
  }

  const FRESH := Bounds(0, MAX64)

  /** The interval of literal v inside b. */
  function Narrow(t: seq<nat>, b: Bounds, v: Lit): Bounds
    requires |t| == 256 && t[255] > 0
  {
    Bounds(if v != 0 then (b.lo + Offset(b.Range(), t[255], t[v - 1])) % W64 else b.lo,
           (b.lo + Offset(b.Range(), t[255], t[v])) % W64)
  }

  /** Bounds, literal_counter and the code words written so far. */
  datatype EncState = EncState(bounds: Bounds, counter: nat, words: seq<nat>)

  const ENC_START := EncState(FRESH, 0, [])

  /** One call of encode; None is the division by zero of an all-zero table. */
  function EncStep(p: Plan, s: EncState, v: Lit): Option<EncState>
    requires |p.table| == 256
  {
    if p.table[255] == 0 then None
    else
      var flush := s.bounds.Range() < p.table[254];
      var b := Narrow(p.table, if flush then FRESH else s.bounds, v);
      var ws := if flush then s.words + [s.bounds.lo] else s.words;
      var counter := (s.counter + 1) % W32;
      Some(EncState(b, counter, if counter == p.literalCount then ws + [b.lo, MAX64] else ws))
  }

  function EncRun(p: Plan, s: EncState, text: seq<Lit>): Option<EncState>
    requires |p.table| == 256
    decreases |text|
  {
    if text == [] then Some(s)
    else match EncStep(p, s, text[0])
      case None => None
      case Some(s') => EncRun(p, s', text[1..])
  }

  /** Everything the encoder writes for a text. */
  function EncodeText(text: seq<Lit>): Option<seq<bool>> {
    var p := PlanOf(text);
    match EncRun(p, ENC_START, text)
    case None => None
    case Some(s) => Some(HeaderBits(p) + WordBits(s.words))
  }

  // ---------- the decoder ----------

  /** A 32-bit pattern read as int and then used as unsigned long. */
  function SignExtend(x: nat): nat {
    if x < SIGN32 then x else x + (W64 - W32)
  }

  /** What the decoder's constructor reads. */
  datatype Header = Header(literalCount: nat, book: seq<Entry>) {
    ghost predicate Valid() { book != [] }

    /** min_range and interval_parts: the last value of the codebook. */
    function Parts(): nat
      requires book != []
    {
      SignExtend(book[|book| - 1].value)
    }
  }

  datatype SearchResult = Found(lit: Lit, bounds: Bounds) | NotFound(bounds: Bounds)

  /** The interval search from entry i on; inner is interval_lower_bound, up the last upper bound. */
  function Search(h: Header, i: nat, lo: nat, inner: nat, up: nat, range: nat, code: nat): SearchResult
    requires h.Valid() && h.Parts() > 0 && i <= |h.book|
    decreases |h.book| - i
  {
    if i == |h.book| then NotFound(Bounds(lo, up))
    else
      var up' := (lo + Offset(range, h.Parts(), SignExtend(h.book[i].value))) % W64;
      if code < up' then Found(h.book[i].lit, Bounds(inner, up'))
      else Search(h, i + 1, lo, up', up', range, code)
  }

  /** The decoding loop for one code word: the literals found and the new literal_counter.
      None is the division by zero of an empty interval table. */
  function DecodeBlock(h: Header, counter: nat, b: Bounds, code: nat): (r: Option<(seq<Lit>, nat)>)
    requires h.Valid()
    ensures r.Some? && counter <= h.literalCount ==> counter + |r.value.0| <= r.value.1 <= h.literalCount
    decreases h.literalCount - counter
  {
    if h.Parts() <= b.Range() && counter < h.literalCount then
      if h.Parts() == 0 then None
      else
        match Search(h, 0, b.lo, b.lo, b.hi, b.Range(), code)
        case Found(v, b') =>
          (match DecodeBlock(h, counter + 1, b', code)
           case None => None
           case Some(rest) => Some(([v] + rest.0, rest.1)))
        case NotFound(b') => DecodeBlock(h, counter + 1, b', code)
    else Some(([], counter))
  }

  /** All literals found in a sequence of code words; the dummy word is passed over. */
  function DecodeWords(h: Header, counter: nat, ws: seq<nat>): (r: Option<seq<Lit>>)
    requires h.Valid()
    ensures r.Some? && counter <= h.literalCount ==> counter + |r.value| <= h.literalCount
    decreases |ws|
  {
    if ws == [] then Some([])
    else if ws[0] == MAX64 then DecodeWords(h, counter, ws[1..])
    else match DecodeBlock(h, counter, FRESH, ws[0])
      case None => None
      case Some(block) =>
        match DecodeWords(h, block.1, ws[1..])
        case None => None
        case Some(rest) => Some(block.0 + rest)
  }

  function ParseBook(bits: seq<bool>, k: nat): (r: seq<Entry>)
    requires |bits| == 40 * k
    ensures |r| == k
  {
    if k == 0 then []
    else
      var at := 40 * (k - 1);
      assert Pow2(8) == 256 by { Pow2_8(); }
      ParseBook(bits[..at], k - 1) + [Entry(FromBits(bits[at..at + 8]), FromBits(bits[at + 8..]))]
  }

  function ParseWords(bits: seq<bool>, k: nat): (r: seq<nat>)
    requires |bits| == 64 * k
    ensures |r| == k
  {
    if k == 0 then []
    else ParseWords(bits[..64 * (k - 1)], k - 1) + [FromBits(bits[64 * (k - 1)..])]
  }

  lemma Pow2_8()
    ensures Pow2(8) == 256
  {
    assert Pow2(4) == 16 by { assert Pow2(2) == 4; }
    assert Pow2(6) == 64;
  }

  lemma Pow2_32()
    ensures Pow2(32) == W32
  {
    Pow2_8();
    Pow2Add(8, 8);
    Pow2Add(16, 16);
  }

  lemma Pow2_64()
    ensures Pow2(64) == W64
  {
    Pow2_32();
    Pow2Add(32, 32);
  }

  lemma {:induction false} Pow2Add(a: nat, b: nat)
    ensures Pow2(a + b) == Pow2(a) * Pow2(b)
  {
    if b > 0 {
      Pow2Add(a, b - 1);
      assert Pow2(a + b) == 2 * Pow2(a + b - 1);
      assert Pow2(a) * Pow2(b) == 2 * (Pow2(a) * Pow2(b - 1));
    }
  }

  /** A stream cut into header and 64-bit words; None if there is no codebook entry to
      read or the stream does not end with a whole word. */
  function Parse(bits: seq<bool>): Option<(Header, seq<nat>)> {
    if |bits| < 40 then None
    else
      var n, k := FromBits(bits[..32]), FromBits(bits[32..40]);
      if k == 0 || |bits| < 40 + 40 * k || (|bits| - 40 - 40 * k) % 64 != 0 then None
      else
        var book := ParseBook(bits[40..40 + 40 * k], k);
        var tail := bits[40 + 40 * k..];
        Some((Header(n, book), ParseWords(tail, |tail| / 64)))
  }

  /** Decoding a whole stream. */
  function DecodeStream(bits: seq<bool>): Option<seq<Lit>> {
    match Parse(bits)
    case None => None
    case Some(parsed) =>
      if parsed.0.book == [] then None else DecodeWords(parsed.0, 0, parsed.1)
  }

  /** Encoding the text and decoding the stream gives the text back, and the
      decoder's reads end where the stream ends. */
  ghost predicate RoundTrips(text: seq<Lit>) {
    var bits := EncodeText(text);
    bits.Some? && DecodeStream(bits.value) == Some(text)
  }

  // ---------- the texts the format supports ----------

  /** The smallest count among the literals 1..255, or 2^32 - 1 if there is none. */
  function MinCount(text: seq<Lit>): (r: nat)
    ensures r > 0
  {
    MinAt(Histogram(text), 255)
  }

  /** A caller's check: not empty, fewer than 2^32 literals, no literal 255, literal 0 absent or at
      least as frequent as the rarest other literal, normalised total below 2^31. */
  predicate Supported(text: seq<Lit>) {
    && 0 < |text| < W32
    && 255 !in text
    && (0 in text ==> multiset(text)[0] >= MinCount(text))
    && Quot(|text|, MinCount(text)) < SIGN32
  }
}
