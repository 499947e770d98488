/** The ASCII coder: decimal numbers ended by a colon, literals as they are, bits as '0' and '1'. */
module AsciiCoder {
  import opened BitStream
  import opened Sequences
  import opened BitCoder

  type Ch = c: nat | c < 256

  const ZERO_CH: Ch := 48
  const COLON: Ch := 58

  predicate IsDigit(c: Ch) { 48 <= c <= 57 }

  // ---------- decimal numbers ----------

  /** What an ostringstream makes of a number. */
  function Decimal(v: nat): (s: seq<Ch>)
    ensures s != [] && forall i :: 0 <= i < |s| ==> IsDigit(s[i])
  {
    if v < 10 then [48 + v] else Decimal(v / 10) + [48 + v % 10]
  }

  /** What an istringstream reads from a string of digits. */
  function Number(s: seq<Ch>): nat
    requires forall i :: 0 <= i < |s| ==> IsDigit(s[i])
  {
    if s == [] then 0
    else
      assert IsDigit(s[|s| - 1]);
      10 * Number(s[..|s| - 1]) + s[|s| - 1] - 48
  }

  lemma {:induction false} NumberOfDecimal(v: nat)
    ensures Number(Decimal(v)) == v
  {
    if v < 10 {
      assert [48 + v][..0] == [];
    } else {
      NumberOfDecimal(v / 10);
      assert Decimal(v)[..|Decimal(v)| - 1] == Decimal(v / 10);
    }
  }

  /** The decimal digits are the only ones of this number that do not begin with a needless zero. */
  lemma {:induction false} DecimalUnique(s: seq<Ch>, v: nat)
    requires s != [] && forall i :: 0 <= i < |s| ==> IsDigit(s[i])
    ensures s == Decimal(v) <==> Number(s) == v && (|s| > 1 ==> s[0] != ZERO_CH)
  {
    NumberOfDecimal(v);
    DecimalHead(v);
    if Number(s) == v && (|s| > 1 ==> s[0] != ZERO_CH) {
      var init, last := s[..|s| - 1], s[|s| - 1];
      assert IsDigit(last);
      if init == [] {
        assert Number(init) == 0 && s == [last];
      } else {
        assert v / 10 == Number(init) && v % 10 == last - 48;
        NumberPositive(init);
        DecimalUnique(init, v / 10);
        assert s == init + [last];
      }
    }
  }

  lemma {:induction false} DecimalHead(v: nat)
    ensures v > 0 ==> Decimal(v)[0] != ZERO_CH
    ensures v == 0 ==> Decimal(v) == [ZERO_CH]
  {
    if v >= 10 {
      DecimalHead(v / 10);
    }
  }

  lemma {:induction false} NumberPositive(s: seq<Ch>)
    requires s != [] && (forall i :: 0 <= i < |s| ==> IsDigit(s[i])) && s[0] != ZERO_CH
    ensures Number(s) > 0
  {
    if |s| > 1 {
      NumberPositive(s[..|s| - 1]);
    } else {
      assert s[..0] == [] && Number(s[..0]) == 0;
    }
  }

  // ---------- the characters of a value ----------

  function Chars(it: Item): (s: seq<Ch>)
    requires it.Valid()
  {
    match it.kind
    case InRange(lo, hi) => Decimal(it.value) + [COLON]
    case Literal => [it.value]
    case Bit => [if it.value != 0 then 49 else 48]
  }

  /** The characters of a value: its decimal digits and a colon, the literal itself, '0' or '1'. */
  lemma CharsFormat(it: Item)
    requires it.Valid()
    ensures match it.kind
            case InRange(_, _) =>
              var s := Chars(it);
              var digits := s[..|s| - 1];
              && s[|s| - 1] == ':' as int && digits != [] && (forall i :: 0 <= i < |digits| ==> IsDigit(digits[i]))
              && Number(digits) == it.value && (|digits| > 1 ==> digits[0] != '0' as int)
            case Literal => Chars(it) == [it.value]
            case Bit => Chars(it) == [if it.value == 1 then '1' as int else '0' as int]
  {
    if it.kind.InRange? {
      var d := Decimal(it.value);
      assert Chars(it)[..|d|] == d;
      DecimalUnique(d, it.value);
    }
  }

  function Text(items: seq<Item>): seq<Ch>
    requires AllValid(items)
  {
    if items == [] then [] else Chars(items[0]) + Text(items[1..])
  }

  function CharBits(s: seq<Ch>): (r: seq<bool>)
    ensures |r| == 8 * |s|
  {
    if s == [] then [] else ToBits(s[0], 8) + CharBits(s[1..])
  }

  lemma {:induction false} CharBitsAppend(s: seq<Ch>, t: seq<Ch>)
    ensures CharBits(s + t) == CharBits(s) + CharBits(t)
  {
    hide ToBits;
    if s == [] {
      assert s + t == t;
    } else {
      CharBitsAppend(s[1..], t);
      assert (s + t)[1..] == s[1..] + t;
    }
  }

  /** The length of the run of digits at the start. */
  function DigitRun(s: seq<Ch>): (n: nat)
    ensures n <= |s| && forall i :: 0 <= i < n ==> IsDigit(s[i])
    ensures n < |s| ==> !IsDigit(s[n])
  {
    if s == [] || !IsDigit(s[0]) then 0 else 1 + DigitRun(s[1..])
  }

  /** The character at n; past the end it reads as zero. */
  function CharAt(s: seq<Ch>, n: nat): Ch {
    if n < |s| then s[n] else 0
  }

  /** What is left when n characters have been read. */
  function After(s: seq<Ch>, n: nat): seq<Ch> {
    if n <= |s| then s[n..] else []
  }

  lemma AfterTwice(s: seq<Ch>, n: nat)
    ensures CharAt(After(s, n), 0) == CharAt(s, n) && After(After(s, n), 1) == After(s, n + 1)
  {
  }

  /** The run of digits ends where they do. */
  lemma {:induction false} RunEnds(s: seq<Ch>, n: nat)
    requires n <= |s| && (forall i :: 0 <= i < n ==> IsDigit(s[i])) && !IsDigit(CharAt(s, n))
    ensures DigitRun(s) == n
  {
    if n > 0 {
      RunEnds(s[1..], n - 1);
    }
  }

  /** What decoding one value makes of the characters: the value and the characters left. Past
      the end of the stream every character reads as zero. */
  function DecodeChars(k: Kind, s: seq<Ch>): (nat, seq<Ch>) {
    match k
    case InRange(lo, hi) => (Number(s[..DigitRun(s)]), After(s, DigitRun(s) + 1))
    case Literal => (CharAt(s, 0), After(s, 1))
    case Bit => (if CharAt(s, 0) != ZERO_CH then 1 else 0, After(s, 1))
  }

  lemma DecodeCharsItem(it: Item, rest: seq<Ch>)
    requires it.Valid()
    ensures DecodeChars(it.kind, Chars(it) + rest) == (it.value, rest)
  {
    var s := Chars(it) + rest;
    if it.kind.InRange? {
      var d := Decimal(it.value);
      NumberOfDecimal(it.value);
      assert s[|d|] == COLON && s[..|d|] == d;
      assert s[|d| + 1..] == rest;
    }
  }

  function DecodeText(kinds: seq<Kind>, s: seq<Ch>): (seq<nat>, seq<Ch>) {
    if kinds == [] then ([], s)
    else
      var first := DecodeChars(kinds[0], s);
      var rest := DecodeText(kinds[1..], first.1);
      ([first.0] + rest.0, rest.1)
  }

  /** Any mixed sequence of values comes back when it is read with the same ranges. */
  lemma {:induction false} TextRoundTrip(items: seq<Item>, rest: seq<Ch>)
    requires AllValid(items)
    ensures DecodeText(Kinds(items), Text(items) + rest) == (Values(items), rest)
  {
    hide Chars, DecodeChars;
    if items == [] {
      assert Text(items) + rest == rest;
    } else {
      var it, more := items[0], items[1..];
      Assoc(Chars(it), Text(more), rest);
      DecodeCharsItem(it, Text(more) + rest);
      TextRoundTrip(more, rest);
      assert Kinds(items)[1..] == Kinds(more);
      assert Values(items) == [it.value] + Values(more);
    }
  }

  // ---------- the classes ----------

  class Encoder {
    const out: BitOStream

    constructor (out: BitOStream)
      ensures this.out == out
    {
      this.out := out;
    }

    method Put(c: Ch)
      requires out.Valid()
      modifies out
      ensures out.Valid() && out.Written() == old(out.Written()) + CharBits([c])
    {
      hide ToBits;
      out.WriteInt(c, 8);
      assert CharBits([c][1..]) == [];
      assert ToBits(c, 8) + [] == ToBits(c, 8);
    }

    method Encode(v: nat, k: Kind)
      requires k.Admits(v) && out.Valid()
      modifies out
      ensures out.Valid() && out.Written() == old(out.Written()) + CharBits(Chars(Item(k, v)))
    {
      hide CharBits, Decimal;
      match k {
        case InRange(lo, hi) =>
          var s := Decimal(v);
          ghost var start := out.Written();
          for i := 0 to |s|
            invariant out.Valid() && out.Written() == start + CharBits(s[..i])
          {
            Put(s[i]);
            ExtendChars(start, s[..i], s[i]);
            assert s[..i] + [s[i]] == s[..i + 1];
          }
          assert s[..|s|] == s;
          Put(COLON);
          ExtendChars(start, s, COLON);
        case Literal => Put(v);
        case Bit => Put(if v != 0 then 49 else 48);
      }
    }
  }

  lemma ExtendChars(prefix: seq<bool>, s: seq<Ch>, c: Ch)
    ensures prefix + CharBits(s) + CharBits([c]) == prefix + CharBits(s + [c])
  {
    hide CharBits;
    CharBitsAppend(s, [c]);
    Assoc(prefix, CharBits(s), CharBits([c]));
  }

  class Decoder {
    const input: BitIStream

    constructor (input: BitIStream)
      ensures this.input == input
    {
      this.input := input;
    }

    method Get(ghost s: seq<Ch>) returns (c: Ch)
      requires input.Valid() && input.Remaining() == CharBits(s)
      modifies input
      ensures input.Valid() && input.Remaining() == CharBits(After(s, 1))
      ensures c == CharAt(s, 0)
    {
      hide ToBits;
      if s == [] {
        assert Padded(input.Remaining(), 8) == Zeros(8);
        ZeroBits(8);
      } else {
        FromBitsToBits(s[0], 8);
        ReadsFront(ToBits(s[0], 8), CharBits(s[1..]));
      }
      c := input.ReadInt(8);
    }

    /** Reads digits up to the first other character, which is read too. */
    method ReadNumber(ghost s: seq<Ch>) returns (r: nat)
      requires input.Valid() && input.Remaining() == CharBits(s)
      modifies input
      ensures r == Number(s[..DigitRun(s)])
      ensures input.Valid() && input.Remaining() == CharBits(After(s, DigitRun(s) + 1))
    {
      hide CharBits, Number, DigitRun, After, BitIStream.Remaining, BitIStream.Valid;
      var os: seq<Ch> := [];
      var c := Get(s);
      while 48 <= c <= 57
        invariant |os| <= |s| && os == s[..|os|] && c == CharAt(s, |os|)
        invariant forall i :: 0 <= i < |os| ==> IsDigit(s[i])
        invariant input.Valid() && input.Remaining() == CharBits(After(s, |os| + 1))
        decreases |s| - |os|
      {
        AfterTwice(s, |os| + 1);
        os := os + [c];
        c := Get(After(s, |os|));
      }
      RunEnds(s, |os|);
      r := Number(os);
    }

    /** Reads back one value; s are the characters still on the stream. */
    method Decode(k: Kind, ghost s: seq<Ch>) returns (r: nat)
      requires input.Valid() && input.Remaining() == CharBits(s)
      modifies input
      ensures input.Valid() && r == DecodeChars(k, s).0 && input.Remaining() == CharBits(DecodeChars(k, s).1)
    {
      hide CharBits;
      match k {
        case InRange(lo, hi) =>
          r := ReadNumber(s);
        case Literal => r := Get(s);
        case Bit =>
          var b := Get(s);
          r := if b != ZERO_CH then 1 else 0;
      }
    }
  }

  /** Any mixed sequence of values comes back through a closed stream, which is used up exactly. */
  method EncodeAndDecodeAscii(items: seq<Item>) returns (values: seq<nat>, eof: bool)
    requires AllValid(items)
    ensures values == Values(items) && eof
  {
    hide Chars, CharBits, Seal, Unseal, DecodeChars, BitIStream.Remaining, BitIStream.Valid;
    var out := new BitOStream();
    var encoder := new Encoder(out);
    for i := 0 to |items|
      invariant out.Valid() && out.Written() + CharBits(Text(items[i..])) == CharBits(Text(items))
    {
      assert items[i..][1..] == items[i + 1..];
      CharBitsAppend(Chars(items[i]), Text(items[i + 1..]));
      Assoc(out.Written(), CharBits(Chars(items[i])), CharBits(Text(items[i + 1..])));
      encoder.Encode(items[i].value, items[i].kind);
    }
    ghost var bits := out.Written();
    out.Close();
    UnsealSeal(bits);
    var input := new BitIStream(out.stream);
    var decoder := new Decoder(input);
    values := [];
    assert items[0..] == items;
    for i := 0 to |items|
      invariant input.Valid() && input.Remaining() == CharBits(Text(items[i..]))
      invariant values == Values(items)[..i]
    {
      assert items[i..][1..] == items[i + 1..];
      DecodeCharsItem(items[i], Text(items[i + 1..]));
      var v := decoder.Decode(items[i].kind, Text(items[i..]));
      values := values + [v];
    }
    eof := input.Eof();
  }
}
