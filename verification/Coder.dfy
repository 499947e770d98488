/** The default coder: integers of a known range in as few bits as the range needs. */
module BitCoder {
  import opened BitStream
  import opened Sequences

  // ---------- how many bits ----------

  /** The number of the highest set bit, counted from 1; zero has none. */
  function BitsHi(x: nat): (b: nat)
    ensures x == 0 <==> b == 0
    ensures x > 0 ==> Pow2(b - 1) <= x < Pow2(b)
  {
    if x == 0 then 0 else 1 + BitsHi(x / 2)
  }

  function BitsFor(n: nat): (b: nat)
    ensures 0 < b && n < Pow2(b)
    ensures n > 0 ==> Pow2(b - 1) <= n
  {
    if n == 0 then 1 else BitsHi(n)
  }

  /** bits_for is minimal: n fits in b > 0 bits exactly when b is at least bits_for(n). */
  lemma BitsForMinimal(n: nat, b: nat)
    requires b > 0
    ensures n < Pow2(b) <==> BitsFor(n) <= b
  {
    if BitsFor(n) <= b {
      Pow2Monotone(BitsFor(n), b);
    } else if n > 0 {
      Pow2Monotone(b, BitsFor(n) - 1);
    }
  }

  lemma {:induction false} Pow2Monotone(a: nat, b: nat)
    requires a <= b
    ensures Pow2(a) <= Pow2(b)
  {
    if a < b {
      Pow2Monotone(a, b - 1);
    }
  }

  // ---------- values and the ranges they are coded for ----------

  const SIZE_MAX: nat := 0xFFFF_FFFF_FFFF_FFFF

  /** The overloads of encode and decode: Range, LiteralRange, BitRange. */
  datatype Kind = InRange(min: nat, max: nat) | Literal | Bit {
    predicate Admits(v: nat) {
      match this
      case InRange(lo, hi) => lo <= v <= hi <= SIZE_MAX
      case Literal => v < 256
      case Bit => v < 2
    }
  }

  datatype Item = Item(kind: Kind, value: nat) {
    predicate Valid() { kind.Admits(value) }
  }

  predicate AllValid(items: seq<Item>) {
    forall i :: 0 <= i < |items| ==> items[i].Valid()
  }

  function Values(items: seq<Item>): (r: seq<nat>)
    ensures |r| == |items|
  {
    seq(|items|, i requires 0 <= i < |items| => items[i].value)
  }

  function Width(k: Kind): nat {
    match k
    case InRange(lo, hi) => BitsFor(if lo <= hi then hi - lo else 0)
    case Literal => BitsFor(255)
    case Bit => 1
  }

  function Base(k: Kind): nat {
    if k.InRange? then k.min else 0
  }

  function ItemBits(it: Item): seq<bool>
    requires it.Valid()
  {
    ToBits(it.value - Base(it.kind), Width(it.kind))
  }

  function StreamOf(items: seq<Item>): seq<bool>
    requires AllValid(items)
  {
    if items == [] then [] else StreamOf(items[..|items| - 1]) + ItemBits(items[|items| - 1])
  }

  lemma ValueFits(it: Item)
    requires it.Valid()
    ensures FromBits(ToBits(it.value - Base(it.kind), Width(it.kind))) == it.value - Base(it.kind)
  {
    var top := match it.kind case InRange(lo, hi) => hi - lo case Literal => 255 case Bit => 1;
    if it.kind.Bit? {
      assert Pow2(1) == 2 by { assert Pow2(0) == 1; }
    }
    FromBitsToBits(it.value - Base(it.kind), Width(it.kind));
  }

  /** What is written for a value: its offset from the minimum in as many bits as the range needs, a literal in
      eight bits, a bit as itself. */
  lemma ItemFormat(it: Item)
    requires it.Valid()
    ensures match it.kind
            case InRange(lo, hi) =>
              |ItemBits(it)| == BitsFor(hi - lo) && FromBits(ItemBits(it)) == it.value - lo
            case Literal => |ItemBits(it)| == 8 && FromBits(ItemBits(it)) == it.value
            case Bit => ItemBits(it) == [it.value == 1]
  {
    hide ToBits, FromBits, BitsFor, Pow2;
    ValueFits(it);
    if it.kind.Literal? {
      LiteralWidth();
    } else if it.kind.Bit? {
      BitBits(it.value);
    }
  }

  lemma LiteralWidth()
    ensures BitsFor(255) == 8
  {
    assert BitsHi(3) == 2;
    assert BitsHi(15) == 4;
    assert BitsHi(63) == 6;
  }

  lemma BitBits(v: nat)
    requires v < 2
    ensures ToBits(v, 1) == [v != 0]
  {
    assert ToBits(v / 2, 0) == [];
  }

  class Encoder {
    const out: BitOStream

    constructor (out: BitOStream)
      ensures this.out == out
    {
      this.out := out;
    }

    method Encode(v: nat, k: Kind)
      requires k.Admits(v) && out.Valid()
      modifies out
      ensures out.Valid() && out.Written() == old(out.Written()) + ItemBits(Item(k, v))
    {
      hide ToBits, BitsFor;
      match k {
        case InRange(lo, hi) => out.WriteInt(v - lo, BitsFor(hi - lo));
        case Literal => out.WriteInt(v - 0, BitsFor(255 - 0));
        case Bit =>
          BitBits(v);
          out.WriteBit(v != 0);
      }
    }
  }

  /** What decoding one value of kind k makes of the bits: the value and the bits left. */
  function DecodeValue(k: Kind, bits: seq<bool>): (nat, seq<bool>) {
    ((Base(k) + FromBits(Padded(bits, Width(k)))) % (SIZE_MAX + 1), Drop(bits, Width(k)))
  }

  lemma DecodeItem(it: Item, rest: seq<bool>)
    requires it.Valid()
    ensures DecodeValue(it.kind, ItemBits(it) + rest) == (it.value, rest)
  {
    hide ToBits, FromBits, Pow2;
    ValueFits(it);
    ReadsFront(ItemBits(it), rest);
  }

  lemma OneBit(bit: bool)
    ensures FromBits([bit]) == if bit then 1 else 0
  {
    assert [bit][..0] == [];
  }

  class Decoder {
    const input: BitIStream

    constructor (input: BitIStream)
      ensures this.input == input
    {
      this.input := input;
    }

    method Decode(k: Kind) returns (r: nat)
      requires input.Valid() && (k.InRange? ==> k.min <= k.max)
      modifies input
      ensures input.Valid() && (r, input.Remaining()) == DecodeValue(k, old(input.Remaining()))
    {
      hide FromBits, Padded, Drop, BitsFor, Pow2;
      ghost var bits := input.Remaining();
      match k {
        case InRange(lo, hi) =>
          var x := input.ReadInt(BitsFor(hi - lo));
          r := (lo + x) % (SIZE_MAX + 1);
        case Literal =>
          var x := input.ReadInt(BitsFor(255));
          r := (0 + x) % (SIZE_MAX + 1);
        case Bit =>
          var bit := input.ReadBit();
          OneBit(bit);
          r := if bit then 1 else 0;
      }
    }
  }

  /** Reading one value for each kind. */
  function DecodeValues(kinds: seq<Kind>, bits: seq<bool>): (seq<nat>, seq<bool>) {
    if kinds == [] then ([], bits)
    else
      var first := DecodeValue(kinds[0], bits);
      var rest := DecodeValues(kinds[1..], first.1);
      ([first.0] + rest.0, rest.1)
  }

  function Kinds(items: seq<Item>): (r: seq<Kind>)
    ensures |r| == |items|
  {
    seq(|items|, i requires 0 <= i < |items| => items[i].kind)
  }

  /** Any mixed sequence of values comes back when it is read with the same ranges. */
  lemma {:induction false} StreamRoundTrip(items: seq<Item>, rest: seq<bool>)
    requires AllValid(items)
    ensures DecodeValues(Kinds(items), StreamOf(items) + rest) == (Values(items), rest)
  {
    hide ItemBits, DecodeValue;
    if items == [] {
      assert StreamOf(items) + rest == rest;
    } else {
      var it, more := items[0], items[1..];
      assert items == [it] + more;
      StreamFront(it, more);
      Assoc(ItemBits(it), StreamOf(more), rest);
      DecodeItem(it, StreamOf(more) + rest);
      StreamRoundTrip(more, rest);
      assert Kinds(items)[1..] == Kinds(more);
      assert Values(items) == [it.value] + Values(more);
    }
  }

  lemma {:induction false} StreamFront(it: Item, items: seq<Item>)
    requires it.Valid() && AllValid(items)
    ensures AllValid([it] + items)
    ensures StreamOf([it] + items) == ItemBits(it) + StreamOf(items)
  {
    hide ItemBits;
    if items == [] {
      assert [it] + items == [it];
      assert [it][..0] == [];
    } else {
      StreamFront(it, items[..|items| - 1]);
      assert ([it] + items)[..|items|] == [it] + items[..|items| - 1];
    }
  }

  method EncodeStream(items: seq<Item>) returns (out: BitOStream)
    requires AllValid(items)
    ensures fresh(out) && out.Valid() && out.Written() == StreamOf(items)
  {
    hide ItemBits;
    out := new BitOStream();
    var encoder := new Encoder(out);
    for i := 0 to |items|
      invariant fresh(out) && out.Valid() && out.Written() == StreamOf(items[..i])
    {
      assert items[..i + 1][..i] == items[..i];
      encoder.Encode(items[i].value, items[i].kind);
    }
    assert items[..|items|] == items;
  }

  /** Any mixed sequence of values comes back when it is read with the same ranges, and the
      closed stream is used up exactly. */
  method EncodeAndDecode(items: seq<Item>) returns (values: seq<nat>, eof: bool)
    requires AllValid(items)
    ensures values == Values(items) && eof
  {
    hide ItemBits, Seal, Unseal, DecodeValue, Flat, BitIStream.Remaining, BitIStream.Valid;
    var out := EncodeStream(items);
    ghost var bits := out.Written();
    out.Close();
    UnsealSeal(bits);
    var input := new BitIStream(out.stream);
    var decoder := new Decoder(input);
    values := [];
    assert items[0..] == items;
    for i := 0 to |items|
      invariant input.Valid() && input.Remaining() == StreamOf(items[i..])
      invariant values == Values(items)[..i]
    {
      assert items[i..] == [items[i]] + items[i + 1..];
      StreamFront(items[i], items[i + 1..]);
      DecodeItem(items[i], StreamOf(items[i + 1..]));
      var v := decoder.Decode(items[i].kind);
      values := values + [v];
    }
    eof := input.Eof();
  }
}
