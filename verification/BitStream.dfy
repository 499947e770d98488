/** Bit streams: MSB-first integers on a sequence of bits, and the byte format that
    closes a stream with the number of valid bits of its last data byte. */
module BitStream {
  import opened Sequences

  // ---------- integers as bits ----------

  function Pow2(n: nat): (r: nat)
    ensures r > 0
  {
    if n == 0 then 1 else 2 * Pow2(n - 1)
  }

  /** The low w bits of v, most significant bit first. */
  function ToBits(v: nat, w: nat): (r: seq<bool>)
    ensures |r| == w
  {
    if w == 0 then [] else ToBits(v / 2, w - 1) + [v % 2 == 1]
  }

  /** The value of a bit string, most significant bit first. */
  function FromBits(b: seq<bool>): (r: nat)
    ensures r < Pow2(|b|)
  {
    if b == [] then 0 else 2 * FromBits(b[..|b| - 1]) + if b[|b| - 1] then 1 else 0
  }

  lemma {:induction false} FromBitsToBits(v: nat, w: nat)
    requires v < Pow2(w)
    ensures FromBits(ToBits(v, w)) == v
  {
    if w > 0 {
      FromBitsToBits(v / 2, w - 1);
      assert ToBits(v, w)[..w - 1] == ToBits(v / 2, w - 1);
    }
  }

  lemma {:induction false} ToBitsHead(v: nat, w: nat)
    requires w > 0
    ensures ToBits(v, w) == [v / Pow2(w - 1) % 2 == 1] + ToBits(v, w - 1)
  {
    if w > 1 {
      ToBitsHead(v / 2, w - 1);
      HalfQuotient(v, Pow2(w - 2));
    }
  }

  /** The first bit is the highest: bit i of w is the one of weight 2^(w - 1 - i). */
  lemma {:induction false} ToBitsAt(v: nat, w: nat, i: nat)
    requires i < w
    ensures ToBits(v, w)[i] == (v / Pow2(w - 1 - i) % 2 == 1)
  {
    ToBitsHead(v, w);
    if i > 0 {
      ToBitsAt(v, w - 1, i - 1);
    }
  }

  lemma HalfQuotient(v: nat, p: nat)
    requires p > 0
    ensures v / 2 / p == v / (2 * p)
  {
    var q, r := v / 2 / p, v / 2 % p;
    assert v == 2 * (q * p + r) + v % 2;
    assert v == (2 * p) * q + (2 * r + v % 2);
    QuotientUnique(v, 2 * p, q, 2 * r + v % 2);
  }

  lemma QuotientUnique(v: nat, d: nat, q: nat, r: nat)
    requires d > 0 && r < d && v == d * q + r
    ensures v / d == q && v % d == r
  {
    var q', r' := v / d, v % d;
    assert v == d * q' + r';
    if q < q' {
      MulGap(d, q, q');
    } else if q' < q {
      MulGap(d, q', q);
    }
  }

  lemma MulGap(d: nat, a: nat, b: nat)
    requires a < b
    ensures d * a + d <= d * b
  {
    if a + 1 < b {
      MulGap(d, a, b - 1);
    }
    assert d * b == d * (b - 1) + d;
  }

  /** What reading w bits gives when only b is left: missing bits are zero. */
  function Padded(b: seq<bool>, w: nat): (r: seq<bool>)
    ensures |r| == w
    ensures |b| >= w ==> r == b[..w]
  {
    if |b| >= w then b[..w] else b + seq(w - |b|, _ => false)
  }

  function Drop(b: seq<bool>, w: nat): seq<bool> {
    if |b| >= w then b[w..] else []
  }

  lemma ReadsFront(x: seq<bool>, rest: seq<bool>)
    ensures Padded(x + rest, |x|) == x && Drop(x + rest, |x|) == rest
  {
  }

  lemma ReadsNothing(all: seq<bool>)
    ensures FromBits(Padded(all, 0)) == 0 && Drop(all, 0) == all
  {
  }

  /** Reading one more bit: what has been read grows by it, and it is gone from the rest. */
  lemma ReadsOneMore(all: seq<bool>, n: nat, bit: bool)
    requires [bit] == Padded(Drop(all, n), 1)
    ensures FromBits(Padded(all, n + 1)) == 2 * FromBits(Padded(all, n)) + if bit then 1 else 0
    ensures Drop(all, n + 1) == Drop(Drop(all, n), 1)
  {
    var longer, shorter := Padded(all, n + 1), Padded(all, n);
    assert bit == [bit][0];
    assert longer == shorter + [bit];
    assert longer[..n] == shorter && longer[n] == bit;
  }

  // ---------- the closed byte format ----------

  type Byte = b: seq<bool> | |b| == 8 witness [false, false, false, false, false, false, false, false]

  const ZERO: Byte := [false, false, false, false, false, false, false, false]

  function Or(a: Byte, b: Byte): Byte {
    seq(8, i requires 0 <= i < 8 => a[i] || b[i])
  }

  function Zeros(n: nat): (r: seq<bool>)
    ensures |r| == n
  {
    seq(n, _ => false)
  }

  lemma {:induction false} ZeroBits(n: nat)
    ensures FromBits(Zeros(n)) == 0 && ToBits(0, n) == Zeros(n)
  {
    if n > 0 {
      ZeroBits(n - 1);
      assert Zeros(n)[..n - 1] == Zeros(n - 1);
    }
  }

  /** The three low bits of a byte. */
  function Low3(b: Byte): (r: nat)
    ensures r < 8
  {
    assert Pow2(3) == 8 by { assert Pow2(0) == 1 && Pow2(1) == 2 && Pow2(2) == 4; }
    FromBits(b[5..])
  }

  /** The bytes of a closed stream: full bytes, then up to five bits and their number in one
      byte, or six or seven bits in one byte and their number in the next. */
  function Seal(b: seq<bool>): (r: seq<Byte>)
    ensures |r| > 0
  {
    if |b| >= 8 then [b[..8]] + Seal(b[8..])
    else if |b| <= 5 then [b + Zeros(5 - |b|) + ToBits(|b|, 3)]
    else [b + Zeros(8 - |b|), Zeros(5) + ToBits(|b|, 3)]
  }

  /** The bits that a byte stream stands for when it is read. */
  function Unseal(bs: seq<Byte>): seq<bool> {
    if bs == [] then []
    else if |bs| == 1 then bs[0][..Low3(bs[0])]
    else if |bs| == 2 && Low3(bs[1]) >= 6 then bs[0][..Low3(bs[1])]
    else bs[0] + Unseal(bs[1..])
  }

  lemma Low3OfCount(prefix: seq<bool>, n: nat)
    requires |prefix| == 5 && n < 8
    ensures Low3(prefix + ToBits(n, 3)) == n
  {
    assert Pow2(3) == 8 by { assert Pow2(0) == 1 && Pow2(1) == 2 && Pow2(2) == 4; }
    assert (prefix + ToBits(n, 3))[5..] == ToBits(n, 3);
    FromBitsToBits(n, 3);
  }

  /** Closing a stream and opening it again gives back every bit, and no other. */
  lemma {:induction false} UnsealSeal(b: seq<bool>)
    ensures Unseal(Seal(b)) == b
  {
    var n := |b|;
    if n >= 8 {
      UnsealSeal(b[8..]);
      var rest := Seal(b[8..]);
      assert Seal(b)[0] == b[..8] && Seal(b)[1..] == rest;
      assert |Seal(b)| == 2 ==> Low3(Seal(b)[1]) < 6 by {
        if |rest| == 1 {
          var m := b[8..];
          assert |m| <= 5;
          Low3OfCount(m + Zeros(5 - |m|), |m|);
          assert Seal(b)[1] == rest[0];
        }
      }
      assert b == b[..8] + b[8..];
    } else if n <= 5 {
      Low3OfCount(b + Zeros(5 - n), n);
      assert (b + Zeros(5 - n) + ToBits(n, 3))[..n] == b;
    } else {
      Low3OfCount(Zeros(5), n);
      assert (b + Zeros(8 - n))[..n] == b;
    }
  }

  /** The bits of the bytes, one byte after the other. */
  function BitAt(bs: seq<Byte>, k: nat): bool
    requires k < 8 * |bs|
  {
    bs[k / 8][k % 8]
  }

  /** The bytes hold these bits in order, then zeros up to the last three bits. */
  predicate Holds(bs: seq<Byte>, b: seq<bool>) {
    && |b| <= 8 * |bs|
    && (forall k :: 0 <= k < |b| ==> BitAt(bs, k) == b[k])
    && (forall k :: |b| <= k < 8 * |bs| - 3 ==> !BitAt(bs, k))
  }

  lemma HoldsMore(first: Byte, bs: seq<Byte>, b: seq<bool>)
    requires Holds(bs, b)
    ensures Holds([first] + bs, first + b)
  {
    var all := [first] + bs;
    forall k | 8 <= k < 8 * |all|
      ensures BitAt(all, k) == BitAt(bs, k - 8)
    {
      assert k / 8 == (k - 8) / 8 + 1 && k % 8 == (k - 8) % 8;
    }
    assert forall k :: 0 <= k < 8 ==> BitAt(all, k) == first[k];
  }

  /** A closed stream, bit by bit: what was written, then zeros up to the last three bits, which hold the number
      of bits in the last byte that has any. One more byte is there when these three do not fit behind them. */
  lemma {:induction false} SealFormat(b: seq<bool>)
    ensures var bs, left := Seal(b), |b| % 8;
            |bs| == |b| / 8 + (if left <= 5 then 1 else 2) && Holds(bs, b) && Low3(bs[|bs| - 1]) == left
  {
    if |b| >= 8 {
      hide Holds, Low3;
      SealFormat(b[8..]);
      HoldsMore(b[..8], Seal(b[8..]), b[8..]);
      assert b == b[..8] + b[8..];
      assert |b| / 8 == |b[8..]| / 8 + 1 && |b| % 8 == |b[8..]| % 8;
    } else if |b| <= 5 {
      hide Low3;
      Low3OfCount(b + Zeros(5 - |b|), |b|);
    } else {
      hide Low3;
      Low3OfCount(Zeros(5), |b|);
      assert forall k :: 8 <= k < 13 ==> BitAt(Seal(b), k) == Zeros(5)[k - 8];
    }
  }

  // ---------- the writer ----------

  lemma {:induction false} SealFlat(bs: seq<Byte>, tail: seq<bool>)
    ensures Seal(Flat(bs) + tail) == bs + Seal(tail)
  {
    if bs == [] {
      assert Flat(bs) + tail == tail;
    } else {
      var last := bs[|bs| - 1];
      SealFlat(bs[..|bs| - 1], last + tail);
      assert Flat(bs) + tail == Flat(bs[..|bs| - 1]) + (last + tail);
      assert (last + tail)[..8] == last && (last + tail)[8..] == tail;
      assert bs == bs[..|bs| - 1] + [last];
    }
  }

  class BitOStream {
    var stream: seq<Byte>
    var dirty: bool
    var next: Byte
    var cursor: int

    ghost predicate Valid()
      reads this
    {
      && 0 <= cursor <= 7
      && (forall i :: 7 - cursor <= i < 8 ==> !next[i])
      && (dirty <==> cursor < 7)
    }

    /** Every bit written so far. */
    ghost function Written(): seq<bool>
      reads this
      requires Valid()
    {
      Flat(stream) + next[..7 - cursor]
    }

    constructor ()
      ensures Valid() && Written() == []
    {
      stream, dirty, next, cursor := [], false, ZERO, 7;
    }

    method WriteBit(set_: bool)
      requires Valid()
      modifies this
      ensures Valid() && Written() == old(Written()) + [set_]
    {
      if set_ {
        next := next[7 - cursor := true];
      }
      dirty := true;
      cursor := cursor - 1;
      if cursor < 0 {
        assert next == old(next)[..7] + [set_];
        stream := stream + [next];
        assert stream[..|stream| - 1] == old(stream);
        next, cursor, dirty := ZERO, 7, false;
      }
    }

    method WriteInt(value: nat, bits: nat)
      requires Valid()
      modifies this
      ensures Valid() && Written() == old(Written()) + ToBits(value, bits)
    {
      var i: int := bits - 1;
      while i >= 0
        invariant -1 <= i < bits
        invariant Valid() && Written() + ToBits(value, i + 1) == old(Written()) + ToBits(value, bits)
      {
        ToBitsHead(value, i + 1);
        WriteBit(value / Pow2(i) % 2 == 1);
        i := i - 1;
      }
    }

    /** The destructor: completes the last byte with the number of its valid bits. */
    method Close()
      requires Valid()
      modifies this
      ensures stream == Seal(old(Written()))
    {
      ghost var bits := next[..7 - cursor];
      SealFlat(stream, bits);
      var count := 7 - cursor;
      if cursor >= 2 {
        assert next == bits + Zeros(8 - count);
        next := Or(next, Zeros(5) + ToBits(count, 3));
        assert next == bits + Zeros(5 - count) + ToBits(count, 3);
      } else {
        assert next == bits + Zeros(8 - count);
        stream := stream + [next];
        next := Zeros(5) + ToBits(count, 3);
      }
      stream := stream + [next];
    }
  }

  // ---------- the reader ----------

  class BitIStream {
    var data: seq<Byte>  // what the underlying input stream has not delivered yet
    var current: Byte
    var next: Byte
    var isFinal: bool
    var finalBits: nat
    var cursor: nat

    ghost predicate Valid()
      reads this
    {
      && cursor <= 7
      && finalBits <= 7
      && (!isFinal ==> data == [] ==> Low3(next) < 6)
    }

    /** The bits still to be read. */
    ghost function Remaining(): seq<bool>
      reads this
      requires Valid()
    {
      if isFinal then if 7 - cursor < finalBits then current[7 - cursor..finalBits] else []
      else current[7 - cursor..] + Unseal([next] + data)
    }

    constructor (input: seq<Byte>)
      ensures Valid() && Remaining() == Unseal(input)
    {
      data := input;
      current, next, isFinal, finalBits, cursor := ZERO, ZERO, false, 0, 0;
      new;
      if data != [] {
        next, data := data[0], data[1..];
        assert input == [next] + data;
        ReadNext();
      } else {
        isFinal := true;
      }
    }

    method ReadNext()
      requires !isFinal && cursor == 0 && finalBits <= 7
      modifies this
      ensures Valid() && Remaining() == Unseal(old([next] + data))
    {
      current, cursor := next, 7;
      ghost var all := [next] + data;
      if data != [] {
        next, data := data[0], data[1..];
        assert all[1..] == [next] + data;
        if data == [] {
          finalBits := Low3(next);
          if finalBits >= 6 {
            isFinal, next := true, ZERO;
          }
        }
      } else {
        isFinal, finalBits, next := true, Low3(current), ZERO;
      }
    }

    function Eof(): (r: bool)
      reads this
      requires Valid()
      ensures r <==> Remaining() == []
    {
      isFinal && cursor <= 7 - finalBits
    }

    method ReadBit() returns (bit: bool)
      requires Valid()
      modifies this
      ensures Valid() && Remaining() == Drop(old(Remaining()), 1)
      ensures [bit] == Padded(old(Remaining()), 1)
    {
      ghost var all := Remaining();
      if !Eof() {
        bit := current[7 - cursor];
        assert all[0] == bit;
        if cursor > 0 {
          cursor := cursor - 1;
          assert Remaining() == all[1..];
        } else {
          assert isFinal || Unseal([next] + data) == all[1..];
          ReadNext();
          assert Remaining() == all[1..];
        }
      } else {
        bit := false;
      }
    }

    method ReadInt(amount: nat) returns (value: nat)
      requires Valid()
      modifies this
      ensures Valid() && Remaining() == Drop(old(Remaining()), amount)
      ensures value == FromBits(Padded(old(Remaining()), amount))
    {
      hide Unseal, FromBits, Padded, Drop, Remaining, Valid;
      value := 0;
      ghost var all := Remaining();
      ReadsNothing(all);
      for i := 0 to amount
        invariant Valid() && Remaining() == Drop(all, i)
        invariant value == FromBits(Padded(all, i))
      {
        var bit := ReadBit();
        ReadsOneMore(all, i, bit);
        value := 2 * value + if bit then 1 else 0;
      }
    }
  }
}
