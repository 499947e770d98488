/** Concatenation of sequences. */
module Sequences {

  lemma Slices<T>(a: seq<T>, x: seq<T>, y: seq<T>)
    ensures (a + (x + y))[..|a|] == a
    ensures (a + (x + y))[|a|..|a| + |x|] == x
    ensures (a + (x + y))[|a| + |x|..] == y
  {
  }

  lemma Assoc<T>(a: seq<T>, b: seq<T>, c: seq<T>)
    ensures a + b + c == a + (b + c)
  {
  }

  /** All pieces, one after the other. */
  function Flat<T>(pieces: seq<seq<T>>): seq<T> {
    if pieces == [] then [] else Flat(pieces[..|pieces| - 1]) + pieces[|pieces| - 1]
  }

  lemma {:induction false} FlatAppend<T>(a: seq<seq<T>>, b: seq<seq<T>>)
    ensures Flat(a + b) == Flat(a) + Flat(b)
  {
    if b == [] {
      assert a + b == a;
    } else {
      FlatAppend(a, b[..|b| - 1]);
      assert (a + b)[..|a + b| - 1] == a + b[..|b| - 1];
    }
  }

  lemma FlatOne<T>(piece: seq<T>)
    ensures Flat([piece]) == piece
  {
    assert [piece][..0] == [];
  }

  lemma FlatNone<T>(pieces: seq<seq<T>>)
    requires pieces == []
    ensures Flat(pieces) == []
  {
  }
}
