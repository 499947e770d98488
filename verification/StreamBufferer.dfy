/** The buffer between process output and its readers: unbuffered, by line, or by a fixed size. */
module StreamBufferer {
  import opened Sequences

  type Byte = b: int | 0 <= b < 256

  const NL: Byte := 10

  type Bytes = seq<Byte>

  const NO_CHUNKS: seq<Bytes> := []

  // ---------- the calls on values ----------

  /** What the buffer holds between two calls; count is its own count of the bytes held. */
  datatype State = State(bufferType: nat, buffer: seq<Bytes>, count: nat, useUpBufferFirst: bool)

  /** What a call returns and leaves. */
  datatype Outcome = Outcome(out: seq<Bytes>, buffer: seq<Bytes>, count: nat)

  /** The position of the first newline, or the length. */
  function Newline(chunk: Bytes): (n: nat)
    ensures n <= |chunk| && NL !in chunk[..n]
    ensures n < |chunk| ==> chunk[n] == NL
  {
    if chunk == [] || chunk[0] == NL then 0
    else
      assert chunk[..Newline(chunk[1..]) + 1] == [chunk[0]] + chunk[1..][..Newline(chunk[1..])];
      Newline(chunk[1..]) + 1
  }

  /** Line mode: what is held goes out with the first line, the rest behind the last newline is held. */
  function Lines(buffer: seq<Bytes>, count: nat, chunk: Bytes): Outcome
    decreases |chunk|
  {
    var n := Newline(chunk);
    if n == |chunk| then
      if chunk == [] then Outcome([], buffer, count) else Outcome([], buffer + [chunk], count + |chunk|)
    else
      var write := Flat(buffer) + chunk[..n + 1];
      var rest := Lines([], if buffer == [] then count else 0, chunk[n + 1..]);
      rest.(out := [write] + rest.out)
  }

  /** Size mode: chunks are cut while the count says that there is enough for one. */
  function Sized(size: nat, buffer: seq<Bytes>, count: nat, chunk: Bytes): Outcome
    requires size > 1
    decreases buffer != [] || count > 0, |chunk|
  {
    if count + |chunk| < size then Outcome([], buffer + [chunk], count + |chunk|)
    else
      var cut := Cut(size, buffer, chunk);
      var rest := Sized(size, [], 0, cut.1);
      rest.(out := [cut.0] + rest.out)
  }

  /** The first bytes of what is held and what came in, and the bytes behind them. */
  function Cut(size: nat, buffer: seq<Bytes>, chunk: Bytes): (r: (Bytes, Bytes))
    ensures r.0 + r.1 == Flat(buffer) + chunk
    ensures |r.0| == size || (|r.0| < size && r.1 == [])
    ensures buffer == [] && |chunk| >= size > 0 ==> |r.1| < |chunk|
  {
    var all := Flat(buffer) + chunk;
    if |all| < size then (all, []) else (all[..size], all[size..])
  }

  function Processed(s: State, chunk: Bytes): (State, seq<Bytes>) {
    if s.bufferType == 0 then
      if s.useUpBufferFirst then (s.(buffer := [], useUpBufferFirst := false), s.buffer + [chunk]) else (s, [chunk])
    else
      var r := if s.bufferType == 1 then Lines(s.buffer, s.count, chunk)
               else Sized(s.bufferType, s.buffer, s.count, chunk);
      (s.(buffer := r.buffer, count := r.count), r.out)
  }

  datatype Call = Process(chunk: Bytes) | Change(newType: nat) | Flush

  /** One call: the state after it and what it returns. */
  function Called(s: State, call: Call): (State, seq<Bytes>) {
    match call
    case Process(chunk) => Processed(s, chunk)
    case Change(newType) =>
      (s.(bufferType := newType, useUpBufferFirst := s.useUpBufferFirst || newType == 0), [])
    case Flush => (s.(buffer := []), [Flat(s.buffer)])
  }

  function Fresh(bufferType: nat): State {
    State(bufferType, [], 0, false)
  }

  /** What each of the calls returns. */
  function Returned(s: State, calls: seq<Call>): (r: seq<seq<Bytes>>)
    ensures |r| == |calls|
    decreases |calls|
  {
    if calls == [] then []
    else [Called(s, calls[0]).1] + Returned(Called(s, calls[0]).0, calls[1..])
  }

  // ---------- nothing is lost, chunks have their form ----------

  /** The count is that of the buffer; flush and the unbuffered mode do not keep it so. */
  predicate InSync(buffer: seq<Bytes>, count: nat) {
    count == |Flat(buffer)|
  }

  /** A chunk that ends at its only newline. */
  predicate IsLine(chunk: Bytes) {
    chunk != [] && chunk[|chunk| - 1] == NL && NL !in chunk[..|chunk| - 1]
  }

  lemma FlatFront(first: Bytes, rest: seq<Bytes>)
    ensures Flat([first] + rest) == first + Flat(rest)
  {
    FlatAppend([first], rest);
    FlatOne(first);
  }

  lemma FlatBack(buffer: seq<Bytes>, last: Bytes)
    ensures Flat(buffer + [last]) == Flat(buffer) + last
  {
    FlatAppend(buffer, [last]);
    FlatOne(last);
  }

  lemma Rejoin(held: Bytes, line: Bytes, more: Bytes, out: Bytes, rest: Bytes)
    requires out + rest == [] + more
    ensures held + line + out + rest == held + (line + more)
  {
    assert [] + more == more;
    Assoc(held + line, out, rest);
    Assoc(held, line, more);
  }

  lemma {:induction false} LinesKeepBytes(buffer: seq<Bytes>, count: nat, chunk: Bytes)
    ensures var r := Lines(buffer, count, chunk);
            && Flat(r.out) + Flat(r.buffer) == Flat(buffer) + chunk
            && (InSync(buffer, count) ==> InSync(r.buffer, r.count))
    decreases |chunk|
  {
    hide Flat, Newline;
    FlatNone(NO_CHUNKS);
    var n := Newline(chunk);
    var r := Lines(buffer, count, chunk);
    if n == |chunk| {
      FlatBack(buffer, chunk);
      assert Flat(r.out) + Flat(r.buffer) == Flat(r.buffer);
    } else {
      var write, next := Flat(buffer) + chunk[..n + 1], if buffer == [] then count else 0;
      var line, more := chunk[..n + 1], chunk[n + 1..];
      var rest := Lines([], next, more);
      LinesKeepBytes([], next, more);
      FlatFront(write, rest.out);
      Rejoin(Flat(buffer), line, more, Flat(rest.out), Flat(rest.buffer));
      assert line + more == chunk;
    }
  }

  lemma {:induction false} LinesAreLines(buffer: seq<Bytes>, count: nat, chunk: Bytes)
    requires NL !in Flat(buffer)
    ensures var r := Lines(buffer, count, chunk);
            NL !in Flat(r.buffer) && forall i :: 0 <= i < |r.out| ==> IsLine(r.out[i])
    decreases |chunk|
  {
    hide Flat, Newline;
    FlatNone(NO_CHUNKS);
    var n := Newline(chunk);
    if n == |chunk| {
      FlatBack(buffer, chunk);
      assert chunk == chunk[..n];
    } else {
      var write := Flat(buffer) + chunk[..n + 1];
      assert chunk[..n + 1] == chunk[..n] + [NL];
      assert write[..|write| - 1] == Flat(buffer) + chunk[..n];
      LinesAreLines([], if buffer == [] then count else 0, chunk[n + 1..]);
    }
  }

  lemma {:induction false} SizedKeepsBytes(size: nat, buffer: seq<Bytes>, count: nat, chunk: Bytes)
    requires size > 1
    ensures var r := Sized(size, buffer, count, chunk);
            && Flat(r.out) + Flat(r.buffer) == Flat(buffer) + chunk
            && (InSync(buffer, count) ==> InSync(r.buffer, r.count) && |Flat(r.buffer)| < size)
    decreases buffer != [] || count > 0, |chunk|
  {
    hide Flat, Cut;
    FlatNone(NO_CHUNKS);
    var r := Sized(size, buffer, count, chunk);
    if count + |chunk| < size {
      FlatBack(buffer, chunk);
      assert Flat(r.out) + Flat(r.buffer) == Flat(r.buffer);
    } else {
      var cut := Cut(size, buffer, chunk);
      SizedKeepsBytes(size, [], 0, cut.1);
      FlatFront(cut.0, Sized(size, [], 0, cut.1).out);
      assert [] + cut.1 == cut.1;
    }
  }

  predicate AllOfSize(out: seq<Bytes>, size: nat) {
    forall i :: 0 <= i < |out| ==> |out[i]| == size
  }

  /** All chunks have the buffer size, unless the count runs ahead of a buffer that cannot fill the first. */
  lemma {:induction false} SizedExactly(size: nat, buffer: seq<Bytes>, count: nat, chunk: Bytes)
    requires size > 1
    ensures AllOfSize(Sized(size, buffer, count, chunk).out, size)
       <==> count + |chunk| < size || |Flat(buffer)| + |chunk| >= size
    decreases buffer != [] || count > 0, |chunk|
  {
    hide Flat, Cut;
    FlatNone(NO_CHUNKS);
    if count + |chunk| >= size {
      var cut := Cut(size, buffer, chunk);
      assert |cut.0| + |cut.1| == |Flat(buffer)| + |chunk|;
      SizedExactly(size, [], 0, cut.1);
      var rest := Sized(size, [], 0, cut.1).out;
      assert AllOfSize(rest, size);
      var out := [cut.0] + rest;
      assert out[0] == cut.0;
      assert Sized(size, buffer, count, chunk).out == out;
    }
  }

  /** Without buffering a chunk is returned as it came, behind what is still held. */
  lemma UnbufferedReturns(s: State, chunk: Bytes)
    requires s.bufferType == 0 && Settled(s)
    ensures var (t, out) := Called(s, Process(chunk));
            && out == s.buffer + [chunk] && t == State(0, [], s.count, false)
  {
    assert [] + [chunk] == [chunk];
  }

  /** From the start every chunk is returned by itself. */
  lemma {:induction false} UnbufferedFromStart(s: State, calls: seq<Call>, k: nat)
    requires s.bufferType == 0 && s.buffer == [] && !s.useUpBufferFirst
    requires k < |calls| && forall i :: 0 <= i < |calls| ==> calls[i].Process?
    ensures Returned(s, calls)[k] == [calls[k].chunk]
    decreases |calls|
  {
    if k > 0 {
      UnbufferedFromStart(Called(s, calls[0]).0, calls[1..], k - 1);
    }
  }

  /** Bytes held without the use-up mark exist only in a buffering mode. */
  predicate Settled(s: State) {
    s.bufferType == 0 && !s.useUpBufferFirst ==> s.buffer == []
  }

  lemma CallKeepsBytes(s: State, call: Call)
    requires Settled(s)
    ensures var r := Called(s, call);
            && Settled(r.0)
            && Flat(r.1) + Flat(r.0.buffer) == Flat(s.buffer) + if call.Process? then call.chunk else []
  {
    hide Flat, Lines, Sized;
    FlatNone(NO_CHUNKS);
    var r := Called(s, call);
    match call
    case Process(chunk) =>
      FlatBack(s.buffer, chunk);
      FlatOne(chunk);
      if s.bufferType == 1 {
        LinesKeepBytes(s.buffer, s.count, chunk);
      } else if s.bufferType > 1 {
        SizedKeepsBytes(s.bufferType, s.buffer, s.count, chunk);
      } else {
        assert Flat(r.1) + [] == Flat(r.1) && [] + chunk == chunk;
      }
    case Change(newType) =>
      assert [] + Flat(s.buffer) == Flat(s.buffer) + [];
    case Flush =>
      FlatOne(Flat(s.buffer));
  }

  /** A flush forgets the bytes but not their count: the next chunk goes out as soon as both together
      reach the size, however short it is. */
  lemma ShortChunkAfterFlush(size: nat, a: Bytes, b: Bytes)
    requires size > 1 && |a| < size && |b| < size
    ensures Returned(Fresh(size), [Process(a), Flush, Process(b)])
         == [[], [a], if |a| + |b| >= size then [b] else []]
  {
    var calls := [Process(a), Flush, Process(b)];
    var s := Called(Fresh(size), calls[0]).0;
    FlatOne(a);
    assert s == State(size, [a], |a|, false) by { assert [] + [a] == [a]; }
    var t := Called(s, calls[1]).0;
    assert t == State(size, [], |a|, false);
    assert Called(s, calls[1]).1 == [a];
    AfterFlush(size, |a|, b);
    assert Called(t, calls[2]).1 == if |a| + |b| >= size then [b] else [];
    assert calls[1..] == [calls[1], calls[2]] && calls[1..][1..] == [calls[2]] && [calls[2]][1..] == [];
    assert Returned(t, [calls[2]]) == [Called(t, calls[2]).1] + Returned(Called(t, calls[2]).0, []);
    assert Returned(s, calls[1..]) == [[a]] + Returned(t, [calls[2]]);
  }

  lemma AfterFlush(size: nat, count: nat, b: Bytes)
    requires size > 1 && |b| < size
    ensures Sized(size, [], count, b).out == if count + |b| >= size then [b] else []
  {
    FlatNone(NO_CHUNKS);
    assert [] + b == b;
    if count + |b| >= size {
      assert Cut(size, [], b) == (b, []);
      assert Sized(size, [], 0, []).out == [];
    }
  }

  /** Three bytes, a flush and one byte more give a chunk of one byte in a buffer of four. */
  lemma OneByteChunk()
    ensures Returned(Fresh(4), [Process([1, 2, 3]), Flush, Process([4])]) == [[], [[1, 2, 3]], [[4]]]
  {
    ShortChunkAfterFlush(4, [1, 2, 3], [4]);
  }

  // ---------- the object ----------

  class StreamBufferer {
    var bufferType: nat
    var buffer: seq<Bytes>
    var count: nat
    var useUpBufferFirst: bool
    ghost var consumed: Bytes  // every byte given to process
    ghost var emitted: Bytes   // every byte returned

    ghost function View(): State
      reads this
    {
      State(bufferType, buffer, count, useUpBufferFirst)
    }

    /** Nothing is lost: what came in is what went out and what the buffer holds, and an unbuffered
        stream with bytes left over knows that it has to use them up. */
    ghost predicate Valid()
      reads this
    {
      consumed == emitted + Flat(buffer) && Settled(View())
    }

    constructor (bufferType: nat)
      ensures Valid() && View() == Fresh(bufferType) && consumed == []
    {
      this.bufferType, buffer, count, useUpBufferFirst, consumed, emitted := bufferType, [], 0, false, [], [];
    }

    method ChangeBuffering(newType: nat)
      requires Valid()
      modifies this`bufferType, this`useUpBufferFirst
      ensures Valid() && View() == Called(old(View()), Change(newType)).0
    {
      if newType == 0 {
        useUpBufferFirst := true;
      }
      bufferType := newType;
    }

    method Process(chunk: Bytes) returns (out: seq<Bytes>)
      requires Valid()
      modifies this
      ensures Valid() && (View(), out) == Processed(old(View()), chunk) && bufferType == old(bufferType)
      ensures consumed == old(consumed) + chunk && emitted == old(emitted) + Flat(out)
      ensures bufferType > 0 ==> old(InSync(buffer, count)) ==> InSync(buffer, count)
      ensures bufferType == 1 && NL !in Flat(old(buffer)) ==>
                NL !in Flat(buffer) && forall i :: 0 <= i < |out| ==> IsLine(out[i])
      ensures bufferType > 1 ==>
                (AllOfSize(out, bufferType)
                 <==> old(count) + |chunk| < bufferType || |Flat(old(buffer))| + |chunk| >= bufferType)
      ensures bufferType > 1 && old(InSync(buffer, count)) ==> |Flat(buffer)| < bufferType
    {
      hide Flat, Lines, Sized;
      CallKeepsBytes(View(), Call.Process(chunk));
      if bufferType == 0 {
        out := ProcessUnbuffered(chunk);
      } else if bufferType == 1 {
        LinesKeepBytes(buffer, count, chunk);
        if NL !in Flat(buffer) {
          LinesAreLines(buffer, count, chunk);
        }
        out := ProcessLines(chunk);
      } else {
        SizedKeepsBytes(bufferType, buffer, count, chunk);
        SizedExactly(bufferType, buffer, count, chunk);
        out := ProcessSized(chunk);
      }
      Assoc(emitted, Flat(old(buffer)), chunk);
      Assoc(emitted, Flat(out), Flat(buffer));
      consumed, emitted := consumed + chunk, emitted + Flat(out);
    }

    method ProcessUnbuffered(chunk: Bytes) returns (out: seq<Bytes>)
      requires bufferType == 0
      modifies this`buffer, this`useUpBufferFirst
      ensures (View(), out) == Processed(old(View()), chunk)
    {
      if useUpBufferFirst {
        useUpBufferFirst := false;
        out := buffer + [chunk];
        buffer := [];
      } else {
        out := [chunk];
      }
    }

    method ProcessLines(chunk0: Bytes) returns (out: seq<Bytes>)
      requires bufferType == 1
      modifies this`buffer, this`count
      ensures (View(), out) == Processed(old(View()), chunk0)
    {
      hide Flat, Newline;
      ghost var want := Lines(buffer, count, chunk0);
      var chunk := chunk0;
      out := [];
      var newline := Newline(chunk);
      assert out + want.out == want.out;
      while newline < |chunk|
        invariant newline == Newline(chunk)
        invariant var r := Lines(buffer, count, chunk); want == r.(out := out + r.out)
        decreases |chunk|
      {
        FlatNone(NO_CHUNKS);
        var write := chunk[..newline + 1];
        assert [] + write == write;
        if |buffer| > 0 {
          write := Flat(buffer) + write;
          buffer, count := [], 0;
        }
        chunk := chunk[newline + 1..];
        Assoc(out, [write], Lines(buffer, count, chunk).out);
        out := out + [write];
        newline := Newline(chunk);
      }
      assert out + [] == out;
      if |chunk| > 0 {
        buffer, count := buffer + [chunk], count + |chunk|;
      }
    }

    /** Emits chunks of the buffer size while enough bytes seem to be there. */
    method ProcessSized(chunk0: Bytes) returns (out: seq<Bytes>)
      requires bufferType > 1
      modifies this`buffer, this`count
      ensures (View(), out) == Processed(old(View()), chunk0)
    {
      hide Flat, Cut;
      ghost var want := Sized(bufferType, buffer, count, chunk0);
      var chunk := chunk0;
      out := [];
      assert out + want.out == want.out;
      while count + |chunk| >= bufferType
        invariant var r := Sized(bufferType, buffer, count, chunk); want == r.(out := out + r.out)
        decreases buffer != [] || count > 0, |chunk|
      {
        var (first, rest) := Cut(bufferType, buffer, chunk);
        chunk := rest;
        buffer, count := [], 0;
        Assoc(out, [first], Sized(bufferType, [], 0, chunk).out);
        out := out + [first];
      }
      assert out + [] == out;
      buffer, count := buffer + [chunk], count + |chunk|;
    }

    /** Returns and forgets the buffer, but leaves the count as it is. */
    method Flush() returns (ret: Bytes)
      requires Valid()
      modifies this`buffer, this`emitted
      ensures Valid() && (View(), [ret]) == Called(old(View()), Call.Flush)
      ensures emitted == old(emitted) + ret && emitted == consumed
    {
      ret := Flat(buffer);
      buffer := [];
      emitted := emitted + ret;
    }
  }

  // ---------- sequences of calls ----------

  function Input(calls: seq<Call>): Bytes {
    if calls == [] then []
    else Input(calls[..|calls| - 1]) + if calls[|calls| - 1].Process? then calls[|calls| - 1].chunk else []
  }

  /** Every sequence of calls returns what the specification says, and all bytes in order once a flush
      follows. */
  method Drive(bufferType: nat, calls: seq<Call>) returns (returned: seq<seq<Bytes>>, last: Bytes)
    ensures returned == Returned(Fresh(bufferType), calls)
    ensures Flat(Flat(returned)) + last == Input(calls)
  {
    hide Flat, Processed;
    var b := new StreamBufferer(bufferType);
    returned := [];
    FlatNone(returned);
    FlatNone(NO_CHUNKS);
    assert calls[0..] == calls && [] + Returned(Fresh(bufferType), calls) == Returned(Fresh(bufferType), calls);
    for i := 0 to |calls|
      invariant fresh(b) && b.Valid() && b.emitted == Flat(Flat(returned)) && b.consumed == Input(calls[..i])
      invariant Returned(Fresh(bufferType), calls) == returned + Returned(b.View(), calls[i..])
    {
      assert calls[..i + 1][..i] == calls[..i];
      assert calls[i..][0] == calls[i] && calls[i..][1..] == calls[i + 1..];
      ghost var before := b.View();
      var out;
      match calls[i] {
        case Process(chunk) => out := b.Process(chunk);
        case Change(newType) =>
          b.ChangeBuffering(newType);
          out := [];
        case Flush =>
          var ret := b.Flush();
          FlatOne(ret);
          out := [ret];
      }
      assert (b.View(), out) == Called(before, calls[i]);
      Assoc(returned, [out], Returned(b.View(), calls[i + 1..]));
      FlatAppend(returned, [out]);
      FlatOne(out);
      FlatAppend(Flat(returned), out);
      returned := returned + [out];
    }
    assert calls[..|calls|] == calls && calls[|calls|..] == [];
    assert returned + [] == returned;
    last := b.Flush();
  }

  /** From a fresh buffer of fixed size n every chunk has exactly n bytes, and only the last n - 1 or
      fewer bytes are held back. */
  method DriveSized(n: nat, chunks: seq<Bytes>) returns (out: seq<Bytes>, rest: Bytes)
    requires n > 1
    ensures forall i :: 0 <= i < |out| ==> |out[i]| == n
    ensures Flat(out) + rest == Flat(chunks) && |rest| < n
  {
    hide Flat, Processed;
    var b := new StreamBufferer(n);
    out := [];
    FlatNone(NO_CHUNKS);
    for i := 0 to |chunks|
      invariant fresh(b) && b.Valid() && InSync(b.buffer, b.count) && b.bufferType == n && |Flat(b.buffer)| < n
      invariant b.emitted == Flat(out) && b.consumed == Flat(chunks[..i])
      invariant forall j :: 0 <= j < |out| ==> |out[j]| == n
    {
      FlatBack(chunks[..i], chunks[i]);
      assert chunks[..i + 1] == chunks[..i] + [chunks[i]];
      var more := b.Process(chunks[i]);
      FlatAppend(out, more);
      out := out + more;
    }
    assert chunks[..|chunks|] == chunks;
    rest := b.Flush();
  }

  /** In fixed line mode every chunk ends at its only newline, and no line is held back. */
  method DriveLines(chunks: seq<Bytes>) returns (out: seq<Bytes>, rest: Bytes)
    ensures forall i :: 0 <= i < |out| ==> IsLine(out[i])
    ensures Flat(out) + rest == Flat(chunks) && NL !in rest
  {
    hide Flat, Processed;
    var b := new StreamBufferer(1);
    out := [];
    FlatNone(NO_CHUNKS);
    for i := 0 to |chunks|
      invariant fresh(b) && b.Valid() && b.bufferType == 1 && NL !in Flat(b.buffer)
      invariant b.emitted == Flat(out) && b.consumed == Flat(chunks[..i])
      invariant forall j :: 0 <= j < |out| ==> IsLine(out[j])
    {
      FlatBack(chunks[..i], chunks[i]);
      assert chunks[..i + 1] == chunks[..i] + [chunks[i]];
      var more := b.Process(chunks[i]);
      FlatAppend(out, more);
      out := out + more;
    }
    assert chunks[..|chunks|] == chunks;
    rest := b.Flush();
  }
}
