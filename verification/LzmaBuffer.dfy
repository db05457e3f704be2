/** Decompression into a growing buffer: the loop of xdl_lzma_decompress around a decoder that is not
part of this model. */
module LzmaBuffer {
  import opened CStrings
  import opened Wrappers

  datatype Status = NotSpecified | FinishedWithMark | NotFinished | NeedsMoreInput

  /** One call of the decoder: the input it took, the output it wrote, and where it stands. */
  datatype Coded<D> = Coded(ok: bool, state: D, consumed: nat, produced: seq<Byte>, status: Status)

  /** `code(state, space, input)` runs the decoder with `space` bytes of room. */
  datatype Decoder<!D> = Decoder(start: D, code: (D, nat, seq<Byte>) -> Coded<D>, isFinished: D -> bool)

  /** What the loop needs of a decoder. `pending(state, input)` is all that is still to come out: a call
  writes the front of it, at most as much as there is room for; one that is not finished has filled its
  room, and had room or input to begin with; and a finished stream has nothing left. */
  ghost predicate WellBehaved<D(!new)>(decoder: Decoder<D>, pending: (D, seq<Byte>) -> seq<Byte>) {
    && (forall state, space: nat, input :: CodesWell(decoder, pending, state, space, input))
    && (forall state, input :: decoder.isFinished(state) ==> pending(state, input) == [])
  }

  ghost predicate CodesWell<D>(decoder: Decoder<D>, pending: (D, seq<Byte>) -> seq<Byte>, state: D, space: nat,
                               input: seq<Byte>) {
    var c := decoder.code(state, space, input);
    c.ok ==>
      && c.consumed <= |input| && |c.produced| <= space
      && pending(state, input) == c.produced + pending(c.state, input[c.consumed..])
      && (c.status == NotFinished ==> |c.produced| == space && (space > 0 || input != []))
  }

  /** A decoder of this kind exists: the one that copies. Its state says whether it has copied everything. */
  const COPIER: Decoder<bool> := Decoder(
    false,
    (done, space, input) =>
      if done then Coded(true, true, 0, [], FinishedWithMark)
      else if |input| > space then Coded(true, false, space, input[..space], NotFinished)
      else Coded(true, true, |input|, input, FinishedWithMark),
    done => done)

  lemma CopierIsWellBehaved()
    ensures WellBehaved(COPIER, (done, input) => if done then [] else input)
  {
    var pending := (done, input: seq<Byte>) => if done then [] else input;
    forall state: bool, space: nat, input: seq<Byte> ensures CodesWell(COPIER, pending, state, space, input) {
      if !state && |input| > space {
        assert input == input[..space] + input[space..];
      }
    }
  }

  function Max(a: nat, b: nat): nat {
    if a > b then a else b
  }

  /** realloc to a larger size. */
  method Grow(dst: array<Byte>, size: nat) returns (grown: array<Byte>)
    requires size >= dst.Length
    ensures fresh(grown) && grown.Length == size && grown[..dst.Length] == dst[..]
  {
    grown := new Byte[size];
    for i := 0 to dst.Length
      invariant grown[..i] == dst[..i]
    {
      grown[i] := dst[i];
    }
  }

  /** The decoder's writes, `chunk` at `dst + at`. */
  method Write(dst: array<Byte>, at: nat, chunk: seq<Byte>)
    requires at + |chunk| <= dst.Length
    modifies dst
    ensures dst[..at + |chunk|] == old(dst[..at]) + chunk
  {
    for i := 0 to |chunk|
      invariant dst[..at + i] == old(dst[..at]) + chunk[..i]
    {
      dst[at + i] := chunk[i];
      assert chunk[..i + 1] == chunk[..i] + [chunk[i]];
      assert dst[..at + i + 1] == dst[..at + i] + [chunk[i]];
    }
    assert chunk[..|chunk|] == chunk;
  }

  /** The first `n` bytes: the final realloc. */
  method Shrink(dst: array<Byte>, n: nat) returns (r: array<Byte>)
    requires n <= dst.Length
    ensures fresh(r) && r[..] == dst[..n]
  {
    r := new Byte[n];
    for i := 0 to n
      invariant r[..i] == dst[..i]
    {
      r[i] := dst[i];
    }
  }

  /** The buffer size a call works with: grown when less than twice the input's size is free. */
  function Room(capacity: nat, dstOffset: nat, n: nat): (r: nat)
    requires dstOffset <= capacity
    ensures dstOffset + 2 * n <= r <= Max(capacity, dstOffset + 4 * n)
    ensures r == capacity <==> dstOffset + 2 * n <= capacity
  {
    if capacity - dstOffset < 2 * n then capacity + 2 * n else capacity
  }

  // The run

  /** Where the loop stands: the decoder, how much of the input it has taken, the buffer's size and how much of it
  is written. */
  datatype Position<D> = Position(state: D, srcOffset: nat, capacity: nat, dstOffset: nat)

  predicate Within<D>(src: seq<Byte>, p: Position<D>) {
    p.srcOffset <= |src| && p.dstOffset <= p.capacity
  }

  function Start<D>(decoder: Decoder<D>, src: seq<Byte>): (p: Position<D>)
    ensures Within(src, p)
  {
    Position(decoder.start, 0, 7 * |src|, 0)
  }

  /** What is still to come. */
  function Left<D>(pending: (D, seq<Byte>) -> seq<Byte>, src: seq<Byte>, p: Position<D>): seq<Byte>
    requires Within(src, p)
  {
    pending(p.state, src[p.srcOffset..])
  }

  /** One call of the decoder: the size of the buffer, the room in it, and what came back. */
  datatype Call<D> = Call(capacity: nat, room: nat, coded: Coded<D>)
  {
    predicate GoesOn() {
      coded.ok && coded.status == NotFinished
    }

    function Chunk(): seq<Byte> {
      if coded.ok then coded.produced else []
    }
  }

  function CallAt<D>(decoder: Decoder<D>, src: seq<Byte>, p: Position<D>): (call: Call<D>)
    requires Within(src, p)
    ensures call.room >= 2 * |src|
        && call.capacity == p.dstOffset + call.room <= Max(p.capacity, p.dstOffset + 4 * |src|)
  {
    var size := Room(p.capacity, p.dstOffset, |src|);
    Call(size, size - p.dstOffset, decoder.code(p.state, size - p.dstOffset, src[p.srcOffset..]))
  }

  function After<D>(p: Position<D>, call: Call<D>): Position<D> {
    Position(call.coded.state, p.srcOffset + call.coded.consumed, call.capacity, p.dstOffset + |call.coded.produced|)
  }

  lemma CallFacts<D(!new)>(decoder: Decoder<D>, pending: (D, seq<Byte>) -> seq<Byte>, src: seq<Byte>, p: Position<D>)
    requires WellBehaved(decoder, pending) && Within(src, p)
    ensures var call := CallAt(decoder, src, p);
            call.coded.ok ==>
              && Within(src, After(p, call))
              && Left(pending, src, p) == call.Chunk() + Left(pending, src, After(p, call))
              && (call.GoesOn() ==> |call.Chunk()| == call.room > 0)
  {
    var call := CallAt(decoder, src, p);
    assert CodesWell(decoder, pending, p.state, call.room, src[p.srcOffset..]);
    if call.coded.ok {
      assert src[p.srcOffset..][call.coded.consumed..] == src[p.srcOffset + call.coded.consumed..];
    }
  }

  /** All calls of a run from here on: it goes on while the decoder says that it is not finished. */
  ghost function Calls<D(!new)>(decoder: Decoder<D>, pending: (D, seq<Byte>) -> seq<Byte>, src: seq<Byte>,
                                p: Position<D>): (calls: seq<Call<D>>)
    requires WellBehaved(decoder, pending) && Within(src, p)
    ensures calls != []
    decreases |Left(pending, src, p)|
  {
    var call := CallAt(decoder, src, p);
    CallFacts(decoder, pending, src, p);
    [call] + if call.GoesOn() then Calls(decoder, pending, src, After(p, call)) else []
  }

  /** What the calls wrote, one chunk after the other. */
  function Output<D>(calls: seq<Call<D>>): seq<Byte> {
    if calls == [] then [] else calls[0].Chunk() + Output(calls[1..])
  }

  /** No call failed, and the stream is finished where the decoder stopped. */
  predicate Succeeded<D>(decoder: Decoder<D>, calls: seq<Call<D>>)
    requires calls != []
  {
    var last := calls[|calls| - 1].coded;
    last.ok && decoder.isFinished(last.state)
  }

  lemma {:induction false} OutputAppend<D>(a: seq<Call<D>>, b: seq<Call<D>>)
    ensures Output(a + b) == Output(a) + Output(b)
  {
    if a == [] {
      assert a + b == b;
    } else {
      assert (a + b)[1..] == a[1..] + b;
      OutputAppend(a[1..], b);
    }
  }

  /** Call `k` has at least twice the input's size of room behind what is written by then, in a buffer no
  larger than it was or than what is written plus four times the input. */
  ghost predicate RoomAt<D>(calls: seq<Call<D>>, k: nat, n: nat, capacity: nat, dstOffset: nat)
    requires k < |calls|
  {
    var written := dstOffset + |Output(calls[..k])|;
    && calls[k].room >= 2 * n
    && calls[k].capacity == written + calls[k].room
    && calls[k].capacity <= Max(capacity, written + 4 * n)
  }

  lemma {:induction false} EveryCallHasRoom<D(!new)>(decoder: Decoder<D>, pending: (D, seq<Byte>) -> seq<Byte>,
                                                     src: seq<Byte>, p: Position<D>, k: nat)
    requires WellBehaved(decoder, pending) && Within(src, p) && k < |Calls(decoder, pending, src, p)|
    ensures RoomAt(Calls(decoder, pending, src, p), k, |src|, p.capacity, p.dstOffset)
    decreases k
  {
    var call := CallAt(decoder, src, p);
    CallFacts(decoder, pending, src, p);
    if k > 0 {
      var rest := Calls(decoder, pending, src, After(p, call));
      assert Calls(decoder, pending, src, p) == [call] + rest;
      EveryCallHasRoom(decoder, pending, src, After(p, call), k - 1);
      RoomAtNext(call, rest, k - 1, |src|, p.capacity, p.dstOffset);
    } else {
      assert Calls(decoder, pending, src, p)[..0] == [];
    }
  }

  lemma RoomAtNext<D>(call: Call<D>, rest: seq<Call<D>>, k: nat, n: nat, capacity: nat, dstOffset: nat)
    requires call.coded.ok && call.capacity <= Max(capacity, dstOffset + 4 * n)
    requires k < |rest| && RoomAt(rest, k, n, call.capacity, dstOffset + |call.coded.produced|)
    ensures RoomAt([call] + rest, k + 1, n, capacity, dstOffset)
  {
    assert ([call] + rest)[..k + 1] == [call] + rest[..k];
    assert ([call] + rest[..k])[1..] == rest[..k];
  }

  /** Every call before the last goes on, and has filled its room. */
  ghost predicate AllButLastFill<D>(calls: seq<Call<D>>) {
    forall k :: 0 <= k < |calls| - 1 ==> calls[k].GoesOn() && |calls[k].Chunk()| == calls[k].room
  }

  /** The chunks are the front of what was to come, and all of it when the run succeeds. */
  lemma {:induction false} OutputIsContent<D(!new)>(decoder: Decoder<D>, pending: (D, seq<Byte>) -> seq<Byte>,
                                                    src: seq<Byte>, p: Position<D>)
    requires WellBehaved(decoder, pending) && Within(src, p)
    ensures var calls := Calls(decoder, pending, src, p);
            && Output(calls) <= Left(pending, src, p)
            && (Succeeded(decoder, calls) ==> Output(calls) == Left(pending, src, p))
            && AllButLastFill(calls)
            && (var last := calls[|calls| - 1].coded; !last.ok || last.status != NotFinished)
    decreases |Left(pending, src, p)|
  {
    var call := CallAt(decoder, src, p);
    CallFacts(decoder, pending, src, p);
    if call.GoesOn() {
      OutputIsContent(decoder, pending, src, After(p, call));
      OutputNext(decoder, call, Calls(decoder, pending, src, After(p, call)), Left(pending, src, After(p, call)));
    } else {
      assert Output([call][1..]) == [];
    }
  }

  lemma OutputNext<D>(decoder: Decoder<D>, call: Call<D>, rest: seq<Call<D>>, left: seq<Byte>)
    requires call.GoesOn() && |call.Chunk()| == call.room && rest != []
    requires Output(rest) <= left && (Succeeded(decoder, rest) ==> Output(rest) == left) && AllButLastFill(rest)
    ensures var calls := [call] + rest;
            && Output(calls) <= call.Chunk() + left
            && (Succeeded(decoder, calls) ==> Output(calls) == call.Chunk() + left)
            && AllButLastFill(calls)
  {
    assert ([call] + rest)[1..] == rest;
  }

  /** The buffer starts at seven times the input's size, and the first call has all of it. */
  lemma FirstCallIs<D(!new)>(decoder: Decoder<D>, pending: (D, seq<Byte>) -> seq<Byte>, src: seq<Byte>)
    requires WellBehaved(decoder, pending)
    ensures var first := Calls(decoder, pending, src, Start(decoder, src))[0];
            && first.capacity == first.room == 7 * |src|
            && first.coded == decoder.code(decoder.start, 7 * |src|, src)
  {
    assert src[0..] == src;
  }

  /** A decoder that never fails and that stops only when the stream is finished. */
  ghost predicate Reliable<D(!new)>(decoder: Decoder<D>) {
    forall state, space: nat, input :: Stops(decoder, decoder.code(state, space, input))
  }

  predicate Stops<D>(decoder: Decoder<D>, c: Coded<D>) {
    c.ok && (c.status != NotFinished ==> decoder.isFinished(c.state))
  }

  /** With such a decoder every run succeeds, however many calls it takes. */
  lemma {:induction false} ReliableSucceeds<D(!new)>(decoder: Decoder<D>, pending: (D, seq<Byte>) -> seq<Byte>,
                                                     src: seq<Byte>, p: Position<D>)
    requires WellBehaved(decoder, pending) && Within(src, p) && Reliable(decoder)
    ensures Succeeded(decoder, Calls(decoder, pending, src, p))
  {
    var calls := Calls(decoder, pending, src, p);
    OutputIsContent(decoder, pending, src, p);
    LastCallStops(decoder, pending, src, p);
  }

  lemma {:induction false} LastCallStops<D(!new)>(decoder: Decoder<D>, pending: (D, seq<Byte>) -> seq<Byte>,
                                                  src: seq<Byte>, p: Position<D>)
    requires WellBehaved(decoder, pending) && Within(src, p) && Reliable(decoder)
    ensures var calls := Calls(decoder, pending, src, p); Stops(decoder, calls[|calls| - 1].coded)
    decreases |Left(pending, src, p)|
  {
    var call := CallAt(decoder, src, p);
    assert Stops(decoder, call.coded);
    CallFacts(decoder, pending, src, p);
    if call.GoesOn() {
      LastCallStops(decoder, pending, src, After(p, call));
    }
  }

  /** The run ends: 2 n times the number of calls before the last fits in what they write, and an empty
  input takes one call. */
  lemma CallsAreBounded<D(!new)>(decoder: Decoder<D>, pending: (D, seq<Byte>) -> seq<Byte>, src: seq<Byte>)
    requires WellBehaved(decoder, pending)
    ensures var calls := Calls(decoder, pending, src, Start(decoder, src));
            && 2 * |src| * (|calls| - 1) <= |Output(calls)| <= |pending(decoder.start, src)|
            && (src == [] ==> |calls| == 1)
  {
    var calls := Calls(decoder, pending, src, Start(decoder, src));
    assert src[0..] == src;
    OutputIsContent(decoder, pending, src, Start(decoder, src));
    forall k | 0 <= k < |calls| - 1 ensures |calls[k].Chunk()| >= 2 * |src| {
      EveryCallHasRoom(decoder, pending, src, Start(decoder, src), k);
    }
    FilledCalls(calls, 2 * |src|);
    CallFacts(decoder, pending, src, Start(decoder, src));
  }

  lemma {:induction false} FilledCalls<D>(calls: seq<Call<D>>, room: nat)
    requires forall k :: 0 <= k < |calls| - 1 ==> |calls[k].Chunk()| >= room
    ensures room * (|calls| - 1) <= |Output(calls)|
  {
    if |calls| > 1 {
      FilledCalls(calls[1..], room);
    }
  }

  // The loop

  /** The buffer is grown when less than twice the input's size is free. */
  method MakeRoom(src: seq<Byte>, buffer: array<Byte>, dstOffset: nat) returns (dst: array<Byte>, space: nat)
    requires dstOffset <= buffer.Length
    ensures dst == buffer || fresh(dst)
    ensures dst.Length == Room(buffer.Length, dstOffset, |src|) == dstOffset + space
    ensures dst[..dstOffset] == buffer[..dstOffset]
  {
    dst := buffer;
    space := dst.Length - dstOffset;
    if space < 2 * |src| {
      dst := Grow(dst, dst.Length + 2 * |src|);
      space := space + 2 * |src|;
      assert dst[..dstOffset] == dst[..buffer.Length][..dstOffset];
    }
  }

  /** One turn of the loop: make room, run the decoder, keep what it wrote. */
  method Turn<D(!new)>(decoder: Decoder<D>, ghost pending: (D, seq<Byte>) -> seq<Byte>, src: seq<Byte>,
                       ghost p: Position<D>, state: D, srcOffset: nat, buffer: array<Byte>, dstOffset: nat)
    returns (dst: array<Byte>, c: Coded<D>)
    requires WellBehaved(decoder, pending)
    requires p == Position(state, srcOffset, buffer.Length, dstOffset) && Within(src, p)
    modifies buffer
    ensures dst == buffer || fresh(dst)
    ensures var call := CallAt(decoder, src, p);
            && c == call.coded && dst.Length == call.capacity
            && (c.ok ==>
                  && Within(src, After(p, call))
                  && dst[..dstOffset + |c.produced|] == old(buffer[..dstOffset]) + call.Chunk())
  {
    var space: nat;
    dst, space := MakeRoom(src, buffer, dstOffset);
    c := decoder.code(state, space, src[srcOffset..]);
    CallFacts(decoder, pending, src, p);
    if c.ok {
      Write(dst, dstOffset, c.produced);
    }
  }

  /** Of the calls of the run, the loop has made `done`; the rest starts from where it stands, or there is none. */
  ghost predicate OnTrack<D(!new)>(decoder: Decoder<D>, pending: (D, seq<Byte>) -> seq<Byte>, src: seq<Byte>,
                                   done: seq<Call<D>>, p: Position<D>, status: Status, written: seq<Byte>)
    requires WellBehaved(decoder, pending)
  {
    var calls := Calls(decoder, pending, src, Start(decoder, src));
    && Within(src, p)
    && written == Output(done)
    && (if status == NotFinished then calls == done + Calls(decoder, pending, src, p)
        else calls == done && done[|done| - 1].coded.ok && done[|done| - 1].coded.state == p.state)
  }

  lemma OneCall<D(!new)>(decoder: Decoder<D>, pending: (D, seq<Byte>) -> seq<Byte>, src: seq<Byte>,
                         done: seq<Call<D>>, p: Position<D>,
                         written: seq<Byte>)
    requires WellBehaved(decoder, pending) && OnTrack(decoder, pending, src, done, p, NotFinished, written)
    ensures var call := CallAt(decoder, src, p);
            && (call.coded.ok ==>
                  OnTrack(decoder, pending, src, done + [call], After(p, call), call.coded.status,
                      written + call.Chunk()))
            && (call.GoesOn() ==> |Left(pending, src, After(p, call))| < |Left(pending, src, p)|)
            && (!call.coded.ok ==> Reached(decoder, pending, src, false, call.coded.state, []))
  {
    var call := CallAt(decoder, src, p);
    CallFacts(decoder, pending, src, p);
    OutputAppend(done, [call]);
    assert Output([call][1..]) == [];
    if call.GoesOn() {
      var rest := Calls(decoder, pending, src, After(p, call));
      assert Calls(decoder, pending, src, p) == [call] + rest;
      assert done + ([call] + rest) == (done + [call]) + rest;
    } else {
      assert Calls(decoder, pending, src, p) == [call];
    }
  }

  /** What the loop tells of the run: that it failed, or what it wrote and the state it ended in. */
  ghost predicate Reached<D(!new)>(decoder: Decoder<D>, pending: (D, seq<Byte>) -> seq<Byte>, src: seq<Byte>,
                                   ok: bool, state: D, output: seq<Byte>)
    requires WellBehaved(decoder, pending)
  {
    var calls := Calls(decoder, pending, src, Start(decoder, src));
    && (Succeeded(decoder, calls) <==> ok && decoder.isFinished(state))
    && (ok ==> output == Output(calls))
  }

  /** The same turn, which stays on track. */
  method TurnOnTrack<D(!new)>(decoder: Decoder<D>, ghost pending: (D, seq<Byte>) -> seq<Byte>, src: seq<Byte>,
                              ghost done: seq<Call<D>>,
                              ghost p: Position<D>, state: D, srcOffset: nat, buffer: array<Byte>, dstOffset: nat)
    returns (c: Coded<D>, dst: array<Byte>, srcOffset': nat, dstOffset': nat, ghost done': seq<Call<D>>,
        ghost p': Position<D>)
    requires WellBehaved(decoder, pending)
    requires p == Position(state, srcOffset, buffer.Length, dstOffset) && Within(src, p)
    requires OnTrack(decoder, pending, src, done, p, NotFinished, buffer[..dstOffset])
    modifies buffer
    ensures dst == buffer || fresh(dst)
    ensures p' == Position(c.state, srcOffset', dst.Length, dstOffset') && Within(src, p')
    ensures if c.ok then OnTrack(decoder, pending, src, done', p', c.status, dst[..dstOffset'])
            else Reached(decoder, pending, src, false, c.state, dst[..dstOffset'])
    ensures c.ok && c.status == NotFinished ==> |Left(pending, src, p')| < |Left(pending, src, p)|
  {
    var call := CallAt(decoder, src, p);
    OneCall(decoder, pending, src, done, p, buffer[..dstOffset]);
    dst, c := Turn(decoder, pending, src, p, state, srcOffset, buffer, dstOffset);
    if !c.ok {
      assert dst[..0] == [];
      return c, dst, 0, 0, done, Position(c.state, 0, dst.Length, 0);
    }
    done', p' := done + [call], After(p, call);
    srcOffset', dstOffset' := srcOffset + c.consumed, dstOffset + |c.produced|;
  }

  /** Where the loop ends, its calls are those of the run. */
  lemma EndOfTrack<D(!new)>(decoder: Decoder<D>, pending: (D, seq<Byte>) -> seq<Byte>, src: seq<Byte>,
                            done: seq<Call<D>>,
                            p: Position<D>, status: Status, written: seq<Byte>)
    requires WellBehaved(decoder, pending) && OnTrack(decoder, pending, src, done, p, status, written)
        && status != NotFinished
    ensures Reached(decoder, pending, src, true, p.state, written)
  {
  }

  /** The do-while loop. */
  method RunLoop<D(!new)>(decoder: Decoder<D>, src: seq<Byte>, ghost pending: (D, seq<Byte>) -> seq<Byte>)
    returns (ok: bool, state: D, dst: array<Byte>, dstOffset: nat)
    requires WellBehaved(decoder, pending)
    ensures fresh(dst) && dstOffset <= dst.Length
    ensures Reached(decoder, pending, src, ok, state, dst[..dstOffset])
  {
    var status := NotFinished;
    var srcOffset: nat := 0;
    state, dstOffset, dst := decoder.start, 0, new Byte[7 * |src|];
    ghost var done: seq<Call<D>>, p := [], Start(decoder, src);
    while status == NotFinished
      invariant fresh(dst) && p == Position(state, srcOffset, dst.Length, dstOffset) && Within(src, p)
      invariant OnTrack(decoder, pending, src, done, p, status, dst[..dstOffset])
      decreases status == NotFinished, |Left(pending, src, p)|
    {
      var c;
      c, dst, srcOffset, dstOffset, done, p :=
        TurnOnTrack(decoder, pending, src, done, p, state, srcOffset, dst, dstOffset);
      state, status := c.state, c.status;
      if !c.ok {
        return false, state, dst, dstOffset;
      }
    }
    EndOfTrack(decoder, pending, src, done, p, status, dst[..dstOffset]);
    ok := true;
  }

  /** The buffer a successful run returns holds what its decoder calls wrote, and that is the whole
  content; the run succeeds exactly when no call fails and the stream is finished where the decoder stops. */
  method Decompress<D(!new)>(decoder: Decoder<D>, src: seq<Byte>, ghost pending: (D, seq<Byte>) -> seq<Byte>)
    returns (r: Option<array<Byte>>)
    requires WellBehaved(decoder, pending)
    ensures var calls := Calls(decoder, pending, src, Start(decoder, src));
            && (r.Some? <==> Succeeded(decoder, calls))
            && (r.Some? ==> r.value[..] == Output(calls) == pending(decoder.start, src))
  {
    var ok, state, dst, dstOffset := RunLoop(decoder, src, pending);
    if !ok || !decoder.isFinished(state) {
      return None;
    }
    OutputIsContent(decoder, pending, src, Start(decoder, src));
    assert src[0..] == src;
    var out := Shrink(dst, dstOffset);
    return Some(out);
  }
}
