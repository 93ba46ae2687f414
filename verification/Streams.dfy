/**
  Streaming transformers: bounded reads, write-through buffering, and the verifier that
  stays one chunk behind. Bodies arrive in arbitrary chunks; the results below say what
  depends on the bytes alone and what on how they were cut.
*/
module Streams {
  import opened Wrappers
  import opened Bytes

  /** One item of a body stream: some bytes, or a failure with its cause. */
  datatype Item<E> = Chunk(bytes: Bytes) | Failure(cause: E)

  predicate NoFailure<E>(items: seq<Item<E>>) {
    forall i | 0 <= i < |items| :: items[i].Chunk?
  }

  /** The bytes of a stream up to its first failure. */
  function Content<E>(items: seq<Item<E>>): Bytes {
    if items == [] || items[0].Failure? then [] else items[0].bytes + Content(items[1..])
  }

  /** Index of the first failure, or the length. */
  function FirstFailure<E>(items: seq<Item<E>>): (k: nat)
    ensures k <= |items| && (k < |items| ==> items[k].Failure?)
    ensures forall i | 0 <= i < k :: items[i].Chunk?
  {
    if items == [] || items[0].Failure? then 0 else 1 + FirstFailure(items[1..])
  }

  lemma {:induction false} ContentConcat<E>(a: seq<Item<E>>, b: seq<Item<E>>)
    requires NoFailure(a)
    ensures Content(a + b) == Content(a) + Content(b)
  {
    if a == [] {
      assert a + b == b;
    } else {
      assert (a + b)[1..] == a[1..] + b;
      assert forall i | 0 <= i < |a| - 1 :: a[1..][i] == a[i + 1];
      ContentConcat(a[1..], b);
    }
  }

  /** What a prefix without failures holds is a prefix of the content. */
  lemma {:induction false} ContentPrefix<E>(items: seq<Item<E>>, k: nat)
    requires k <= |items| && NoFailure(items[..k])
    ensures Content(items[..k]) <= Content(items)
  {
    assert items == items[..k] + items[k..];
    ContentConcat(items[..k], items[k..]);
  }

  lemma {:induction false} ContentMore<E>(front: seq<Item<E>>, one: Item<E>)
    requires NoFailure(front) && one.Chunk?
    ensures Content(front + [one]) == Content(front) + one.bytes && NoFailure(front + [one])
  {
    assert [one][1..] == [];
    ContentConcat(front, [one]);
  }

  /** Reading one more chunk. */
  lemma {:induction false} ContentStep<E>(items: seq<Item<E>>, k: nat)
    requires k < |items| && NoFailure(items[..k]) && items[k].Chunk?
    ensures Content(items[..k + 1]) == Content(items[..k]) + items[k].bytes
    ensures NoFailure(items[..k + 1]) && Content(items[..k + 1]) <= Content(items)
  {
    hide Content, NoFailure;
    assert items[..k + 1] == items[..k] + [items[k]];
    ContentMore(items[..k], items[k]);
    ContentPrefix(items, k + 1);
  }

  /* ---- Buffering a blob for write-through ---- */

  datatype UpstreamBlob<E> = Buffered(body: Bytes) | Oversized(prefix: Bytes, rest: seq<Item<E>>)

  /**
    Reads until the body ends or passes `maxBytes`. Nothing is lost at the cut: the
    prefix is exactly the cap, the rest starts with at least one byte, and the two
    together are the body.
  */
  method ReadUpstreamBlob<E>(items: seq<Item<E>>, maxBytes: nat) returns (r: Result<UpstreamBlob<E>, E>)
    ensures var body := Content(items);
            var complete := NoFailure(items);
            && (r.Ok? && r.value.Buffered? <==> complete && |body| <= maxBytes)
            && (r.Ok? && r.value.Oversized? <==> |body| > maxBytes)
            && (r.Err? <==> !complete && |body| <= maxBytes)
    ensures r.Ok? && r.value.Buffered? ==> r.value.body == Content(items)
    ensures r.Ok? && r.value.Oversized? ==>
              var (prefix, rest) := (r.value.prefix, r.value.rest);
              && prefix == Content(items)[..maxBytes]
              && prefix + Content(rest) == Content(items)
              && rest != [] && rest[0].Chunk? && rest[0].bytes != []
              && (NoFailure(rest) <==> NoFailure(items))
    ensures r.Err? ==> Failure(r.error) == items[FirstFailure(items)]
  {
    var prefix: Bytes := [];
    for i := 0 to |items|
      invariant NoFailure(items[..i])
      invariant prefix == Content(items[..i]) && |prefix| <= maxBytes
    {
      if items[i].Failure? {
        FailureEnds(items, i);
        return Err(items[i].cause);
      }
      ContentStep(items, i);
      var chunk := items[i].bytes;
      var room := maxBytes - |prefix|;
      if |chunk| > room {
        var tail := chunk[room..];
        var rest := [Chunk(tail)] + items[i + 1..];
        CutAt(items, i, room);
        return Ok(Oversized(prefix + chunk[..room], rest));
      }
      prefix := prefix + chunk;
    }
    assert items[..|items|] == items;
    return Ok(Buffered(prefix));
  }

  lemma {:induction false} FirstFailureIs<E>(items: seq<Item<E>>, k: nat)
    requires k <= |items| && (forall i | 0 <= i < k :: items[i].Chunk?) && (k < |items| ==> items[k].Failure?)
    ensures FirstFailure(items) == k
  {
    if 0 < k {
      FirstFailureIs(items[1..], k - 1);
    }
  }

  lemma {:induction false} FailureEnds<E>(items: seq<Item<E>>, i: nat)
    requires i < |items| && NoFailure(items[..i]) && items[i].Failure?
    ensures FirstFailure(items) == i && Content(items) == Content(items[..i])
  {
    assert forall j | 0 <= j < i :: items[j] == items[..i][j];
    FirstFailureIs(items, i);
    assert items == items[..i] + items[i..];
    ContentConcat(items[..i], items[i..]);
  }

  /** A cut inside a chunk loses no byte. */
  lemma {:induction false} CutContent<E>(items: seq<Item<E>>, i: nat, room: nat)
    requires i < |items| && NoFailure(items[..i]) && items[i].Chunk? && room < |items[i].bytes|
    ensures var chunk := items[i].bytes;
            var rest := [Chunk(chunk[room..])] + items[i + 1..];
            (Content(items[..i]) + chunk[..room]) + Content(rest) == Content(items)
  {
    hide NoFailure;
    var chunk, tail, front := items[i].bytes, items[i + 1..], items[..i];
    var rest, here := [Chunk(chunk[room..])] + tail, [items[i]] + tail;
    assert items == front + here;
    ContentConcat(front, here);
    assert rest[1..] == tail && here[1..] == tail;
    assert chunk == chunk[..room] + chunk[room..];
    assert Content(here) == chunk[..room] + Content(rest);
  }

  lemma {:induction false} CutFailures<E>(items: seq<Item<E>>, i: nat, piece: Bytes)
    requires i < |items| && NoFailure(items[..i]) && items[i].Chunk?
    ensures NoFailure([Chunk(piece)] + items[i + 1..]) <==> NoFailure(items)
  {
    var rest := [Chunk(piece)] + items[i + 1..];
    assert forall j | i < j < |items| :: items[j] == rest[j - i];
    assert forall j | 0 <= j < i :: items[j] == items[..i][j];
  }

  lemma {:induction false} CutAt<E>(items: seq<Item<E>>, i: nat, room: nat)
    requires i < |items| && NoFailure(items[..i]) && items[i].Chunk? && room < |items[i].bytes|
    ensures var chunk := items[i].bytes;
            var rest := [Chunk(chunk[room..])] + items[i + 1..];
            && Content(items[..i]) + chunk[..room] <= Content(items)
            && (Content(items[..i]) + chunk[..room]) + Content(rest) == Content(items)
            && (NoFailure(rest) <==> NoFailure(items))
  {
    hide Content, NoFailure;
    CutContent(items, i, room);
    CutFailures(items, i, items[i].bytes[room..]);
  }

  /* ---- Bounded reads ---- */

  datatype ReadError<E> = TooLarge | Upstream(cause: E)

  /**
    Whole bodies up to `maxBytes`. An advertised size over the cap is refused before
    anything is read; otherwise what decides is whether the cap or a failure comes first.
  */
  method ReadBounded<E>(advertised: Option<nat>, items: seq<Item<E>>, maxBytes: nat) returns (r: Result<Bytes, ReadError<E>>)
    requires maxBytes <= U64_MAX
    ensures var over := (advertised.Some? && advertised.value > maxBytes) || |Content(items)| > maxBytes;
            && (r.Ok? <==> !over && NoFailure(items))
            && (r == Err(TooLarge) <==> over)
            && (r.Err? && r.error.Upstream? <==> !over && !NoFailure(items))
    ensures r.Ok? ==> r.value == Content(items) && |r.value| <= maxBytes
    ensures r.Err? && r.error.Upstream? ==> items[FirstFailure(items)] == Failure(r.error.cause)
    ensures r == Bounded(advertised, items, maxBytes)
  {
    if advertised.Some? && advertised.value > maxBytes {
      return Err(TooLarge);
    }
    var bytes: Bytes := [];
    for i := 0 to |items|
      invariant NoFailure(items[..i])
      invariant bytes == Content(items[..i]) && |bytes| <= maxBytes
    {
      if items[i].Failure? {
        FailureEnds(items, i);
        return Err(Upstream(items[i].cause));
      }
      ContentStep(items, i);
      var accumulated := |bytes| + |items[i].bytes|;
      if accumulated > U64_MAX || accumulated > maxBytes {
        return Err(TooLarge);
      }
      bytes := bytes + items[i].bytes;
    }
    assert items[..|items|] == items;
    return Ok(bytes);
  }

  function Bounded<E>(advertised: Option<nat>, items: seq<Item<E>>, maxBytes: nat): Result<Bytes, ReadError<E>> {
    if advertised.Some? && advertised.value > maxBytes then Err(TooLarge)
    else if |Content(items)| > maxBytes then Err(TooLarge)
    else if NoFailure(items) then Ok(Content(items))
    else Err(Upstream(items[FirstFailure(items)].cause))
  }

  /** Bodies over the cap are refused whatever was advertised, and none within it is. */
  lemma {:induction false} BoundedExactly<E>(advertised: Option<nat>, items: seq<Item<E>>, maxBytes: nat)
    ensures var r := Bounded(advertised, items, maxBytes);
            var over := (advertised.Some? && advertised.value > maxBytes) || |Content(items)| > maxBytes;
            && (r == Err(TooLarge) <==> over)
            && (r == Ok(Content(items)) <==> !over && NoFailure(items))
            && (!over && !NoFailure(items) ==>
                  r.Err? && r.error.Upstream? && items[FirstFailure(items)] == Failure(r.error.cause))
  {
    if !NoFailure(items) {
      var k :| 0 <= k < |items| && !items[k].Chunk?;
    }
  }

  /** How a body is cut into chunks never shows in a bounded read. */
  lemma {:induction false} ChunkingIsInvisible<E>(advertised: Option<nat>, a: seq<Item<E>>, b: seq<Item<E>>, maxBytes: nat)
    requires NoFailure(a) && NoFailure(b) && Content(a) == Content(b)
    ensures Bounded(advertised, a, maxBytes) == Bounded(advertised, b, maxBytes)
  {
  }

  /* ---- Verifying while streaming ---- */

  datatype Output<E> = Data(bytes: Bytes) | StorageFailure(cause: E) | Corrupt

  /** What the verifier emits from a state that holds back `held` and has hashed `hashed`. */
  function Emitted<E>(items: seq<Item<E>>, held: Option<Bytes>, hashed: Bytes, matches: Bytes -> bool): seq<Output<E>> {
    if items == [] then
      if !matches(hashed) then [Corrupt]
      else if held.Some? then [Data(held.value)]
      else []
    else if items[0].Failure? then [StorageFailure(items[0].cause)]
    else
      (if held.Some? then [Data(held.value)] else [])
      + Emitted(items[1..], Some(items[0].bytes), hashed + items[0].bytes, matches)
  }

  /** The stream state: input left, bytes hashed, and the chunk withheld until the next one. */
  class VerifyingBlob<E(==)> {
    var data: seq<Item<E>>
    var hashed: Bytes
    var held: Option<Bytes>
    var finished: bool
    const matches: Bytes -> bool

    constructor (items: seq<Item<E>>, matches: Bytes -> bool)
      ensures this.matches == matches && Remaining() == Emitted(items, None, [], matches)
      ensures data == items
    {
      this.data, this.hashed, this.held, this.finished := items, [], None, false;
      this.matches := matches;
    }

    /** Everything the stream still has to emit. */
    function Remaining(): seq<Output<E>>
      reads this
    {
      if finished then [] else Emitted(data, held, hashed, matches)
    }

    method Next() returns (output: Option<Output<E>>)
      modifies this
      ensures |data| <= old(|data|)
      ensures output.Some? ==> old(Remaining()) == [output.value] + Remaining() && (finished || |data| < old(|data|))
      ensures output.None? ==> old(Remaining()) == [] && Remaining() == []
      ensures old(finished) ==> output.None?
    {
      if finished {
        return None;
      }
      while data != []
        invariant !finished && |data| <= old(|data|)
        invariant old(Remaining()) == Remaining()
        decreases |data|
      {
        if data[0].Failure? {
          var cause := data[0].cause;
          finished := true;
          return Some(StorageFailure(cause));
        }
        var chunk, previous := data[0].bytes, held;
        hashed := hashed + chunk;
        held := Some(chunk);
        data := data[1..];
        if previous.Some? {
          return Some(Data(previous.value));
        }
      }
      finished := true;
      if !matches(hashed) {
        return Some(Corrupt);
      }
      if held.Some? {
        return Some(Data(held.value));
      }
      return None;
    }
  }

  /** A client that reads the stream to its end receives exactly what the state prescribes. */
  method ReadVerified<E(==)>(items: seq<Item<E>>, matches: Bytes -> bool) returns (all: seq<Output<E>>)
    ensures all == Emitted(items, None, [], matches)
  {
    hide Emitted;
    var blob := new VerifyingBlob(items, matches);
    all := [];
    var next := blob.Next();
    while next.Some?
      invariant fresh(blob) && blob.matches == matches
      invariant all + (if next.Some? then [next.value] else []) + blob.Remaining() == Emitted(items, None, [], matches)
      invariant next.None? ==> blob.Remaining() == []
      decreases next.Some?, !blob.finished, |blob.data|
    {
      all := all + [next.value];
      next := blob.Next();
    }
  }

  function WithoutLast<E>(items: seq<Item<E>>): seq<Item<E>> {
    if items == [] then [] else items[..|items| - 1]
  }

  function AsOutputs<E>(items: seq<Item<E>>): seq<Output<E>>
    requires NoFailure(items)
  {
    if items == [] then [] else [Data(items[0].bytes)] + AsOutputs(items[1..])
  }

  lemma {:induction false} AsOutputsAt<E>(items: seq<Item<E>>)
    requires NoFailure(items)
    ensures |AsOutputs(items)| == |items|
    ensures forall i | 0 <= i < |items| :: AsOutputs(items)[i] == Data(items[i].bytes)
  {
    if items != [] {
      AsOutputsAt(items[1..]);
    }
  }

  /** With a chunk in hand and no failure ahead, every chunk comes out one step late. */
  lemma {:induction false} EmittedClean<E>(held: Item<E>, items: seq<Item<E>>, hashed: Bytes, matches: Bytes -> bool)
    requires held.Chunk? && NoFailure(items)
    ensures var all := [held] + items;
            Emitted(items, Some(held.bytes), hashed, matches) ==
            if matches(hashed + Content(items)) then AsOutputs(all) else AsOutputs(all[..|items|]) + [Corrupt]
    decreases |items|
  {
    var all := [held] + items;
    assert all[1..] == items;
    if items == [] {
      assert hashed + Content(items) == hashed;
      assert all[..0] == [];
    } else {
      var next, more := items[0], items[1..];
      EmittedClean(next, more, hashed + next.bytes, matches);
      assert [next] + more == items;
      assert hashed + next.bytes + Content(more) == hashed + Content(items);
      assert all[..|items|][1..] == items[..|more|];
    }
  }

  /** With a chunk in hand and a failure ahead, the chunk just before the failure is lost. */
  lemma {:induction false} EmittedUpToFailure<E>(
      held: Item<E>, items: seq<Item<E>>, cause: E, rest: seq<Item<E>>, hashed: Bytes, matches: Bytes -> bool)
    requires held.Chunk? && NoFailure(items)
    ensures Emitted(items + ([Failure(cause)] + rest), Some(held.bytes), hashed, matches) ==
            AsOutputs(([held] + items)[..|items|]) + [StorageFailure(cause)]
    decreases |items|
  {
    var all, tail := [held] + items, [Failure(cause)] + rest;
    if items == [] {
      assert items + tail == tail;
      assert all[..0] == [];
    } else {
      var next, more := items[0], items[1..];
      EmittedUpToFailure(next, more, cause, rest, hashed + next.bytes, matches);
      assert (items + tail)[1..] == more + tail;
      assert [next] + more == items;
      assert all[..|items|][1..] == items[..|more|];
    }
  }

  lemma {:induction false} FirstChunkIsHeld<E>(items: seq<Item<E>>, matches: Bytes -> bool)
    requires items != [] && items[0].Chunk?
    ensures var c := items[0].bytes;
            Emitted(items, None, [], matches) == Emitted(items[1..], Some(c), c, matches)
  {
    var c := items[0].bytes;
    assert [] + c == c;
    var later := Emitted(items[1..], Some(c), c, matches);
    assert [] + later == later;
  }

  /**
    Main result, for every way of cutting a body: one that hashes to its digest is emitted
    chunk for chunk, and any other is emitted without its last chunk and then fails.
  */
  lemma {:induction false} VerifiedStream<E>(items: seq<Item<E>>, matches: Bytes -> bool)
    requires NoFailure(items)
    ensures Emitted(items, None, [], matches) ==
            if matches(Content(items)) then AsOutputs(items)
            else AsOutputs(WithoutLast(items)) + [Corrupt]
  {
    if items != [] {
      var c := items[0];
      FirstChunkIsHeld(items, matches);
      EmittedClean(c, items[1..], c.bytes, matches);
      assert [c] + items[1..] == items;
    }
  }

  /**
    A storage failure also drops the chunk before it, emits the cause once, and ends the
    stream whatever the storage would have delivered after it.
  */
  lemma {:induction false} FailedStream<E>(items: seq<Item<E>>, cause: E, rest: seq<Item<E>>, matches: Bytes -> bool)
    requires NoFailure(items)
    ensures Emitted(items + ([Failure(cause)] + rest), None, [], matches) ==
            AsOutputs(WithoutLast(items)) + [StorageFailure(cause)]
  {
    var tail := [Failure(cause)] + rest;
    var all := items + tail;
    if items == [] {
      assert all == tail;
      assert Emitted(all, None, [], matches) == [StorageFailure(cause)];
    } else {
      var c, more := items[0], items[1..];
      assert all[0] == c && all[1..] == more + tail;
      FirstChunkIsHeld(all, matches);
      EmittedUpToFailure(c, more, cause, rest, c.bytes, matches);
      assert ([c] + more)[..|more|] == WithoutLast(items);
    }
  }

  /** Bytes a client receives before the stream ends or fails. */
  function Received<E>(outputs: seq<Output<E>>): Bytes {
    if outputs == [] || !outputs[0].Data? then [] else outputs[0].bytes + Received(outputs[1..])
  }

  lemma {:induction false} ReceivedConcat<E>(items: seq<Item<E>>, tail: seq<Output<E>>)
    requires NoFailure(items)
    ensures Received(AsOutputs(items) + tail) == Content(items) + Received(tail)
  {
    if items == [] {
      assert AsOutputs(items) + tail == tail;
    } else {
      assert (AsOutputs(items) + tail)[1..] == AsOutputs(items[1..]) + tail;
      ReceivedConcat(items[1..], tail);
    }
  }

  /**
    A corrupt body of complete length is cut short of what its length promised exactly
    when its last chunk is not empty. The design note beside the held chunk says always;
    an empty last chunk is the exception.
  */
  lemma {:induction false} CorruptBodyIsShort<E>(items: seq<Item<E>>, matches: Bytes -> bool)
    requires NoFailure(items) && !matches(Content(items))
    ensures var got := Received(Emitted(items, None, [], matches));
            && got <= Content(items)
            && (|got| < |Content(items)| <==> items != [] && items[|items| - 1].bytes != [])
  {
    VerifiedStream(items, matches);
    var n := |items|;
    assert items[..n] == items;
    if n > 0 {
      ReceivedConcat(items[..n - 1], [Output<E>.Corrupt]);
      ContentStep(items, n - 1);
    } else {
      assert AsOutputs(items) + [Output<E>.Corrupt] == [Output<E>.Corrupt];
    }
  }

  /** A corrupt body whose last chunk is empty reaches the client whole before the error. */
  lemma {:induction false} CorruptBodyCanArriveWhole(matches: Bytes -> bool)
    requires !matches([1])
    ensures var items := [Item<int>.Chunk([1]), Item<int>.Chunk([])];
            Received(Emitted(items, None, [], matches)) == Content(items) == [1]
  {
    var items := [Item<int>.Chunk([1]), Item<int>.Chunk([])];
    assert items[1..] == [Item<int>.Chunk([])] && items[1..][1..] == [];
    assert Content(items) == [1];
    CorruptBodyIsShort(items, matches);
  }

  /** A verified body reaches the client whole and unchanged, however it was cut. */
  lemma {:induction false} VerifiedBodyIsWhole<E>(items: seq<Item<E>>, matches: Bytes -> bool)
    requires NoFailure(items) && matches(Content(items))
    ensures Received(Emitted(items, None, [], matches)) == Content(items)
    ensures Corrupt !in Emitted(items, None, [], matches)
  {
    VerifiedStream(items, matches);
    AsOutputsAt(items);
    ReceivedConcat(items, []);
    assert AsOutputs(items) + [] == AsOutputs(items);
  }
}
