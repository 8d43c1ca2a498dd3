/** Framing constants and the chunking rule shared by the receiver and the sender. */
module Protocol {

  /** Largest data chunk, MAX_CHUNK_SIZE on the receiver and CHUNK_SIZE on the sender. */
  const MaxChunkSize: nat := 1024

  /** Header: 13-byte name field, 4-byte size, 2-byte checksum. */
  const NameFieldSize: nat := 13
  const HeaderSize: nat := 19
  /** The checksum covers the name field and the size, never itself. */
  const HeaderCrcSpan: nat := 17

  /** Every frame (header or chunk) carries two trailing checksum bytes. */
  const CrcSize: nat := 2

  /** Size of the next chunk when `remaining` bytes are still to come. */
  function ChunkSize(remaining: nat): (c: nat)
    ensures c <= MaxChunkSize && c <= remaining
    ensures remaining > 0 ==> c > 0
    ensures remaining <= MaxChunkSize ==> c == remaining
    ensures remaining > MaxChunkSize ==> c == MaxChunkSize
  {
    if remaining > MaxChunkSize then MaxChunkSize else remaining
  }

  /** The successive chunk sizes of a transfer of `size` bytes. */
  function ChunkPlan(size: nat): seq<nat>
    decreases size
  {
    if size == 0 then [] else [ChunkSize(size)] + ChunkPlan(size - ChunkSize(size))
  }

  function Sum(s: seq<nat>): nat {
    if |s| == 0 then 0 else s[0] + Sum(s[1..])
  }

  /** The plan covers the whole size, every chunk but the last is full,
      and no chunk is empty. */
  lemma {:induction false} ChunkPlanCoversSize(size: nat)
    ensures Sum(ChunkPlan(size)) == size
    ensures |ChunkPlan(size)| == (size + MaxChunkSize - 1) / MaxChunkSize
    ensures forall i :: 0 <= i < |ChunkPlan(size)| ==> 0 < ChunkPlan(size)[i] <= MaxChunkSize
    ensures forall i :: 0 <= i < |ChunkPlan(size)| - 1 ==> ChunkPlan(size)[i] == MaxChunkSize
    decreases size
  {
    if size > 0 {
      ChunkPlanCoversSize(size - ChunkSize(size));
    }
  }

  /** A 2500-byte file travels as chunks of 1024, 1024 and 452 bytes. */
  lemma ChunkPlanOf2500()
    ensures ChunkPlan(2500) == [1024, 1024, 452]
  {
    assert ChunkPlan(452) == [452] + ChunkPlan(0);
    assert ChunkPlan(1476) == [1024] + ChunkPlan(452);
  }

  /** `data` cut into consecutive chunks following the chunk plan. */
  function Chunks(data: seq<bv8>): seq<seq<bv8>>
    decreases |data|
  {
    if |data| == 0 then [] else [data[..ChunkSize(|data|)]] + Chunks(data[ChunkSize(|data|)..])
  }

  /** The first chunk is the first `ChunkSize` bytes; the others chunk the
      rest. */
  lemma ChunksHead(data: seq<bv8>)
    requires |data| > 0
    ensures var c := ChunkSize(|data|);
      && |Chunks(data)| == 1 + |Chunks(data[c..])|
      && Chunks(data)[0] == data[..c]
      && Chunks(data)[1..] == Chunks(data[c..])
  {
    var c := ChunkSize(|data|);
    assert Chunks(data) == [data[..c]] + Chunks(data[c..]);
  }

  function Concat(chunks: seq<seq<bv8>>): seq<bv8> {
    if |chunks| == 0 then [] else chunks[0] + Concat(chunks[1..])
  }

  lemma ConcatAppend(a: seq<seq<bv8>>, b: seq<seq<bv8>>)
    ensures Concat(a + b) == Concat(a) + Concat(b)
  {
    if |a| > 0 {
      assert (a + b)[0] == a[0];
      assert (a + b)[1..] == a[1..] + b;
      ConcatAppend(a[1..], b);
      assert Concat(a + b) == a[0] + (Concat(a[1..]) + Concat(b));
    } else {
      assert a + b == b;
    }
  }

  /** Chunking loses nothing: the chunks, in order, give back the data, and
      their sizes follow the chunk plan. */
  lemma {:induction false} ChunksRoundTrip(data: seq<bv8>)
    ensures Concat(Chunks(data)) == data
    ensures |Chunks(data)| == |ChunkPlan(|data|)|
    ensures forall i :: 0 <= i < |Chunks(data)| ==> |Chunks(data)[i]| == ChunkPlan(|data|)[i]
    decreases |data|
  {
    if |data| > 0 {
      var c := ChunkSize(|data|);
      ChunksRoundTrip(data[c..]);
      assert data[..c] + data[c..] == data;
    }
  }
}
