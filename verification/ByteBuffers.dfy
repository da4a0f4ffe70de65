/**
 Growing byte buffers, and the collectives on them: variable-length messages are
 laid out in one flat buffer, at displacements that are the prefix sums of the
 lengths. MPI's own calls are modelled by what sections 5.5 and 5.6 of MPI-3.1
 say they move.
 */
module ByteBuffers {
  import opened Status

  type Byte = b: int | 0 <= b < 256

  const INT_MAX: nat := 0x7FFF_FFFF

  class ByteBuffer {
    // The slack that a reallocation adds.
    static const MIN_GROWTH: nat := 256
    var capacity: nat
    var size: nat
    var data: array<Byte>

    ghost predicate Valid()
      reads this
    {
      size <= capacity == data.Length
    }

    function Contents(): (r: seq<Byte>)
      requires Valid()
      reads this, data
      ensures |r| == size
    {
      data[..size]
    }

    constructor ()
      ensures Valid() && Contents() == [] && fresh(data)
    {
      size, capacity := 0, MIN_GROWTH;
      data := new Byte[MIN_GROWTH](_ => 0);
    }

    /** Appends bytes, growing the backing store when they do not fit. */
    method Append(src: seq<Byte>) returns (rc: int)
      requires Valid()
      modifies this, data
      ensures rc == QV_SUCCESS && Valid()
      ensures Contents() == old(Contents()) + src
      ensures data == old(data) || fresh(data)
      ensures capacity >= old(capacity)
    {
      var reqCapacity := |src| + size;
      if reqCapacity > capacity {
        Grow(reqCapacity + MIN_GROWTH);
      }
      forall i | 0 <= i < |src| {
        data[size + i] := src[i];
      }
      assert data[..size] == old(Contents());
      size := size + |src|;
      rc := QV_SUCCESS;
    }

    method Grow(newCapacity: nat)
      requires Valid() && capacity <= newCapacity
      modifies this
      ensures Valid() && Contents() == old(Contents()) && fresh(data) && capacity == newCapacity
    {
      var newData := new Byte[newCapacity](_ => 0);
      forall i | 0 <= i < size {
        newData[i] := data[i];
      }
      capacity, data := newCapacity, newData;
    }
  }

  // ----- flat layout

  /** Where the message of rank `i` starts: the lengths before it added up. */
  function Offset(counts: seq<nat>, i: nat): nat
    requires i <= |counts|
  {
    if i == 0 then 0 else Offset(counts, i - 1) + counts[i - 1]
  }

  function Counts(msgs: seq<seq<Byte>>): (r: seq<nat>)
    ensures |r| == |msgs| && forall i :: 0 <= i < |r| ==> r[i] == |msgs[i]|
  {
    seq(|msgs|, i requires 0 <= i < |msgs| => |msgs[i]|)
  }

  function Total(msgs: seq<seq<Byte>>): nat {
    Offset(Counts(msgs), |msgs|)
  }

  function Flat(msgs: seq<seq<Byte>>): seq<Byte> {
    if msgs == [] then [] else Flat(msgs[..|msgs| - 1]) + msgs[|msgs| - 1]
  }

  lemma {:induction false} OffsetMonotone(counts: seq<nat>, i: nat, j: nat)
    requires i <= j <= |counts|
    ensures Offset(counts, i) <= Offset(counts, j)
    decreases j - i
  {
    if i < j { OffsetMonotone(counts, i, j - 1); }
  }

  lemma {:induction false} OffsetOfPrefix(counts: seq<nat>, k: nat, i: nat)
    requires i <= k <= |counts|
    ensures Offset(counts[..k], i) == Offset(counts, i)
  {
    if i > 0 { OffsetOfPrefix(counts, k, i - 1); }
  }

  /** The messages tile the flat buffer: each is the stretch between its displacement and the next one. */
  lemma {:induction false} FlatHoldsMessages(msgs: seq<seq<Byte>>, i: nat)
    requires i < |msgs|
    ensures |Flat(msgs)| == Total(msgs)
    ensures Offset(Counts(msgs), i) <= Offset(Counts(msgs), i + 1) <= Total(msgs)
    ensures Flat(msgs)[Offset(Counts(msgs), i)..Offset(Counts(msgs), i + 1)] == msgs[i]
  {
    var l := |msgs| - 1;
    var counts := Counts(msgs);
    assert Counts(msgs[..l]) == counts[..l];
    OffsetOfPrefix(counts, l, l);
    OffsetOfPrefix(counts, l, i);
    if i < l {
      FlatHoldsMessages(msgs[..l], i);
      OffsetOfPrefix(counts, l, i + 1);
      OffsetMonotone(counts, i + 1, l);
      assert msgs[..l][i] == msgs[i];
      assert Flat(msgs)[..|Flat(msgs[..l])|] == Flat(msgs[..l]);
    } else if l > 0 {
      FlatHoldsMessages(msgs[..l], l - 1);
    }
  }

  /** The displacements and the total, as the root computes them. */
  method Displacements(counts: seq<nat>) returns (displs: seq<nat>, totalBytes: nat)
    requires Offset(counts, |counts|) <= INT_MAX
    ensures |displs| == |counts| && forall i :: 0 <= i < |displs| ==> displs[i] == Offset(counts, i)
    ensures totalBytes == Offset(counts, |counts|) <= INT_MAX
  {
    displs, totalBytes := [], 0;
    for i := 0 to |counts|
      invariant |displs| == i && totalBytes == Offset(counts, i)
      invariant forall j :: 0 <= j < i ==> displs[j] == Offset(counts, j)
    {
      displs := displs + [totalBytes];
      totalBytes := totalBytes + counts[i];
    }
  }

  // ----- the library's collectives

  /** The data of rank i arrive at displacement i of the root's buffer; the rest of it is untouched. */
  method Gatherv(msgs: seq<seq<Byte>>, buffer: array<Byte>, counts: seq<nat>, displs: seq<nat>)
    requires counts == Counts(msgs) && buffer.Length == Total(msgs)
    requires |displs| == |msgs| && forall i :: 0 <= i < |displs| ==> displs[i] == Offset(counts, i)
    modifies buffer
    ensures buffer[..] == Flat(msgs)
  {
    for i := 0 to |msgs|
      invariant Offset(counts, i) <= buffer.Length
      invariant buffer[..Offset(counts, i)] == Flat(msgs[..i])
    {
      OffsetMonotone(counts, i + 1, |msgs|);
      ghost var before := buffer[..Offset(counts, i)];
      forall k | 0 <= k < counts[i] {
        buffer[displs[i] + k] := msgs[i][k];
      }
      assert msgs[..i + 1][..i] == msgs[..i];
      assert buffer[..Offset(counts, i + 1)] == before + msgs[i];
    }
    assert msgs[..|msgs|] == msgs;
  }

  /** Rank i receives `counts[i]` bytes from displacement i of the root's buffer. */
  function Scatterv(bytes: seq<Byte>, counts: seq<nat>, displs: seq<nat>, i: nat): seq<Byte>
    requires i < |counts| && i < |displs| && displs[i] + counts[i] <= |bytes|
  {
    bytes[displs[i]..displs[i] + counts[i]]
  }

  // ----- collectives on byte buffers

  ghost predicate Holds(buffer: ByteBuffer, msg: seq<Byte>)
    reads buffer, buffer.data
  {
    buffer.Valid() && buffer.Contents() == msg
  }

  ghost predicate BuffersHold(buffers: seq<ByteBuffer>, msgs: seq<seq<Byte>>)
    reads buffers, set b | b in buffers :: b.data
  {
    |buffers| == |msgs| && forall i :: 0 <= i < |buffers| ==> Holds(buffers[i], msgs[i])
  }

  /** Rank i sends message i; the root receives them all, each in a buffer of its own. */
  method GatherBuffers(msgs: seq<seq<Byte>>) returns (rc: int, rxbuffs: seq<ByteBuffer>)
    requires Total(msgs) <= INT_MAX
    ensures rc == QV_SUCCESS
    ensures BuffersHold(rxbuffs, msgs)
  {
    // Everybody's count reaches the root.
    var rxcounts := Counts(msgs);
    var displs, totalBytes := Displacements(rxcounts);
    var allbytes := new Byte[totalBytes](_ => 0);
    Gatherv(msgs, allbytes, rxcounts, displs);
    rc := QV_SUCCESS;
    rxbuffs := CutBuffers(allbytes[..], rxcounts, msgs);
  }

  /** Cuts the flat bytes into a new buffer for each message. */
  method CutBuffers(allbytes: seq<Byte>, counts: seq<nat>, ghost msgs: seq<seq<Byte>>)
      returns (rxbuffs: seq<ByteBuffer>)
    requires allbytes == Flat(msgs) && counts == Counts(msgs)
    ensures BuffersHold(rxbuffs, msgs)
  {
    rxbuffs := [];
    var bytepos := 0;
    for i := 0 to |counts|
      invariant bytepos == Offset(counts, i) && |rxbuffs| == i
      invariant forall j :: 0 <= j < i ==> Holds(rxbuffs[j], msgs[j])
    {
      FlatHoldsMessages(msgs, i);
      var buffer := BufferOf(allbytes[bytepos..bytepos + counts[i]]);
      rxbuffs := rxbuffs + [buffer];
      bytepos := bytepos + counts[i];
    }
  }

  method BufferOf(bytes: seq<Byte>) returns (buffer: ByteBuffer)
    ensures fresh(buffer) && fresh(buffer.data) && Holds(buffer, bytes)
  {
    buffer := new ByteBuffer();
    var rc := buffer.Append(bytes);
  }

  /** The counts of the buffers and their bytes one after the other. */
  method Flatten(txbuffs: seq<ByteBuffer>, ghost msgs: seq<seq<Byte>>)
      returns (txcounts: seq<nat>, txbytes: seq<Byte>)
    requires BuffersHold(txbuffs, msgs)
    ensures txcounts == Counts(msgs) && txbytes == Flat(msgs)
  {
    txcounts, txbytes := [], [];
    for i := 0 to |txbuffs|
      invariant txcounts == Counts(msgs)[..i] && txbytes == Flat(msgs[..i])
    {
      assert Holds(txbuffs[i], msgs[i]);
      txcounts := txcounts + [txbuffs[i].size];
      txbytes := txbytes + txbuffs[i].Contents();
      assert msgs[..i + 1][..i] == msgs[..i];
    }
    assert msgs[..|msgs|] == msgs;
  }

  /** The root sends buffer i to rank i; the result lists what the ranks receive. */
  method ScatterBuffers(txbuffs: seq<ByteBuffer>, ghost msgs: seq<seq<Byte>>) returns (rc: int, rxbuffs: seq<ByteBuffer>)
    requires BuffersHold(txbuffs, msgs) && Total(msgs) <= INT_MAX
    ensures rc == QV_SUCCESS
    ensures BuffersHold(rxbuffs, msgs)
  {
    // What the root prepares.
    var txcounts, txbytes := Flatten(txbuffs, msgs);
    var displs, totalBytes := Displacements(txcounts);
    // What arrives at each rank.
    rc, rxbuffs := QV_SUCCESS, [];
    for i := 0 to |txcounts|
      invariant rc == QV_SUCCESS && |rxbuffs| == i
      invariant forall j :: 0 <= j < i ==> Holds(rxbuffs[j], msgs[j])
    {
      FlatHoldsMessages(msgs, i);
      var mine := BufferOf(Scatterv(txbytes, txcounts, displs, i));
      rxbuffs := rxbuffs + [mine];
    }
  }

  /** Gathering what was scattered gives the original list back. */
  method ScatterThenGather(txbuffs: seq<ByteBuffer>, ghost msgs: seq<seq<Byte>>)
      returns (rc: int, rxbuffs: seq<ByteBuffer>)
    requires BuffersHold(txbuffs, msgs) && Total(msgs) <= INT_MAX
    ensures rc == QV_SUCCESS && BuffersHold(rxbuffs, msgs)
  {
    var held;
    rc, held := ScatterBuffers(txbuffs, msgs);
    var sent := ContentsOf(held, msgs);
    rc, rxbuffs := GatherBuffers(sent);
  }

  method ContentsOf(buffers: seq<ByteBuffer>, ghost msgs: seq<seq<Byte>>) returns (r: seq<seq<Byte>>)
    requires BuffersHold(buffers, msgs)
    ensures r == msgs
  {
    r := [];
    for i := 0 to |buffers|
      invariant r == msgs[..i]
    {
      assert Holds(buffers[i], msgs[i]);
      r := r + [buffers[i].Contents()];
    }
  }
}
