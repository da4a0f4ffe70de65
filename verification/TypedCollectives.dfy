/**
 Collectives on values: a value is packed as the length of its archive, in the
 eight bytes of a `size_t`, followed by the archive; the byte collectives move
 the buffers; the receiver unpacks. The archive format itself is a parameter.
 */
module TypedCollectives {
  import opened ByteBuffers
  import opened Status

  const SIZE_BYTES: nat := 8

  datatype Option<+T> = Some(value: T) | None

  /** An archive format: how values are saved to bytes and loaded from them. */
  datatype Format<!T> = Format(save: T -> seq<Byte>, load: seq<Byte> -> Option<T>)

  ghost predicate RoundTrips<T(!new)>(format: Format<T>) {
    forall x {:trigger format.save(x)} :: format.load(format.save(x)) == Some(x)
  }

  // ----- the length in front of an archive

  function Power256(k: nat): (p: nat)
    ensures p > 0
  {
    if k == 0 then 1 else 256 * Power256(k - 1)
  }

  /** A number in k bytes, lowest first. */
  function NumberBytes(n: nat, k: nat): (r: seq<Byte>)
    ensures |r| == k
  {
    if k == 0 then [] else [n % 256] + NumberBytes(n / 256, k - 1)
  }

  function NumberOf(bytes: seq<Byte>): nat {
    if bytes == [] then 0 else bytes[0] + 256 * NumberOf(bytes[1..])
  }

  lemma {:induction false} NumberRoundTrip(n: nat, k: nat)
    requires n < Power256(k)
    ensures NumberOf(NumberBytes(n, k)) == n
  {
    if k > 0 {
      assert n / 256 < Power256(k - 1);
      NumberRoundTrip(n / 256, k - 1);
      assert NumberBytes(n, k)[1..] == NumberBytes(n / 256, k - 1);
    }
  }

  /** What packing appends for one value. */
  function Packed<T>(format: Format<T>, x: T): seq<Byte> {
    NumberBytes(|format.save(x)|, SIZE_BYTES) + format.save(x)
  }

  /** What unpacking reads from the front of the data. */
  function Unpacked<T>(format: Format<T>, data: seq<Byte>): Option<T> {
    if |data| < SIZE_BYTES then None
    else
      var len := NumberOf(data[..SIZE_BYTES]);
      if SIZE_BYTES + len <= |data| then format.load(data[SIZE_BYTES..SIZE_BYTES + len]) else None
  }

  /** Unpacking reads the first packed value, whatever bytes come after it. */
  lemma UnpackPacked<T(!new)>(format: Format<T>, x: T, rest: seq<Byte>)
    requires RoundTrips(format) && |format.save(x)| < Power256(SIZE_BYTES)
    ensures Unpacked(format, Packed(format, x) + rest) == Some(x)
  {
    var archive := format.save(x);
    var data := Packed(format, x) + rest;
    NumberRoundTrip(|archive|, SIZE_BYTES);
    assert data[..SIZE_BYTES] == NumberBytes(|archive|, SIZE_BYTES);
    assert data[SIZE_BYTES..SIZE_BYTES + |archive|] == archive;
  }

  method Pack<T>(format: Format<T>, x: T, buffer: ByteBuffer) returns (rc: int)
    requires buffer.Valid()
    modifies buffer, buffer.data
    ensures rc == QV_SUCCESS && buffer.Valid()
    ensures buffer.Contents() == old(buffer.Contents()) + Packed(format, x)
    ensures buffer.data == old(buffer.data) || fresh(buffer.data)
  {
    var archive := format.save(x);
    rc := buffer.Append(NumberBytes(|archive|, SIZE_BYTES));
    rc := buffer.Append(archive);
    assert buffer.Contents() == old(buffer.Contents()) + Packed(format, x);
  }

  method Unpack<T>(format: Format<T>, buffer: ByteBuffer) returns (value: Option<T>)
    requires buffer.Valid()
    ensures value == Unpacked(format, buffer.data[..])
  {
    // The whole backing store is readable; the length in front says how much of it is meant.
    var bytes := buffer.data[..];
    if |bytes| < SIZE_BYTES { return None; }
    var len := NumberOf(bytes[..SIZE_BYTES]);
    if SIZE_BYTES + len > |bytes| { return None; }
    value := format.load(bytes[SIZE_BYTES..SIZE_BYTES + len]);
  }

  // ----- gather, scatter and broadcast of values, over the whole group

  function AllPacked<T>(format: Format<T>, xs: seq<T>): (r: seq<seq<Byte>>)
    ensures |r| == |xs| && forall i :: 0 <= i < |r| ==> r[i] == Packed(format, xs[i])
  {
    seq(|xs|, i requires 0 <= i < |xs| => Packed(format, xs[i]))
  }

  /** Packs each value into a buffer of its own. */
  method PackAll<T>(format: Format<T>, xs: seq<T>) returns (buffers: seq<ByteBuffer>)
    ensures BuffersHold(buffers, AllPacked(format, xs))
  {
    buffers := [];
    for i := 0 to |xs|
      invariant |buffers| == i
      invariant forall j :: 0 <= j < i ==> Holds(buffers[j], Packed(format, xs[j]))
    {
      var buffer := new ByteBuffer();
      var rc := Pack(format, xs[i], buffer);
      buffers := buffers + [buffer];
    }
  }

  ghost predicate Sendable<T(!new)>(format: Format<T>, xs: seq<T>) {
    RoundTrips(format) && Total(AllPacked(format, xs)) <= INT_MAX
  }

  /** A value whose packed form fits the byte total has a length its eight bytes can hold. */
  lemma LengthsFit<T(!new)>(format: Format<T>, xs: seq<T>, i: nat)
    requires Sendable(format, xs) && i < |xs|
    ensures |format.save(xs[i])| < Power256(SIZE_BYTES)
  {
    var msgs := AllPacked(format, xs);
    FlatHoldsMessages(msgs, i);
    assert Offset(Counts(msgs), i + 1) == Offset(Counts(msgs), i) + |msgs[i]|;
    assert INT_MAX < Power256(4) <= Power256(8);
  }

  method UnpackAll<T(!new)>(format: Format<T>, buffers: seq<ByteBuffer>, ghost xs: seq<T>) returns (values: seq<Option<T>>)
    requires Sendable(format, xs) && BuffersHold(buffers, AllPacked(format, xs))
    ensures |values| == |xs| && forall i :: 0 <= i < |values| ==> values[i] == Some(xs[i])
  {
    values := [];
    for i := 0 to |buffers|
      invariant |values| == i && forall j :: 0 <= j < i ==> values[j] == Some(xs[j])
    {
      var buffer := buffers[i];
      assert Holds(buffer, Packed(format, xs[i]));
      var value := Unpack(format, buffer);
      assert buffer.data[..] == buffer.Contents() + buffer.data[buffer.size..];
      LengthsFit(format, xs, i);
      UnpackPacked(format, xs[i], buffer.data[buffer.size..]);
      values := values + [value];
    }
  }

  /** Rank i sends value i; the root receives exactly these values, in rank order. */
  method GatherValues<T(!new)>(format: Format<T>, sends: seq<T>) returns (rc: int, recv: seq<Option<T>>)
    requires Sendable(format, sends)
    ensures rc == QV_SUCCESS
    ensures |recv| == |sends| && forall i :: 0 <= i < |recv| ==> recv[i] == Some(sends[i])
  {
    var txbuffs := PackAll(format, sends);
    var msgs := ContentsOf(txbuffs, AllPacked(format, sends));
    var bbuffs;
    rc, bbuffs := GatherBuffers(msgs);
    recv := UnpackAll(format, bbuffs, sends);
  }

  /** The root sends value i to rank i; values beyond the group size are not sent. */
  method ScatterValues<T(!new)>(format: Format<T>, send: seq<T>, groupSize: nat) returns (rc: int, recv: seq<Option<T>>)
    requires groupSize <= |send| && Sendable(format, send[..groupSize])
    ensures rc == QV_SUCCESS
    ensures |recv| == groupSize && forall i :: 0 <= i < groupSize ==> recv[i] == Some(send[i])
  {
    ghost var msgs := AllPacked(format, send[..groupSize]);
    var txbuffs := PackAll(format, send[..groupSize]);
    var rxbuffs;
    rc, rxbuffs := ScatterBuffers(txbuffs, msgs);
    recv := UnpackAll(format, rxbuffs, send[..groupSize]);
  }

  /** Every rank ends up with the root's value. */
  method BcastValue<T(!new)>(format: Format<T>, value: T, groupSize: nat) returns (rc: int, recv: seq<Option<T>>)
    requires Sendable(format, seq(groupSize, _ => value))
    ensures rc == QV_SUCCESS
    ensures |recv| == groupSize && forall i :: 0 <= i < groupSize ==> recv[i] == Some(value)
  {
    var values := seq(groupSize, _ => value);
    assert values[..groupSize] == values;
    rc, recv := ScatterValues(format, values, groupSize);
  }
}
