/**
 The base-and-remainder arithmetic that the packed mapper, the PU split and the
 vector split share: n items in m consecutive chunks, the first n % m of which
 are one longer.
 */
module Chunks {

  function ChunkSize(n: nat, m: nat, i: nat): nat
    requires m > 0
  {
    n / m + if i < n % m then 1 else 0
  }

  /** The position at which chunk `i` starts. */
  function ChunkStart(n: nat, m: nat, i: nat): nat
    requires m > 0
  {
    if i == 0 then 0 else ChunkStart(n, m, i - 1) + ChunkSize(n, m, i - 1)
  }

  predicate InChunk(n: nat, m: nat, i: nat, p: nat)
    requires m > 0
  {
    ChunkStart(n, m, i) <= p < ChunkStart(n, m, i + 1)
  }

  lemma {:induction false} ChunkStartClosedForm(n: nat, m: nat, i: nat)
    requires m > 0
    ensures ChunkStart(n, m, i) == i * (n / m) + if i < n % m then i else n % m
  {
    if i > 0 {
      ChunkStartClosedForm(n, m, i - 1);
      assert i * (n / m) == (i - 1) * (n / m) + n / m;
    }
  }

  /** The chunks end where the items end. */
  lemma ChunksCoverAll(n: nat, m: nat)
    requires m > 0
    ensures ChunkStart(n, m, m) == n
  {
    ChunkStartClosedForm(n, m, m);
    assert n == m * (n / m) + n % m;
  }

  lemma {:induction false} ChunkStartMonotone(n: nat, m: nat, i: nat, j: nat)
    requires m > 0 && i <= j
    ensures ChunkStart(n, m, i) <= ChunkStart(n, m, j)
    decreases j - i
  {
    if i < j { ChunkStartMonotone(n, m, i, j - 1); }
  }

  lemma ChunkInRange(n: nat, m: nat, i: nat)
    requires m > 0 && i < m
    ensures ChunkStart(n, m, i) <= ChunkStart(n, m, i + 1) <= n
  {
    ChunkStartMonotone(n, m, i + 1, m);
    ChunksCoverAll(n, m);
  }

  /** A position is in at most one chunk. */
  lemma ChunkIsUnique(n: nat, m: nat, i: nat, j: nat, p: nat)
    requires m > 0 && InChunk(n, m, i, p) && InChunk(n, m, j, p)
    ensures i == j
  {
    if i < j {
      ChunkStartMonotone(n, m, i + 1, j);
    } else if j < i {
      ChunkStartMonotone(n, m, j + 1, i);
    }
  }

  lemma {:induction false} ChunkBelow(n: nat, m: nat, p: nat, upto: nat)
    requires m > 0 && p < ChunkStart(n, m, upto)
    ensures exists i: nat :: i < upto && InChunk(n, m, i, p)
  {
    if ChunkStart(n, m, upto - 1) <= p {
      assert InChunk(n, m, upto - 1, p);
    } else {
      ChunkBelow(n, m, p, upto - 1);
    }
  }

  /** The chunk that holds position `p`. */
  ghost function ChunkOf(n: nat, m: nat, p: nat): (i: nat)
    requires m > 0 && p < n
    ensures i < m && InChunk(n, m, i, p)
  {
    ChunksCoverAll(n, m);
    ChunkBelow(n, m, p, m);
    var i: nat :| i < m && InChunk(n, m, i, p);
    i
  }

  // ----- splitting a vector

  ghost function Chunk<T>(vec: seq<T>, m: nat, i: nat): (r: seq<T>)
    requires i < m
    ensures |r| == ChunkSize(|vec|, m, i)
  {
    ChunkInRange(|vec|, m, i);
    vec[ChunkStart(|vec|, m, i)..ChunkStart(|vec|, m, i + 1)]
  }

  /** Splits into `npieces` pieces as equal as possible; no pieces when that cannot be done. */
  method VectorSplit<T>(vec: seq<T>, npieces: nat) returns (result: seq<seq<T>>)
    ensures |result| == if npieces <= |vec| then npieces else 0
    ensures forall i: nat :: i < |result| ==> result[i] == Chunk(vec, npieces, i)
  {
    var ntotal := |vec|;
    result := [];
    // There are no such pieces.
    if npieces == 0 || ntotal == 0 || npieces > ntotal {
      return;
    }
    var baseChunkSize := ntotal / npieces;
    var remainder := ntotal % npieces;
    var current := 0;
    for i := 0 to npieces
      invariant current == ChunkStart(ntotal, npieces, i) && |result| == i
      invariant forall j: nat :: j < i ==> result[j] == Chunk(vec, npieces, j)
    {
      var chunkSize := baseChunkSize + if i < remainder then 1 else 0;
      ChunkInRange(ntotal, npieces, i);
      result := result + [vec[current..current + chunkSize]];
      current := current + chunkSize;
    }
  }

  function Join<T>(pieces: seq<seq<T>>): seq<T> {
    if pieces == [] then [] else Join(pieces[..|pieces| - 1]) + pieces[|pieces| - 1]
  }

  lemma {:induction false} ChunksJoinUpto<T>(vec: seq<T>, m: nat, pieces: seq<seq<T>>, upto: nat)
    requires 0 < m == |pieces| && upto <= m
    requires forall i: nat :: i < m ==> pieces[i] == Chunk(vec, m, i)
    ensures ChunkStart(|vec|, m, upto) <= |vec|
    ensures Join(pieces[..upto]) == vec[..ChunkStart(|vec|, m, upto)]
  {
    if upto > 0 {
      ChunksJoinUpto(vec, m, pieces, upto - 1);
      ChunkInRange(|vec|, m, upto - 1);
      assert pieces[..upto][..upto - 1] == pieces[..upto - 1];
    }
  }

  /** The pieces put together again give the vector, and no two differ by more than one in length. */
  lemma ChunksJoin<T>(vec: seq<T>, m: nat, pieces: seq<seq<T>>)
    requires 0 < m == |pieces|
    requires forall i: nat :: i < m ==> pieces[i] == Chunk(vec, m, i)
    ensures Join(pieces) == vec
    ensures forall i: nat, j: nat :: i < m && j < m ==> |pieces[i]| <= |pieces[j]| + 1
  {
    ChunksJoinUpto(vec, m, pieces, m);
    ChunksCoverAll(|vec|, m);
    assert pieces[..m] == pieces;
  }
}
