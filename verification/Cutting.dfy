/**
 What a split is cut into, said about processing units and bits: which units are
 divided, into how many pieces, how many units each piece has, and which.
 */
module Cutting {
  import opened Chunks
  import opened Hwloc
  import opened HwPool
  import opened Mappers
  import opened Sorting

  /** A split at `t` divides what the devices of that type are near to; at any other type, the pool's own cpuset. */
  ghost predicate Divides(base: PoolValue, t: ObjType, x: nat) {
    if t == Gpu || t == Nic then exists i :: 0 <= i < |base.Devices(t)| && x in base.Devices(t)[i].affinity
    else x in base.cpus
  }

  /** The processing units that are divided. */
  ghost function Units(pus: Level, base: PoolValue, t: ObjType): set<nat> {
    set p: nat | p < |pus| && pus[p] != {} && forall x :: x in pus[p] ==> Divides(base, t, x)
  }

  /** Unit `p` is in part `i`. */
  ghost predicate UnitIn(pus: Level, parts: seq<Bitmap>, p: nat, i: nat) {
    p < |pus| && i < |parts| && pus[p] <= parts[i]
  }

  /** The units are dealt out to the parts in order, evenly, the first parts having the units left over. */
  ghost predicate DealtOut(pus: Level, units: set<nat>, parts: seq<Bitmap>) {
    && PairwiseDisjoint(parts)
    && (forall i :: 0 <= i < |parts| ==>
          && parts[i] != {}
          && |PlacesIn(pus, parts[i])| == |units| / |parts| + if i < |units| % |parts| then 1 else 0)
    && (parts != [] ==> forall p :: p in units ==> exists i: nat :: UnitIn(pus, parts, p, i))
    && (forall p, i, p', i' ::
          p in units && p' in units && UnitIn(pus, parts, p, i) && UnitIn(pus, parts, p', i') && p < p' ==> i <= i')
  }

  /** Bit `x` belongs to one of the units. */
  ghost predicate Belongs(pus: Level, units: set<nat>, x: nat) {
    exists p :: p in units && p < |pus| && x in pus[p]
  }

  /** Asked for `q` pieces the split has that many if there are as many units, and none otherwise; the pieces consist
      of units, and share out units that do not overlap. */
  ghost predicate CutInto(pus: Level, base: PoolValue, t: ObjType, q: nat, pieces: seq<Bitmap>) {
    var units := Units(pus, base, t);
    && |pieces| == (if 0 < q <= |units| then q else 0)
    && (forall i, x :: 0 <= i < |pieces| && x in pieces[i] ==> Belongs(pus, units, x))
    && (PairwiseDisjoint(pus) ==> DealtOut(pus, units, pieces))
  }

  /** The even split of exactly the bits to be divided is such a cut. */
  lemma EvenSplitCuts(pus: Level, base: PoolValue, t: ObjType, primary: Bitmap, q: nat)
    requires forall x :: x in primary <==> Divides(base, t, x)
    ensures CutInto(pus, base, t, q, SplitPieces(pus, primary, q))
  {
    hide Divides, Inside, DealtOut;
    var units, pieces := Units(pus, base, t), SplitPieces(pus, primary, q);
    assert units == PlacesIn(pus, primary);
    var at := InsideIsInOrder(pus, primary);
    forall i, x | 0 <= i < |pieces| && x in pieces[i] ensures Belongs(pus, units, x) {
      var k := InChunkOf(Inside(pus, primary), q, i, x);
      assert at[k] in units;
    }
    if PairwiseDisjoint(pus) && pieces != [] {
      PiecesAreDealtOut(pus, primary, q, at);
    } else {
      NothingDealtOut(pus, units);
    }
  }

  lemma NothingDealtOut(pus: Level, units: set<nat>)
    ensures DealtOut(pus, units, [])
  {
  }

  lemma PiecesAreDealtOut(pus: Level, primary: Bitmap, q: nat, at: seq<nat>)
    requires PairwiseDisjoint(pus) && 0 < q <= |Inside(pus, primary)| && Locates(pus, primary, at)
    ensures DealtOut(pus, PlacesIn(pus, primary), SplitPieces(pus, primary, q))
  {
    hide Inside, PairwiseDisjoint, PlacesIn;
    var units, pieces := PlacesIn(pus, primary), SplitPieces(pus, primary, q);
    PiecesApart(pus, primary, q);
    forall i | 0 <= i < |pieces|
      ensures pieces[i] != {}
      ensures |PlacesIn(pus, pieces[i])| == |units| / q + if i < |units| % q then 1 else 0
    {
      PiecesAreDisjoint(pus, primary, q, i, i);
      PiecesAreBalanced(pus, primary, q, i, i);
      var within := InsideIsInOrder(pus, pieces[i]);
    }
    forall p | p in units ensures exists i: nat :: UnitIn(pus, pieces, p, i) {
      var k, i := UnitIsDealt(pus, primary, q, at, p);
    }
    forall p, i, p', i' |
      p in units && p' in units && UnitIn(pus, pieces, p, i) && UnitIn(pus, pieces, p', i') && p < p'
      ensures i <= i'
    {
      DealtInOrder(pus, primary, q, at, p, i, p', i');
    }
  }

  lemma PiecesApart(pus: Level, primary: Bitmap, q: nat)
    requires PairwiseDisjoint(pus) && 0 < q <= |Inside(pus, primary)|
    ensures PairwiseDisjoint(SplitPieces(pus, primary, q))
  {
    var pieces := SplitPieces(pus, primary, q);
    forall i, j | 0 <= i < j < |pieces| ensures pieces[i] !! pieces[j] {
      PiecesAreDisjoint(pus, primary, q, i, j);
    }
  }

  /** Each unit is in the piece of its chunk. */
  lemma UnitIsDealt(pus: Level, primary: Bitmap, q: nat, at: seq<nat>, p: nat) returns (k: nat, i: nat)
    requires PairwiseDisjoint(pus) && 0 < q <= |Inside(pus, primary)| && Locates(pus, primary, at)
    requires p in PlacesIn(pus, primary)
    ensures k < |at| && at[k] == p && UnitIn(pus, SplitPieces(pus, primary, q), p, i)
  {
    k :| k < |at| && at[k] == p;
    i := ChunkOf(|at|, q, k);
    UnitInPieceIff(pus, primary, q, k, i);
  }

  lemma DealtInOrder(pus: Level, primary: Bitmap, q: nat, at: seq<nat>, p: nat, i: nat, p': nat, i': nat)
    requires PairwiseDisjoint(pus) && 0 < q <= |Inside(pus, primary)| && Locates(pus, primary, at)
    requires p in PlacesIn(pus, primary) && p' in PlacesIn(pus, primary) && p < p'
    requires UnitIn(pus, SplitPieces(pus, primary, q), p, i) && UnitIn(pus, SplitPieces(pus, primary, q), p', i')
    ensures i <= i'
  {
    hide Inside, PlacesIn, PairwiseDisjoint, InChunk;
    var k, j := UnitIsDealt(pus, primary, q, at, p);
    var k', j' := UnitIsDealt(pus, primary, q, at, p');
    UnitInPieceIff(pus, primary, q, k, i);
    UnitInPieceIff(pus, primary, q, k', i');
    LaterIsInLaterChunk(|at|, q, k, i, k', i');
  }

  lemma LaterIsInLaterChunk(n: nat, m: nat, p: nat, i: nat, p': nat, i': nat)
    requires m > 0 && InChunk(n, m, i, p) && InChunk(n, m, i', p') && p < p'
    ensures i <= i'
  {
    if i' < i { ChunkStartMonotone(n, m, i' + 1, i); }
  }
}
