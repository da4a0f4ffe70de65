/**
 The hardware topology as the splitter sees it: bitmaps, the objects inside a
 cpuset in logical order, and the even split of a cpuset over its processing units.
 */
module Hwloc {
  import opened Chunks
  import opened Mappers
  import opened Sorting
  import opened Status

  /** The cpusets of the objects of one type, in logical order. Objects outside a cgroup have empty ones. */
  type Level = seq<Bitmap>

  ghost predicate PairwiseDisjoint(sets: seq<Bitmap>) {
    forall i, j :: 0 <= i < j < |sets| ==> sets[i] !! sets[j]
  }

  /** The objects that lie inside a cpuset, in logical order. */
  ghost function Inside(objs: Level, cpuset: Bitmap): Level {
    if objs == [] then []
    else
      var l := |objs| - 1;
      Inside(objs[..l], cpuset) + if objs[l] <= cpuset && objs[l] != {} then [objs[l]] else []
  }

  /** The places of these objects. */
  ghost function PlacesIn(objs: Level, cpuset: Bitmap): set<nat> {
    set p: nat | p < |objs| && objs[p] != {} && objs[p] <= cpuset
  }

  /** They are listed by increasing place, each once. */
  lemma {:induction false} InsideIsInOrder(objs: Level, cpuset: Bitmap) returns (at: seq<nat>)
    ensures Locates(objs, cpuset, at)
  {
    hide Locates;
    if objs == [] {
      at := [];
      LocatesNone(cpuset);
    } else {
      var l := |objs| - 1;
      at := InsideIsInOrder(objs[..l], cpuset);
      LocatesStep(objs, cpuset, at);
      if objs[l] <= cpuset && objs[l] != {} { at := at + [l]; }
    }
  }

  /** `at` are the places of the objects that lie inside, in order. */
  ghost predicate Locates(objs: Level, cpuset: Bitmap, at: seq<nat>) {
    && |at| == |Inside(objs, cpuset)| == |PlacesIn(objs, cpuset)|
    && (forall k :: 0 <= k < |at| ==> at[k] in PlacesIn(objs, cpuset) && Inside(objs, cpuset)[k] == objs[at[k]])
    && (forall k, l :: 0 <= k < l < |at| ==> at[k] < at[l])
    && forall p :: p in PlacesIn(objs, cpuset) ==> p in at
  }

  lemma LocatesNone(cpuset: Bitmap)
    ensures Locates([], cpuset, [])
  {
    PlacesStep([], cpuset);
  }

  lemma LocatesStep(objs: Level, cpuset: Bitmap, at: seq<nat>)
    requires objs != [] && Locates(objs[..|objs| - 1], cpuset, at)
    ensures var l := |objs| - 1;
            Locates(objs, cpuset, if objs[l] <= cpuset && objs[l] != {} then at + [l] else at)
  {
    PlacesStep(objs, cpuset);
    hide PlacesIn;
    var l := |objs| - 1;
    forall k | 0 <= k < |at| ensures Inside(objs, cpuset)[k] == objs[at[k]] {
      assert objs[..l][at[k]] == objs[at[k]];
    }
  }

  lemma PlacesStep(objs: Level, cpuset: Bitmap)
    ensures objs == [] ==> PlacesIn(objs, cpuset) == {}
    ensures objs != [] ==>
              var l := |objs| - 1;
              && l !in PlacesIn(objs[..l], cpuset)
              && (forall p :: p in PlacesIn(objs[..l], cpuset) ==> p < l)
              && PlacesIn(objs, cpuset) ==
                 PlacesIn(objs[..l], cpuset) + if objs[l] <= cpuset && objs[l] != {} then {l} else {}
  {
  }

  ghost function UnionOf(sets: seq<Bitmap>): Bitmap {
    if sets == [] then {} else UnionOf(sets[..|sets| - 1]) + sets[|sets| - 1]
  }

  lemma {:induction false} UnionHas(sets: seq<Bitmap>, x: nat)
    ensures x in UnionOf(sets) <==> exists i :: 0 <= i < |sets| && x in sets[i]
  {
    if sets != [] {
      var l := |sets| - 1;
      UnionHas(sets[..l], x);
      assert x in sets[l] || x in UnionOf(sets[..l]) <==> x in UnionOf(sets);
      if x in UnionOf(sets[..l]) {
        var i :| 0 <= i < l && x in sets[..l][i];
        assert x in sets[i];
      }
      if exists i :: 0 <= i < |sets| && x in sets[i] {
        var i :| 0 <= i < |sets| && x in sets[i];
        if i < l { assert x in sets[..l][i]; }
      }
    }
  }

  lemma {:induction false} InsideSound(objs: Level, cpuset: Bitmap)
    ensures forall i :: 0 <= i < |Inside(objs, cpuset)| ==>
              Inside(objs, cpuset)[i] != {} && Inside(objs, cpuset)[i] <= cpuset && Inside(objs, cpuset)[i] in objs
  {
    if objs != [] {
      InsideSound(objs[..|objs| - 1], cpuset);
    }
  }

  lemma {:induction false} InsideDisjoint(objs: Level, cpuset: Bitmap)
    requires PairwiseDisjoint(objs)
    ensures PairwiseDisjoint(Inside(objs, cpuset))
  {
    if objs != [] {
      var l := |objs| - 1;
      var before := Inside(objs[..l], cpuset);
      InsideDisjoint(objs[..l], cpuset);
      InsideSound(objs[..l], cpuset);
      forall i | 0 <= i < |before| ensures before[i] !! objs[l] {
        var k :| 0 <= k < l && objs[..l][k] == before[i];
        assert objs[k] !! objs[l];
      }
    }
  }

  /** How many objects lie inside the cpuset. */
  method NobjsInCpuset(objs: Level, cpuset: Bitmap) returns (rc: int, nobjs: nat)
    ensures rc == QV_SUCCESS && nobjs == |Inside(objs, cpuset)| == |PlacesIn(objs, cpuset)|
  {
    ghost var at := InsideIsInOrder(objs, cpuset);
    hide PlacesIn;
    nobjs := 0;
    for i := 0 to |objs|
      invariant nobjs == |Inside(objs[..i], cpuset)|
    {
      assert objs[..i + 1][..i] == objs[..i];
      if !(objs[i] <= cpuset) { continue; }
      // An empty set is inside everything, but is nothing to count.
      if objs[i] == {} { continue; }
      nobjs := nobjs + 1;
    }
    assert objs[..|objs|] == objs;
    rc := QV_SUCCESS;
  }

  /** The index-th object inside the cpuset, or an error when there are not that many. */
  method ObjInCpuset(objs: Level, cpuset: Bitmap, index: nat) returns (rc: int, obj: Bitmap)
    ensures rc == if index < |Inside(objs, cpuset)| then QV_SUCCESS else QV_ERR_HWLOC
    ensures rc == QV_SUCCESS ==> obj == Inside(objs, cpuset)[index]
  {
    var count := 0;
    obj := {};
    for i := 0 to |objs|
      invariant count == |Inside(objs[..i], cpuset)| <= index
    {
      assert objs[..i + 1][..i] == objs[..i];
      if objs[i] <= cpuset && objs[i] != {} {
        if count == index {
          InsidePrefix(objs, cpuset, i + 1);
          return QV_SUCCESS, objs[i];
        }
        count := count + 1;
      }
    }
    assert objs[..|objs|] == objs;
    rc := QV_ERR_HWLOC;
  }

  lemma {:induction false} InsidePrefix(objs: Level, cpuset: Bitmap, i: nat)
    requires i <= |objs|
    ensures Inside(objs[..i], cpuset) <= Inside(objs, cpuset)
    decreases |objs| - i
  {
    if i < |objs| {
      assert objs[..i + 1][..i] == objs[..i];
      InsidePrefix(objs, cpuset, i + 1);
    } else {
      assert objs[..i] == objs;
    }
  }

  /** The union of the objects base .. base + extent - 1 inside the bitmap. */
  method SplitCpusetByRange(objs: Level, bitmap: Bitmap, base: nat, extent: nat) returns (rc: int, result: Bitmap)
    ensures rc == if extent == 0 || base + extent <= |Inside(objs, bitmap)| then QV_SUCCESS else QV_ERR_HWLOC
    ensures extent > 0 && rc == QV_SUCCESS ==> result == UnionOf(Inside(objs, bitmap)[base..base + extent])
    ensures extent == 0 ==> result == {}
  {
    // The union of no objects.
    rc, result := QV_SUCCESS, {};
    ghost var inside := Inside(objs, bitmap);
    for i := base to base + extent
      invariant rc == QV_SUCCESS
      invariant i > base ==> i <= |inside| && result == UnionOf(inside[base..i])
      invariant i == base ==> result == {}
    {
      var obj;
      rc, obj := ObjInCpuset(objs, bitmap, i);
      if rc != QV_SUCCESS { break; }
      result := result + obj;
      assert inside[base..i + 1][..i - base] == inside[base..i];
    }
  }

  /** The pieces of an even split of the processing units inside `bitmap`; none when that cannot be done. */
  ghost function SplitPieces(pus: Level, bitmap: Bitmap, npieces: nat): seq<Bitmap> {
    var inside := Inside(pus, bitmap);
    if npieces == 0 || npieces > |inside| then []
    else seq(npieces, i requires 0 <= i < npieces => UnionOf(Chunk(inside, npieces, i)))
  }

  /** Splits the bitmap into `npieces` pieces. */
  method BitmapSplit(pus: Level, bitmap: Bitmap, npieces: nat) returns (rc: int, result: seq<Bitmap>)
    ensures rc == QV_SUCCESS
    ensures result == SplitPieces(pus, bitmap, npieces)
    ensures |result| == if 0 < npieces <= |PlacesIn(pus, bitmap)| then npieces else 0
  {
    hide Inside, UnionOf, PlacesIn;
    var npus;
    rc, npus := NobjsInCpuset(pus, bitmap);
    result := [];
    // There are no such pieces.
    if npieces == 0 || npus == 0 || npieces > npus {
      return;
    }
    var baseChunkSize := npus / npieces;
    var remainder := npus % npieces;
    var currentPos := 0;
    for i := 0 to npieces
      invariant rc == QV_SUCCESS && |result| == i
      invariant currentPos == ChunkStart(npus, npieces, i)
      invariant forall j: nat :: j < i ==> result[j] == SplitPieces(pus, bitmap, npieces)[j]
    {
      var currentChunkSize := baseChunkSize + if i < remainder then 1 else 0;
      var piece;
      ChunkInRange(npus, npieces, i);
      QuotientIsPositive(npus, npieces);
      rc, piece := SplitCpusetByRange(pus, bitmap, currentPos, currentChunkSize);
      result := result + [piece];
      currentPos := currentPos + currentChunkSize;
    }
  }

  /** The union of the first `nobjs` objects inside the cpuset; an error when there are fewer. */
  method CpusetForNobjs(objs: Level, cpuset: Bitmap, nobjs: nat) returns (rc: int, result: Bitmap)
    ensures rc == if nobjs <= |Inside(objs, cpuset)| then QV_SUCCESS else QV_ERR_HWLOC
    ensures rc == QV_SUCCESS ==> result == UnionOf(Inside(objs, cpuset)[..nobjs])
  {
    rc, result := QV_SUCCESS, {};
    ghost var inside := Inside(objs, cpuset);
    for i := 0 to nobjs
      invariant rc == QV_SUCCESS && i <= |inside| && result == UnionOf(inside[..i])
    {
      var obj;
      rc, obj := ObjInCpuset(objs, cpuset, i);
      if rc != QV_SUCCESS { break; }
      result := result + obj;
      assert inside[..i + 1][..i] == inside[..i];
    }
  }

  // ----- what the split guarantees

  /** A processing unit lies wholly in the piece of its chunk and is disjoint from every other piece;
      the packed mapper puts it on that piece. */
  lemma PieceOfUnit(pus: Level, bitmap: Bitmap, m: nat, p: nat, i: nat)
    requires PairwiseDisjoint(pus) && i < m <= |Inside(pus, bitmap)| && p < |Inside(pus, bitmap)|
    ensures var unit, piece := Inside(pus, bitmap)[p], SplitPieces(pus, bitmap, m)[i];
            var packed := Packed(|Inside(pus, bitmap)|, m)[p];
            && (packed == {i} ==> unit <= piece)
            && (packed != {i} ==> unit !! piece)
  {
    var inside := Inside(pus, bitmap);
    var n := |inside|;
    var from, to := ChunkStart(n, m, i), ChunkStart(n, m, i + 1);
    var chunk := Chunk(inside, m, i);
    ChunkInRange(n, m, i);
    InsideDisjoint(pus, bitmap);
    if ChunkOf(n, m, p) == i {
      forall x | x in inside[p] ensures x in UnionOf(chunk) {
        assert x in chunk[p - from];
        UnionHas(chunk, x);
      }
    } else {
      forall x | x in inside[p] ensures x !in UnionOf(chunk) {
        UnionHas(chunk, x);
        forall k | 0 <= k < |chunk| ensures x !in chunk[k] {
          if from + k == p { ChunkIsUnique(n, m, i, ChunkOf(n, m, p), p); }
          assert chunk[k] == inside[from + k];
        }
      }
    }
  }

  /** The pieces are non-empty and pairwise disjoint. */
  lemma PiecesAreDisjoint(pus: Level, bitmap: Bitmap, m: nat, i: nat, j: nat)
    requires PairwiseDisjoint(pus) && i < m <= |Inside(pus, bitmap)| && j < m
    ensures SplitPieces(pus, bitmap, m)[i] != {}
    ensures i != j ==> SplitPieces(pus, bitmap, m)[i] !! SplitPieces(pus, bitmap, m)[j]
  {
    hide Inside, UnionOf;
    var inside := Inside(pus, bitmap);
    var n := |inside|;
    var pieces := SplitPieces(pus, bitmap, m);
    ChunkInRange(n, m, i);
    QuotientIsPositive(n, m);
    InsideSound(pus, bitmap);
    var from := ChunkStart(n, m, i);
    ChunkIsUnique(n, m, i, ChunkOf(n, m, from), from);
    PieceOfUnit(pus, bitmap, m, from, i);
    if i != j {
      forall x | x in pieces[i] ensures x !in pieces[j] {
        var chunk := Chunk(inside, m, i);
        UnionHas(chunk, x);
        var k :| 0 <= k < |chunk| && x in chunk[k];
        ChunkIsUnique(n, m, i, ChunkOf(n, m, from + k), from + k);
        PieceOfUnit(pus, bitmap, m, from + k, j);
      }
    }
  }

  /** Together the pieces cover exactly the processing units inside the bitmap. */
  lemma PiecesCoverAll(pus: Level, bitmap: Bitmap, m: nat)
    requires PairwiseDisjoint(pus) && 0 < m <= |Inside(pus, bitmap)|
    ensures UnionOf(SplitPieces(pus, bitmap, m)) == UnionOf(Inside(pus, bitmap))
  {
    var inside := Inside(pus, bitmap);
    var n := |inside|;
    var pieces := SplitPieces(pus, bitmap, m);
    forall x ensures x in UnionOf(pieces) <==> x in UnionOf(inside) {
      UnionHas(pieces, x);
      UnionHas(inside, x);
      if x in UnionOf(inside) {
        var p: nat :| p < n && x in inside[p];
        InsideIsCovered(pus, bitmap, m, p, x);
      }
      if x in UnionOf(pieces) {
        var i: nat :| i < m && x in pieces[i];
        PieceIsInside(pus, bitmap, m, i, x);
      }
    }
  }

  lemma InsideIsCovered(pus: Level, bitmap: Bitmap, m: nat, p: nat, x: nat)
    requires PairwiseDisjoint(pus) && 0 < m <= |Inside(pus, bitmap)|
    requires p < |Inside(pus, bitmap)| && x in Inside(pus, bitmap)[p]
    ensures exists i: nat :: i < m && x in SplitPieces(pus, bitmap, m)[i]
  {
    var i := ChunkOf(|Inside(pus, bitmap)|, m, p);
    PieceOfUnit(pus, bitmap, m, p, i);
    assert x in SplitPieces(pus, bitmap, m)[i];
  }

  lemma PieceIsInside(pus: Level, bitmap: Bitmap, m: nat, i: nat, x: nat)
    requires i < m <= |Inside(pus, bitmap)| && x in SplitPieces(pus, bitmap, m)[i]
    ensures exists p: nat :: p < |Inside(pus, bitmap)| && x in Inside(pus, bitmap)[p]
  {
    var inside := Inside(pus, bitmap);
    var p := InChunkOf(inside, m, i, x);
  }

  lemma InChunkOf(inside: seq<Bitmap>, m: nat, i: nat, x: nat) returns (p: nat)
    requires i < m && x in UnionOf(Chunk(inside, m, i))
    ensures p < |inside| && x in inside[p]
  {
    var chunk := Chunk(inside, m, i);
    UnionHas(chunk, x);
    var k: nat :| k < |chunk| && x in chunk[k];
    ChunkInRange(|inside|, m, i);
    p := ChunkStart(|inside|, m, i) + k;
  }

  // ----- balance: what lies inside a piece

  /** Looking inside a smaller set, one may look inside the larger one first. */
  lemma {:induction false} InsideInside(objs: Level, bitmap: Bitmap, piece: Bitmap)
    requires piece <= bitmap
    ensures Inside(objs, piece) == Inside(Inside(objs, bitmap), piece)
  {
    if objs != [] {
      var l := |objs| - 1;
      InsideInside(objs[..l], bitmap, piece);
      var before, inside := Inside(objs[..l], bitmap), Inside(objs, bitmap);
      if objs[l] <= bitmap && objs[l] != {} {
        assert inside == before + [objs[l]] && inside[..|inside| - 1] == before;
      } else {
        assert objs[l] <= piece ==> objs[l] <= bitmap;
        assert inside == before;
      }
    }
  }

  /** Exactly the objects from `from` up to `to` lie in the piece. */
  ghost predicate InsideExactly(objs: Level, piece: Bitmap, from: nat, to: nat) {
    && from <= to <= |objs|
    && forall p :: 0 <= p < |objs| ==> (objs[p] <= piece && objs[p] != {} <==> from <= p < to)
  }

  lemma {:induction false} InsideOfStretch(objs: Level, piece: Bitmap, from: nat, to: nat, upto: nat)
    requires InsideExactly(objs, piece, from, to) && upto <= |objs|
    ensures Inside(objs[..upto], piece) ==
            if upto <= from then [] else if upto <= to then objs[from..upto] else objs[from..to]
  {
    if upto > 0 {
      assert objs[upto - 1] <= piece && objs[upto - 1] != {} <==> from <= upto - 1 < to;
      hide InsideExactly;
      InsideOfStretch(objs, piece, from, to, upto - 1);
      assert objs[..upto][..upto - 1] == objs[..upto - 1];
    }
  }

  /** The processing units inside piece i are exactly those of chunk i, in logical order. */
  lemma PieceHoldsItsChunk(pus: Level, bitmap: Bitmap, m: nat, i: nat)
    requires PairwiseDisjoint(pus) && i < m <= |Inside(pus, bitmap)|
    ensures Inside(pus, SplitPieces(pus, bitmap, m)[i]) == Chunk(Inside(pus, bitmap), m, i)
  {
    hide Inside, UnionOf;
    var inside := Inside(pus, bitmap);
    var n, piece := |inside|, SplitPieces(pus, bitmap, m)[i];
    var from, to := ChunkStart(n, m, i), ChunkStart(n, m, i + 1);
    ChunkInRange(n, m, i);
    InsideSound(pus, bitmap);
    forall x | x in piece ensures x in bitmap {
      var p := InChunkOf(inside, m, i, x);
    }
    InsideInside(pus, bitmap, piece);
    forall p: nat | p < n ensures inside[p] <= piece <==> from <= p < to {
      UnitInPieceIff(pus, bitmap, m, p, i);
    }
    InsideOfStretch(inside, piece, from, to, n);
    assert inside[..n] == inside;
  }

  lemma UnitInPieceIff(pus: Level, bitmap: Bitmap, m: nat, p: nat, i: nat)
    requires PairwiseDisjoint(pus) && i < m <= |Inside(pus, bitmap)| && p < |Inside(pus, bitmap)|
    ensures var n := |Inside(pus, bitmap)|;
            Inside(pus, bitmap)[p] <= SplitPieces(pus, bitmap, m)[i] <==> InChunk(n, m, i, p)
  {
    var n := |Inside(pus, bitmap)|;
    PieceOfUnit(pus, bitmap, m, p, i);
    InsideSound(pus, bitmap);
    if InChunk(n, m, i, p) {
      ChunkIsUnique(n, m, i, ChunkOf(n, m, p), p);
    }
  }

  /** The split is balanced: a piece has as many processing units as its chunk, so two pieces differ by at most one. */
  lemma PiecesAreBalanced(pus: Level, bitmap: Bitmap, m: nat, i: nat, j: nat)
    requires PairwiseDisjoint(pus) && i < m <= |Inside(pus, bitmap)| && j < m
    ensures var n, pieces := |Inside(pus, bitmap)|, SplitPieces(pus, bitmap, m);
            && |Inside(pus, pieces[i])| == ChunkSize(n, m, i)
            && |Inside(pus, pieces[i])| <= |Inside(pus, pieces[j])| + 1
  {
    var n := |Inside(pus, bitmap)|;
    PieceHoldsItsChunk(pus, bitmap, m, i);
    PieceHoldsItsChunk(pus, bitmap, m, j);
    ChunkInRange(n, m, i);
    ChunkInRange(n, m, j);
  }
}
