/**
 What a successful split means for the tasks: which cpusets they share, which
 processing units are covered, and where the devices are.
 */
module SplitGuarantees {
  import opened Affinity
  import opened Chunks
  import opened Colors
  import opened Contention
  import opened Cutting
  import opened Hwloc
  import opened HwPool
  import opened HwSplit
  import opened Mappers
  import opened Rounds
  import opened SlotLists
  import opened Solver
  import opened Sorting
  import opened StableMatching
  import opened Status

  /** The split of `base` into non-empty pieces of the processing units inside `primary`. */
  ghost predicate SplitOf(
      pus: Level, primary: Bitmap, m: nat, requested: seq<int>, tasks: seq<Bitmap>, base: PoolValue,
      colors: seq<int>, pools: seq<PoolValue>)
  {
    && PairwiseDisjoint(pus) && 0 < m <= |Inside(pus, primary)| && m <= |requested|
    && |tasks| == |requested|
    && IsSplit(requested, tasks, base, SplitPieces(pus, primary, m), colors, pools)
  }

  /** Two tasks have equal cpusets exactly when they have the same colour, and disjoint ones otherwise. */
  lemma ColorsDecideCpusets(
      pus: Level, primary: Bitmap, m: nat, requested: seq<int>, tasks: seq<Bitmap>, base: PoolValue,
      colors: seq<int>, pools: seq<PoolValue>, i: nat, j: nat)
    requires SplitOf(pus, primary, m, requested, tasks, base, colors, pools)
    requires i < |requested| && j < |requested|
    ensures |colors| == |pools| == |requested| && 0 <= colors[i] < m
    ensures pools[i].cpus != {}
    ensures colors[i] == colors[j] <==> pools[i].cpus == pools[j].cpus
    ensures colors[i] != colors[j] <==> pools[i].cpus !! pools[j].cpus
  {
    PiecesAreDisjoint(pus, primary, m, colors[i], colors[j]);
  }

  /** With explicit colours two tasks share a cpuset exactly when they asked for the same colour. */
  lemma RequestedColorsDecideCpusets(
      pus: Level, primary: Bitmap, m: nat, requested: seq<int>, tasks: seq<Bitmap>, base: PoolValue,
      colors: seq<int>, pools: seq<PoolValue>, i: nat, j: nat)
    requires SplitOf(pus, primary, m, requested, tasks, base, colors, pools)
    requires AllNonNegative(requested) && i < |requested| && j < |requested|
    ensures |pools| == |requested| && (requested[i] == requested[j] <==> pools[i].cpus == pools[j].cpus)
  {
    ColorsDecideCpusets(pus, primary, m, requested, tasks, base, colors, pools, i, j);
    NormalizedKeepsOrder(requested, m, i, j);
  }

  // ----- explicit colours

  /** Explicit colours that all name a piece are used as they are. */
  lemma UsableColorsAreKept(
      requested: seq<int>, tasks: seq<Bitmap>, base: PoolValue, pieces: seq<Bitmap>,
      colors: seq<int>, pools: seq<PoolValue>)
    requires |tasks| == |requested| == |pools| > 0 && IsSplit(requested, tasks, base, pieces, colors, pools)
    requires forall i :: 0 <= i < |requested| ==> 0 <= requested[i] < |pieces|
    ensures colors == requested
    ensures forall i :: 0 <= i < |requested| ==> pools[i].cpus == pieces[requested[i]]
  {
    assert 0 <= requested[0] < |pieces|;
  }

  /** If some does not, each task's colour is the number of distinct smaller colours asked for. */
  lemma UnusableColorsAreCounted(
      requested: seq<int>, tasks: seq<Bitmap>, base: PoolValue, pieces: seq<Bitmap>,
      colors: seq<int>, pools: seq<PoolValue>, i: nat)
    requires |tasks| == |requested| == |pools| > 0 && IsSplit(requested, tasks, base, pieces, colors, pools)
    requires pieces != [] && i < |requested|
    requires forall j :: 0 <= j < |requested| ==> 0 <= requested[j]
    requires exists j :: 0 <= j < |requested| && |pieces| <= requested[j]
    ensures |colors| == |requested| && 0 <= colors[i] < |pieces| && pools[i].cpus == pieces[colors[i]]
    ensures colors[i] == |set c | c in requested && c < requested[i]|
  {
    assert Under(ColorSet(requested), requested[i]) == set c | c in requested && c < requested[i];
  }

  /** A piece for every task, the same for two tasks exactly when they asked for the same colour. */
  ghost predicate Places(requested: seq<int>, m: nat, place: seq<nat>) {
    && |place| == |requested| && (forall i :: 0 <= i < |place| ==> place[i] < m)
    && forall i, j :: 0 <= i < |place| && 0 <= j < |place| ==> (place[i] == place[j] <==> requested[i] == requested[j])
  }

  /** Explicit colours are refused only if there is no such placement at all. */
  lemma ExplicitColorsSucceedIff(requested: seq<int>, pieces: seq<Bitmap>)
    requires |requested| > 0 && forall i :: 0 <= i < |requested| ==> requested[i] >= 0
    ensures var r := SplitOutcome(requested, pieces);
            && (r == Returned(QV_SUCCESS) || r == Returned(QV_ERR_SPLIT))
            && (r == Returned(QV_SUCCESS) <==> exists place :: Places(requested, |pieces|, place))
  {
    var m := |pieces|;
    if |ColorSet(requested)| <= m {
      NormalizedInRange(requested, m);
      var colors := Normalized(requested, m);
      var place: seq<nat> :=
        seq(|requested|, i requires 0 <= i < |requested| => if colors[i] < 0 then 0 else colors[i]);
      forall i, j | 0 <= i < |requested| && 0 <= j < |requested|
        ensures place[i] == place[j] <==> requested[i] == requested[j]
      {
        NormalizedKeepsOrder(requested, m, i, j);
      }
      assert Places(requested, m, place);
    }
    forall place | Places(requested, m, place) ensures |ColorSet(requested)| <= m {
      PlacesNeedPieces(requested, m, place);
    }
  }

  lemma PlacesNeedPieces(requested: seq<int>, m: nat, place: seq<nat>)
    requires Places(requested, m, place)
    ensures |ColorSet(requested)| <= m
  {
    var first := map c | c in ColorSet(requested) :: place[IndexOf(requested, c)];
    UptoCard(m);
    Pigeonhole(first, ColorSet(requested), Upto(m));
  }

  ghost function IndexOf(requested: seq<int>, c: int): (i: nat)
    requires c in requested
    ensures i < |requested| && requested[i] == c
  {
    var i: nat :| i < |requested| && requested[i] == c;
    i
  }

  /** The outcome for every list of colours: explicit ones, one policy for all, and what is neither. */
  lemma OutcomeOfColors(requested: seq<int>, pieces: seq<Bitmap>)
    requires |requested| > 0
    ensures var r, explicit, policy :=
              SplitOutcome(requested, pieces), forall i :: 0 <= i < |requested| ==> requested[i] >= 0,
              forall i :: 0 <= i < |requested| ==> requested[i] < 0 && requested[i] == requested[0];
            && (r == Returned(0) <==>
                  || (explicit && exists place :: Places(requested, |pieces|, place))
                  || (policy && (requested[0] == -3 || (|pieces| > 0 && requested[0] in {-2, -4}))))
            && (r == Returned(14) <==> explicit && !exists place :: Places(requested, |pieces|, place))
            && (r == Returned(8) <==>
                  && (forall i :: 0 <= i < |requested| ==> requested[i] < 0)
                  && !(policy && requested[0] in {-2, -3, -4}))
            && (r == Thrown(12) <==> policy && requested[0] == -2 && |pieces| == 0)
            && (r == Aborted <==>
                  || (policy && requested[0] == -4 && |pieces| == 0)
                  || (!explicit && exists i :: 0 <= i < |requested| && requested[i] >= 0))
  {
    if forall i :: 0 <= i < |requested| ==> requested[i] >= 0 {
      assert requested[0] >= 0;
      ExplicitColorsSucceedIff(requested, pieces);
    }
  }

  /** Some task is on every piece. */
  ghost predicate UsesAllPieces(colors: seq<int>, m: nat) {
    forall d :: 0 <= d < m ==> d in colors
  }

  /** The packed and the spread policy use every piece, and so does the close policy for whatever affinities if all
      pieces but one have too few slots for the tasks. */
  lemma PoliciesUseAllPieces(requested: seq<int>, tasks: seq<Bitmap>, pieces: seq<Bitmap>, colors: seq<int>)
    requires |tasks| == |requested| > 0 && 0 < |pieces| <= |requested|
    requires FollowsPolicy(requested, tasks, pieces, colors)
    requires AllAre(requested, QV_SCOPE_SPLIT_PACKED) || AllAre(requested, QV_SCOPE_SPLIT_SPREAD)
             || (AllAre(requested, QV_SCOPE_SPLIT_CLOSE) && CloseUsesAll(|requested|, |pieces|))
    ensures UsesAllPieces(colors, |pieces|)
  {
    forall d: nat | d < |pieces| ensures d in colors {
      PieceIsLoaded(requested, tasks, pieces, colors, d);
      LoadedIsUsed(colors, d);
    }
  }

  lemma PieceIsLoaded(requested: seq<int>, tasks: seq<Bitmap>, pieces: seq<Bitmap>, colors: seq<int>, d: nat)
    requires |tasks| == |requested| > 0 && d < |pieces| <= |requested|
    requires FollowsPolicy(requested, tasks, pieces, colors)
    requires AllAre(requested, QV_SCOPE_SPLIT_PACKED) || AllAre(requested, QV_SCOPE_SPLIT_SPREAD)
             || (AllAre(requested, QV_SCOPE_SPLIT_CLOSE) && CloseUsesAll(|requested|, |pieces|))
    ensures SourcesOf(AsMapping(colors), d) != {}
  {
    var n, m := |requested|, |pieces|;
    QuotientIsPositive(n, m);
    if AllAre(requested, QV_SCOPE_SPLIT_PACKED) {
      PackedSources(n, m, d);
    } else if AllAre(requested, QV_SCOPE_SPLIT_SPREAD) {
      SpreadSources(n, m, d);
    } else {
      CloseMappingLoadsAll(n, m, AffinitiesOf(tasks, pieces), AsMapping(colors), d);
    }
  }

  lemma LoadedIsUsed(colors: seq<int>, d: nat)
    requires AllNonNegative(colors) && SourcesOf(AsMapping(colors), d) != {}
    ensures d in colors
  {
    var s :| s in SourcesOf(AsMapping(colors), d);
    assert colors[s] == d;
  }

  /** When every piece is used the pools together cover all processing units inside the primary cpuset. */
  lemma UsedPiecesCoverAll(
      pus: Level, primary: Bitmap, m: nat, requested: seq<int>, tasks: seq<Bitmap>, base: PoolValue,
      colors: seq<int>, pools: seq<PoolValue>)
    requires SplitOf(pus, primary, m, requested, tasks, base, colors, pools)
    ensures CpuUnion(pools) <= UnionOf(Inside(pus, primary))
    ensures UsesAllPieces(colors, m) ==> CpuUnion(pools) == UnionOf(Inside(pus, primary))
  {
    var pieces := SplitPieces(pus, primary, m);
    PiecesCoverAll(pus, primary, m);
    forall x | x in CpuUnion(pools) ensures x in UnionOf(pieces) {
      var i :| 0 <= i < |pools| && x in pools[i].cpus;
      assert x in pieces[colors[i]];
      UnionHas(pieces, x);
    }
    if UsesAllPieces(colors, m) {
      forall x | x in UnionOf(pieces) ensures x in CpuUnion(pools) {
        UnionHas(pieces, x);
        var d :| 0 <= d < m && x in pieces[d];
        assert d in colors;
        var i :| 0 <= i < |colors| && colors[i] == d;
        assert x in pools[i].cpus;
      }
    }
  }

  // ----- policies

  /** Where the policies put task `i`: packed in its chunk, spread round-robin, and close on a piece it shares no bit
      with only if every piece it shares one with is full with smaller tasks that share one with it. */
  lemma PolicyPlaces(
      requested: seq<int>, tasks: seq<Bitmap>, base: PoolValue, pieces: seq<Bitmap>,
      colors: seq<int>, pools: seq<PoolValue>, i: nat)
    requires |tasks| == |requested| > 0 && IsSplit(requested, tasks, base, pieces, colors, pools)
    requires pieces != [] && i < |requested|
    ensures |colors| == |pools| == |requested| && 0 <= colors[i] < |pieces| && pools[i].cpus == pieces[colors[i]]
    ensures (forall j :: 0 <= j < |requested| ==> requested[j] == -3) ==> InChunk(|requested|, |pieces|, colors[i], i)
    ensures (forall j :: 0 <= j < |requested| ==> requested[j] == -4) ==> colors[i] == i % |pieces|
    ensures (forall j :: 0 <= j < |requested| ==> requested[j] == -2) && tasks[i] * pieces[colors[i]] == {} ==>
              forall e: nat :: e < |pieces| && tasks[i] * pieces[e] != {} ==> FullOfSmaller(tasks, pieces, colors, i, e)
  {
    hide IsCloseMapping, AffinitiesOf, AllDistributed, FullOfSmaller;
    assert AsMapping(colors)[i] == {colors[i]};
    if forall j :: 0 <= j < |requested| ==> requested[j] == -3 {
      assert AllAre(requested, QV_SCOPE_SPLIT_PACKED);
      assert ChunkOf(|requested|, |pieces|, i) in {colors[i]};
    }
    if forall j :: 0 <= j < |requested| ==> requested[j] == -4 {
      assert AllAre(requested, QV_SCOPE_SPLIT_SPREAD);
      assert i % |pieces| in {colors[i]};
    }
    if forall j :: 0 <= j < |requested| ==> requested[j] == -2 {
      assert AllAre(requested, QV_SCOPE_SPLIT_CLOSE);
      forall e: nat | e < |pieces| && tasks[i] * pieces[e] != {} && tasks[i] * pieces[colors[i]] == {}
        ensures FullOfSmaller(tasks, pieces, colors, i, e)
      {
        SharedPieceIsFull(tasks, pieces, colors, i, e);
      }
    }
  }

  /** Piece `e` has its full share of tasks, all smaller than `i` and sharing a bit with it. */
  ghost predicate FullOfSmaller(tasks: seq<Bitmap>, pieces: seq<Bitmap>, colors: seq<int>, i: nat, e: nat)
    requires |tasks| == |colors| && e < |pieces|
  {
    && |set o: nat | o < |colors| && colors[o] == e| == MaxIPerK(|tasks|, |pieces|)
    && forall o: nat :: o < |colors| && colors[o] == e ==> o < i && tasks[o] * pieces[e] != {}
  }

  lemma SharedPieceIsFull(tasks: seq<Bitmap>, pieces: seq<Bitmap>, colors: seq<int>, i: nat, e: nat)
    requires |tasks| == |colors| && AllInRange(colors, |pieces|) && i < |tasks| && e < |pieces|
    requires IsCloseMapping(|tasks|, |pieces|, AffinitiesOf(tasks, pieces), AsMapping(colors))
    requires tasks[i] * pieces[e] != {} && tasks[i] * pieces[colors[i]] == {}
    ensures FullOfSmaller(tasks, pieces, colors, i, e)
  {
    hide IsCloseMapping, AffinitiesOf, MaxIPerK;
    var mapping := AsMapping(colors);
    SharedBitsDecide(tasks, pieces, mapping, i, colors[i], e);
    forall o: nat | o < |colors| && colors[o] == e ensures o in mapping && e in mapping[o] {
      assert mapping[o] == {colors[o]};
    }
    assert (set o: nat | o < |colors| && colors[o] == e) == set o | o in mapping && e in mapping[o];
  }

  // ----- units and bits

  /** A split of `base` at `t` into a cut for which `q` pieces were asked. */
  ghost predicate CutSplit(
      pus: Level, base: PoolValue, t: ObjType, q: nat, requested: seq<int>, tasks: seq<Bitmap>, pieces: seq<Bitmap>,
      colors: seq<int>, pools: seq<PoolValue>)
  {
    && |tasks| == |requested| > 0 && q <= |requested|
    && CutInto(pus, base, t, q, pieces) && IsSplit(requested, tasks, base, pieces, colors, pools)
  }

  /** A task has nothing that was not to be divided; in a split at a device type, nothing that no device is near to. */
  lemma TaskStaysInside(
      pus: Level, base: PoolValue, t: ObjType, q: nat, requested: seq<int>, tasks: seq<Bitmap>, pieces: seq<Bitmap>,
      colors: seq<int>, pools: seq<PoolValue>, i: nat, x: nat)
    requires CutSplit(pus, base, t, q, requested, tasks, pieces, colors, pools)
    requires i < |pools| && x in pools[i].cpus
    ensures if t == Gpu || t == Nic then exists dev :: dev in base.Devices(t) && x in dev.affinity else x in base.cpus
    ensures exists p :: p in Units(pus, base, t) && x in pus[p]
  {
    var units := Units(pus, base, t);
    assert Belongs(pus, units, x);
    var p :| p in units && p < |pus| && x in pus[p];
    assert Divides(base, t, x);
  }

  /** With as many units as pieces asked for every task has its even share of the units, and otherwise none has any. */
  lemma TaskHasItsShare(
      pus: Level, base: PoolValue, t: ObjType, q: nat, requested: seq<int>, tasks: seq<Bitmap>, pieces: seq<Bitmap>,
      colors: seq<int>, pools: seq<PoolValue>, i: nat)
    requires CutSplit(pus, base, t, q, requested, tasks, pieces, colors, pools)
    requires PairwiseDisjoint(pus) && i < |requested|
    ensures |pools| == |requested|
    ensures var n := |Units(pus, base, t)|;
            if 0 < q <= n then
              |colors| == |requested| && 0 <= colors[i] < q
              && |PlacesIn(pus, pools[i].cpus)| == n / q + if colors[i] < n % q then 1 else 0
            else pools[i].cpus == {} && colors == []
  {
    hide DealtOut, PlacesIn, Units, AllDistributed;
    if pieces != [] {
      assert AllInRange(colors, |pieces|);
      ShareOfPart(pus, Units(pus, base, t), pieces, colors[i]);
    }
  }

  lemma ShareOfPart(pus: Level, units: set<nat>, parts: seq<Bitmap>, i: nat)
    requires DealtOut(pus, units, parts) && i < |parts|
    ensures parts[i] != {}
    ensures |PlacesIn(pus, parts[i])| == |units| / |parts| + if i < |units| % |parts| then 1 else 0
  {
  }

  /** When every piece is used every unit is wholly with some task. */
  lemma UnitsAreCovered(
      pus: Level, base: PoolValue, t: ObjType, q: nat, requested: seq<int>, tasks: seq<Bitmap>, pieces: seq<Bitmap>,
      colors: seq<int>, pools: seq<PoolValue>, p: nat)
    requires CutSplit(pus, base, t, q, requested, tasks, pieces, colors, pools)
    requires PairwiseDisjoint(pus) && pieces != [] && UsesAllPieces(colors, |pieces|) && p in Units(pus, base, t)
    ensures exists i :: 0 <= i < |pools| && pus[p] <= pools[i].cpus
  {
    hide AllDistributed;
    var d: nat :| UnitIn(pus, pieces, p, d);
    assert d in colors;
    var i :| 0 <= i < |colors| && colors[i] == d;
    assert pus[p] <= pools[i].cpus;
  }

  /** The tasks of a packed or of a spread split hold exactly as many different cpusets as pieces were asked for. */
  lemma PoliciesMakeAllCpusets(
      pus: Level, base: PoolValue, t: ObjType, q: nat, requested: seq<int>, tasks: seq<Bitmap>, pieces: seq<Bitmap>,
      colors: seq<int>, pools: seq<PoolValue>)
    requires CutSplit(pus, base, t, q, requested, tasks, pieces, colors, pools)
    requires PairwiseDisjoint(pus) && 0 < q <= |Units(pus, base, t)|
    requires AllAre(requested, QV_SCOPE_SPLIT_PACKED) || AllAre(requested, QV_SCOPE_SPLIT_SPREAD)
    ensures |set i | 0 <= i < |pools| :: pools[i].cpus| == q
  {
    hide AllDistributed, Units, Divides, PairwiseDisjoint, PlacesIn;
    PoliciesUseAllPieces(requested, tasks, pieces, colors);
    PartsDiffer(pus, Units(pus, base, t), pieces);
    var cpusets := set i | 0 <= i < |pools| :: pools[i].cpus;
    forall d: nat | d < |pieces| ensures pieces[d] in cpusets {
      assert d in colors;
      var i :| 0 <= i < |colors| && colors[i] == d;
      assert pools[i].cpus == pieces[d];
    }
    ElementsOfDistinct(pieces, cpusets);
  }

  lemma PartsDiffer(pus: Level, units: set<nat>, parts: seq<Bitmap>)
    requires DealtOut(pus, units, parts)
    ensures NoDuplicates(parts)
  {
    forall i, j | 0 <= i < j < |parts| ensures parts[i] != parts[j] {
      assert parts[i] !! parts[j];
    }
  }

  lemma ElementsOfDistinct(list: seq<Bitmap>, elems: set<Bitmap>)
    requires NoDuplicates(list) && forall x :: x in elems <==> x in list
    ensures |elems| == |list|
  {
    assert forall i :: 0 <= i < |list| ==> list[i] in elems;
    EnumerationLength(list, elems);
  }

  /** Every device of a supported type is in exactly one pool. */
  lemma DeviceInOnePool(base: PoolValue, pools: seq<PoolValue>, t: ObjType, dev: Device) returns (k: nat)
    requires base.Valid() && AllDistributed(base, pools) && t in SUPPORTED_DEVICES && dev in base.Devices(t)
    ensures k < |pools| && dev in pools[k].Devices(t)
    ensures forall j :: 0 <= j < |pools| && dev in pools[j].Devices(t) ==> j == k
  {
    assert dev in multiset(base.Devices(t));
    SumHas(pools, t, dev);
    k :| 0 <= k < |pools| && dev in pools[k].Devices(t);
    assert DeviceListOk(t, base.Devices(t));
    assert NoDuplicates(base.Devices(t)) by {
      assert forall i, j :: 0 <= i < j < |base.Devices(t)| ==> !SameBus(base.Devices(t)[i], base.Devices(t)[j]);
    }
    MultiplicityOne(base.Devices(t), dev);
    forall j | 0 <= j < |pools| && dev in pools[j].Devices(t) ensures j == k {
      if j < k { TwoPoolsTwice(pools, t, dev, j, k); }
      if k < j { TwoPoolsTwice(pools, t, dev, k, j); }
    }
  }

  ghost predicate HasDevice(pools: seq<PoolValue>, t: ObjType, dev: Device, k: nat) {
    k < |pools| && dev in pools[k].Devices(t)
  }

  lemma {:induction false} TwoPoolsTwice(pools: seq<PoolValue>, t: ObjType, dev: Device, j: nat, k: nat)
    requires j < k && HasDevice(pools, t, dev, j) && HasDevice(pools, t, dev, k)
    ensures SumDevices(pools, t)[dev] >= 2
  {
    SumStep(pools, t, dev);
    HasDeviceInit(pools, t, dev, j);
    HasDeviceInit(pools, t, dev, k);
    if k < |pools| - 1 {
      TwoPoolsTwice(pools[..|pools| - 1], t, dev, j, k);
    } else {
      InOnePool(pools[..|pools| - 1], t, dev, j);
    }
  }

  lemma HasDeviceInit(pools: seq<PoolValue>, t: ObjType, dev: Device, k: nat)
    requires HasDevice(pools, t, dev, k)
    ensures k < |pools| - 1 ==> HasDevice(pools[..|pools| - 1], t, dev, k)
  {
  }

  lemma InOnePool(pools: seq<PoolValue>, t: ObjType, dev: Device, j: nat)
    requires HasDevice(pools, t, dev, j)
    ensures SumDevices(pools, t)[dev] >= 1
  {
    SumHas(pools, t, dev);
  }

  lemma SumStep(pools: seq<PoolValue>, t: ObjType, dev: Device)
    requires pools != []
    ensures var l := |pools| - 1;
            SumDevices(pools, t)[dev] >= SumDevices(pools[..l], t)[dev] + if HasDevice(pools, t, dev, l) then 1 else 0
  {
  }

  /** The device counts of the pools add up to that of the base pool. */
  lemma DeviceCountsAddUp(base: PoolValue, pools: seq<PoolValue>, t: ObjType)
    requires AllDistributed(base, pools) && t in SUPPORTED_DEVICES
    ensures CountDevices(pools, t) == |base.Devices(t)|
  {
    CountIsSize(pools, t);
    assert |multiset(base.Devices(t))| == |base.Devices(t)|;
  }

  lemma {:induction false} CountIsSize(pools: seq<PoolValue>, t: ObjType)
    ensures |SumDevices(pools, t)| == CountDevices(pools, t)
  {
    if pools != [] {
      CountIsSize(pools[..|pools| - 1], t);
    }
  }

  /** The numbers of the devices that are in pool `k`. */
  ghost function DevicesThere(devs: seq<Device>, pool: PoolValue, t: ObjType): set<nat> {
    set o: nat | o < |devs| && devs[o] in pool.Devices(t)
  }

  /** A device is in a pool that it shares no bit with, although it shares one with pool `e`, only if `e` has its full
      share of devices, all of them near to it and before this one in the list. */
  lemma DevicesStayNear(base: PoolValue, pools: seq<PoolValue>, t: ObjType, i: nat, k: nat, e: nat)
    requires base.Valid() && AllDistributed(base, pools) && t in SUPPORTED_DEVICES
    requires i < |base.Devices(t)| && k < |pools| && e < |pools| && base.Devices(t)[i] in pools[k].Devices(t)
    requires base.Devices(t)[i].affinity * pools[k].cpus == {} && base.Devices(t)[i].affinity * pools[e].cpus != {}
    ensures var devs, there := base.Devices(t), DevicesThere(base.Devices(t), pools[e], t);
            && |there| == MaxIPerK(|devs|, |pools|)
            && forall o :: o in there ==> o < i && devs[o].affinity * pools[e].cpus != {}
  {
    hide MaxIPerK, PoolValue.Devices, PoolValue.Valid, IsCloseMapping, AffinitiesOf, DevicesThere;
    var devs := base.Devices(t);
    assert Distributed(devs, pools, t);
    var mapping :| DistributedBy(mapping, devs, pools, t);
    PlacedWhereMapped(base, pools, t, mapping, i, k);
    SharedBitsDecide(Affinities(devs), Cpusets(pools), mapping, i, k, e);
    MappedAreThere(base, pools, t, mapping, e);
  }

  lemma PlacedWhereMapped(base: PoolValue, pools: seq<PoolValue>, t: ObjType, mapping: Mapping, i: nat, k: nat)
    requires base.Valid() && AllDistributed(base, pools) && t in SUPPORTED_DEVICES && i < |base.Devices(t)|
    requires DevicesFollow(mapping, base.Devices(t), |base.Devices(t)|, pools, t) && k < |pools|
    ensures i in mapping && (k in mapping[i] <==> base.Devices(t)[i] in pools[k].Devices(t))
  {
    hide PoolValue.Valid, PoolValue.Devices, AllDistributed;
    var devs := base.Devices(t);
    assert InItsPool(mapping, i, devs[i], pools, t);
    var j: nat :| PlacedAt(mapping, i, devs[i], pools, t, j);
    var only := DeviceInOnePool(base, pools, t, devs[i]);
  }

  lemma MappedAreThere(base: PoolValue, pools: seq<PoolValue>, t: ObjType, mapping: Mapping, k: nat)
    requires base.Valid() && AllDistributed(base, pools) && t in SUPPORTED_DEVICES && k < |pools|
    requires DistributedBy(mapping, base.Devices(t), pools, t)
    ensures DevicesThere(base.Devices(t), pools[k], t) == set o | o in mapping && k in mapping[o]
  {
    hide PoolValue.Valid, PoolValue.Devices, AllDistributed, IsCloseMapping, DevicesFollow;
    var devs := base.Devices(t);
    CloseMappingIsTotal(|devs|, |pools|, AffinitiesOf(Affinities(devs), Cpusets(pools)), mapping);
    forall o: nat | o < |devs| ensures k in mapping[o] <==> devs[o] in pools[k].Devices(t) {
      PlacedWhereMapped(base, pools, t, mapping, o, k);
    }
  }

  // ----- affinity in a close split

  lemma WantsOverlapping(tasks: seq<Bitmap>, pieces: seq<Bitmap>, i: nat)
    requires i < |tasks|
    ensures Wants(AffinitiesOf(tasks, pieces), i, |pieces|) == Overlapping(tasks[i], pieces)
  {
  }

  /** A close split serves the tasks in two rounds. A task ends up with nothing of its affinity exactly if all pieces
      it overlaps are full with smaller tasks that overlap them when the first round comes to it. */
  lemma CloseSplitInRounds(
      requested: seq<int>, tasks: seq<Bitmap>, base: PoolValue, pieces: seq<Bitmap>,
      colors: seq<int>, pools: seq<PoolValue>, i: nat)
    requires |tasks| == |requested| > 0 && pieces != [] && AllAre(requested, QV_SCOPE_SPLIT_CLOSE) && i < |tasks|
    requires IsSplit(requested, tasks, base, pieces, colors, pools)
    ensures |colors| == |pools| == |tasks| && 0 <= colors[i] < |pieces|
    ensures var served := TwoRounds(AffinitiesOf(tasks, pieces), |tasks|, |pieces|);
            i in served && colors[i] == served[i]
    ensures pools[i].cpus * tasks[i] == {} <==> CrowdedOut(AffinitiesOf(tasks, pieces), |tasks|, |pieces|, i)
  {
    var n, m, aff := |tasks|, |pieces|, AffinitiesOf(tasks, pieces);
    CloseIsTwoRounds(n, m, aff, AsMapping(colors));
    CloseDeniedIff(n, m, aff, AsMapping(colors), i);
    WantsOverlapping(tasks, pieces, i);
    hide IsCloseMapping, CrowdedOut, TwoRounds, AffinitiesOf, AllDistributed;
    assert AsMapping(colors)[i] == {colors[i]};
    var served := TwoRounds(aff, n, m);
    assert AsSets(served)[i] == {served[i]};
    assert colors[i] in {served[i]};
  }

  // ----- threads: one affinity for all

  ghost predicate AllWant(aff: AffinityMap, n: nat, m: nat, wants: set<nat>) {
    wants <= Upto(m) && forall s: nat :: s < n ==> Wants(aff, s, m) == wants
  }

  /** When all sources want the same, the close mapping fills the destinations in the shared order. */
  lemma SharedCloseMapping(
      n: nat, m: nat, aff: AffinityMap, mapping: Mapping, wants: set<nat>, i: nat, j: nat, x: nat)
    requires IsCloseMapping(n, m, aff, mapping) && AllWant(aff, n, m, wants)
    requires i < n && x < MaxIPerK(n, m) && i == j * MaxIPerK(n, m) + x
    ensures i in mapping && j < |SharedOrder(wants, m)| && mapping[i] == {SharedOrder(wants, m)[j]}
  {
    hide IsSolution, AllWant, MaxIPerK, SharedOrder;
    var mk: Market, w: map<nat, Slot> :| IsSolution(n, m, aff, mk, w) && mapping == DestMap(w);
    SharedSolution(n, m, aff, mk, w, wants, i, j, x);
    assert mapping[i] == {w[i].dest};
  }

  lemma SharedSolution(
      n: nat, m: nat, aff: AffinityMap, mk: Market, w: map<nat, Slot>, wants: set<nat>, i: nat, j: nat, x: nat)
    requires IsSolution(n, m, aff, mk, w) && AllWant(aff, n, m, wants)
    requires i < n && x < MaxIPerK(n, m) && i == j * MaxIPerK(n, m) + x
    ensures i in w && j < |SharedOrder(wants, m)| && w[i].dest == SharedOrder(wants, m)[j]
  {
    SharedAffinityClosedForm(mk, n, m, aff, w, wants, i, j, x);
  }

  lemma ReplicatedWants(affinity: Bitmap, tasks: seq<Bitmap>, pieces: seq<Bitmap>)
    requires forall s :: 0 <= s < |tasks| ==> tasks[s] == affinity
    ensures AllWant(AffinitiesOf(tasks, pieces), |tasks|, |pieces|, Overlapping(affinity, pieces))
  {
  }

  /** All threads have the parent's affinity, so the close policy fills the pieces it overlaps first, in order,
      then the others in order, ceil(n / m) threads at a time. */
  lemma ThreadsFillPiecesInOrder(
      affinity: Bitmap, tasks: seq<Bitmap>, pieces: seq<Bitmap>, colors: seq<int>, i: nat, j: nat, x: nat)
    requires forall s :: 0 <= s < |tasks| ==> tasks[s] == affinity
    requires |pieces| > 0 && |colors| == |tasks| && AllNonNegative(colors)
    requires IsCloseMapping(|tasks|, |pieces|, AffinitiesOf(tasks, pieces), AsMapping(colors))
    requires i < |tasks| && x < MaxIPerK(|tasks|, |pieces|) && i == j * MaxIPerK(|tasks|, |pieces|) + x
    ensures j < |SharedOrder(Overlapping(affinity, pieces), |pieces|)|
    ensures colors[i] == SharedOrder(Overlapping(affinity, pieces), |pieces|)[j]
  {
    var wants := Overlapping(affinity, pieces);
    ReplicatedWants(affinity, tasks, pieces);
    SharedCloseMapping(|tasks|, |pieces|, AffinitiesOf(tasks, pieces), AsMapping(colors), wants, i, j, x);
    assert AsMapping(colors)[i] == {colors[i]};
    assert colors[i] in {SharedOrder(wants, |pieces|)[j]};
  }

  lemma UsedIfEarly(affinity: Bitmap, tasks: seq<Bitmap>, pieces: seq<Bitmap>, colors: seq<int>, i: nat, j: nat)
    requires forall s :: 0 <= s < |tasks| ==> tasks[s] == affinity
    requires |pieces| > 0 && |colors| == |tasks| > 0 && AllNonNegative(colors)
    requires IsCloseMapping(|tasks|, |pieces|, AffinitiesOf(tasks, pieces), AsMapping(colors))
    requires j < |SharedOrder(Overlapping(affinity, pieces), |pieces|)|
    requires i < |tasks| && i == j * MaxIPerK(|tasks|, |pieces|)
    ensures SharedOrder(Overlapping(affinity, pieces), |pieces|)[j] in colors
  {
    hide MaxIPerK, SharedOrder, Overlapping, IsCloseMapping, AffinitiesOf;
    MaxIPerKIsPositive(|tasks|, |pieces|);
    ThreadsFillPiecesInOrder(affinity, tasks, pieces, colors, i, j, 0);
    assert colors[i] in colors;
  }

  lemma EarlyIfUsed(
      affinity: Bitmap, tasks: seq<Bitmap>, pieces: seq<Bitmap>, colors: seq<int>, i: nat, j: nat, q: nat, x: nat)
    requires forall s :: 0 <= s < |tasks| ==> tasks[s] == affinity
    requires |pieces| > 0 && |colors| == |tasks| > 0 && AllNonNegative(colors)
    requires IsCloseMapping(|tasks|, |pieces|, AffinitiesOf(tasks, pieces), AsMapping(colors))
    requires j < |SharedOrder(Overlapping(affinity, pieces), |pieces|)|
    requires i < |tasks| && colors[i] == SharedOrder(Overlapping(affinity, pieces), |pieces|)[j]
    requires x < MaxIPerK(|tasks|, |pieces|) && i == q * MaxIPerK(|tasks|, |pieces|) + x
    ensures j == q
  {
    ReplicatedWants(affinity, tasks, pieces);
    SharedOrderElements(Overlapping(affinity, pieces), |pieces|);
    ThreadsFillPiecesInOrder(affinity, tasks, pieces, colors, i, q, x);
  }

  /** Unlike packed and spread, close may leave pieces unused: thread i is on the piece at place j of the shared
      order only if j * ceil(n / m) <= i, and the piece is used if that number is below the number of threads. */
  lemma ThreadsUsePieceIff(
      affinity: Bitmap, tasks: seq<Bitmap>, pieces: seq<Bitmap>, colors: seq<int>, j: nat, first: nat)
    requires forall s :: 0 <= s < |tasks| ==> tasks[s] == affinity
    requires |pieces| > 0 && |colors| == |tasks| > 0 && AllNonNegative(colors)
    requires IsCloseMapping(|tasks|, |pieces|, AffinitiesOf(tasks, pieces), AsMapping(colors))
    requires j < |SharedOrder(Overlapping(affinity, pieces), |pieces|)|
    requires first == j * MaxIPerK(|tasks|, |pieces|)
    ensures SharedOrder(Overlapping(affinity, pieces), |pieces|)[j] in colors <==> first < |tasks|
  {
    var piece := SharedOrder(Overlapping(affinity, pieces), |pieces|)[j];
    if first < |tasks| {
      UsedIfEarly(affinity, tasks, pieces, colors, first, j);
    }
    forall i | 0 <= i < |colors| && colors[i] == piece ensures first <= i {
      FirstOnPiece(affinity, tasks, pieces, colors, i, j);
    }
  }

  lemma FirstOnPiece(affinity: Bitmap, tasks: seq<Bitmap>, pieces: seq<Bitmap>, colors: seq<int>, i: nat, j: nat)
    requires forall s :: 0 <= s < |tasks| ==> tasks[s] == affinity
    requires |pieces| > 0 && |colors| == |tasks| > 0 && AllNonNegative(colors)
    requires IsCloseMapping(|tasks|, |pieces|, AffinitiesOf(tasks, pieces), AsMapping(colors))
    requires j < |SharedOrder(Overlapping(affinity, pieces), |pieces|)|
    requires i < |tasks| && colors[i] == SharedOrder(Overlapping(affinity, pieces), |pieces|)[j]
    ensures j * MaxIPerK(|tasks|, |pieces|) <= i
  {
    var k := MaxIPerK(|tasks|, |pieces|);
    MaxIPerKIsPositive(|tasks|, |pieces|);
    var q, x := QuotientParts(i, k);
    EarlyIfUsed(affinity, tasks, pieces, colors, i, j, q, x);
  }

  lemma QuotientParts(i: nat, k: nat) returns (q: nat, x: nat)
    requires k > 0
    ensures i == q * k + x && x < k
  {
    q, x := i / k, i % k;
  }

  /** For one affinity shared by all the exact condition is that of the general case. */
  lemma ThreadsUseAllPiecesIff(affinity: Bitmap, tasks: seq<Bitmap>, pieces: seq<Bitmap>, colors: seq<int>)
    requires forall s :: 0 <= s < |tasks| ==> tasks[s] == affinity
    requires |pieces| > 0 && |colors| == |tasks| > 0 && AllNonNegative(colors)
    requires IsCloseMapping(|tasks|, |pieces|, AffinitiesOf(tasks, pieces), AsMapping(colors))
    ensures UsesAllPieces(colors, |pieces|) <==> CloseUsesAll(|tasks|, |pieces|)
  {
    if CloseUsesAll(|tasks|, |pieces|) {
      AllAreUsed(AffinitiesOf(tasks, pieces), |pieces|, colors);
    } else {
      ReplicatedWants(affinity, tasks, pieces);
      var d := LastIsUnused(AffinitiesOf(tasks, pieces), |pieces|, Overlapping(affinity, pieces), colors);
    }
  }

  lemma AllAreUsed(aff: AffinityMap, m: nat, colors: seq<int>)
    requires m > 0 && AllNonNegative(colors) && CloseUsesAll(|colors|, m)
    requires IsCloseMapping(|colors|, m, aff, AsMapping(colors))
    ensures UsesAllPieces(colors, m)
  {
    forall d: nat | d < m ensures d in colors {
      CloseMappingLoadsAll(|colors|, m, aff, AsMapping(colors), d);
      LoadedIsUsed(colors, d);
    }
  }

  lemma LastIsUnused(aff: AffinityMap, m: nat, wants: set<nat>, colors: seq<int>) returns (d: nat)
    requires m > 0 && AllNonNegative(colors) && AllWant(aff, |colors|, m, wants) && !CloseUsesAll(|colors|, m)
    requires IsCloseMapping(|colors|, m, aff, AsMapping(colors))
    ensures d < m && d !in colors
  {
    SharedLeavesLast(|colors|, m, aff, AsMapping(colors), wants);
    d := SharedOrder(wants, m)[m - 1];
    UnloadedIsUnused(colors, d);
  }

  lemma UnloadedIsUnused(colors: seq<int>, d: nat)
    requires AllNonNegative(colors) && SourcesOf(AsMapping(colors), d) == {}
    ensures d !in colors
  {
    forall s | 0 <= s < |colors| ensures colors[s] != d {
      assert s !in SourcesOf(AsMapping(colors), d);
    }
  }

  // ----- when the close policy uses every destination

  /** All destinations but one have fewer slots than there are sources. */
  predicate CloseUsesAll(n: nat, m: nat)
    requires m > 0
  {
    (m - 1) * MaxIPerK(n, m) < n
  }

  ghost predicate UsesAllDests(mapping: Mapping, m: nat) {
    forall d: nat :: d < m ==> SourcesOf(mapping, d) != {}
  }

  lemma CloseMappingLoadsAll(n: nat, m: nat, aff: AffinityMap, mapping: Mapping, d: nat)
    requires IsCloseMapping(n, m, aff, mapping) && d < m && CloseUsesAll(n, m)
    ensures SourcesOf(mapping, d) != {}
  {
    var mk: Market, w: map<nat, Slot> :| IsSolution(n, m, aff, mk, w) && mapping == DestMap(w);
    SolutionLoadsAll(n, m, aff, mk, w, d);
  }

  lemma SolutionLoadsAll(n: nat, m: nat, aff: AffinityMap, mk: Market, w: map<nat, Slot>, d: nat)
    requires IsSolution(n, m, aff, mk, w) && d < m && CloseUsesAll(n, m)
    ensures SourcesOf(DestMap(w), d) != {}
  {
    EveryDestIsUsed(mk, n, m, aff, w, d);
    assert OnDest(w, d) <= SourcesOf(DestMap(w), d);
  }

  /** Sources that all want the same leave the last destination of the shared order empty if they can. */
  lemma SharedLeavesLast(n: nat, m: nat, aff: AffinityMap, mapping: Mapping, wants: set<nat>)
    requires IsCloseMapping(n, m, aff, mapping) && AllWant(aff, n, m, wants) && m > 0 && !CloseUsesAll(n, m)
    ensures |SharedOrder(wants, m)| == m && SharedOrder(wants, m)[m - 1] < m
    ensures SourcesOf(mapping, SharedOrder(wants, m)[m - 1]) == {}
  {
    var order := SharedOrder(wants, m);
    SharedOrderElements(wants, m);
    CloseMappingIsTotal(n, m, aff, mapping);
    forall s | s in mapping ensures order[m - 1] !in mapping[s] {
      SharedNotOnLast(n, m, aff, mapping, wants, s);
    }
  }

  lemma SharedNotOnLast(n: nat, m: nat, aff: AffinityMap, mapping: Mapping, wants: set<nat>, s: nat)
    requires IsCloseMapping(n, m, aff, mapping) && AllWant(aff, n, m, wants) && m > 0 && !CloseUsesAll(n, m)
    requires s < n && s in mapping && |SharedOrder(wants, m)| == m && NoDuplicates(SharedOrder(wants, m))
    ensures SharedOrder(wants, m)[m - 1] !in mapping[s]
  {
    var q := SharedRow(n, m, aff, mapping, wants, s, MaxIPerK(n, m));
    assert SharedOrder(wants, m)[q] != SharedOrder(wants, m)[m - 1];
  }

  lemma SharedRow(n: nat, m: nat, aff: AffinityMap, mapping: Mapping, wants: set<nat>, s: nat, k: nat) returns (q: nat)
    requires IsCloseMapping(n, m, aff, mapping) && AllWant(aff, n, m, wants)
    requires k == MaxIPerK(n, m) && s < n <= (m - 1) * k
    ensures q < m - 1 && q < |SharedOrder(wants, m)|
    ensures s in mapping && mapping[s] == {SharedOrder(wants, m)[q]}
  {
    var x;
    q, x := RowOf(s, k, m - 1);
    SharedCloseMapping(n, m, aff, mapping, wants, s, q, x);
  }

  lemma RowOf(s: nat, k: nat, rows: int) returns (q: nat, x: nat)
    requires s < rows * k
    ensures s == q * k + x && x < k && q < rows
  {
    q, x := QuotientParts(s, k);
    assert q * k < rows * k;
  }

  /** The exact condition under which the close policy uses every destination whatever the affinities are. */
  lemma CloseUsesAllIff(n: nat, m: nat)
    requires 0 < m && n <= FREE
    ensures CloseUsesAll(n, m) <==>
            forall aff, mapping :: IsCloseMapping(n, m, aff, mapping) ==> UsesAllDests(mapping, m)
  {
    if CloseUsesAll(n, m) {
      forall aff, mapping | IsCloseMapping(n, m, aff, mapping) ensures UsesAllDests(mapping, m) {
        forall d: nat | d < m ensures SourcesOf(mapping, d) != {} {
          CloseMappingLoadsAll(n, m, aff, mapping, d);
        }
      }
    } else {
      var aff: AffinityMap := map[];
      var mapping := CloseMappingExists(n, m, aff);
      SharedLeavesLast(n, m, aff, mapping, {});
      assert IsCloseMapping(n, m, aff, mapping) && !UsesAllDests(mapping, m);
    }
  }

  /** Four tasks with the same affinity on three pieces: the close policy leaves the last piece unused. */
  lemma FourTasksLeaveAPiece() returns (requested: seq<int>, tasks: seq<Bitmap>, pieces: seq<Bitmap>, colors: seq<int>)
    ensures requested == [QV_SCOPE_SPLIT_CLOSE, QV_SCOPE_SPLIT_CLOSE, QV_SCOPE_SPLIT_CLOSE, QV_SCOPE_SPLIT_CLOSE]
    ensures tasks == [{0}, {0}, {0}, {0}] && pieces == [{0}, {1}, {2}]
    ensures FollowsPolicy(requested, tasks, pieces, colors)
    ensures !UsesAllPieces(colors, |pieces|)
  {
    requested := [QV_SCOPE_SPLIT_CLOSE, QV_SCOPE_SPLIT_CLOSE, QV_SCOPE_SPLIT_CLOSE, QV_SCOPE_SPLIT_CLOSE];
    tasks, pieces := [{0}, {0}, {0}, {0}], [{0}, {1}, {2}];
    colors := CloseColorsLeaveAPiece({0}, requested, tasks, pieces);
  }

  lemma CloseColorsLeaveAPiece(affinity: Bitmap, requested: seq<int>, tasks: seq<Bitmap>, pieces: seq<Bitmap>)
      returns (colors: seq<int>)
    requires 0 < |requested| == |tasks| <= FREE && |pieces| > 0 && !CloseUsesAll(|tasks|, |pieces|)
    requires AllAre(requested, QV_SCOPE_SPLIT_CLOSE) && forall s :: 0 <= s < |tasks| ==> tasks[s] == affinity
    ensures FollowsPolicy(requested, tasks, pieces, colors)
    ensures !UsesAllPieces(colors, |pieces|)
  {
    assert requested[0] == QV_SCOPE_SPLIT_CLOSE;
    colors := PolicyColors(requested, tasks, pieces);
    ThreadsUseAllPiecesIff(affinity, tasks, pieces, colors);
  }

  function Replicated(affinity: Bitmap, k: nat): (r: seq<Bitmap>)
    ensures |r| == k && forall s :: 0 <= s < k ==> r[s] == affinity
  {
    seq(k, _ => affinity)
  }

  ghost function ThreadPieces(base: PoolValue, pus: Level, npieces: nat, k: nat, objType: ObjType): seq<Bitmap> {
    SplitPieces(pus, PrimaryCpuset(base, objType), Min(npieces, k))
  }

  /** A single task splits its pool for `k` threads, into as many pieces as it asks for but no more than `k`; all of
      them have its affinity. */
  method ThreadSplit(
      base: HwPool, pus: Level, npieces: nat, kcolors: seq<int>, objType: ObjType, taskAffinity: Bitmap)
      returns (r: Outcome<int>, kcolorps: seq<int>, khwpools: seq<HwPool>)
    requires base.Valid() && 0 < |kcolors| && 2 * |kcolors| <= FREE
    requires forall t :: |base.Devices(t)| + |kcolors| <= FREE
    ensures r == SplitOutcome(kcolors, ThreadPieces(base.Value(), pus, npieces, |kcolors|, objType))
    ensures if r == Returned(QV_SUCCESS) then
              IsSplit(
                kcolors, Replicated(taskAffinity, |kcolors|), base.Value(),
                ThreadPieces(base.Value(), pus, npieces, |kcolors|, objType), kcolorps, Values(khwpools))
            else kcolorps == [] && khwpools == []
    ensures exists pieces ::
              && CutInto(pus, base.Value(), objType, if npieces <= |kcolors| then npieces else |kcolors|, pieces)
              && r == SplitOutcome(kcolors, pieces)
              && (r == Returned(QV_SUCCESS) ==>
                    IsSplit(
                      kcolors, Replicated(taskAffinity, |kcolors|), base.Value(), pieces, kcolorps, Values(khwpools)))
  {
    hide CutInto, SplitOutcome, IsSplit;
    var k := |kcolors|;
    var hwsplit := new Splitter(k, npieces, objType, pus, base);
    hwsplit.Reserve(kcolors, taskAffinity);
    assert hwsplit.taskAffinities == Replicated(taskAffinity, k);
    r := hwsplit.MSplit();
    ghost var pieces := hwsplit.splitCpusets;
    assert CutInto(pus, base.Value(), objType, if npieces <= k then npieces else k, pieces);
    if r != Returned(QV_SUCCESS) { return r, [], []; }
    kcolorps, khwpools := hwsplit.colors, hwsplit.hwpools;
  }
}
