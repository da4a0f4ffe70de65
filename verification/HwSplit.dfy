/**
 The split pipeline run by the root: cut the primary cpuset into pieces, map the
 tasks onto the pieces, and distribute the devices over the tasks' pools.
 */
module HwSplit {
  import opened Affinity
  import opened Chunks
  import opened Colors
  import opened Cutting
  import opened Hwloc
  import opened HwPool
  import opened Mappers
  import opened Solver
  import opened Sorting
  import opened Status
  import StableMatching

  const QV_SCOPE_SPLIT_CLOSE: int := -2
  const QV_SCOPE_SPLIT_PACKED: int := -3
  const QV_SCOPE_SPLIT_SPREAD: int := -4

  function Min(a: nat, b: nat): nat {
    if a < b then a else b
  }

  predicate Less(a: int, b: int) { a < b }

  /** Which mapper is to run, on what. */
  datatype MapConfig =
    | ByColors(colors: seq<int>)
    | ByClose(src: seq<Bitmap>, dst: seq<Bitmap>)
    | ByPacked(nsrc: nat, ndst: nat)
    | BySpread(nsrc': nat, ndst': nat)

  // ----- requested colours

  ghost predicate AllNegative(colors: seq<int>) {
    forall i :: 0 <= i < |colors| ==> colors[i] < 0
  }

  ghost predicate AllAre(colors: seq<int>, c: int) {
    forall i :: 0 <= i < |colors| ==> colors[i] == c
  }

  ghost predicate AllInRange(colors: seq<int>, m: nat) {
    forall i :: 0 <= i < |colors| ==> 0 <= colors[i] < m
  }

  /** Colours that all name a piece are used as they are, others are clamped. */
  ghost function Normalized(colors: seq<int>, m: nat): seq<int> {
    if AllInRange(colors, m) then colors else Clamped(colors)
  }

  /** Two tasks have the same colour after normalisation exactly when they asked for the same. */
  lemma NormalizedKeepsOrder(colors: seq<int>, m: nat, i: nat, j: nat)
    requires i < |colors| && j < |colors|
    ensures |Normalized(colors, m)| == |colors|
    ensures Normalized(colors, m)[i] < Normalized(colors, m)[j] <==> colors[i] < colors[j]
    ensures Normalized(colors, m)[i] == Normalized(colors, m)[j] <==> colors[i] == colors[j]
  {
    ClampKeepsOrder(ColorSet(colors), colors[i], colors[j]);
    ClampKeepsOrder(ColorSet(colors), colors[j], colors[i]);
  }

  /** Usable colours are kept, and otherwise each becomes the number of distinct smaller ones. */
  lemma UsableOrCounted(colors: seq<int>, m: nat)
    ensures (forall i :: 0 <= i < |colors| ==> 0 <= colors[i] < m) ==>
              Normalized(colors, m) == colors && |ColorSet(colors)| <= m
    ensures (forall i :: 0 <= i < |colors| ==> 0 <= colors[i]) && (exists i :: 0 <= i < |colors| && m <= colors[i]) ==>
              && |Normalized(colors, m)| == |colors|
              && forall i :: 0 <= i < |colors| ==> Normalized(colors, m)[i] == |set c | c in colors && c < colors[i]|
  {
    NormalizedInRange(colors, m);
    forall i | 0 <= i < |colors| ensures Clamped(colors)[i] == |set c | c in colors && c < colors[i]| {
      assert Under(ColorSet(colors), colors[i]) == set c | c in colors && c < colors[i];
    }
  }

  lemma NormalizedCount(colors: seq<int>, m: nat)
    ensures |ColorSet(Normalized(colors, m))| == |ColorSet(colors)|
  {
    if !AllInRange(colors, m) {
      ClampIsOnto(colors);
      UptoCard(|ColorSet(colors)|);
      assert ColorSet(Clamped(colors)) == Upto(|ColorSet(colors)|);
    }
  }

  /** Every normalised colour names a piece exactly when there are no more distinct colours than pieces. */
  lemma NormalizedInRange(colors: seq<int>, m: nat)
    ensures AllInRange(Normalized(colors, m), m) <==> |ColorSet(colors)| <= m
  {
    if AllInRange(colors, m) {
      UptoCard(m);
      SubsetCard(ColorSet(colors), Upto(m));
    } else {
      ClampIsOnto(colors);
      var k := |ColorSet(colors)|;
      assert forall i :: 0 <= i < |colors| ==> Clamped(colors)[i] in Clamped(colors);
      if m < k {
        assert k - 1 in Clamped(colors);
      }
    }
  }

  /** The mapper and its input for the requested colours, or the reason why there is none. */
  ghost predicate Decides(
      requested: seq<int>, tasks: seq<Bitmap>, pieces: seq<Bitmap>, rc: int, config: MapConfig)
    requires |requested| > 0
  {
    if AllNonNegative(requested) then
      if |pieces| < |ColorSet(requested)| then rc == QV_ERR_SPLIT
      else rc == QV_SUCCESS && config == ByColors(Normalized(requested, |pieces|))
    else if AllAre(requested, QV_SCOPE_SPLIT_CLOSE) then
      rc == QV_SUCCESS && config == ByClose(tasks, pieces)
    else if AllAre(requested, QV_SCOPE_SPLIT_PACKED) then
      rc == QV_SUCCESS && config == ByPacked(|requested|, |pieces|)
    else if AllAre(requested, QV_SCOPE_SPLIT_SPREAD) then
      rc == QV_SUCCESS && config == BySpread(|requested|, |pieces|)
    else if AllNegative(requested) then rc == QV_ERR_INVLD_ARG
    else rc == QV_SUCCESS && config == ByColors(requested)
  }

  lemma SortedEnds(s: seq<int>, sorted: seq<int>)
    requires |s| > 0 && Sorted(Less, sorted) && multiset(sorted) == multiset(s)
    ensures |sorted| == |s|
    ensures sorted[0] in s && sorted[|s| - 1] in s
    ensures forall i :: 0 <= i < |s| ==> sorted[0] <= s[i] <= sorted[|s| - 1]
  {
    assert |multiset(sorted)| == |multiset(s)|;
    assert sorted[0] in multiset(s) && sorted[|s| - 1] in multiset(s);
    forall i | 0 <= i < |s| ensures sorted[0] <= s[i] <= sorted[|s| - 1] {
      assert s[i] in multiset(sorted);
      var k :| 0 <= k < |sorted| && sorted[k] == s[i];
      assert k > 0 ==> !Less(sorted[k], sorted[0]);
      assert k < |s| - 1 ==> !Less(sorted[|s| - 1], sorted[k]);
    }
  }

  // ----- what a split yields

  /** The cpuset that is split: the host cpuset, or the union of the affinities of the devices split at. */
  ghost function PrimaryCpuset(base: PoolValue, splitAt: ObjType): Bitmap {
    if ObjResClass(splitAt) == Dev then UnionOf(Affinities(base.Devices(splitAt))) else base.cpus
  }

  /** It is exactly what is to be divided. */
  lemma PrimaryIsDivided(base: PoolValue, t: ObjType)
    ensures forall x :: x in PrimaryCpuset(base, t) <==> Divides(base, t, x)
  {
    var near := Affinities(base.Devices(t));
    forall x ensures x in PrimaryCpuset(base, t) <==> Divides(base, t, x) {
      UnionHas(near, x);
    }
  }

  /** The pieces of a split are a cut of its pool, into no more pieces than there are tasks. */
  lemma PiecesAreCut(pus: Level, base: PoolValue, t: ObjType, asked: nat, tasks: nat)
    ensures CutInto(
              pus, base, t, if asked <= tasks then asked else tasks,
              SplitPieces(pus, PrimaryCpuset(base, t), Min(asked, tasks)))
  {
    PrimaryIsDivided(base, t);
    EvenSplitCuts(pus, base, t, PrimaryCpuset(base, t), Min(asked, tasks));
  }

  function Affinities(devs: seq<Device>): (r: seq<Bitmap>)
    ensures |r| == |devs| && forall i :: 0 <= i < |r| ==> r[i] == devs[i].affinity
  {
    seq(|devs|, i requires 0 <= i < |devs| => devs[i].affinity)
  }

  /** The outcome of a split depends only on the requested colours and the pieces. */
  ghost function SplitOutcome(requested: seq<int>, pieces: seq<Bitmap>): Outcome<int>
    requires |requested| > 0
  {
    if AllNonNegative(requested) then
      Returned(if |pieces| < |ColorSet(requested)| then QV_ERR_SPLIT else QV_SUCCESS)
    else if AllAre(requested, QV_SCOPE_SPLIT_CLOSE) then
      if pieces == [] then Thrown(QV_ERR_NOT_SUPPORTED) else Returned(QV_SUCCESS)
    else if AllAre(requested, QV_SCOPE_SPLIT_PACKED) then
      Returned(QV_SUCCESS)
    else if AllAre(requested, QV_SCOPE_SPLIT_SPREAD) then
      if pieces == [] then Aborted else Returned(QV_SUCCESS)
    else if AllNegative(requested) then Returned(QV_ERR_INVLD_ARG)
    else Aborted
  }

  /** Every task is on one piece, the one its policy gives it. */
  ghost predicate FollowsPolicy(requested: seq<int>, tasks: seq<Bitmap>, pieces: seq<Bitmap>, colors: seq<int>)
    requires |tasks| == |requested| > 0 && pieces != []
  {
    var n, m := |requested|, |pieces|;
    && |colors| == n && AllInRange(colors, m)
    && (AllNonNegative(requested) ==> colors == Normalized(requested, m))
    && (AllAre(requested, QV_SCOPE_SPLIT_CLOSE) ==>
          IsCloseMapping(n, m, AffinitiesOf(tasks, pieces), AsMapping(colors)))
    && (AllAre(requested, QV_SCOPE_SPLIT_PACKED) ==> AsMapping(colors) == Packed(n, m))
    && (AllAre(requested, QV_SCOPE_SPLIT_SPREAD) ==> AsMapping(colors) == Spread(n, m))
  }

  /** All devices of one type in a list of pools. */
  ghost function SumDevices(pools: seq<PoolValue>, t: ObjType): multiset<Device> {
    if pools == [] then multiset{}
    else SumDevices(pools[..|pools| - 1], t) + multiset(pools[|pools| - 1].Devices(t))
  }

  lemma MultisetShift<T>(a: multiset<T>, b: multiset<T>, x: multiset<T>, y: multiset<T>, z: multiset<T>)
    requires a + x == b + y
    ensures (a + z) + x == (b + z) + y
  {
    assert (a + z) + x == (a + x) + z;
    assert (b + z) + y == (b + y) + z;
  }

  lemma {:induction false} SumWith(pools: seq<PoolValue>, k: nat, t: ObjType, p: PoolValue)
    requires k < |pools|
    ensures SumDevices(pools[k := p], t) + multiset(pools[k].Devices(t)) ==
            SumDevices(pools, t) + multiset(p.Devices(t))
  {
    hide PoolValue.Devices;
    var l := |pools| - 1;
    if k < l {
      SumWith(pools[..l], k, t, p);
      assert pools[k := p][..l] == pools[..l][k := p];
      assert pools[k := p][l] == pools[l] && pools[..l][k] == pools[k];
      MultisetShift(SumDevices(pools[..l][k := p], t), SumDevices(pools[..l], t),
                    multiset(pools[k].Devices(t)), multiset(p.Devices(t)), multiset(pools[l].Devices(t)));
    } else {
      assert pools[k := p][..l] == pools[..l];
    }
  }

  lemma {:induction false} SumHas(pools: seq<PoolValue>, t: ObjType, d: Device)
    ensures d in SumDevices(pools, t) <==> exists k :: 0 <= k < |pools| && d in pools[k].Devices(t)
  {
    hide PoolValue.Devices;
    if pools != [] {
      var l := |pools| - 1;
      SumHas(pools[..l], t, d);
      if d in SumDevices(pools[..l], t) {
        var k :| 0 <= k < l && d in pools[..l][k].Devices(t);
        assert d in pools[k].Devices(t);
      }
      if exists k :: 0 <= k < |pools| && d in pools[k].Devices(t) {
        var k :| 0 <= k < |pools| && d in pools[k].Devices(t);
        if k < l { assert d in pools[..l][k].Devices(t); }
      }
    }
  }

  ghost predicate NoDevices(pools: seq<PoolValue>, t: ObjType) {
    forall k :: 0 <= k < |pools| ==> pools[k].Devices(t) == []
  }

  lemma {:induction false} SumOfEmpty(pools: seq<PoolValue>, t: ObjType)
    requires NoDevices(pools, t)
    ensures SumDevices(pools, t) == multiset{}
  {
    if pools != [] {
      var l := |pools| - 1;
      assert forall k :: 0 <= k < l ==> pools[..l][k] == pools[k];
      SumOfEmpty(pools[..l], t);
    }
  }

  /** Source `s` has exactly one destination, below `m`. */
  ghost predicate HasTarget(mapping: Mapping, s: nat, m: nat) {
    s in mapping && exists d: nat :: d < m && mapping[s] == {d}
  }

  ghost predicate OnePerSource(mapping: Mapping, n: nat, m: nat) {
    mapping.Keys == Upto(n) && forall s: nat :: s < n ==> HasTarget(mapping, s, m)
  }

  ghost predicate PlacedAt(mapping: Mapping, i: nat, dev: Device, pools: seq<PoolValue>, t: ObjType, k: nat) {
    k < |pools| && i in mapping && mapping[i] == {k} && dev in pools[k].Devices(t)
  }

  /** Device i is in the pool its mapping names. */
  ghost predicate InItsPool(mapping: Mapping, i: nat, dev: Device, pools: seq<PoolValue>, t: ObjType) {
    exists k: nat :: PlacedAt(mapping, i, dev, pools, t, k)
  }

  ghost predicate DevicesFollow(mapping: Mapping, devs: seq<Device>, upto: nat, pools: seq<PoolValue>, t: ObjType)
    requires upto <= |devs|
  {
    forall i: nat :: i < upto ==> InItsPool(mapping, i, devs[i], pools, t)
  }

  /** The devices of the base pool are distributed: conserved as a whole, and placed by affinity. */
  ghost predicate Distributed(devs: seq<Device>, pools: seq<PoolValue>, t: ObjType) {
    && SumDevices(pools, t) == multiset(devs)
    && (devs != [] ==> exists mapping :: DistributedBy(mapping, devs, pools, t))
  }

  /** Each device is in the pool that the close mapping of devices to pools gives it. */
  ghost predicate DistributedBy(mapping: Mapping, devs: seq<Device>, pools: seq<PoolValue>, t: ObjType) {
    && IsCloseMapping(|devs|, |pools|, AffinitiesOf(Affinities(devs), Cpusets(pools)), mapping)
    && DevicesFollow(mapping, devs, |devs|, pools, t)
  }

  ghost function Cpusets(pools: seq<PoolValue>): (r: seq<Bitmap>)
    ensures |r| == |pools| && forall i :: 0 <= i < |r| ==> r[i] == pools[i].cpus
  {
    seq(|pools|, i requires 0 <= i < |pools| => pools[i].cpus)
  }

  // ----- the splitter

  class Splitter {
    const groupSize: nat
    const splitSize: nat
    const splitAtType: ObjType
    const pus: Level
    // What the pieces and the devices are taken from.
    const baseHwpool: HwPool
    // One entry per task.
    var taskAffinities: seq<Bitmap>
    var hwpools: seq<HwPool>
    var colors: seq<int>
    // The pieces, once they are cut.
    var splitCpusets: seq<Bitmap>

    constructor (groupSize: nat, splitSize: nat, splitAtType: ObjType, pus: Level, base: HwPool)
      ensures this.groupSize == groupSize && this.splitSize == splitSize && this.splitAtType == splitAtType
      ensures this.pus == pus && this.baseHwpool == base
    {
      this.groupSize, this.splitSize, this.splitAtType := groupSize, splitSize, splitAtType;
      this.pus, this.baseHwpool := pus, base;
      taskAffinities, hwpools, colors, splitCpusets := [], [], [], [];
    }

    /** The tasks' pools are separate objects, none of them the base pool, and each is well formed. */
    ghost predicate PoolsOk()
      reads this, hwpools, baseHwpool
    {
      && baseHwpool.Valid()
      && (forall i :: 0 <= i < |hwpools| ==> hwpools[i] != baseHwpool)
      && (forall i, j :: 0 <= i < j < |hwpools| ==> hwpools[i] != hwpools[j])
      && (forall i :: 0 <= i < |hwpools| ==> hwpools[i].Valid())
    }

    /** All per-task data are there, and the pools are new and empty. */
    ghost predicate Ready()
      reads this, hwpools, baseHwpool
    {
      && 0 < groupSize == |colors| == |hwpools| == |taskAffinities|
      && PoolsOk()
      && forall i :: 0 <= i < |hwpools| ==> hwpools[i].Value() == PoolValue({}, map[])
    }

    /** Makes room for the group members and replicates the caller's affinity to all of them. */
    method Reserve(kcolors: seq<int>, affinity: Bitmap)
      requires 0 < groupSize == |kcolors| && baseHwpool.Valid()
      modifies this`hwpools, this`colors, this`taskAffinities
      ensures Ready() && fresh(hwpools) && colors == kcolors
      ensures forall s :: 0 <= s < |taskAffinities| ==> taskAffinities[s] == affinity
    {
      MakeRoom();
      colors, taskAffinities := kcolors, seq(groupSize, _ => affinity);
    }

    /** Takes in what the root has gathered, and makes room for the members' pools. */
    method Receive(requested: seq<int>, affinities: seq<Bitmap>)
      requires 0 < groupSize == |requested| == |affinities| && baseHwpool.Valid()
      modifies this`hwpools, this`colors, this`taskAffinities
      ensures Ready() && fresh(hwpools) && colors == requested && taskAffinities == affinities
    {
      colors, taskAffinities := requested, affinities;
      MakeRoom();
    }

    method MakeRoom()
      requires baseHwpool.Valid()
      modifies this`hwpools
      ensures |hwpools| == groupSize && fresh(hwpools) && PoolsOk()
      ensures forall s :: 0 <= s < groupSize ==> hwpools[s].Value() == PoolValue({}, map[])
    {
      hwpools := [];
      for i := 0 to groupSize
        invariant |hwpools| == i && fresh(hwpools) && PoolsOk()
        invariant forall s :: 0 <= s < i ==> hwpools[s].Value() == PoolValue({}, map[])
      {
        var pool := new HwPool({});
        hwpools := hwpools + [pool];
      }
    }

    method PrimaryCpusetForSplit() returns (cpuset: Bitmap)
      ensures cpuset == PrimaryCpuset(baseHwpool.Value(), splitAtType)
      ensures splitAtType == Gpu || splitAtType == Nic ==>
                forall x :: x in cpuset <==> exists dev :: dev in baseHwpool.Devices(splitAtType) && x in dev.affinity
      ensures splitAtType != Gpu && splitAtType != Nic ==> cpuset == baseHwpool.cpu
    {
      PrimaryIsDivided(baseHwpool.Value(), splitAtType);
      match ObjResClass(splitAtType) {
        case Host => cpuset := baseHwpool.cpu;
        case NoClass => cpuset := baseHwpool.cpu;
        case Dev =>
          // Collects the affinities of all devices of the type.
          cpuset := {};
          var devs := baseHwpool.Devices(splitAtType);
          for i := 0 to |devs|
            invariant cpuset == UnionOf(Affinities(devs)[..i])
          {
            assert Affinities(devs)[..i + 1][..i] == Affinities(devs)[..i];
            cpuset := cpuset + devs[i].affinity;
          }
          assert Affinities(devs)[..|devs|] == Affinities(devs);
      }
    }

    method SplitCpuset() returns (rc: int)
      modifies this`splitCpusets
      ensures rc == QV_SUCCESS
      ensures splitCpusets ==
              SplitPieces(pus, PrimaryCpuset(baseHwpool.Value(), splitAtType), Min(splitSize, groupSize))
      ensures CutInto(
                pus, baseHwpool.Value(), splitAtType, if splitSize <= groupSize then splitSize else groupSize,
                splitCpusets)
    {
      PiecesAreCut(pus, baseHwpool.Value(), splitAtType, splitSize, groupSize);
      var cpuset := PrimaryCpusetForSplit();
      rc, splitCpusets := BitmapSplit(pus, cpuset, Min(splitSize, groupSize));
    }

    method DetermineMapping() returns (rc: int, config: MapConfig)
      requires 0 < groupSize == |colors| == |taskAffinities|
      modifies this`colors
      ensures Decides(old(colors), taskAffinities, splitCpusets, rc, config)
      ensures colors == if AllNonNegative(old(colors)) then Normalized(old(colors), |splitCpusets|) else old(colors)
      ensures (forall i :: 0 <= i < |old(colors)| ==> 0 <= old(colors)[i] < |splitCpusets|) ==>
                rc == QV_SUCCESS && colors == old(colors) && config == ByColors(old(colors))
      ensures (forall i :: 0 <= i < |old(colors)| ==> 0 <= old(colors)[i])
              && (exists i :: 0 <= i < |old(colors)| && |splitCpusets| <= old(colors)[i]) ==>
                forall i :: 0 <= i < |old(colors)| ==>
                  |colors| == |old(colors)| && colors[i] == |set c | c in old(colors) && c < old(colors)[i]|
    {
      UsableOrCounted(colors, |splitCpusets|);
      hide Normalized, ColorSet;
      var tcolors := Sort(Less, colors);
      SortedEnds(colors, tcolors);
      var front, back := tcolors[0], tcolors[|tcolors| - 1];
      config := ByColors([]);
      // The smallest colour is no policy, so none is.
      if front >= 0 {
        rc := NormalizeColors();
        if rc == QV_SUCCESS { config := ByColors(colors); }
        return;
      }
      // Both signs occur; the mapper will not take them.
      if back >= 0 {
        return QV_SUCCESS, ByColors(colors);
      }
      // Only policies are left; they have to agree.
      if front != back {
        return QV_ERR_INVLD_ARG, config;
      }
      // Every colour is the first one.
      assert AllAre(colors, colors[0]);
      if colors[0] == QV_SCOPE_SPLIT_CLOSE {
        return QV_SUCCESS, ByClose(taskAffinities, splitCpusets);
      } else if colors[0] == QV_SCOPE_SPLIT_PACKED {
        return QV_SUCCESS, ByPacked(groupSize, |splitCpusets|);
      } else if colors[0] == QV_SCOPE_SPLIT_SPREAD {
        return QV_SUCCESS, BySpread(groupSize, |splitCpusets|);
      }
      rc := QV_ERR_INVLD_ARG;
    }

    /** Clamps the colours unless all are usable; an error if there are more distinct ones than pieces. */
    method NormalizeColors() returns (rc: int)
      modifies this`colors
      ensures colors == Normalized(old(colors), |splitCpusets|)
      ensures rc == if |splitCpusets| < |ColorSet(old(colors))| then QV_ERR_SPLIT else QV_SUCCESS
    {
      var m := |splitCpusets|;
      NormalizedCount(colors, m);
      var allInRange := true;
      for i := 0 to |colors|
        invariant allInRange <==> forall j :: 0 <= j < i ==> 0 <= colors[j] < m
      {
        allInRange := allInRange && 0 <= colors[i] < m;
      }
      if !allInRange {
        var a := new int[|colors|](i requires 0 <= i < |colors| reads this => colors[i]);
        assert a[..] == colors;
        rc := MapClampColors(a);
        colors := a[..];
      }
      // Distinct colours need distinct pieces.
      rc := if |ColorSet(colors)| > m then QV_ERR_SPLIT else QV_SUCCESS;
    }

    /** Puts one task on one piece. */
    method PutOnPiece(taski: nat, piecei: nat)
      requires PoolsOk() && taski < |hwpools| && taski < |colors| && piecei < |splitCpusets|
      modifies this`colors, hwpools[taski]
      ensures PoolsOk()
      ensures colors == old(colors)[taski := piecei]
      ensures Values(hwpools) == old(Values(hwpools))[taski := PoolValue(splitCpusets[piecei], map[])]
    {
      hwpools[taski].Assign(splitCpusets[piecei]);
      colors := colors[taski := piecei];
    }

    /** Gives task `taski` the cpusets its mapping names, one after the other; the last one stays. */
    method AssignTask(taski: nat, cpusetis: set<nat>, ghost d: nat)
      requires PoolsOk() && taski < |hwpools| && taski < |colors|
      requires cpusetis == {d} && d < |splitCpusets|
      modifies this`colors, hwpools[taski]
      ensures PoolsOk()
      ensures colors == old(colors)[taski := d]
      ensures Values(hwpools) == old(Values(hwpools))[taski := PoolValue(splitCpusets[d], map[])]
    {
      hide PoolsOk, Values;
      var list := Ascending(cpusetis);
      AscendingSingle(d);
      for j := 0 to |list|
        invariant PoolsOk()
        invariant j == 0 ==> colors == old(colors) && Values(hwpools) == old(Values(hwpools))
        invariant j == 1 ==> colors == old(colors)[taski := d]
        invariant j == 1 ==> Values(hwpools) == old(Values(hwpools))[taski := PoolValue(splitCpusets[d], map[])]
      {
        PutOnPiece(taski, list[j]);
      }
    }

    /** Gives every mapped task its cpuset and its colour. */
    method AssignCpusets(hresMap: Mapping)
      requires PoolsOk() && |hwpools| == |colors| == groupSize
      requires hresMap == map[] || OnePerSource(hresMap, groupSize, |splitCpusets|)
      modifies this`colors, hwpools
      ensures PoolsOk()
      ensures |colors| == if hresMap == map[] then 0 else groupSize
      ensures forall i: nat :: i < |colors| ==> TaskAssigned(hresMap, splitCpusets, colors, Values(hwpools), i)
      ensures hresMap == map[] ==> Values(hwpools) == old(Values(hwpools))
    {
      colors := colors[..if hresMap == map[] then 0 else groupSize];
      for taski := 0 to groupSize
        invariant PoolsOk() && |colors| == if hresMap == map[] then 0 else groupSize
        invariant forall i: nat :: i < taski && i < |colors| ==>
                    TaskAssigned(hresMap, splitCpusets, colors, Values(hwpools), i)
        invariant hresMap == map[] ==> Values(hwpools) == old(Values(hwpools))
      {
        if taski in hresMap {
          assert HasTarget(hresMap, taski, |splitCpusets|);
          ghost var d: nat :| d < |splitCpusets| && hresMap[taski] == {d};
          ghost var colors', pools' := colors, Values(hwpools);
          AssignTask(taski, hresMap[taski], d);
          AssignmentKeeps(hresMap, splitCpusets, colors', pools', taski, d, colors, Values(hwpools));
        }
      }
    }

    method AddDeviceAt(k: nat, dev: Device) returns (ghost p: PoolValue)
      requires PoolsOk() && k < |hwpools|
      modifies hwpools[k]
      ensures PoolsOk()
      ensures Adds(old(Values(hwpools))[k], dev, p) && Values(hwpools) == old(Values(hwpools))[k := p]
    {
      var rc := hwpools[k].AddDevice(dev);
      p := hwpools[k].Value();
    }

    /** Adds a device to every pool its mapping names, of which there is one. */
    method AddDeviceTo(poolis: set<nat>, dev: Device, ghost d: nat) returns (ghost p: PoolValue)
      requires PoolsOk() && d < |hwpools| && poolis == {d}
      modifies hwpools[d]
      ensures PoolsOk()
      ensures Adds(old(Values(hwpools))[d], dev, p) && Values(hwpools) == old(Values(hwpools))[d := p]
    {
      var list := Ascending(poolis);
      AscendingSingle(d);
      ghost var before := Values(hwpools);
      p := before[d];
      for j := 0 to |list|
        invariant PoolsOk()
        invariant j == 0 ==> Values(hwpools) == before
        invariant j == 1 ==> Adds(before[d], dev, p) && Values(hwpools) == before[d := p]
      {
        p := AddDeviceAt(list[j], dev);
      }
    }

    lemma BaseListOk(devt: ObjType)
      requires PoolsOk()
      ensures DeviceListOk(devt, baseHwpool.Devices(devt))
    {
      assert baseHwpool.Value().Valid();
    }

    /** Maps the devices of one type, of which there are some, to the pools and adds each to its pool. */
    method DistributeSome(devt: ObjType, hwpoolAffinities: seq<Bitmap>)
      requires PoolsOk() && 0 < |hwpools| && |baseHwpool.Devices(devt)| + |hwpools| <= StableMatching.FREE
      requires hwpoolAffinities == Cpusets(Values(hwpools)) && SumDevices(Values(hwpools), devt) == multiset{}
      modifies hwpools
      ensures PoolsOk() && unchanged(baseHwpool)
      ensures Distributed(old(baseHwpool.Devices(devt)), Values(hwpools), devt)
      ensures SameBesides(old(Values(hwpools)), Values(hwpools), devt)
    {
      hide PoolsOk, DeviceListOk, PlacedUpto, Distributed, SameBesides, SumDevices, OnePerSource, IsCloseMapping;
      var devs := baseHwpool.Devices(devt);
      ghost var start := Values(hwpools);
      var devs2hres := MapDevices(Affinities(devs), hwpoolAffinities);
      BaseListOk(devt);
      AddMappedDevices(devs2hres, devs, devt);
      PlacedIsDistributed(devs2hres, devs, start, Values(hwpools), devt);
    }

    /** Distributes the devices of one type, if there are any. */
    method DistributeDevices(devt: ObjType, hwpoolAffinities: seq<Bitmap>)
      requires PoolsOk() && 0 < |hwpools| && |baseHwpool.Devices(devt)| + |hwpools| <= StableMatching.FREE
      requires hwpoolAffinities == Cpusets(Values(hwpools))
      requires NoDevices(Values(hwpools), devt)
      modifies hwpools
      ensures PoolsOk() && unchanged(baseHwpool)
      ensures Distributed(old(baseHwpool.Devices(devt)), Values(hwpools), devt)
      ensures SameBesides(old(Values(hwpools)), Values(hwpools), devt)
    {
      SumOfEmpty(Values(hwpools), devt);
      if baseHwpool.Devices(devt) != [] {
        DistributeSome(devt, hwpoolAffinities);
      }
    }

    /** Device `i` goes to its pool. */
    method PlaceDevice(mapping: Mapping, devs: seq<Device>, i: nat, devt: ObjType, ghost start: seq<PoolValue>)
      requires PoolsOk() && i < |devs| && DeviceListOk(devt, devs)
      requires HasTarget(mapping, i, |hwpools|)
      requires PlacedUpto(mapping, devs, i, start, Values(hwpools), devt)
      modifies hwpools
      ensures PoolsOk() && unchanged(baseHwpool)
      ensures PlacedUpto(mapping, devs, i + 1, start, Values(hwpools), devt)
    {
      ghost var d: nat :| d < |hwpools| && mapping[i] == {d};
      ghost var before := Values(hwpools);
      ghost var p := AddDeviceTo(mapping[i], devs[i], d);
      PlaceNext(mapping, devs, i, before, d, p, devt);
      SameBesidesStep(start, before, d, devs[i], p, devt);
    }

    /** The cpusets of the tasks' pools. */
    method PoolAffinities() returns (r: seq<Bitmap>)
      ensures r == Cpusets(Values(hwpools))
    {
      r := [];
      for i := 0 to |hwpools|
        invariant r == Cpusets(Values(hwpools))[..i]
      {
        r := r + [hwpools[i].cpu];
      }
    }

    /** Distributes the devices of every supported type. */
    method AssignDevices()
      requires PoolsOk() && 0 < |hwpools|
      requires forall t :: |baseHwpool.Devices(t)| + |hwpools| <= StableMatching.FREE
      requires forall t :: NoDevices(Values(hwpools), t)
      modifies hwpools
      ensures PoolsOk() && unchanged(baseHwpool)
      ensures AllDistributed(old(baseHwpool.Value()), Values(hwpools))
      ensures Cpusets(Values(hwpools)) == old(Cpusets(Values(hwpools)))
    {
      ghost var start := Values(hwpools);
      var hwpoolAffinities := PoolAffinities();
      // Pools hold no devices yet, and the types do not interfere.
      DistributeDevices(Gpu, hwpoolAffinities);
      ghost var mid := Values(hwpools);
      OtherTypesStay(start, mid, Gpu);
      DistributeDevices(Nic, hwpoolAffinities);
      OtherTypesStay(mid, Values(hwpools), Nic);
      BothDistributed(baseHwpool.Value(), start, mid, Values(hwpools));
    }

    /** Maps the tasks onto the pieces. */
    method MapTasks() returns (r: Outcome<int>)
      requires Ready() && 2 * groupSize <= StableMatching.FREE && |splitCpusets| <= groupSize
      modifies this`colors, hwpools
      ensures PoolsOk() && unchanged(baseHwpool)
      ensures r == SplitOutcome(old(colors), splitCpusets)
      ensures r == Returned(QV_SUCCESS) ==>
                TasksPlaced(old(colors), taskAffinities, splitCpusets, colors, Values(hwpools))
    {
      ghost var requested, start := colors, Values(hwpools);
      hide Normalized, ColorSet, Decides, MapsBy, SplitOutcome, FollowsPolicy, TaskAssigned;
      var rc, config := DetermineMapping();
      DecidedOutcome(requested, taskAffinities, splitCpusets, rc, config);
      if rc != QV_SUCCESS { return Returned(rc); }
      var mapped := ApplyMap(config);
      MappedOutcome(requested, taskAffinities, splitCpusets, config, mapped);
      if mapped.Thrown? { return Thrown(mapped.rc); }
      if mapped.Aborted? { return Aborted; }
      DecidedMapping(requested, taskAffinities, splitCpusets, config, mapped.value);
      AssignCpusets(mapped.value);
      TasksArePlaced(requested, taskAffinities, splitCpusets, config, mapped.value, start, colors, Values(hwpools));
      r := Returned(QV_SUCCESS);
    }

    /** Splits the host resource, maps the tasks onto the pieces and distributes the devices. */
    method MSplit() returns (r: Outcome<int>)
      requires Ready() && SizesFit()
      modifies this`colors, this`splitCpusets, hwpools
      ensures PoolsOk() && unchanged(baseHwpool) && splitCpusets == Pieces()
      ensures CutInto(
                pus, baseHwpool.Value(), splitAtType, if splitSize <= groupSize then splitSize else groupSize,
                splitCpusets)
      ensures r == SplitOutcome(old(colors), Pieces())
      ensures r == Returned(QV_SUCCESS) ==>
                IsSplit(old(colors), taskAffinities, baseHwpool.Value(), Pieces(), colors, Values(hwpools))
    {
      hide CutInto;
      var rc := SplitCpuset();
      PieceCount();
      r := MapTasks();
      if r == Returned(QV_SUCCESS) {
        ghost var placed := Values(hwpools);
        AssignDevices();
        SplitIsDone(old(colors), taskAffinities, baseHwpool.Value(), splitCpusets, colors, placed, Values(hwpools));
      }
    }

    ghost function Pieces(): seq<Bitmap>
      reads this, baseHwpool
    {
      SplitPieces(pus, PrimaryCpuset(baseHwpool.Value(), splitAtType), Min(splitSize, groupSize))
    }

    /** All counts fit in the size type, so that rounding up does not wrap. */
    ghost predicate SizesFit()
      reads this, baseHwpool
    {
      && 2 * groupSize <= StableMatching.FREE
      && forall t :: |baseHwpool.Devices(t)| + groupSize <= StableMatching.FREE
    }

    lemma PieceCount()
      ensures |Pieces()| <= groupSize
    {
    }

    /** Adds each device to the pool its mapping names. */
    method AddMappedDevices(mapping: Mapping, devs: seq<Device>, devt: ObjType)
      requires PoolsOk() && DeviceListOk(devt, devs)
      requires OnePerSource(mapping, |devs|, |hwpools|)
      requires SumDevices(Values(hwpools), devt) == multiset{}
      modifies hwpools
      ensures PoolsOk() && unchanged(baseHwpool)
      ensures PlacedUpto(mapping, devs, |devs|, old(Values(hwpools)), Values(hwpools), devt)
    {
      ghost var start := Values(hwpools);
      for devi := 0 to |devs|
        invariant PoolsOk() && unchanged(baseHwpool)
        invariant PlacedUpto(mapping, devs, devi, start, Values(hwpools), devt)
      {
        assert HasTarget(mapping, devi, |hwpools|);
        PlaceDevice(mapping, devs, devi, devt, start);
      }
    }
  }

  /** Every supported device of the base pool is in exactly the pool its mapping gives it, and no other is there. */
  ghost predicate AllDistributed(base: PoolValue, pools: seq<PoolValue>) {
    && Distributed(base.Devices(Gpu), pools, Gpu)
    && Distributed(base.Devices(Nic), pools, Nic)
    && forall t :: t !in SUPPORTED_DEVICES ==> NoDevices(pools, t)
  }

  lemma OtherTypesStay(a: seq<PoolValue>, b: seq<PoolValue>, t: ObjType)
    requires SameBesides(a, b, t)
    ensures Cpusets(a) == Cpusets(b)
    ensures forall u :: u != t && NoDevices(a, u) ==> NoDevices(b, u)
  {
  }

  /** Distributing the second type leaves the first as it was. */
  lemma BothDistributed(base: PoolValue, start: seq<PoolValue>, mid: seq<PoolValue>, pools: seq<PoolValue>)
    requires forall t :: NoDevices(start, t)
    requires SameBesides(start, mid, Gpu) && SameBesides(mid, pools, Nic)
    requires Distributed(base.Devices(Gpu), mid, Gpu) && Distributed(base.Devices(Nic), pools, Nic)
    ensures AllDistributed(base, pools)
  {
    hide Distributed, SameBesides, NoDevices, PoolValue.Devices;
    OtherTypesStay(start, mid, Gpu);
    OtherTypesStay(mid, pools, Nic);
    StaysDistributed(base.Devices(Gpu), mid, pools, Gpu, Nic);
  }

  lemma StaysDistributed(devs: seq<Device>, mid: seq<PoolValue>, pools: seq<PoolValue>, t: ObjType, u: ObjType)
    requires t != u && SameBesides(mid, pools, u) && Distributed(devs, mid, t)
    ensures Distributed(devs, pools, t)
  {
    SameSum(mid, pools, t);
    OtherTypesStay(mid, pools, u);
    if devs != [] {
      var mapping :| DistributedBy(mapping, devs, mid, t);
      StillFollow(mapping, devs, mid, pools, t);
      assert DistributedBy(mapping, devs, pools, t);
    }
  }

  lemma StillFollow(mapping: Mapping, devs: seq<Device>, mid: seq<PoolValue>, pools: seq<PoolValue>, t: ObjType)
    requires DevicesFollow(mapping, devs, |devs|, mid, t)
    requires |mid| == |pools| && forall k :: 0 <= k < |mid| ==> mid[k].Devices(t) == pools[k].Devices(t)
    ensures DevicesFollow(mapping, devs, |devs|, pools, t)
  {
    forall i: nat | i < |devs| ensures InItsPool(mapping, i, devs[i], pools, t) {
      assert InItsPool(mapping, i, devs[i], mid, t);
      var k: nat :| PlacedAt(mapping, i, devs[i], mid, t, k);
      assert PlacedAt(mapping, i, devs[i], pools, t, k);
    }
  }

  lemma {:induction false} SameSum(a: seq<PoolValue>, b: seq<PoolValue>, t: ObjType)
    requires |a| == |b| && forall k :: 0 <= k < |a| ==> a[k].Devices(t) == b[k].Devices(t)
    ensures SumDevices(a, t) == SumDevices(b, t)
  {
    if a != [] {
      SameSum(a[..|a| - 1], b[..|b| - 1], t);
    }
  }

  // ----- every successful outcome has a result

  ghost predicate AllValid(pools: seq<PoolValue>) {
    forall k :: 0 <= k < |pools| ==> pools[k].Valid()
  }

  lemma NothingPlaced(mapping: Mapping, devs: seq<Device>, start: seq<PoolValue>, t: ObjType)
    requires NoDevices(start, t)
    ensures PlacedUpto(mapping, devs, 0, start, start, t)
  {
    SumOfEmpty(start, t);
  }

  lemma {:induction false} PlacedUptoExists(
      mapping: Mapping, devs: seq<Device>, upto: nat, start: seq<PoolValue>, t: ObjType) returns (pools: seq<PoolValue>)
    requires upto <= |devs| && DeviceListOk(t, devs) && AllValid(start) && NoDevices(start, t)
    requires OnePerSource(mapping, |devs|, |start|)
    ensures PlacedUpto(mapping, devs, upto, start, pools, t) && AllValid(pools)
  {
    hide SumDevices, DevicesFollow, InItsPool, PoolValue.Valid, PoolValue.Devices, SameBus, NoDevices;
    if upto == 0 {
      pools := start;
      NothingPlaced(mapping, devs, start, t);
    } else {
      var i := upto - 1;
      var before := PlacedUptoExists(mapping, devs, i, start, t);
      assert HasTarget(mapping, i, |start|);
      var d: nat :| d < |start| && mapping[i] == {d};
      var p := AddsExists(before[d], devs[i]);
      PlaceNext(mapping, devs, i, before, d, p, t);
      SameBesidesStep(start, before, d, devs[i], p, t);
      pools := before[d := p];
    }
  }

  lemma DistributedExists(devs: seq<Device>, start: seq<PoolValue>, t: ObjType) returns (pools: seq<PoolValue>)
    requires DeviceListOk(t, devs) && AllValid(start) && NoDevices(start, t)
    requires 0 < |start| && |devs| + |start| <= StableMatching.FREE
    ensures Distributed(devs, pools, t) && SameBesides(start, pools, t) && AllValid(pools)
  {
    if devs == [] {
      pools := start;
      SumOfEmpty(start, t);
    } else {
      var aff := AffinitiesOf(Affinities(devs), Cpusets(start));
      var mapping := CloseMappingExists(|devs|, |start|, aff);
      CloseIsOnePerSource(|devs|, |start|, aff, mapping);
      pools := PlacedUptoExists(mapping, devs, |devs|, start, t);
      PlacedIsDistributed(mapping, devs, start, pools, t);
    }
  }

  lemma BothExist(base: PoolValue, start: seq<PoolValue>) returns (mid: seq<PoolValue>, pools: seq<PoolValue>)
    requires DeviceListOk(Gpu, base.Devices(Gpu)) && DeviceListOk(Nic, base.Devices(Nic))
    requires AllValid(start) && 0 < |start| && NoDevices(start, Gpu) && NoDevices(start, Nic)
    requires |base.Devices(Gpu)| + |start| <= StableMatching.FREE && |base.Devices(Nic)| + |start| <= StableMatching.FREE
    ensures SameBesides(start, mid, Gpu) && SameBesides(mid, pools, Nic)
    ensures Distributed(base.Devices(Gpu), mid, Gpu) && Distributed(base.Devices(Nic), pools, Nic)
    ensures Cpusets(pools) == Cpusets(start)
  {
    mid := DistributedExists(base.Devices(Gpu), start, Gpu);
    OtherTypesStay(start, mid, Gpu);
    pools := DistributedExists(base.Devices(Nic), mid, Nic);
    OtherTypesStay(mid, pools, Nic);
  }

  lemma AllDistributedExists(base: PoolValue, start: seq<PoolValue>) returns (pools: seq<PoolValue>)
    requires base.Valid() && AllValid(start) && 0 < |start| && forall t :: NoDevices(start, t)
    requires forall t :: |base.Devices(t)| + |start| <= StableMatching.FREE
    ensures AllDistributed(base, pools) && Cpusets(pools) == Cpusets(start)
  {
    var mid;
    mid, pools := BothExist(base, start);
    BothDistributed(base, start, mid, pools);
  }

  lemma TasksPlacedExists(requested: seq<int>, tasks: seq<Bitmap>, pieces: seq<Bitmap>)
      returns (colors: seq<int>, pools: seq<PoolValue>)
    requires 0 < |tasks| == |requested| <= StableMatching.FREE
    requires SplitOutcome(requested, pieces) == Returned(QV_SUCCESS)
    ensures TasksPlaced(requested, tasks, pieces, colors, pools) && AllValid(pools)
  {
    if pieces == [] {
      colors, pools := [], seq(|requested|, _ => PoolValue({}, map[]));
    } else {
      colors := PolicyColors(requested, tasks, pieces);
      assert |colors| == |requested| && AllInRange(colors, |pieces|);
      hide FollowsPolicy, SplitOutcome;
      pools := seq(|requested|, i requires 0 <= i < |requested| => PoolValue(pieces[colors[i]], map[]));
    }
  }

  /** A split that is to succeed has a result. */
  lemma SplitExists(requested: seq<int>, tasks: seq<Bitmap>, base: PoolValue, pieces: seq<Bitmap>)
      returns (colors: seq<int>, pools: seq<PoolValue>)
    requires |tasks| == |requested| > 0 && base.Valid() && SplitOutcome(requested, pieces) == Returned(QV_SUCCESS)
    requires forall t :: |base.Devices(t)| + |requested| <= StableMatching.FREE
    ensures IsSplit(requested, tasks, base, pieces, colors, pools)
  {
    assert |base.Devices(Gpu)| + |requested| <= StableMatching.FREE;
    var start;
    colors, start := TasksPlacedExists(requested, tasks, pieces);
    pools := AllDistributedExists(base, start);
    SplitIsDone(requested, tasks, base, pieces, colors, start, pools);
  }

  ghost function Target(mapping: Mapping, s: nat): nat {
    if exists d: nat :: s in mapping && mapping[s] == {d} then
      var d: nat :| s in mapping && mapping[s] == {d}; d
    else 0
  }

  lemma TargetsAreMapping(mapping: Mapping, n: nat, m: nat, colors: seq<int>)
    requires OnePerSource(mapping, n, m)
    requires |colors| == n && forall s: nat :: s < n ==> colors[s] == Target(mapping, s)
    ensures AllInRange(colors, m) && AsMapping(colors) == mapping
  {
    forall s: nat | s < n ensures 0 <= colors[s] < m && mapping[s] == {colors[s]} {
      assert HasTarget(mapping, s, m);
      var d: nat :| d < m && mapping[s] == {d};
      assert d in {colors[s]};
    }
  }

  lemma PackedIsOnePerSource(n: nat, m: nat)
    requires m > 0
    ensures OnePerSource(Packed(n, m), n, m)
  {
    forall s: nat | s < n ensures HasTarget(Packed(n, m), s, m) {
      assert Packed(n, m)[s] == {ChunkOf(n, m, s)};
    }
  }

  lemma SpreadIsOnePerSource(n: nat, m: nat)
    requires m > 0
    ensures OnePerSource(Spread(n, m), n, m)
  {
    forall s: nat | s < n ensures HasTarget(Spread(n, m), s, m) {
      assert Spread(n, m)[s] == {s % m};
    }
  }

  lemma CloseTargets(tasks: seq<Bitmap>, pieces: seq<Bitmap>) returns (mapping: Mapping)
    requires |tasks| <= StableMatching.FREE && 0 < |pieces|
    ensures IsCloseMapping(|tasks|, |pieces|, AffinitiesOf(tasks, pieces), mapping)
    ensures OnePerSource(mapping, |tasks|, |pieces|)
  {
    mapping := CloseMappingExists(|tasks|, |pieces|, AffinitiesOf(tasks, pieces));
    CloseIsOnePerSource(|tasks|, |pieces|, AffinitiesOf(tasks, pieces), mapping);
  }

  /** Colours that follow the policy exist whenever a split succeeds on some pieces. */
  lemma PolicyColors(requested: seq<int>, tasks: seq<Bitmap>, pieces: seq<Bitmap>) returns (colors: seq<int>)
    requires |tasks| == |requested| > 0 && 0 < |pieces| && |requested| <= StableMatching.FREE
    requires SplitOutcome(requested, pieces) == Returned(QV_SUCCESS)
    ensures FollowsPolicy(requested, tasks, pieces, colors)
  {
    hide IsCloseMapping, AffinitiesOf, Packed, Spread, Clamped, HasTarget, ColorSet;
    var n, m := |requested|, |pieces|;
    if AllNonNegative(requested) {
      assert requested[0] >= 0;
      NormalizedInRange(requested, m);
      colors := Normalized(requested, m);
    } else {
      var mapping: Mapping;
      assert requested[0] < 0;
      if AllAre(requested, QV_SCOPE_SPLIT_CLOSE) {
        mapping := CloseTargets(tasks, pieces);
      } else if AllAre(requested, QV_SCOPE_SPLIT_PACKED) {
        mapping := Packed(n, m);
        PackedIsOnePerSource(n, m);
      } else {
        mapping := Spread(n, m);
        SpreadIsOnePerSource(n, m);
      }
      colors := seq(n, s requires 0 <= s < n => Target(mapping, s));
      TargetsAreMapping(mapping, n, m, colors);
    }
  }

  /** What a successful split has produced. */
  ghost predicate IsSplit(
      requested: seq<int>, tasks: seq<Bitmap>, base: PoolValue, pieces: seq<Bitmap>,
      colors: seq<int>, pools: seq<PoolValue>)
    requires |tasks| == |requested| > 0
  {
    && |pools| == |requested|
    && (pieces == [] ==> colors == [] && forall i :: 0 <= i < |pools| ==> pools[i].cpus == {})
    && (pieces != [] ==>
          && FollowsPolicy(requested, tasks, pieces, colors)
          && forall i :: 0 <= i < |pools| ==> pools[i].cpus == pieces[colors[i]])
    && AllDistributed(base, pools)
  }

  /** What the mapper of a configuration yields. */
  ghost predicate MapsBy(config: MapConfig, r: Outcome<Mapping>) {
    match config
    case ByColors(cs) => r == if AllNonNegative(cs) then Returned(AsMapping(cs)) else Aborted
    case ByClose(src, dst) =>
      if |src| > 0 && |dst| == 0 then r == Thrown(QV_ERR_NOT_SUPPORTED)
      else r.Returned? && IsCloseMapping(|src|, |dst|, AffinitiesOf(src, dst), r.value)
    case ByPacked(n, m) => r == PackedOutcome(n, m)
    case BySpread(n, m) => r == SpreadOutcome(n, m)
  }

  /** Tasks and pieces are related as the policy says, and the pools hold no devices yet. */
  ghost predicate TasksPlaced(
      requested: seq<int>, tasks: seq<Bitmap>, pieces: seq<Bitmap>, colors: seq<int>, pools: seq<PoolValue>)
    requires |tasks| == |requested| > 0
  {
    && |pools| == |requested|
    && (pieces == [] ==> colors == [] && forall i :: 0 <= i < |pools| ==> pools[i].cpus == {})
    && (pieces != [] ==>
          && FollowsPolicy(requested, tasks, pieces, colors)
          && forall i :: 0 <= i < |pools| ==> pools[i].cpus == pieces[colors[i]])
    && forall t :: NoDevices(pools, t)
  }

  /** What is decided is the outcome, unless it is left to the mapper. */
  lemma DecidedOutcome(requested: seq<int>, tasks: seq<Bitmap>, pieces: seq<Bitmap>, rc: int, config: MapConfig)
    requires |tasks| == |requested| > 0 && Decides(requested, tasks, pieces, rc, config)
    ensures rc != QV_SUCCESS ==> SplitOutcome(requested, pieces) == Returned(rc)
    ensures rc == QV_SUCCESS && config.ByClose? ==> config.src == tasks && config.dst == pieces
  {
  }

  /** The mapper decides the rest. */
  lemma MappedOutcome(
      requested: seq<int>, tasks: seq<Bitmap>, pieces: seq<Bitmap>, config: MapConfig, mapped: Outcome<Mapping>)
    requires |tasks| == |requested| > 0
    requires Decides(requested, tasks, pieces, QV_SUCCESS, config) && MapsBy(config, mapped)
    ensures match mapped
            case Returned(_) => SplitOutcome(requested, pieces) == Returned(QV_SUCCESS)
            case Thrown(rc) => SplitOutcome(requested, pieces) == Thrown(rc)
            case Aborted => SplitOutcome(requested, pieces) == Aborted
  {
    hide IsCloseMapping, AffinitiesOf, Packed, Spread, Converse;
    NormalizedInRange(requested, |pieces|);
  }

  /** A decided mapping is total, one piece to a task, unless there are no pieces. */
  lemma DecidedMapping(
      requested: seq<int>, tasks: seq<Bitmap>, pieces: seq<Bitmap>, config: MapConfig, mapping: Mapping)
    requires |tasks| == |requested| > 0 && |pieces| <= |requested|
    requires Decides(requested, tasks, pieces, QV_SUCCESS, config) && MapsBy(config, Returned(mapping))
    ensures pieces == [] ==> mapping == map[]
    ensures pieces != [] ==> OnePerSource(mapping, |requested|, |pieces|)
  {
    var n, m := |requested|, |pieces|;
    match config {
      case ByColors(cs) =>
        NormalizedInRange(requested, m);
        assert requested[0] in ColorSet(requested);
        forall s: nat | s < n ensures HasTarget(mapping, s, m) {
          assert mapping[s] == {cs[s]};
        }
      case ByClose(src, dst) =>
        CloseIsOnePerSource(n, m, AffinitiesOf(src, dst), mapping);
      case ByPacked(_, _) =>
        if m > 0 { PackedIsOnePerSource(n, m); }
      case BySpread(_, _) =>
        SpreadIsOnePerSource(n, m);
    }
  }

  /** Following the mapping is following the policy. */
  lemma TasksArePlaced(
      requested: seq<int>, tasks: seq<Bitmap>, pieces: seq<Bitmap>, config: MapConfig, mapping: Mapping,
      start: seq<PoolValue>, colors: seq<int>, pools: seq<PoolValue>)
    requires |tasks| == |requested| == |start| == |pools| > 0
    requires Decides(requested, tasks, pieces, QV_SUCCESS, config) && MapsBy(config, Returned(mapping))
    requires |pieces| <= |requested|
    requires pieces == [] ==> mapping == map[] && pools == start
    requires pieces != [] ==> OnePerSource(mapping, |requested|, |pieces|)
    requires forall k :: 0 <= k < |start| ==> start[k] == PoolValue({}, map[])
    requires |colors| == if mapping == map[] then 0 else |requested|
    requires forall i: nat :: i < |colors| ==> TaskAssigned(mapping, pieces, colors, pools, i)
    ensures TasksPlaced(requested, tasks, pieces, colors, pools)
  {
    if pieces != [] {
      assert HasTarget(mapping, 0, |pieces|);
      AssignedColors(mapping, pieces, colors, pools);
      PolicyIsFollowed(requested, tasks, pieces, config, colors);
    }
  }

  lemma PolicyIsFollowed(
      requested: seq<int>, tasks: seq<Bitmap>, pieces: seq<Bitmap>, config: MapConfig, colors: seq<int>)
    requires |tasks| == |requested| == |colors| > 0 && 0 < |pieces| <= |requested|
    requires AllInRange(colors, |pieces|)
    requires Decides(requested, tasks, pieces, QV_SUCCESS, config) && MapsBy(config, Returned(AsMapping(colors)))
    ensures FollowsPolicy(requested, tasks, pieces, colors)
  {
    if AllNonNegative(requested) {
      SameAsMapping(colors, Normalized(requested, |pieces|));
      assert requested[0] >= 0;
    }
  }

  lemma AssignedColors(mapping: Mapping, pieces: seq<Bitmap>, colors: seq<int>, pools: seq<PoolValue>)
    requires mapping.Keys == Upto(|colors|) && |pools| == |colors|
    requires forall i: nat :: i < |colors| ==> TaskAssigned(mapping, pieces, colors, pools, i)
    ensures AllInRange(colors, |pieces|) && AsMapping(colors) == mapping
    ensures forall i :: 0 <= i < |pools| ==> pools[i].cpus == pieces[colors[i]] && pools[i].devMap == map[]
  {
    forall i | 0 <= i < |colors|
      ensures 0 <= colors[i] < |pieces| && mapping[i] == {colors[i]} && pools[i] == PoolValue(pieces[colors[i]], map[])
    {
      assert TaskAssigned(mapping, pieces, colors, pools, i);
    }
  }

  lemma SameAsMapping(a: seq<int>, b: seq<int>)
    requires AllNonNegative(a) && AllNonNegative(b) && |a| == |b| && AsMapping(a) == AsMapping(b)
    ensures a == b
  {
    forall i | 0 <= i < |a| ensures a[i] == b[i] {
      assert AsMapping(a)[i] == {a[i]} && AsMapping(b)[i] == {b[i]};
      assert a[i] in {b[i]};
    }
  }

  lemma SplitIsDone(
      requested: seq<int>, tasks: seq<Bitmap>, base: PoolValue, pieces: seq<Bitmap>,
      colors: seq<int>, placed: seq<PoolValue>, pools: seq<PoolValue>)
    requires |tasks| == |requested| > 0
    requires TasksPlaced(requested, tasks, pieces, colors, placed)
    requires Cpusets(pools) == Cpusets(placed) && AllDistributed(base, pools)
    ensures IsSplit(requested, tasks, base, pieces, colors, pools)
  {
    assert forall i :: 0 <= i < |pools| ==> Cpusets(pools)[i] == Cpusets(placed)[i];
  }

  /** The first `upto` devices have been placed, and nothing else has changed. */
  ghost predicate PlacedUpto(
      mapping: Mapping, devs: seq<Device>, upto: nat, start: seq<PoolValue>, pools: seq<PoolValue>, t: ObjType)
    requires upto <= |devs|
  {
    && SumDevices(pools, t) == multiset(devs[..upto])
    && DevicesFollow(mapping, devs, upto, pools, t)
    && SameBesides(start, pools, t)
  }

  /** Task i is on one piece and its pool is that piece. */
  ghost predicate TaskAssigned(
      hresMap: Mapping, pieces: seq<Bitmap>, colors: seq<int>, pools: seq<PoolValue>, i: nat)
  {
    && i in hresMap && i < |colors| && i < |pools|
    && 0 <= colors[i] < |pieces|
    && hresMap[i] == {colors[i]}
    && pools[i] == PoolValue(pieces[colors[i]], map[])
  }

  lemma AssignmentKeeps(
      hresMap: Mapping, pieces: seq<Bitmap>, colors: seq<int>, pools: seq<PoolValue>, i: nat, d: nat,
      colors': seq<int>, pools': seq<PoolValue>)
    requires i < |colors| && i < |pools| && d < |pieces| && i in hresMap && hresMap[i] == {d}
    requires forall j: nat :: j < i ==> TaskAssigned(hresMap, pieces, colors, pools, j)
    requires colors' == colors[i := d] && pools' == pools[i := PoolValue(pieces[d], map[])]
    ensures forall j: nat :: j <= i ==> TaskAssigned(hresMap, pieces, colors', pools', j)
  {
    forall j: nat | j <= i ensures TaskAssigned(hresMap, pieces, colors', pools', j) {
      if j < i {
        assert TaskAssigned(hresMap, pieces, colors, pools, j);
      } else {
        assert colors'[i] == d;
      }
    }
  }

  /** The pools differ at most in the devices of type `t`. */
  ghost predicate SameBesides(a: seq<PoolValue>, b: seq<PoolValue>, t: ObjType) {
    && |a| == |b|
    && (forall k :: 0 <= k < |a| ==> a[k].cpus == b[k].cpus)
    && (forall k, u :: 0 <= k < |a| && u != t ==> a[k].Devices(u) == b[k].Devices(u))
  }

  /** A device of the base pool that has not been placed is on no bus of the pools. */
  lemma NotThereYet(devs: seq<Device>, i: nat, pools: seq<PoolValue>, d: nat, t: ObjType)
    requires i < |devs| && DeviceListOk(t, devs) && d < |pools|
    requires SumDevices(pools, t) == multiset(devs[..i])
    ensures devs[i].busId !in BusIds(pools[d].Devices(t))
  {
    var here := pools[d].Devices(t);
    forall k | 0 <= k < |here| ensures here[k].busId != devs[i].busId {
      SumHas(pools, t, here[k]);
      assert here[k] in multiset(devs[..i]);
      var j :| 0 <= j < i && devs[..i][j] == here[k];
      assert !SameBus(devs[j], devs[i]);
    }
  }

  lemma StillInItsPool(
      mapping: Mapping, j: nat, dev: Device, pools: seq<PoolValue>, d: nat, p: PoolValue, t: ObjType)
    requires d < |pools| && InItsPool(mapping, j, dev, pools, t)
    requires multiset(pools[d].Devices(t)) <= multiset(p.Devices(t))
    ensures InItsPool(mapping, j, dev, pools[d := p], t)
  {
    var k: nat :| PlacedAt(mapping, j, dev, pools, t, k);
    if k == d {
      assert dev in multiset(pools[d].Devices(t));
      assert dev in multiset(p.Devices(t));
    }
    assert PlacedAt(mapping, j, dev, pools[d := p], t, k);
  }

  /** One more device in its pool: it was not there, so the total grows by exactly this device. */
  lemma TotalGrows(devs: seq<Device>, i: nat, pools: seq<PoolValue>, d: nat, p: PoolValue, t: ObjType)
    requires i < |devs| && DeviceListOk(t, devs) && d < |pools| && Adds(pools[d], devs[i], p)
    requires SumDevices(pools, t) == multiset(devs[..i])
    ensures SumDevices(pools[d := p], t) == multiset(devs[..i + 1])
    ensures multiset(p.Devices(t)) == multiset(pools[d].Devices(t)) + multiset{devs[i]}
  {
    assert devs[i].objType == t;
    hide SumDevices, PoolValue.Devices, DeviceListOk;
    NotThereYet(devs, i, pools, d, t);
    AddedDevices(pools[d], devs[i], p, t);
    hide Adds;
    SumWith(pools, d, t, p);
    MultisetCancel(SumDevices(pools[d := p], t), SumDevices(pools, t),
                   multiset(pools[d].Devices(t)), multiset{devs[i]});
    assert devs[..i + 1] == devs[..i] + [devs[i]];
  }

  lemma AddedDevices(before: PoolValue, dev: Device, after: PoolValue, t: ObjType)
    requires Adds(before, dev, after) && dev.objType == t && dev.busId !in BusIds(before.Devices(t))
    ensures multiset(after.Devices(t)) == multiset(before.Devices(t)) + multiset{dev}
  {
  }

  lemma PlaceNext(
      mapping: Mapping, devs: seq<Device>, i: nat, pools: seq<PoolValue>, d: nat, p: PoolValue, t: ObjType)
    requires i < |devs| && DeviceListOk(t, devs) && d < |pools| && Adds(pools[d], devs[i], p)
    requires i in mapping && mapping[i] == {d}
    requires SumDevices(pools, t) == multiset(devs[..i]) && DevicesFollow(mapping, devs, i, pools, t)
    ensures SumDevices(pools[d := p], t) == multiset(devs[..i + 1])
    ensures DevicesFollow(mapping, devs, i + 1, pools[d := p], t)
  {
    TotalGrows(devs, i, pools, d, p, t);
    forall j: nat | j < i ensures InItsPool(mapping, j, devs[j], pools[d := p], t) {
      StillInItsPool(mapping, j, devs[j], pools, d, p, t);
    }
    assert devs[i] in multiset(p.Devices(t));
    assert PlacedAt(mapping, i, devs[i], pools[d := p], t, d);
  }

  lemma SameBesidesStep(
      start: seq<PoolValue>, pools: seq<PoolValue>, d: nat, dev: Device, p: PoolValue, t: ObjType)
    requires SameBesides(start, pools, t) && d < |pools| && Adds(pools[d], dev, p) && dev.objType == t
    ensures SameBesides(start, pools[d := p], t)
  {
  }

  lemma CloseIsOnePerSource(n: nat, m: nat, aff: AffinityMap, mapping: Mapping)
    requires IsCloseMapping(n, m, aff, mapping)
    ensures OnePerSource(mapping, n, m)
  {
    CloseMappingIsTotal(n, m, aff, mapping);
    forall s: nat | s < n ensures HasTarget(mapping, s, m) {
      assert s in mapping;
    }
  }

  lemma MultisetCancel<T>(a: multiset<T>, b: multiset<T>, x: multiset<T>, y: multiset<T>)
    requires a + x == b + (x + y)
    ensures a == b + y
  {
    forall e ensures a[e] == (b + y)[e] {
      assert (a + x)[e] == (b + (x + y))[e];
    }
  }

  lemma AllPlaced(
      mapping: Mapping, devs: seq<Device>, start: seq<PoolValue>, pools: seq<PoolValue>, t: ObjType)
    requires SumDevices(pools, t) == multiset(devs) && DevicesFollow(mapping, devs, |devs|, pools, t)
    requires SameBesides(start, pools, t)
    requires IsCloseMapping(|devs|, |start|, AffinitiesOf(Affinities(devs), Cpusets(start)), mapping)
    ensures Distributed(devs, pools, t)
  {
    OtherTypesStay(start, pools, t);
    assert DistributedBy(mapping, devs, pools, t);
  }

  lemma PlacedIsDistributed(
      mapping: Mapping, devs: seq<Device>, start: seq<PoolValue>, pools: seq<PoolValue>, t: ObjType)
    requires PlacedUpto(mapping, devs, |devs|, start, pools, t)
    requires IsCloseMapping(|devs|, |start|, AffinitiesOf(Affinities(devs), Cpusets(start)), mapping)
    ensures Distributed(devs, pools, t) && SameBesides(start, pools, t)
  {
    assert devs[..|devs|] == devs;
    AllPlaced(mapping, devs, start, pools, t);
  }

  /** Maps devices to pools, trying to maintain good affinity; when pools are more, no two devices share one. */
  method MapDevices(devAffinities: seq<Bitmap>, hwpoolAffinities: seq<Bitmap>) returns (devs2hres: Mapping)
    requires 0 < |hwpoolAffinities| && |devAffinities| + |hwpoolAffinities| <= StableMatching.FREE
    ensures OnePerSource(devs2hres, |devAffinities|, |hwpoolAffinities|)
    ensures IsCloseMapping(
              |devAffinities|, |hwpoolAffinities|, AffinitiesOf(devAffinities, hwpoolAffinities), devs2hres)
  {
    ghost var n, m := |devAffinities|, |hwpoolAffinities|;
    ghost var aff := AffinitiesOf(devAffinities, hwpoolAffinities);
    var r := MapClose(devAffinities, hwpoolAffinities);
    devs2hres := r.value;
    CloseIsOnePerSource(n, m, aff, devs2hres);
    if |hwpoolAffinities| > |devAffinities| {
      var uniq := MapUniq(devs2hres);
      CloseMappingIsInjective(n, m, aff, devs2hres);
      UniqIsIdentityIff(devs2hres, uniq);
      devs2hres := uniq;
    }
  }

  /** Runs the chosen mapper. */
  method ApplyMap(config: MapConfig) returns (r: Outcome<Mapping>)
    requires config.ByClose? ==> |config.src| + |config.dst| <= StableMatching.FREE
    ensures MapsBy(config, r)
  {
    match config {
      case ByColors(cs) =>
        r := MapColors(cs);
      case ByClose(src, dst) =>
        r := MapClose(src, dst);
      case ByPacked(n, m) =>
        var rc, mapping := MapPacked(n, m);
        r := Returned(mapping);
      case BySpread(n, m) =>
        r := MapSpread(n, m);
    }
  }
}
