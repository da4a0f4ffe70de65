/**
 Hardware pools: a cpuset and, per device type, a list of devices in ordinal order.
 */
module HwPool {
  import opened Hwloc
  import opened Mappers
  import opened Sorting
  import opened Status

  datatype ObjType =
    | Machine | Package | Core | PU | L1Cache | L2Cache | L3Cache | L4Cache | L5Cache | NumaNode
    | Gpu | Nic
    | Last

  datatype ResClass = Host | Dev | NoClass

  function ObjResClass(t: ObjType): ResClass {
    match t
    case Gpu | Nic => Dev
    case Last => NoClass
    case _ => Host
  }

  const SUPPORTED_DEVICES: seq<ObjType> := [Gpu, Nic]

  datatype Device = Device(affinity: Bitmap, objType: ObjType, id: int, busId: string, uuid: string)

  type DevMap = map<ObjType, seq<Device>>

  /** What a pool holds; this is what travels between processes. */
  datatype PoolValue = PoolValue(cpus: Bitmap, devMap: DevMap) {
    function Devices(t: ObjType): seq<Device> {
      if t in devMap then devMap[t] else []
    }

    ghost predicate Valid() {
      forall t :: DeviceListOk(t, Devices(t))
    }
  }

  ghost predicate SameBus(a: Device, b: Device) {
    a.busId == b.busId
  }

  /** Devices of one type, in increasing order of ID, no two on the same PCI bus. */
  ghost predicate DeviceListOk(t: ObjType, devs: seq<Device>) {
    && (forall i :: 0 <= i < |devs| ==> devs[i].objType == t)
    && (forall i, j :: 0 <= i < j < |devs| ==> devs[i].id <= devs[j].id)
    && (forall i, j :: 0 <= i < j < |devs| ==> !SameBus(devs[i], devs[j]))
  }

  ghost function BusIds(devs: seq<Device>): set<string> {
    set i | 0 <= i < |devs| :: devs[i].busId
  }

  /** What one insertion does: nothing if the bus ID is there, otherwise one more device of its type. */
  ghost predicate Adds(before: PoolValue, dev: Device, after: PoolValue) {
    && after.cpus == before.cpus
    && (forall t :: t != dev.objType ==> after.Devices(t) == before.Devices(t))
    && (if dev.busId in BusIds(before.Devices(dev.objType)) then after == before
        else multiset(after.Devices(dev.objType)) == multiset(before.Devices(dev.objType)) + multiset{dev})
  }

  lemma AddsBusId(before: PoolValue, dev: Device, after: PoolValue)
    requires Adds(before, dev, after)
    ensures forall t :: BusIds(after.Devices(t)) ==
                        BusIds(before.Devices(t)) + if t == dev.objType then {dev.busId} else {}
  {
    var a, b := after.Devices(dev.objType), before.Devices(dev.objType);
    if dev.busId !in BusIds(b) {
      forall x ensures x in BusIds(a) <==> x in BusIds(b) + {dev.busId} {
        if x in BusIds(a) {
          var i :| 0 <= i < |a| && a[i].busId == x;
          assert a[i] in multiset(b) + multiset{dev};
        }
        if x in BusIds(b) {
          var i :| 0 <= i < |b| && b[i].busId == x;
          assert b[i] in multiset(a);
        }
        assert dev in multiset(a);
      }
    }
  }

  function ById(): (Device, Device) -> bool {
    (a: Device, b: Device) => a.id < b.id
  }

  /** Sorting a list of distinct devices of one type gives a proper device list. */
  lemma SortedListOk(t: ObjType, devs: seq<Device>, sorted: seq<Device>)
    requires forall i :: 0 <= i < |devs| ==> devs[i].objType == t
    requires forall i, j :: 0 <= i < j < |devs| ==> !SameBus(devs[i], devs[j])
    requires Sorted(ById(), sorted) && multiset(sorted) == multiset(devs)
    ensures DeviceListOk(t, sorted)
  {
    assert NoDuplicates(devs);
    forall i | 0 <= i < |sorted| ensures sorted[i] in devs {
      assert sorted[i] in multiset(devs);
    }
    forall i, j | 0 <= i < j < |sorted|
      ensures sorted[i].id <= sorted[j].id && !SameBus(sorted[i], sorted[j])
    {
      MultiplicityOne(devs, sorted[i]);
      Occurrences(sorted, i, j);
      var k :| 0 <= k < |devs| && devs[k] == sorted[i];
      var l :| 0 <= l < |devs| && devs[l] == sorted[j];
    }
  }

  class HwPool {
    var cpu: Bitmap
    var devMap: DevMap

    function Value(): PoolValue
      reads this
    {
      PoolValue(cpu, devMap)
    }

    ghost predicate Valid()
      reads this
    {
      Value().Valid()
    }

    constructor (cpuset: Bitmap)
      ensures Valid() && Value() == PoolValue(cpuset, map[])
    {
      cpu, devMap := cpuset, map[];
    }

    /** A pool that holds what travelled from another process. */
    constructor Unpacked(value: PoolValue)
      ensures Value() == value
    {
      cpu, devMap := value.cpus, value.devMap;
    }

    /** Overwrites the pool by one with only the given cpuset. */
    method Assign(cpuset: Bitmap)
      modifies this
      ensures Valid() && Value() == PoolValue(cpuset, map[])
    {
      cpu, devMap := cpuset, map[];
    }

    function Devices(t: ObjType): (r: seq<Device>)
      reads this
      ensures r == Value().Devices(t)
    {
      if t in devMap then devMap[t] else []
    }

    method DeviceInPool(dev: Device) returns (r: bool)
      ensures r <==> dev.busId in BusIds(Devices(dev.objType))
    {
      var devs := Devices(dev.objType);
      for i := 0 to |devs|
        invariant forall j :: 0 <= j < i ==> devs[j].busId != dev.busId
      {
        if devs[i].busId == dev.busId { return true; }
      }
      r := false;
    }

    /** Adds a device unless one with its bus ID is there, and keeps the list in order of ID. */
    method AddDevice(dev: Device) returns (rc: int)
      requires Valid()
      modifies this`devMap
      ensures rc == QV_SUCCESS && Valid()
      ensures Adds(old(Value()), dev, Value())
    {
      rc := QV_SUCCESS;
      var found := DeviceInPool(dev);
      if !found {
        var devs := Devices(dev.objType);
        assert DeviceListOk(dev.objType, Value().Devices(dev.objType));
        ghost var before := Value();
        var sorted := Sort(ById(), devs + [dev]);
        SortedListOk(dev.objType, devs + [dev], sorted);
        devMap := devMap[dev.objType := sorted];
        forall t ensures DeviceListOk(t, Value().Devices(t)) {
          assert DeviceListOk(t, before.Devices(t));
        }
      }
    }

    /** Adds every device of a list. */
    method AddDevices(devs: seq<Device>)
      requires Valid()
      modifies this`devMap
      ensures Valid() && cpu == old(cpu)
      ensures AddsAll(old(Value()), devs, Value())
    {
      ghost var start := Value();
      for i := 0 to |devs|
        invariant Valid() && cpu == old(cpu)
        invariant AddsAll(start, devs[..i], Value())
      {
        ghost var before := Value();
        var rc := AddDevice(devs[i]);
        AddsNextDevice(start, devs, i, before, Value());
      }
      assert devs[..|devs|] == devs;
    }

    /** Adds the devices of the machine whose affinity lies inside the cpuset. */
    method Populate(machine: PoolValue, cpuset: Bitmap) returns (rc: int)
      requires Valid()
      modifies this
      ensures rc == QV_SUCCESS && Valid() && cpu == cpuset
      ensures exists mid ::
                && AddsAll(PoolValue(cpuset, old(devMap)), Included(machine.Devices(Gpu), cpuset), mid)
                && AddsAll(mid, Included(machine.Devices(Nic), cpuset), Value())
    {
      ghost var start := Value();
      rc, cpu := QV_SUCCESS, cpuset;
      forall t ensures DeviceListOk(t, Value().Devices(t)) {
        assert DeviceListOk(t, start.Devices(t));
      }
      AddDevices(Included(machine.Devices(Gpu), cpuset));
      ghost var mid := Value();
      AddDevices(Included(machine.Devices(Nic), cpuset));
      assert AddsAll(mid, Included(machine.Devices(Nic), cpuset), Value());
    }
  }

  /** The bus IDs of the listed devices of type `t`. */
  ghost function TypedBusIds(devs: seq<Device>, t: ObjType): set<string> {
    set i | 0 <= i < |devs| && devs[i].objType == t :: devs[i].busId
  }

  /** Exactly the bus IDs of the list are new, and no device comes from elsewhere. */
  ghost predicate AddsAll(before: PoolValue, devs: seq<Device>, after: PoolValue) {
    && (forall t :: BusIds(after.Devices(t)) == BusIds(before.Devices(t)) + TypedBusIds(devs, t))
    && (forall t, d :: d in after.Devices(t) ==> d in before.Devices(t) || d in devs)
  }

  lemma AddsNextDevice(start: PoolValue, devs: seq<Device>, i: nat, before: PoolValue, after: PoolValue)
    requires i < |devs| && AddsAll(start, devs[..i], before) && Adds(before, devs[i], after)
    ensures AddsAll(start, devs[..i + 1], after)
  {
    AddsBusId(before, devs[i], after);
    assert devs[..i + 1] == devs[..i] + [devs[i]];
    forall t ensures BusIds(after.Devices(t)) == BusIds(start.Devices(t)) + TypedBusIds(devs[..i + 1], t) {
      TypedStep(devs, i, t);
    }
    forall t, d | d in after.Devices(t) ensures d in start.Devices(t) || d in devs[..i + 1] {
      if after.Devices(t) != before.Devices(t) {
        assert d in multiset(after.Devices(t));
        assert d in multiset(before.Devices(t)) || d == devs[i];
      }
    }
  }

  lemma TypedStep(devs: seq<Device>, i: nat, t: ObjType)
    requires i < |devs|
    ensures TypedBusIds(devs[..i + 1], t) ==
            TypedBusIds(devs[..i], t) + if devs[i].objType == t then {devs[i].busId} else {}
  {
    var a, b := devs[..i + 1], devs[..i];
    assert forall k :: 0 <= k < i ==> a[k] == b[k];
    assert a[i] == devs[i];
  }

  // ----- union of pools

  ghost function CpuUnion(pools: seq<PoolValue>): Bitmap {
    set i, x | 0 <= i < |pools| && x in pools[i].cpus :: x
  }

  ghost function BusIdUnion(pools: seq<PoolValue>, t: ObjType): set<string> {
    set i, x | 0 <= i < |pools| && x in BusIds(pools[i].Devices(t)) :: x
  }

  /** The devices are exactly, up to bus IDs, the supported devices of the pools. */
  ghost predicate HoldsDevicesOf(pools: seq<PoolValue>, value: PoolValue) {
    && (forall t :: BusIds(value.Devices(t)) == if t in SUPPORTED_DEVICES then BusIdUnion(pools, t) else {})
    && (forall t, d :: d in value.Devices(t) ==> ComesFrom(pools, t, d))
  }

  ghost predicate ComesFrom(pools: seq<PoolValue>, t: ObjType, d: Device) {
    exists i :: 0 <= i < |pools| && d in pools[i].Devices(t)
  }

  /** `union` holds exactly what some pool holds. */
  ghost predicate IsUnion(pools: seq<PoolValue>, union: PoolValue) {
    union.Valid() && union.cpus == CpuUnion(pools) && HoldsDevicesOf(pools, union)
  }

  /** A bit, or the bus ID of a GPU or NIC, is in the union exactly if some pool has it; there is nothing else. */
  lemma UnionHasWhatSomeHas(pools: seq<PoolValue>, union: PoolValue, t: ObjType, busId: string, x: nat)
    requires IsUnion(pools, union)
    ensures x in union.cpus <==> exists p :: p in pools && x in p.cpus
    ensures (exists d :: d in union.Devices(t) && d.busId == busId) <==>
            (t == Gpu || t == Nic) && exists p, d :: p in pools && d in p.Devices(t) && d.busId == busId
  {
    HasBus(union.Devices(t), busId);
    assert BusIds(union.Devices(t)) == if t in SUPPORTED_DEVICES then BusIdUnion(pools, t) else {};
    SomeHasBus(pools, t, busId);
    assert forall i :: 0 <= i < |pools| ==> pools[i] in pools;
    hide PoolValue.Devices, PoolValue.Valid, HoldsDevicesOf, BusIds, BusIdUnion;
  }

  lemma SomeHasBus(pools: seq<PoolValue>, t: ObjType, busId: string)
    ensures busId in BusIdUnion(pools, t) <==> exists p, d :: p in pools && d in p.Devices(t) && d.busId == busId
  {
    hide PoolValue.Devices, BusIds;
    forall i | 0 <= i < |pools|
      ensures pools[i] in pools
      ensures busId in BusIds(pools[i].Devices(t)) <==> exists d :: d in pools[i].Devices(t) && d.busId == busId
    {
      HasBus(pools[i].Devices(t), busId);
    }
  }

  lemma HasBus(devs: seq<Device>, busId: string)
    ensures busId in BusIds(devs) <==> exists d :: d in devs && d.busId == busId
  {
    assert forall i :: 0 <= i < |devs| ==> devs[i] in devs;
  }

  /** The order of the pools does not matter. */
  lemma UnionIgnoresOrder(a: seq<PoolValue>, b: seq<PoolValue>, union: PoolValue)
    requires forall p :: p in a <==> p in b
    requires IsUnion(a, union)
    ensures IsUnion(b, union)
  {
    HalfSameUnion(a, b);
    HalfSameUnion(b, a);
    forall t, d | d in union.Devices(t) ensures ComesFrom(b, t, d) {
      assert ComesFrom(a, t, d);
      var i :| 0 <= i < |a| && d in a[i].Devices(t);
      assert a[i] in b;
    }
  }

  lemma HalfSameUnion(a: seq<PoolValue>, b: seq<PoolValue>)
    requires forall p :: p in a ==> p in b
    ensures CpuUnion(a) <= CpuUnion(b)
    ensures forall t :: BusIdUnion(a, t) <= BusIdUnion(b, t)
  {
    forall i | 0 <= i < |a| ensures exists j :: 0 <= j < |b| && b[j] == a[i] {
      assert a[i] in b;
    }
  }

  /** The union of a union and its parts is the same union. */
  lemma UnionIsIdempotent(pools: seq<PoolValue>, union: PoolValue, again: PoolValue)
    requires IsUnion(pools, union) && IsUnion([union] + pools, again)
    ensures again.cpus == union.cpus
    ensures forall t :: BusIds(again.Devices(t)) == BusIds(union.Devices(t))
  {
    var more := [union] + pools;
    assert forall i :: 0 <= i < |pools| ==> more[i + 1] == pools[i];
    assert more[0] == union;
    forall t ensures t in SUPPORTED_DEVICES ==> BusIdUnion(more, t) == BusIdUnion(pools, t) {
      if t in SUPPORTED_DEVICES {
        forall x ensures x in BusIdUnion(more, t) <==> x in BusIdUnion(pools, t) {
        }
      }
    }
  }

  lemma HoldsNextPool(pools: seq<PoolValue>, i: nat, before: PoolValue, mid: PoolValue, after: PoolValue)
    requires i < |pools| && pools[i].Valid() && HoldsDevicesOf(pools[..i], before)
    requires AddsAll(before, pools[i].Devices(Gpu), mid) && AddsAll(mid, pools[i].Devices(Nic), after)
    requires after.Valid()
    ensures HoldsDevicesOf(pools[..i + 1], after)
  {
    var p := pools[i];
    assert DeviceListOk(Gpu, p.Devices(Gpu)) && DeviceListOk(Nic, p.Devices(Nic));
    forall t ensures BusIds(after.Devices(t)) == if t in SUPPORTED_DEVICES then BusIdUnion(pools[..i + 1], t) else {} {
      BusIdUnionStep(pools, i, t);
      TypedIsAll(p.Devices(Gpu), Gpu, t);
      TypedIsAll(p.Devices(Nic), Nic, t);
    }
    forall t, d | d in after.Devices(t) ensures ComesFrom(pools[..i + 1], t, d) {
      ComesFromStep(pools, i, t, d, before, mid, after);
    }
  }

  lemma TypedIsAll(devs: seq<Device>, t: ObjType, u: ObjType)
    requires DeviceListOk(t, devs)
    ensures TypedBusIds(devs, u) == if u == t then BusIds(devs) else {}
  {
  }

  lemma BusIdUnionStep(pools: seq<PoolValue>, i: nat, t: ObjType)
    requires i < |pools|
    ensures BusIdUnion(pools[..i + 1], t) == BusIdUnion(pools[..i], t) + BusIds(pools[i].Devices(t))
  {
    var a, b := pools[..i + 1], pools[..i];
    assert forall k :: 0 <= k < i ==> a[k] == b[k];
    assert a[i] == pools[i];
  }

  lemma ComesFromStep(
      pools: seq<PoolValue>, i: nat, t: ObjType, d: Device, before: PoolValue, mid: PoolValue, after: PoolValue)
    requires i < |pools| && pools[i].Valid() && HoldsDevicesOf(pools[..i], before)
    requires AddsAll(before, pools[i].Devices(Gpu), mid) && AddsAll(mid, pools[i].Devices(Nic), after)
    requires d in after.Devices(t) && after.Valid()
    ensures ComesFrom(pools[..i + 1], t, d)
  {
    var p := pools[i];
    var more := pools[..i + 1];
    assert more[i] == p && forall k :: 0 <= k < i ==> more[k] == pools[..i][k];
    if d in before.Devices(t) {
      assert ComesFrom(pools[..i], t, d);
      var k :| 0 <= k < i && d in pools[..i][k].Devices(t);
      assert d in more[k].Devices(t);
    } else {
      assert DeviceListOk(t, after.Devices(t)) && DeviceListOk(Gpu, p.Devices(Gpu)) && DeviceListOk(Nic, p.Devices(Nic));
      assert d in p.Devices(Gpu) || d in p.Devices(Nic);
      assert d.objType == t;
      assert d in more[i].Devices(t);
    }
  }

  function Values(pools: seq<HwPool>): (r: seq<PoolValue>)
    reads pools
    ensures |r| == |pools|
  {
    seq(|pools|, i requires 0 <= i < |pools| reads pools => pools[i].Value())
  }

  lemma NothingUnited(pools: seq<PoolValue>)
    ensures CpuUnion(pools[..0]) == {}
    ensures forall cpus :: HoldsDevicesOf(pools[..0], PoolValue(cpus, map[]))
  {
  }

  /** The union over the pools' cpusets and, per supported type, over their devices. */
  method SetUnion(hwpools: seq<HwPool>) returns (result: HwPool)
    requires forall p :: p in hwpools ==> p.Valid()
    ensures fresh(result) && result.Valid()
    ensures IsUnion(Values(hwpools), result.Value())
  {
    hide HoldsDevicesOf, AddsAll, PoolValue.Valid, CpuUnion;
    ghost var pools := Values(hwpools);
    var cpuUnion: Bitmap := {};
    NothingUnited(pools);
    for i := 0 to |hwpools|
      invariant cpuUnion == CpuUnion(pools[..i])
    {
      CpuUnionStep(pools, i);
      cpuUnion := cpuUnion + hwpools[i].cpu;
    }
    result := new HwPool(cpuUnion);
    assert pools[..|pools|] == pools;
    for i := 0 to |hwpools|
      invariant fresh(result) && Values(hwpools) == pools
      invariant result.Valid() && result.cpu == cpuUnion && HoldsDevicesOf(pools[..i], result.Value())
    {
      assert hwpools[i] in hwpools && pools[i] == hwpools[i].Value();
      ghost var before := result.Value();
      result.AddDevices(hwpools[i].Devices(Gpu));
      ghost var mid := result.Value();
      result.AddDevices(hwpools[i].Devices(Nic));
      HoldsNextPool(pools, i, before, mid, result.Value());
    }
  }

  // ----- existence and size of unions

  lemma SortedInsert(t: ObjType, devs: seq<Device>, dev: Device) returns (sorted: seq<Device>)
    requires DeviceListOk(t, devs) && dev.objType == t && dev.busId !in BusIds(devs)
    ensures DeviceListOk(t, sorted) && multiset(sorted) == multiset(devs) + multiset{dev}
  {
    sorted := Insert(ById(), dev, devs);
    assert multiset(devs + [dev]) == multiset(sorted);
    SortedListOk(t, devs + [dev], sorted);
  }

  /** A device can be added to every well-formed pool. */
  lemma AddsExists(before: PoolValue, dev: Device) returns (after: PoolValue)
    requires before.Valid()
    ensures after.Valid() && Adds(before, dev, after)
  {
    var t := dev.objType;
    var devs := before.Devices(t);
    assert DeviceListOk(t, devs);
    if dev.busId in BusIds(devs) {
      after := before;
    } else {
      var sorted := SortedInsert(t, devs, dev);
      after := PoolValue(before.cpus, before.devMap[t := sorted]);
      forall u ensures DeviceListOk(u, after.Devices(u)) {
        assert DeviceListOk(u, before.Devices(u));
      }
    }
  }

  lemma {:induction false} AddsAllExists(before: PoolValue, devs: seq<Device>) returns (after: PoolValue)
    requires before.Valid()
    ensures after.Valid() && after.cpus == before.cpus && AddsAll(before, devs, after)
  {
    if devs == [] {
      after := before;
    } else {
      var l := |devs| - 1;
      var mid := AddsAllExists(before, devs[..l]);
      after := AddsExists(mid, devs[l]);
      AddsNextDevice(before, devs, l, mid, after);
      assert devs[..l + 1] == devs;
    }
  }

  /** Well-formed pools have a union. */
  lemma UnionExists(pools: seq<PoolValue>) returns (union: PoolValue)
    requires forall p :: p in pools ==> p.Valid()
    ensures IsUnion(pools, union)
  {
    union := DevicesUnite(pools, |pools|, CpuUnion(pools));
    assert pools[..|pools|] == pools;
  }

  lemma {:induction false} DevicesUnite(pools: seq<PoolValue>, upto: nat, cpus: Bitmap) returns (value: PoolValue)
    requires upto <= |pools| && forall p :: p in pools ==> p.Valid()
    ensures value.Valid() && value.cpus == cpus && HoldsDevicesOf(pools[..upto], value)
  {
    if upto == 0 {
      value := PoolValue(cpus, map[]);
    } else {
      hide HoldsDevicesOf, AddsAll, PoolValue.Valid;
      assert pools[upto - 1] in pools;
      var before := DevicesUnite(pools, upto - 1, cpus);
      var mid := AddsAllExists(before, pools[upto - 1].Devices(Gpu));
      value := AddsAllExists(mid, pools[upto - 1].Devices(Nic));
      HoldsNextPool(pools, upto - 1, before, mid, value);
    }
  }

  ghost function CountDevices(pools: seq<PoolValue>, t: ObjType): nat {
    if pools == [] then 0 else CountDevices(pools[..|pools| - 1], t) + |pools[|pools| - 1].Devices(t)|
  }

  lemma {:induction false} BusIdsCard(devs: seq<Device>)
    ensures |BusIds(devs)| <= |devs|
    ensures (forall i, j :: 0 <= i < j < |devs| ==> !SameBus(devs[i], devs[j])) ==> |BusIds(devs)| == |devs|
  {
    if devs == [] {
      assert BusIds(devs) == {};
    } else {
      var l := |devs| - 1;
      BusIdsCard(devs[..l]);
      BusIdsStep(devs);
    }
  }

  lemma BusIdsStep(devs: seq<Device>)
    requires devs != []
    ensures var l := |devs| - 1;
            && BusIds(devs) == BusIds(devs[..l]) + {devs[l].busId}
            && ((forall i :: 0 <= i < l ==> !SameBus(devs[i], devs[l])) ==> devs[l].busId !in BusIds(devs[..l]))
  {
  }

  lemma {:induction false} BusIdUnionCard(pools: seq<PoolValue>, t: ObjType)
    ensures |BusIdUnion(pools, t)| <= CountDevices(pools, t)
  {
    if pools == [] {
      assert BusIdUnion(pools, t) == {};
    } else {
      var l := |pools| - 1;
      BusIdUnionCard(pools[..l], t);
      BusIdUnionStep(pools, l, t);
      assert pools[..l + 1] == pools;
      BusIdsCard(pools[l].Devices(t));
    }
  }

  /** A union has no more devices than its parts together. */
  lemma UnionIsNoLarger(pools: seq<PoolValue>, union: PoolValue, t: ObjType)
    requires IsUnion(pools, union)
    ensures |union.Devices(t)| <= CountDevices(pools, t)
  {
    assert DeviceListOk(t, union.Devices(t));
    BusIdsCard(union.Devices(t));
    BusIdUnionCard(pools, t);
  }

  lemma CpuUnionStep(pools: seq<PoolValue>, i: nat)
    requires i < |pools|
    ensures CpuUnion(pools[..i + 1]) == CpuUnion(pools[..i]) + pools[i].cpus
  {
    var a, b := pools[..i + 1], pools[..i];
    assert forall k :: 0 <= k < i ==> a[k] == b[k];
    assert a[i] == pools[i];
  }

  // ----- populating a pool

  /** The listed devices whose affinity lies inside the cpuset. */
  function Included(devs: seq<Device>, cpuset: Bitmap): (r: seq<Device>)
    ensures forall d :: d in r <==> d in devs && d.affinity <= cpuset
  {
    if devs == [] then []
    else
      var l := |devs| - 1;
      assert devs == devs[..l] + [devs[l]];
      Included(devs[..l], cpuset) + if devs[l].affinity <= cpuset then [devs[l]] else []
  }
}
