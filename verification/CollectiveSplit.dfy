/**
 The collective split as a transition system. Every rank runs the same program:
 four gathers, the root's computation, a barrier, a broadcast of the return code
 and, if that is success, two scatters. A collective is entered by posting a
 message and left when its data can have arrived: a gather holds back only the
 root, a scatter only the others, a barrier everybody. Collectives match by
 position in each rank's sequence of calls, as they do on a communicator. The
 root crashes if its computation does not return a code. If it has fewer colours
 to scatter than there are ranks it reads past their end, and what happens then
 is left open: it crashes, or goes on with whatever it has read.
 */
module CollectiveSplit {
  import opened Colors
  import opened Cutting
  import opened Hwloc
  import opened HwPool
  import opened HwSplit
  import opened Mappers
  import opened SplitGuarantees
  import opened Status
  import StableMatching

  const ROOT: nat := 0

  /** What the ranks bring: thread IDs, affinities, colours and pools, one each; and the split parameters. */
  datatype Config = Config(
    tids: seq<int>, affinities: seq<Bitmap>, colors: seq<int>, hwpools: seq<PoolValue>,
    pus: Level, npieces: nat, objType: ObjType)
  {
    /** One contribution a rank, well-formed pools, and counts that fit in the size type. */
    ghost predicate Valid() {
      && 0 < |colors| == |tids| == |affinities| == |hwpools|
      && (forall p :: p in hwpools ==> p.Valid())
      && 2 * |colors| <= StableMatching.FREE
      && forall t :: CountDevices(hwpools, t) + |colors| <= StableMatching.FREE
    }

    function Size(): nat { |colors| }

    ghost function Pieces(base: PoolValue): seq<Bitmap> {
      SplitPieces(pus, PrimaryCpuset(base, objType), Min(npieces, Size()))
    }
  }

  datatype Call =
    | GatherTid(tid: int) | GatherAffinity(affinity: Bitmap) | GatherColor(color: int) | GatherPool(pool: PoolValue)
    | Barrier
    | ScatterRc(rcs: seq<int>) | ScatterColors(colors: seq<int>) | ScatterPools(pools: seq<PoolValue>)

  /** What the root's computation has come to. */
  datatype Computed = NotYet | Raised | Done(rc: int, colors: seq<int>, pools: seq<PoolValue>)

  // Program counters.
  const COMPUTE: nat := 4
  const BARRIER: nat := 5
  const BCAST: nat := 6
  const COLORS: nat := 7
  const POOLS: nat := 8
  const SUCCEEDED: nat := 9
  const FAILED: nat := 10
  const CRASHED: nat := 11

  datatype Rank = Rank(
    pc: nat, waiting: bool, calls: seq<Call>,
    tids: seq<int>, affinities: seq<Bitmap>, requested: seq<int>, hwpools: seq<PoolValue>,
    rc2: int, color: int, pool: PoolValue)

  datatype System = System(ranks: seq<Rank>, computed: Computed)

  // ----- the program

  function Begin(): Rank {
    Rank(0, false, [], [], [], [], [], QV_SUCCESS, 0, PoolValue({}, map[]))
  }

  ghost predicate Init(cfg: Config, sys: System) {
    && |sys.ranks| == cfg.Size() && sys.computed == NotYet
    && forall r :: 0 <= r < |sys.ranks| ==> sys.ranks[r] == Begin()
  }

  /** At a collective rather than at the computation or at the end. */
  predicate AtCollective(pc: nat) {
    pc < COMPUTE || BARRIER <= pc <= POOLS
  }

  /** What rank `r` posts at its next collective; only the root has something to scatter. */
  function NextCall(cfg: Config, computed: Computed, r: nat, rank: Rank): Call
    requires r < |cfg.tids| && r < |cfg.affinities| && r < |cfg.colors| && r < |cfg.hwpools|
  {
    if rank.pc == 0 then GatherTid(cfg.tids[r])
    else if rank.pc == 1 then GatherAffinity(cfg.affinities[r])
    else if rank.pc == 2 then GatherColor(cfg.colors[r])
    else if rank.pc == 3 then GatherPool(cfg.hwpools[r])
    else if rank.pc == BARRIER then Barrier
    else if rank.pc == BCAST then ScatterRc(if r == ROOT then seq(cfg.Size(), _ => rank.rc2) else [])
    else if rank.pc == COLORS then ScatterColors(if r == ROOT && computed.Done? then computed.colors else [])
    else ScatterPools(if r == ROOT && computed.Done? then computed.pools else [])
  }

  /** Everybody has made more than `n` calls. */
  ghost predicate AllPast(sys: System, n: nat) {
    forall r :: 0 <= r < |sys.ranks| ==> n < |sys.ranks[r].calls|
  }

  /** The collective that `r` waits in can let it go. */
  ghost predicate MayLeave(sys: System, r: nat)
    requires r < |sys.ranks| && 0 < |sys.ranks| && 0 < |sys.ranks[r].calls|
  {
    var rank := sys.ranks[r];
    var n := |rank.calls| - 1;
    if rank.pc < COMPUTE then r == ROOT ==> AllPast(sys, n)
    else if rank.pc == BARRIER then AllPast(sys, n)
    else n < |sys.ranks[ROOT].calls|
  }

  /** The messages of the `n`-th collective, one of each rank. */
  ghost function Posted(sys: System, n: nat): (r: seq<Call>)
    requires AllPast(sys, n)
    ensures |r| == |sys.ranks|
  {
    seq(|sys.ranks|, i requires 0 <= i < |sys.ranks| => sys.ranks[i].calls[n])
  }

  ghost function Tids(calls: seq<Call>): seq<int> {
    seq(|calls|, i requires 0 <= i < |calls| => if calls[i].GatherTid? then calls[i].tid else 0)
  }

  ghost function AffinitiesIn(calls: seq<Call>): seq<Bitmap> {
    seq(|calls|, i requires 0 <= i < |calls| => if calls[i].GatherAffinity? then calls[i].affinity else {})
  }

  ghost function ColorsIn(calls: seq<Call>): seq<int> {
    seq(|calls|, i requires 0 <= i < |calls| => if calls[i].GatherColor? then calls[i].color else 0)
  }

  ghost function PoolsIn(calls: seq<Call>): seq<PoolValue> {
    seq(|calls|, i requires 0 <= i < |calls| => if calls[i].GatherPool? then calls[i].pool else PoolValue({}, map[]))
  }

  /** Rank `r` after leaving the collective it waits in. */
  ghost function Left(sys: System, r: nat): Rank
    requires r < |sys.ranks| && 0 < |sys.ranks| && 0 < |sys.ranks[r].calls| && MayLeave(sys, r)
  {
    var rank := sys.ranks[r];
    var n := |rank.calls| - 1;
    var on := rank.(waiting := false, pc := rank.pc + 1);
    if rank.pc < COMPUTE then
      if r != ROOT then on
      else if rank.pc == 0 then on.(tids := Tids(Posted(sys, n)))
      else if rank.pc == 1 then on.(affinities := AffinitiesIn(Posted(sys, n)))
      else if rank.pc == 2 then on.(requested := ColorsIn(Posted(sys, n)))
      else on.(hwpools := PoolsIn(Posted(sys, n)))
    else if rank.pc == BARRIER then on
    else
      var sent := sys.ranks[ROOT].calls[n];
      if rank.pc == BCAST then
        var rc := if sent.ScatterRc? && r < |sent.rcs| then sent.rcs[r] else QV_ERR_INTERNAL;
        on.(rc2 := rc, pc := if rc == QV_SUCCESS then COLORS else FAILED)
      else if rank.pc == COLORS then
        on.(color := if sent.ScatterColors? && r < |sent.colors| then sent.colors[r] else 0)
      else
        on.(pool := if sent.ScatterPools? && r < |sent.pools| then sent.pools[r] else PoolValue({}, map[]))
  }

  /** What the root may compute from what it gathered: the split of the union of the pools. */
  ghost predicate RootComputes(cfg: Config, root: Rank, computed: Computed)
  {
    exists base :: RootComputesFrom(cfg, root, base, computed)
  }

  ghost predicate RootComputesFrom(cfg: Config, root: Rank, base: PoolValue, computed: Computed)
  {
    && 0 < |root.requested| == |root.affinities|
    && IsUnion(root.hwpools, base)
    && match SplitOutcome(root.requested, cfg.Pieces(base))
       case Thrown(_) => computed == Raised
       case Aborted => computed == Raised
       case Returned(rc) =>
         && computed.Done? && computed.rc == rc
         && (rc == QV_SUCCESS ==>
               IsSplit(root.requested, root.affinities, base, cfg.Pieces(base), computed.colors, computed.pools))
  }

  /** The root is about to pack one colour for every rank from a list that has fewer. */
  predicate Overruns(cfg: Config, sys: System, r: nat)
    requires r < |sys.ranks|
  {
    && r == ROOT && sys.ranks[r].pc == COLORS && !sys.ranks[r].waiting
    && sys.computed.Done? && |sys.computed.colors| < cfg.Size()
  }

  /** Reading past the end of the list of colours may be the end of the root. */
  ghost predicate Crashes(cfg: Config, sys: System, sys': System, r: nat)
    requires cfg.Valid() && |sys.ranks| == cfg.Size() && r < |sys.ranks|
  {
    Overruns(cfg, sys, r) && sys' == sys.(ranks := sys.ranks[r := sys.ranks[r].(pc := CRASHED)])
  }

  /** Or it may go unnoticed, the missing colours being whatever is found there. */
  ghost predicate ReadsPast(cfg: Config, sys: System, sys': System, r: nat)
    requires cfg.Valid() && |sys.ranks| == cfg.Size() && r < |sys.ranks|
  {
    Overruns(cfg, sys, r) && exists read: seq<int> :: GoesOnWith(cfg, sys, sys', r, read)
  }

  ghost predicate GoesOnWith(cfg: Config, sys: System, sys': System, r: nat, read: seq<int>)
    requires r < |sys.ranks| && sys.computed.Done?
  {
    var rank := sys.ranks[r];
    && |read| == cfg.Size() && sys.computed.colors <= read
    && sys' == sys.(ranks := sys.ranks[r := rank.(waiting := true, calls := rank.calls + [ScatterColors(read)])])
  }

  ghost predicate Enters(cfg: Config, sys: System, sys': System, r: nat)
    requires cfg.Valid() && |sys.ranks| == cfg.Size() && r < |sys.ranks|
  {
    var rank := sys.ranks[r];
    && AtCollective(rank.pc) && !rank.waiting && !Overruns(cfg, sys, r)
    && sys' == sys.(ranks := sys.ranks[r := rank.(
                      waiting := true, calls := rank.calls + [NextCall(cfg, sys.computed, r, rank)])])
  }

  ghost predicate Leaves(cfg: Config, sys: System, sys': System, r: nat)
    requires cfg.Valid() && |sys.ranks| == cfg.Size() && r < |sys.ranks|
  {
    var rank := sys.ranks[r];
    && AtCollective(rank.pc) && rank.waiting && 0 < |rank.calls| && MayLeave(sys, r)
    && sys' == sys.(ranks := sys.ranks[r := Left(sys, r)])
  }

  /** The root goes on with its result, or not at all. */
  function AfterComputing(root: Rank, computed: Computed): Rank {
    match computed
    case Done(rc, _, _) => root.(pc := BARRIER, rc2 := rc)
    case _ => root.(pc := CRASHED)
  }

  /** The root computes the split, which may raise an error; the others go on with a success code. */
  ghost predicate Computes(cfg: Config, sys: System, sys': System, r: nat)
    requires cfg.Valid() && |sys.ranks| == cfg.Size() && r < |sys.ranks|
  {
    var rank := sys.ranks[r];
    && rank.pc == COMPUTE && !rank.waiting
    && (r != ROOT ==> sys' == sys.(ranks := sys.ranks[r := rank.(pc := BARRIER)]))
    && (r == ROOT ==>
          && RootComputes(cfg, rank, sys'.computed)
          && sys'.ranks == sys.ranks[r := AfterComputing(rank, sys'.computed)])
  }

  ghost predicate Step(cfg: Config, sys: System, sys': System, r: nat)
    requires cfg.Valid() && |sys.ranks| == cfg.Size() && r < |sys.ranks|
  {
    || Enters(cfg, sys, sys', r) || Leaves(cfg, sys, sys', r) || Computes(cfg, sys, sys', r)
    || Crashes(cfg, sys, sys', r) || ReadsPast(cfg, sys, sys', r)
  }

  /** Reachable in exactly `n` steps. */
  ghost predicate Reachable(cfg: Config, sys: System, n: nat)
    requires cfg.Valid()
    decreases n
  {
    if n == 0 then Init(cfg, sys)
    else exists before, r: nat ::
      && Reachable(cfg, before, n - 1) && |before.ranks| == cfg.Size() && r < |before.ranks|
      && Step(cfg, before, sys, r)
  }

  // ----- the invariant

  /** How many collectives a rank that has not crashed has entered. */
  function CallCount(pc: nat, waiting: bool): nat {
    (if pc <= COMPUTE then pc else if pc == FAILED then 6 else pc - 1)
    + if waiting then 1 else 0
  }

  /** The `n`-th call that rank `r` makes, if it gets that far. */
  ghost function Script(cfg: Config, computed: Computed, r: nat, n: nat): Call
    requires cfg.Valid() && r < cfg.Size()
  {
    if n == 0 then GatherTid(cfg.tids[r])
    else if n == 1 then GatherAffinity(cfg.affinities[r])
    else if n == 2 then GatherColor(cfg.colors[r])
    else if n == 3 then GatherPool(cfg.hwpools[r])
    else if n == 4 then Barrier
    else if n == 5 then
      ScatterRc(if r == ROOT && computed.Done? then seq(cfg.Size(), _ => computed.rc) else [])
    else if n == 6 then ScatterColors(if r == ROOT && computed.Done? then computed.colors else [])
    else ScatterPools(if r == ROOT && computed.Done? then computed.pools else [])
  }

  /** A rank's `n`-th call is as scripted, except for colours that are not there to be scattered. */
  ghost predicate CallOk(cfg: Config, computed: Computed, r: nat, n: nat, call: Call)
    requires cfg.Valid() && r < cfg.Size()
  {
    if r == ROOT && n == 6 && computed.Done? && |computed.colors| < cfg.Size() then
      call.ScatterColors? && |call.colors| == cfg.Size() && computed.colors <= call.colors
    else call == Script(cfg, computed, r, n)
  }

  /** The result is what the root computes from everybody's contribution. */
  ghost predicate ResultOk(cfg: Config, computed: Computed)
    requires cfg.Valid()
  {
    computed == NotYet || exists base :: ResultFrom(cfg, base, computed)
  }

  ghost predicate ResultFrom(cfg: Config, base: PoolValue, computed: Computed)
    requires cfg.Valid()
  {
    && IsUnion(cfg.hwpools, base)
    && match SplitOutcome(cfg.colors, cfg.Pieces(base))
       case Thrown(_) => computed == Raised
       case Aborted => computed == Raised
       case Returned(rc) =>
         && computed.Done? && computed.rc == rc
         && (rc == QV_SUCCESS ==>
               IsSplit(cfg.colors, cfg.affinities, base, cfg.Pieces(base), computed.colors, computed.pools))
  }

  /** A crashed root crashed at the computation, or where it had no colours to scatter. */
  ghost predicate CrashOk(cfg: Config, computed: Computed, rank: Rank)
  {
    || (computed == Raised && |rank.calls| == 4)
    || (computed.Done? && computed.rc == QV_SUCCESS && |computed.colors| < cfg.Size() && |rank.calls| == 6)
  }

  /** A rank's own data fit its program counter and the result. */
  ghost predicate RankOk(cfg: Config, computed: Computed, r: nat, rank: Rank)
    requires cfg.Valid() && r < cfg.Size()
  {
    && rank.pc <= CRASHED && (rank.waiting ==> AtCollective(rank.pc))
    && (rank.pc < CRASHED ==> |rank.calls| == CallCount(rank.pc, rank.waiting))
    && (forall n: nat :: n < |rank.calls| ==> CallOk(cfg, computed, r, n, rank.calls[n]))
    && (rank.pc == CRASHED ==> r == ROOT && CrashOk(cfg, computed, rank))
    && (r == ROOT && rank.pc <= COMPUTE ==> computed == NotYet)
    && (r == ROOT && BARRIER <= rank.pc < CRASHED ==> computed.Done? && rank.rc2 == computed.rc)
    && (COLORS <= rank.pc < CRASHED ==> computed.Done? && rank.rc2 == computed.rc)
    && (COLORS <= rank.pc <= SUCCEEDED ==> computed.rc == QV_SUCCESS)
    && (rank.pc == FAILED ==> computed.rc != QV_SUCCESS)
  }

  /** What the root has gathered, and what a rank has been sent. */
  ghost predicate DataOk(cfg: Config, computed: Computed, r: nat, rank: Rank)
    requires cfg.Valid() && r < cfg.Size()
  {
    && (r == ROOT ==>
          && (1 <= rank.pc ==> rank.tids == cfg.tids)
          && (2 <= rank.pc ==> rank.affinities == cfg.affinities)
          && (3 <= rank.pc ==> rank.requested == cfg.colors)
          && (4 <= rank.pc ==> rank.hwpools == cfg.hwpools))
    && (POOLS <= rank.pc <= SUCCEEDED && computed.Done? && r < |computed.colors| ==>
          rank.color == computed.colors[r])
    && (rank.pc == SUCCEEDED && computed.Done? && r < |computed.pools| ==> rank.pool == computed.pools[r])
  }

  /** Nobody is past a collective that should have held it. */
  ghost predicate InStep(sys: System)
    requires 0 < |sys.ranks|
  {
    && (forall r :: 0 <= r < |sys.ranks| ==>
          sys.ranks[ROOT].pc <= |sys.ranks[r].calls| || COMPUTE <= |sys.ranks[r].calls|)
    && (forall r, o :: 0 <= r < |sys.ranks| && 0 <= o < |sys.ranks| && BCAST <= sys.ranks[r].pc < CRASHED ==>
          5 <= |sys.ranks[o].calls|)
    && (forall r :: 0 <= r < |sys.ranks| && COLORS <= sys.ranks[r].pc < CRASHED ==> 6 <= |sys.ranks[ROOT].calls|)
    && (forall r :: 0 <= r < |sys.ranks| && POOLS <= sys.ranks[r].pc <= SUCCEEDED ==> 7 <= |sys.ranks[ROOT].calls|)
    && (forall r :: 0 <= r < |sys.ranks| && sys.ranks[r].pc == SUCCEEDED ==> 8 <= |sys.ranks[ROOT].calls|)
  }

  ghost predicate Inv(cfg: Config, sys: System)
    requires cfg.Valid()
  {
    && |sys.ranks| == cfg.Size()
    && ResultOk(cfg, sys.computed)
    && (forall r: nat :: r < |sys.ranks| ==> RankOk(cfg, sys.computed, r, sys.ranks[r]))
    && (forall r: nat :: r < |sys.ranks| ==> DataOk(cfg, sys.computed, r, sys.ranks[r]))
    && InStep(sys)
  }

  lemma InitInv(cfg: Config, sys: System)
    requires cfg.Valid() && Init(cfg, sys)
    ensures Inv(cfg, sys)
  {
  }

  /** Once the root is past the barrier there is a result. */
  lemma RootHasResult(cfg: Config, sys: System)
    requires cfg.Valid() && Inv(cfg, sys) && 5 <= |sys.ranks[ROOT].calls|
    ensures sys.computed.Done?
  {
    assert RankOk(cfg, sys.computed, ROOT, sys.ranks[ROOT]);
  }

  lemma EntersInv(cfg: Config, sys: System, sys': System, r: nat)
    requires cfg.Valid() && Inv(cfg, sys) && r < |sys.ranks| && Enters(cfg, sys, sys', r)
    ensures Inv(cfg, sys')
  {
    hide ResultOk;
    assert RankOk(cfg, sys.computed, r, sys.ranks[r]) && DataOk(cfg, sys.computed, r, sys.ranks[r]);
    assert RankOk(cfg, sys.computed, r, sys'.ranks[r]);
    forall o: nat | o < |sys.ranks|
      ensures |sys.ranks[o].calls| <= |sys'.ranks[o].calls| && sys.ranks[o].pc == sys'.ranks[o].pc
    {
    }
  }

  /** Leaving a gather: the root has everybody's contribution. */
  lemma GatheredAll(cfg: Config, sys: System, n: nat)
    requires cfg.Valid() && Inv(cfg, sys) && AllPast(sys, n)
    ensures n == 0 ==> Tids(Posted(sys, n)) == cfg.tids
    ensures n == 1 ==> AffinitiesIn(Posted(sys, n)) == cfg.affinities
    ensures n == 2 ==> ColorsIn(Posted(sys, n)) == cfg.colors
    ensures n == 3 ==> PoolsIn(Posted(sys, n)) == cfg.hwpools
  {
    forall i: nat | i < |sys.ranks| && n < 4 ensures Posted(sys, n)[i] == Script(cfg, sys.computed, i, n) {
      assert RankOk(cfg, sys.computed, i, sys.ranks[i]);
      assert CallOk(cfg, sys.computed, i, n, sys.ranks[i].calls[n]);
    }
  }

  lemma LeftOk(cfg: Config, sys: System, r: nat)
    requires cfg.Valid() && Inv(cfg, sys) && r < |sys.ranks|
    requires AtCollective(sys.ranks[r].pc) && sys.ranks[r].waiting && 0 < |sys.ranks[r].calls| && MayLeave(sys, r)
    ensures RankOk(cfg, sys.computed, r, Left(sys, r)) && DataOk(cfg, sys.computed, r, Left(sys, r))
  {
    var rank := sys.ranks[r];
    var n := |rank.calls| - 1;
    assert RankOk(cfg, sys.computed, r, rank) && DataOk(cfg, sys.computed, r, rank);
    if rank.pc < COMPUTE {
      if r == ROOT { GatheredAll(cfg, sys, n); }
    } else if BCAST <= rank.pc {
      RootHasResult(cfg, sys);
      assert RankOk(cfg, sys.computed, ROOT, sys.ranks[ROOT]);
      assert CallOk(cfg, sys.computed, ROOT, n, sys.ranks[ROOT].calls[n]);
    }
  }

  lemma LeavesInv(cfg: Config, sys: System, sys': System, r: nat)
    requires cfg.Valid() && Inv(cfg, sys) && r < |sys.ranks| && Leaves(cfg, sys, sys', r)
    ensures Inv(cfg, sys')
  {
    hide ResultOk, Script, CallOk;
    assert RankOk(cfg, sys.computed, r, sys.ranks[r]);
    LeftOk(cfg, sys, r);
    LeavesInStep(cfg, sys, sys', r);
  }

  lemma LeavesInStep(cfg: Config, sys: System, sys': System, r: nat)
    requires cfg.Valid() && Inv(cfg, sys) && r < |sys.ranks| && Leaves(cfg, sys, sys', r)
    requires RankOk(cfg, sys.computed, r, Left(sys, r))
    ensures InStep(sys')
  {
    hide ResultOk, Script, CallOk, DataOk;
    assert RankOk(cfg, sys.computed, r, sys.ranks[r]);
  }

  lemma RootComputed(cfg: Config, root: Rank, computed: Computed)
    requires cfg.Valid() && root.pc == COMPUTE && computed != NotYet
    requires RankOk(cfg, NotYet, ROOT, root) && DataOk(cfg, NotYet, ROOT, root)
    ensures RankOk(cfg, computed, ROOT, AfterComputing(root, computed))
    ensures DataOk(cfg, computed, ROOT, AfterComputing(root, computed))
  {
  }

  lemma RootComputesInv(cfg: Config, sys: System, sys': System)
    requires cfg.Valid() && Inv(cfg, sys) && Computes(cfg, sys, sys', ROOT)
    ensures Inv(cfg, sys')
  {
    var root := sys.ranks[ROOT];
    assert RankOk(cfg, sys.computed, ROOT, root) && DataOk(cfg, sys.computed, ROOT, root);
    var base :| RootComputesFrom(cfg, root, base, sys'.computed);
    assert ResultFrom(cfg, base, sys'.computed);
    RootComputed(cfg, root, sys'.computed);
    forall o: nat | o < |sys.ranks|
      ensures RankOk(cfg, sys'.computed, o, sys'.ranks[o]) && DataOk(cfg, sys'.computed, o, sys'.ranks[o])
    {
      if o != ROOT {
        assert RankOk(cfg, sys.computed, o, sys.ranks[o]) && DataOk(cfg, sys.computed, o, sys.ranks[o]);
        ResultDisturbsNobody(cfg, sys'.computed, o, sys.ranks[o]);
      }
    }
  }

  /** A new result does not disturb the others, none of which is past the barrier. */
  lemma ComputesInv(cfg: Config, sys: System, sys': System, r: nat)
    requires cfg.Valid() && Inv(cfg, sys) && r < |sys.ranks| && Computes(cfg, sys, sys', r)
    ensures Inv(cfg, sys')
  {
    hide Script, CallOk, ResultOk, RootComputes;
    if r == ROOT {
      RootComputesInv(cfg, sys, sys');
    } else {
      assert RankOk(cfg, sys.computed, r, sys.ranks[r]) && DataOk(cfg, sys.computed, r, sys.ranks[r]);
    }
  }

  lemma ResultDisturbsNobody(cfg: Config, computed: Computed, o: nat, rank: Rank)
    requires cfg.Valid() && o < cfg.Size() && o != ROOT
    requires RankOk(cfg, NotYet, o, rank) && DataOk(cfg, NotYet, o, rank)
    ensures RankOk(cfg, computed, o, rank) && DataOk(cfg, computed, o, rank)
  {
    forall n: nat | n < |rank.calls| ensures CallOk(cfg, computed, o, n, rank.calls[n]) {
      assert CallOk(cfg, NotYet, o, n, rank.calls[n]);
    }
  }

  lemma CrashesInv(cfg: Config, sys: System, sys': System, r: nat)
    requires cfg.Valid() && Inv(cfg, sys) && r < |sys.ranks| && Crashes(cfg, sys, sys', r)
    ensures Inv(cfg, sys')
  {
    hide Script, CallOk, NextCall, ResultOk;
    assert RankOk(cfg, sys.computed, r, sys.ranks[r]) && DataOk(cfg, sys.computed, r, sys.ranks[r]);
    assert RankOk(cfg, sys.computed, r, sys'.ranks[r]);
  }

  lemma ReadsPastInv(cfg: Config, sys: System, sys': System, r: nat)
    requires cfg.Valid() && Inv(cfg, sys) && r < |sys.ranks| && ReadsPast(cfg, sys, sys', r)
    ensures Inv(cfg, sys')
  {
    hide Script, NextCall, ResultOk;
    assert RankOk(cfg, sys.computed, r, sys.ranks[r]) && DataOk(cfg, sys.computed, r, sys.ranks[r]);
    var read :| GoesOnWith(cfg, sys, sys', r, read);
    assert RankOk(cfg, sys.computed, r, sys'.ranks[r]);
    forall o: nat | o < |sys.ranks|
      ensures |sys.ranks[o].calls| <= |sys'.ranks[o].calls| && sys.ranks[o].pc == sys'.ranks[o].pc
    {
    }
  }

  lemma {:induction false} ReachableInv(cfg: Config, sys: System, n: nat)
    requires cfg.Valid() && Reachable(cfg, sys, n)
    ensures Inv(cfg, sys)
    decreases n
  {
    if n == 0 {
      InitInv(cfg, sys);
    } else {
      var before, r: nat :|
        && Reachable(cfg, before, n - 1) && |before.ranks| == cfg.Size() && r < |before.ranks|
        && Step(cfg, before, sys, r);
      ReachableInv(cfg, before, n - 1);
      if Enters(cfg, before, sys, r) {
        EntersInv(cfg, before, sys, r);
      } else if Leaves(cfg, before, sys, r) {
        LeavesInv(cfg, before, sys, r);
      } else if Computes(cfg, before, sys, r) {
        ComputesInv(cfg, before, sys, r);
      } else if Crashes(cfg, before, sys, r) {
        CrashesInv(cfg, before, sys, r);
      } else {
        ReadsPastInv(cfg, before, sys, r);
      }
    }
  }

  // ----- safety over every run

  predicate Finished(rank: Rank) {
    rank.pc == SUCCEEDED || rank.pc == FAILED
  }

  predicate SameKind(a: Call, b: Call) {
    match a
    case GatherTid(_) => b.GatherTid?
    case GatherAffinity(_) => b.GatherAffinity?
    case GatherColor(_) => b.GatherColor?
    case GatherPool(_) => b.GatherPool?
    case Barrier => b.Barrier?
    case ScatterRc(_) => b.ScatterRc?
    case ScatterColors(_) => b.ScatterColors?
    case ScatterPools(_) => b.ScatterPools?
  }

  /** All ranks issue the same sequence of collectives. */
  lemma SameCollectives(cfg: Config, sys: System, steps: nat, r: nat, o: nat, n: nat)
    requires cfg.Valid() && Reachable(cfg, sys, steps) && r < |sys.ranks| && o < |sys.ranks|
    requires n < |sys.ranks[r].calls| && n < |sys.ranks[o].calls|
    ensures SameKind(sys.ranks[r].calls[n], sys.ranks[o].calls[n])
  {
    hide Reachable, CallOk, SameKind;
    ReachableInv(cfg, sys, steps);
    assert RankOk(cfg, sys.computed, r, sys.ranks[r]) && RankOk(cfg, sys.computed, o, sys.ranks[o]);
    SameScript(cfg, sys.computed, r, sys.ranks[r].calls[n], o, sys.ranks[o].calls[n], n);
  }

  lemma SameScript(cfg: Config, computed: Computed, r: nat, a: Call, o: nat, b: Call, n: nat)
    requires cfg.Valid() && r < cfg.Size() && o < cfg.Size()
    requires CallOk(cfg, computed, r, n, a) && CallOk(cfg, computed, o, n, b)
    ensures SameKind(a, b)
  {
  }

  /** Ranks that have finished return the same code, and have made the same number of calls. */
  lemma SameReturnCode(cfg: Config, sys: System, steps: nat, r: nat, o: nat)
    requires cfg.Valid() && Reachable(cfg, sys, steps) && r < |sys.ranks| && o < |sys.ranks|
    requires Finished(sys.ranks[r]) && Finished(sys.ranks[o])
    ensures sys.ranks[r].rc2 == sys.ranks[o].rc2 && sys.ranks[r].pc == sys.ranks[o].pc
    ensures |sys.ranks[r].calls| == |sys.ranks[o].calls|
    ensures sys.ranks[r].pc == SUCCEEDED <==> sys.ranks[r].rc2 == QV_SUCCESS
  {
    ReachableInv(cfg, sys, steps);
    assert RankOk(cfg, sys.computed, r, sys.ranks[r]) && RankOk(cfg, sys.computed, o, sys.ranks[o]);
  }

  /** The rank has something to do next that nobody holds back. */
  ghost predicate Enabled(sys: System, r: nat)
    requires r < |sys.ranks|
  {
    var rank := sys.ranks[r];
    || (AtCollective(rank.pc) && !rank.waiting)
    || (AtCollective(rank.pc) && rank.waiting && 0 < |rank.calls| && MayLeave(sys, r))
    || rank.pc == COMPUTE
  }

  ghost predicate SomebodyEnabled(sys: System) {
    exists r: nat :: r < |sys.ranks| && Enabled(sys, r)
  }

  /** If nobody can move, whoever is not at the end is waiting. */
  lemma StuckIsWaiting(cfg: Config, sys: System, r: nat)
    requires cfg.Valid() && Inv(cfg, sys) && !SomebodyEnabled(sys) && r < |sys.ranks|
    ensures Finished(sys.ranks[r]) || sys.ranks[r].pc == CRASHED
            || (AtCollective(sys.ranks[r].pc) && sys.ranks[r].waiting && !MayLeave(sys, r))
  {
    assert RankOk(cfg, sys.computed, r, sys.ranks[r]);
    assert !Enabled(sys, r);
  }

  /** A rank other than the root is never held back by a gather. */
  lemma StuckIsPastGathers(cfg: Config, sys: System, r: nat)
    requires cfg.Valid() && Inv(cfg, sys) && !SomebodyEnabled(sys) && r < |sys.ranks| && r != ROOT
    ensures 5 <= |sys.ranks[r].calls|
  {
    StuckIsWaiting(cfg, sys, r);
    assert RankOk(cfg, sys.computed, r, sys.ranks[r]);
  }

  /** No reachable state deadlocks: unless all have finished or the root has crashed, someone can move. */
  lemma NoDeadlock(cfg: Config, sys: System, steps: nat)
    requires cfg.Valid() && Reachable(cfg, sys, steps) && sys.ranks[ROOT].pc != CRASHED
    ensures SomebodyEnabled(sys) || forall r :: 0 <= r < |sys.ranks| ==> Finished(sys.ranks[r])
  {
    ReachableInv(cfg, sys, steps);
    if !SomebodyEnabled(sys) {
      var root := sys.ranks[ROOT];
      assert RankOk(cfg, sys.computed, ROOT, root);
      StuckIsWaiting(cfg, sys, ROOT);
      forall r: nat | r < |sys.ranks| ensures r != ROOT ==> 5 <= |sys.ranks[r].calls| {
        if r != ROOT { StuckIsPastGathers(cfg, sys, r); }
      }
      assert Finished(root);
      forall r: nat | r < |sys.ranks| ensures Finished(sys.ranks[r]) {
        StuckIsWaiting(cfg, sys, r);
        assert RankOk(cfg, sys.computed, r, sys.ranks[r]);
      }
    }
  }

  /** Whatever the root has gathered, its computation has a result. */
  lemma RootComputesExists(cfg: Config, root: Rank) returns (computed: Computed)
    requires cfg.Valid() && root.requested == cfg.colors && root.affinities == cfg.affinities
    requires root.hwpools == cfg.hwpools
    ensures RootComputes(cfg, root, computed)
  {
    var base := UnionExists(cfg.hwpools);
    forall t ensures |base.Devices(t)| + cfg.Size() <= StableMatching.FREE {
      UnionIsNoLarger(cfg.hwpools, base, t);
    }
    var pieces := cfg.Pieces(base);
    match SplitOutcome(cfg.colors, pieces) {
      case Thrown(_) => computed := Raised;
      case Aborted => computed := Raised;
      case Returned(rc) =>
        computed := Done(rc, [], []);
        if rc == QV_SUCCESS {
          var colors, pools := SplitExists(cfg.colors, cfg.affinities, base, pieces);
          computed := Done(rc, colors, pools);
        }
    }
    assert RootComputesFrom(cfg, root, base, computed);
  }

  lemma ComputationHasStep(cfg: Config, sys: System, r: nat)
    requires cfg.Valid() && Inv(cfg, sys) && r < |sys.ranks| && sys.ranks[r].pc == COMPUTE
    ensures exists sys' :: Step(cfg, sys, sys', r)
  {
    var rank := sys.ranks[r];
    assert RankOk(cfg, sys.computed, r, rank) && DataOk(cfg, sys.computed, r, rank);
    if r == ROOT {
      var computed := RootComputesExists(cfg, rank);
      var after := AfterComputing(rank, computed);
      assert Computes(cfg, sys, System(sys.ranks[r := after], computed), r);
      assert Step(cfg, sys, System(sys.ranks[r := after], computed), r);
    } else {
      assert Step(cfg, sys, sys.(ranks := sys.ranks[r := rank.(pc := BARRIER)]), r);
    }
  }

  lemma EnabledHasStep(cfg: Config, sys: System, r: nat)
    requires cfg.Valid() && Inv(cfg, sys) && r < |sys.ranks| && Enabled(sys, r)
    ensures exists sys' :: Step(cfg, sys, sys', r)
  {
    var rank := sys.ranks[r];
    if rank.pc == COMPUTE {
      ComputationHasStep(cfg, sys, r);
    } else if Overruns(cfg, sys, r) {
      assert Step(cfg, sys, sys.(ranks := sys.ranks[r := rank.(pc := CRASHED)]), r);
    } else if AtCollective(rank.pc) && !rank.waiting {
      var call := NextCall(cfg, sys.computed, r, rank);
      var sys' := sys.(ranks := sys.ranks[r := rank.(waiting := true, calls := rank.calls + [call])]);
      assert Enters(cfg, sys, sys', r);
      assert Step(cfg, sys, sys', r);
    } else {
      assert Leaves(cfg, sys, sys.(ranks := sys.ranks[r := Left(sys, r)]), r);
      assert Step(cfg, sys, sys.(ranks := sys.ranks[r := Left(sys, r)]), r);
    }
  }

  /** Being enabled is having a step, whatever the rank has to do next. */
  lemma EnabledIffStep(cfg: Config, sys: System, r: nat)
    requires cfg.Valid() && Inv(cfg, sys) && r < |sys.ranks|
    ensures Enabled(sys, r) <==> exists sys' :: Step(cfg, sys, sys', r)
  {
    assert |sys.ranks| == cfg.Size();
    hide Step, Enabled, Inv;
    if Enabled(sys, r) {
      EnabledHasStep(cfg, sys, r);
    }
    forall sys' | Step(cfg, sys, sys', r) ensures Enabled(sys, r) {
      StepIsEnabled(cfg, sys, sys', r);
    }
  }

  lemma StepIsEnabled(cfg: Config, sys: System, sys': System, r: nat)
    requires cfg.Valid() && |sys.ranks| == cfg.Size() && r < |sys.ranks| && Step(cfg, sys, sys', r)
    ensures Enabled(sys, r)
  {
  }

  /** A root that crashes leaves everybody else hanging: nobody ever finishes. */
  lemma RaisedMeansNobodyFinishes(cfg: Config, sys: System, steps: nat, r: nat)
    requires cfg.Valid() && Reachable(cfg, sys, steps) && sys.ranks[ROOT].pc == CRASHED && r < |sys.ranks|
    ensures !Finished(sys.ranks[r])
  {
    ReachableInv(cfg, sys, steps);
    assert RankOk(cfg, sys.computed, r, sys.ranks[r]) && RankOk(cfg, sys.computed, ROOT, sys.ranks[ROOT]);
  }

  ghost predicate MixedSigns(colors: seq<int>) {
    !AllNonNegative(colors) && !AllNegative(colors)
  }

  /** The root's computation raises an error exactly for colours of both signs, and for the close and the spread
      policy on a split without pieces. */
  lemma RootRaisesExactly(cfg: Config, sys: System, steps: nat) returns (base: PoolValue)
    requires cfg.Valid() && Reachable(cfg, sys, steps) && sys.computed != NotYet
    ensures IsUnion(cfg.hwpools, base)
    ensures sys.computed == Raised <==>
            || MixedSigns(cfg.colors)
            || (cfg.Pieces(base) == [] &&
                (AllAre(cfg.colors, QV_SCOPE_SPLIT_CLOSE) || AllAre(cfg.colors, QV_SCOPE_SPLIT_SPREAD)))
  {
    ReachableInv(cfg, sys, steps);
    base :| ResultFrom(cfg, base, sys.computed);
    RaisesIff(cfg.colors, cfg.Pieces(base));
  }

  lemma RaisesIff(colors: seq<int>, pieces: seq<Bitmap>)
    requires |colors| > 0
    ensures !SplitOutcome(colors, pieces).Returned? <==>
            || MixedSigns(colors)
            || (pieces == [] && (AllAre(colors, QV_SCOPE_SPLIT_CLOSE) || AllAre(colors, QV_SCOPE_SPLIT_SPREAD)))
  {
    var c := colors[0];
    assert forall d :: AllAre(colors, d) ==> d == c;
  }

  /** The configurations for which the root's computation does not return: colours of both signs, and the close and
      the spread policy without pieces. */
  ghost predicate Doomed(colors: seq<int>, pieces: seq<Bitmap>) {
    || MixedSigns(colors)
    || (pieces == [] && (AllAre(colors, QV_SCOPE_SPLIT_CLOSE) || AllAre(colors, QV_SCOPE_SPLIT_SPREAD)))
  }

  /** The packed policy without pieces succeeds, and has no colours for the scatter. */
  ghost predicate Undefined(colors: seq<int>, pieces: seq<Bitmap>) {
    pieces == [] && AllAre(colors, QV_SCOPE_SPLIT_PACKED)
  }

  ghost predicate AllFinished(sys: System) {
    forall r :: 0 <= r < |sys.ranks| ==> Finished(sys.ranks[r])
  }

  ghost predicate NobodyFinished(sys: System) {
    forall r :: 0 <= r < |sys.ranks| ==> !Finished(sys.ranks[r])
  }

  lemma ResultMeans(cfg: Config, base: PoolValue, computed: Computed)
    requires cfg.Valid() && ResultFrom(cfg, base, computed) && computed != NotYet
    ensures Doomed(cfg.colors, cfg.Pieces(base)) <==> computed == Raised
    ensures Undefined(cfg.colors, cfg.Pieces(base)) <==>
            computed.Done? && computed.rc == QV_SUCCESS && |computed.colors| < cfg.Size()
  {
    var pieces := cfg.Pieces(base);
    RaisesIff(cfg.colors, pieces);
    var c := cfg.colors[0];
    assert forall d :: AllAre(cfg.colors, d) ==> d == c;
    if AllNonNegative(cfg.colors) {
      assert c in ColorSet(cfg.colors);
    }
  }

  /** When nobody can move any more the root has crashed or everybody has finished. */
  lemma StuckMeansOver(cfg: Config, sys: System, steps: nat)
    requires cfg.Valid() && Reachable(cfg, sys, steps) && !SomebodyEnabled(sys)
    ensures sys.computed != NotYet
    ensures sys.ranks[ROOT].pc == CRASHED || AllFinished(sys)
  {
    ReachableInv(cfg, sys, steps);
    if sys.ranks[ROOT].pc != CRASHED {
      NoDeadlock(cfg, sys, steps);
    }
    assert RankOk(cfg, sys.computed, ROOT, sys.ranks[ROOT]);
  }

  /** Every run that cannot go on ends for all ranks alike. Which way it ends is decided by the colours and the
      pieces, except where the scatter's behaviour is undefined: for a doomed configuration nobody has finished, for
      every other one everybody has. */
  lemma AllOrNobodyFinishes(cfg: Config, sys: System, steps: nat) returns (base: PoolValue)
    requires cfg.Valid() && Reachable(cfg, sys, steps) && !SomebodyEnabled(sys)
    ensures IsUnion(cfg.hwpools, base)
    ensures AllFinished(sys) <==> !NobodyFinished(sys)
    ensures !Undefined(cfg.colors, cfg.Pieces(base)) ==>
              (Doomed(cfg.colors, cfg.Pieces(base)) <==> NobodyFinished(sys))
  {
    ReachableInv(cfg, sys, steps);
    StuckMeansOver(cfg, sys, steps);
    base :| ResultFrom(cfg, base, sys.computed);
    ResultMeans(cfg, base, sys.computed);
    assert RankOk(cfg, sys.computed, ROOT, sys.ranks[ROOT]);
    if sys.ranks[ROOT].pc == CRASHED {
      forall r: nat | r < |sys.ranks| ensures !Finished(sys.ranks[r]) {
        RaisedMeansNobodyFinishes(cfg, sys, steps, r);
      }
    } else {
      assert Finished(sys.ranks[ROOT]);
    }
  }

  // ----- every run ends

  /** How many steps a rank has taken. */
  function StepsOf(rank: Rank): nat {
    (if rank.pc <= COMPUTE then 2 * rank.pc
     else if rank.pc == FAILED then 13
     else if rank.pc == CRASHED then if |rank.calls| <= 4 then 9 else 14
     else 2 * rank.pc - 1)
    + if rank.waiting then 1 else 0
  }

  function TotalSteps(ranks: seq<Rank>): nat {
    if ranks == [] then 0 else TotalSteps(ranks[..|ranks| - 1]) + StepsOf(ranks[|ranks| - 1])
  }

  lemma {:induction false} TotalStepsWith(ranks: seq<Rank>, r: nat, rank: Rank)
    requires r < |ranks|
    ensures TotalSteps(ranks[r := rank]) + StepsOf(ranks[r]) == TotalSteps(ranks) + StepsOf(rank)
  {
    var l := |ranks| - 1;
    if r < l {
      TotalStepsWith(ranks[..l], r, rank);
      assert ranks[r := rank][..l] == ranks[..l][r := rank];
    } else {
      assert ranks[r := rank][..l] == ranks[..l];
    }
  }

  lemma {:induction false} TotalStepsBound(ranks: seq<Rank>)
    requires forall r :: 0 <= r < |ranks| ==> StepsOf(ranks[r]) <= 17
    ensures TotalSteps(ranks) <= 17 * |ranks|
  {
    if ranks != [] { TotalStepsBound(ranks[..|ranks| - 1]); }
  }

  lemma RankStepsBound(cfg: Config, computed: Computed, r: nat, rank: Rank)
    requires cfg.Valid() && r < cfg.Size() && RankOk(cfg, computed, r, rank)
    ensures StepsOf(rank) <= 17
  {
  }

  lemma OneStep(cfg: Config, sys: System, sys': System, r: nat)
    requires cfg.Valid() && Inv(cfg, sys) && r < |sys.ranks| && Step(cfg, sys, sys', r)
    ensures TotalSteps(sys'.ranks) == TotalSteps(sys.ranks) + 1
  {
    StepCounts(cfg, sys, sys', r);
    TotalStepsWith(sys.ranks, r, sys'.ranks[r]);
  }

  lemma StepCounts(cfg: Config, sys: System, sys': System, r: nat)
    requires cfg.Valid() && Inv(cfg, sys) && r < |sys.ranks| && Step(cfg, sys, sys', r)
    ensures |sys'.ranks| == |sys.ranks| && sys'.ranks == sys.ranks[r := sys'.ranks[r]]
    ensures StepsOf(sys'.ranks[r]) == StepsOf(sys.ranks[r]) + 1
  {
    hide DataOk, InStep, CallOk, ResultOk, RootComputes, NextCall;
    assert RankOk(cfg, sys.computed, r, sys.ranks[r]);
    if Leaves(cfg, sys, sys', r) {
      assert sys'.ranks[r] == Left(sys, r);
    }
  }

  lemma {:induction false} NoStepsYet(ranks: seq<Rank>)
    requires forall r :: 0 <= r < |ranks| ==> ranks[r] == Begin()
    ensures TotalSteps(ranks) == 0
  {
    if ranks != [] { NoStepsYet(ranks[..|ranks| - 1]); }
  }

  lemma LastStepCounts(cfg: Config, before: System, sys: System, r: nat, n: nat)
    requires cfg.Valid() && Reachable(cfg, before, n) && |before.ranks| == cfg.Size() && r < |before.ranks|
    requires Step(cfg, before, sys, r)
    ensures TotalSteps(sys.ranks) == TotalSteps(before.ranks) + 1
  {
    ReachableInv(cfg, before, n);
    OneStep(cfg, before, sys, r);
  }

  lemma {:induction false} StepsAreCounted(cfg: Config, sys: System, n: nat)
    requires cfg.Valid() && Reachable(cfg, sys, n)
    ensures TotalSteps(sys.ranks) == n
    decreases n
  {
    hide Step;
    if n == 0 {
      NoStepsYet(sys.ranks);
    } else {
      var before, r: nat :|
        && Reachable(cfg, before, n - 1) && |before.ranks| == cfg.Size() && r < |before.ranks|
        && Step(cfg, before, sys, r);
      StepsAreCounted(cfg, before, n - 1);
      LastStepCounts(cfg, before, sys, r, n - 1);
    }
  }

  /** No run is longer than seventeen steps a rank, so every run comes to an end. */
  lemma RunsAreFinite(cfg: Config, sys: System, n: nat)
    requires cfg.Valid() && Reachable(cfg, sys, n)
    ensures n <= 17 * cfg.Size()
  {
    StepsAreCounted(cfg, sys, n);
    ReachableInv(cfg, sys, n);
    forall r: nat | r < |sys.ranks| ensures StepsOf(sys.ranks[r]) <= 17 {
      RankStepsBound(cfg, sys.computed, r, sys.ranks[r]);
    }
    TotalStepsBound(sys.ranks);
  }

  // ----- runs that end

  lemma OneMoreReachable(cfg: Config, before: System, sys: System, r: nat, n: nat)
    requires cfg.Valid() && Reachable(cfg, before, n) && |before.ranks| == cfg.Size() && r < |before.ranks|
    requires Step(cfg, before, sys, r)
    ensures Reachable(cfg, sys, n + 1) && n + 1 <= 17 * cfg.Size()
  {
    assert Reachable(cfg, sys, n + 1);
    RunsAreFinite(cfg, sys, n + 1);
  }

  /** A crashed root stays crashed, and the number of the root's calls does not fall. */
  ghost predicate KeepsRoot(sys: System, next: System)
  {
    && 0 < |sys.ranks| == |next.ranks|
    && (sys.ranks[ROOT].pc == CRASHED ==> next.ranks[ROOT] == sys.ranks[ROOT])
    && |sys.ranks[ROOT].calls| <= |next.ranks[ROOT].calls|
  }

  lemma StepKeepsRoot(cfg: Config, sys: System, sys': System, r: nat)
    requires cfg.Valid() && Inv(cfg, sys) && r < |sys.ranks| && Step(cfg, sys, sys', r)
    ensures KeepsRoot(sys, sys')
  {
    assert RankOk(cfg, sys.computed, r, sys.ranks[r]);
  }

  lemma SomebodySteps(cfg: Config, sys: System, r: nat) returns (next: System)
    requires cfg.Valid() && Inv(cfg, sys) && r < |sys.ranks| && Enabled(sys, r)
    ensures Step(cfg, sys, next, r)
  {
    EnabledIffStep(cfg, sys, r);
    next :| Step(cfg, sys, next, r);
  }

  lemma NextStep(cfg: Config, sys: System, n: nat) returns (r: nat, next: System)
    requires cfg.Valid() && Reachable(cfg, sys, n) && SomebodyEnabled(sys)
    ensures r < |sys.ranks| == cfg.Size() && Step(cfg, sys, next, r) && KeepsRoot(sys, next)
  {
    ReachableInv(cfg, sys, n);
    r :| r < |sys.ranks| && Enabled(sys, r);
    next := SomebodySteps(cfg, sys, r);
    StepKeepsRoot(cfg, sys, next, r);
  }

  lemma ReachableSize(cfg: Config, sys: System, n: nat)
    requires cfg.Valid() && Reachable(cfg, sys, n)
    ensures 0 < |sys.ranks| == cfg.Size()
  {
    ReachableInv(cfg, sys, n);
  }

  /** Every run can be continued to one that cannot go on. */
  lemma {:induction false} RunCanEnd(cfg: Config, sys: System, n: nat) returns (end: System, k: nat)
    requires cfg.Valid() && Reachable(cfg, sys, n)
    ensures Reachable(cfg, end, k) && !SomebodyEnabled(end) && |end.ranks| == cfg.Size() && KeepsRoot(sys, end)
    decreases 17 * cfg.Size() - n
  {
    hide Reachable, Step;
    ReachableSize(cfg, sys, n);
    if SomebodyEnabled(sys) {
      var r, next := NextStep(cfg, sys, n);
      OneMoreReachable(cfg, sys, next, r, n);
      end, k := RunCanEnd(cfg, next, n + 1);
    } else {
      end, k := sys, n;
    }
  }

  lemma StartIsReachable(cfg: Config) returns (sys: System)
    requires cfg.Valid()
    ensures Init(cfg, sys) && Reachable(cfg, sys, 0)
  {
    sys := System(seq(cfg.Size(), _ => Begin()), NotYet);
  }

  /** Whatever the configuration, some run ends. */
  lemma SomeRunEnds(cfg: Config) returns (end: System, k: nat)
    requires cfg.Valid()
    ensures Reachable(cfg, end, k) && !SomebodyEnabled(end) && |end.ranks| == cfg.Size()
  {
    var sys := StartIsReachable(cfg);
    end, k := RunCanEnd(cfg, sys, 0);
  }

  lemma {:induction false} NothingToCount(pools: seq<PoolValue>, t: ObjType)
    requires forall k :: 0 <= k < |pools| ==> pools[k].Devices(t) == []
    ensures CountDevices(pools, t) == 0
  {
    if pools != [] { NothingToCount(pools[..|pools| - 1], t); }
  }

  /** Two ranks, one of which asks for colour 0 and the other for no valid policy, end up hanging. */
  lemma TwoRanksHang() returns (cfg: Config, end: System, k: nat)
    ensures cfg.Valid() && cfg.colors == [0, -1]
    ensures Reachable(cfg, end, k) && !SomebodyEnabled(end) && |end.ranks| == 2 && NobodyFinished(end)
  {
    var none := PoolValue({}, map[]);
    cfg := Config([1, 2], [{0}, {1}], [0, -1], [none, none], [{0}, {1}], 2, Machine);
    forall t ensures CountDevices(cfg.hwpools, t) == 0 { NothingToCount(cfg.hwpools, t); }
    end, k := SomeRunEnds(cfg);
    var base := AllOrNobodyFinishes(cfg, end, k);
    assert cfg.colors[0] == 0 && cfg.colors[1] == -1;
  }

  /** The root has not come to the scatter of the colours, and is not going to miss it. */
  ghost predicate BeforeScatter(sys: System)
    requires 0 < |sys.ranks|
  {
    var root := sys.ranks[ROOT];
    root.pc <= COLORS && (root.pc == COLORS ==> !root.waiting)
  }

  /** The result, once there is one, is a success without colours. */
  ghost predicate NoColors(cfg: Config, computed: Computed) {
    computed == NotYet || (computed.Done? && computed.rc == QV_SUCCESS && |computed.colors| < cfg.Size())
  }

  lemma PackedHasNoColors(cfg: Config, computed: Computed)
    requires cfg.Valid() && ResultOk(cfg, computed) && AllAre(cfg.colors, QV_SCOPE_SPLIT_PACKED)
    requires forall union :: IsUnion(cfg.hwpools, union) ==> cfg.Pieces(union) == []
    ensures NoColors(cfg, computed)
  {
    if computed != NotYet {
      var base :| ResultFrom(cfg, base, computed);
      ResultMeans(cfg, base, computed);
    }
  }

  lemma StepBeforeScatter(cfg: Config, sys: System, sys': System, r: nat)
    requires cfg.Valid() && |sys.ranks| == cfg.Size() && r < |sys.ranks| && Step(cfg, sys, sys', r)
    requires RankOk(cfg, sys.computed, ROOT, sys.ranks[ROOT]) && NoColors(cfg, sys.computed)
    requires NoColors(cfg, sys'.computed) && BeforeScatter(sys) && !Overruns(cfg, sys, ROOT)
    ensures |sys'.ranks| == |sys.ranks| && (RankOk(cfg, sys'.computed, ROOT, sys'.ranks[ROOT]) ==> BeforeScatter(sys'))
  {
  }

  lemma ReachableRoot(cfg: Config, sys: System, n: nat)
    requires cfg.Valid() && Reachable(cfg, sys, n)
    ensures 0 < |sys.ranks| == cfg.Size() && ResultOk(cfg, sys.computed)
    ensures RankOk(cfg, sys.computed, ROOT, sys.ranks[ROOT])
  {
    ReachableInv(cfg, sys, n);
  }

  lemma NextBeforeScatter(cfg: Config, sys: System, n: nat) returns (next: System)
    requires cfg.Valid() && Reachable(cfg, sys, n) && 0 < |sys.ranks|
    requires BeforeScatter(sys) && !Overruns(cfg, sys, ROOT)
    requires AllAre(cfg.colors, QV_SCOPE_SPLIT_PACKED)
    requires forall union :: IsUnion(cfg.hwpools, union) ==> cfg.Pieces(union) == []
    ensures Reachable(cfg, next, n + 1) && n + 1 <= 17 * cfg.Size() && 0 < |next.ranks| && BeforeScatter(next)
  {
    hide Reachable, Step, RankOk, NoColors, ResultOk, Overruns;
    if !SomebodyEnabled(sys) {
      StuckMeansOver(cfg, sys, n);
    }
    var r;
    r, next := NextStep(cfg, sys, n);
    OneMoreReachable(cfg, sys, next, r, n);
    ReachableRoot(cfg, sys, n);
    ReachableRoot(cfg, next, n + 1);
    PackedHasNoColors(cfg, sys.computed);
    PackedHasNoColors(cfg, next.computed);
    StepBeforeScatter(cfg, sys, next, r);
  }

  /** Without pieces the packed policy brings the root to a scatter for which it has no colours. */
  lemma {:induction false} RunCanOverrun(cfg: Config, sys: System, n: nat) returns (there: System, k: nat)
    requires cfg.Valid() && Reachable(cfg, sys, n) && 0 < |sys.ranks| && BeforeScatter(sys)
    requires AllAre(cfg.colors, QV_SCOPE_SPLIT_PACKED)
    requires forall union :: IsUnion(cfg.hwpools, union) ==> cfg.Pieces(union) == []
    ensures Reachable(cfg, there, k) && 0 < |there.ranks| && Overruns(cfg, there, ROOT)
    decreases 17 * cfg.Size() - n
  {
    hide Reachable, Step, Overruns, BeforeScatter, IsUnion, Config.Pieces;
    if Overruns(cfg, sys, ROOT) {
      there, k := sys, n;
    } else {
      var next := NextBeforeScatter(cfg, sys, n);
      there, k := RunCanOverrun(cfg, next, n + 1);
    }
  }

  /** Without pieces the packed policy may end either way. */
  lemma PackedMayEndEitherWay(cfg: Config) returns (good: System, k: nat, bad: System, l: nat)
    requires cfg.Valid() && AllAre(cfg.colors, QV_SCOPE_SPLIT_PACKED)
    requires forall union :: IsUnion(cfg.hwpools, union) ==> cfg.Pieces(union) == []
    ensures Reachable(cfg, good, k) && !SomebodyEnabled(good) && AllFinished(good)
    ensures Reachable(cfg, bad, l) && !SomebodyEnabled(bad) && NobodyFinished(bad)
  {
    var sys := StartIsReachable(cfg);
    var there, n := RunCanOverrun(cfg, sys, 0);
    good, k := GoodEnd(cfg, there, n);
    bad, l := BadEnd(cfg, there, n);
  }

  lemma GoodEnd(cfg: Config, there: System, n: nat) returns (end: System, k: nat)
    requires cfg.Valid() && Reachable(cfg, there, n) && 0 < |there.ranks| && Overruns(cfg, there, ROOT)
    ensures Reachable(cfg, end, k) && !SomebodyEnabled(end) && AllFinished(end)
  {
    hide Reachable, Step, RankOk, Overruns, SomebodyEnabled, AllFinished;
    var next := GoesOn(cfg, there, n);
    OneMoreReachable(cfg, there, next, ROOT, n);
    end, k := RunCanEnd(cfg, next, n + 1);
    LateRunIsOver(cfg, end, k);
  }

  lemma GoesOn(cfg: Config, there: System, n: nat) returns (next: System)
    requires cfg.Valid() && Reachable(cfg, there, n) && 0 < |there.ranks| && Overruns(cfg, there, ROOT)
    ensures |there.ranks| == cfg.Size() && Step(cfg, there, next, ROOT)
    ensures 0 < |next.ranks| && 7 <= |next.ranks[ROOT].calls|
  {
    ReachableInv(cfg, there, n);
    var root := there.ranks[ROOT];
    assert RankOk(cfg, there.computed, ROOT, root);
    var found := there.computed.colors;
    var read := found + seq(cfg.Size() - |found|, _ => QV_SCOPE_SPLIT_PACKED);
    next := there.(ranks := there.ranks[ROOT := root.(
                     waiting := true, calls := root.calls + [ScatterColors(read)])]);
    assert GoesOnWith(cfg, there, next, ROOT, read);
  }

  lemma LateRunIsOver(cfg: Config, sys: System, n: nat)
    requires cfg.Valid() && Reachable(cfg, sys, n) && 0 < |sys.ranks| && 7 <= |sys.ranks[ROOT].calls|
    requires !SomebodyEnabled(sys)
    ensures AllFinished(sys)
  {
    ReachableRoot(cfg, sys, n);
    StuckMeansOver(cfg, sys, n);
  }

  lemma BadEnd(cfg: Config, there: System, n: nat) returns (end: System, k: nat)
    requires cfg.Valid() && Reachable(cfg, there, n) && 0 < |there.ranks| && Overruns(cfg, there, ROOT)
    ensures Reachable(cfg, end, k) && !SomebodyEnabled(end) && NobodyFinished(end)
  {
    ReachableSize(cfg, there, n);
    var next := there.(ranks := there.ranks[ROOT := there.ranks[ROOT].(pc := CRASHED)]);
    assert Step(cfg, there, next, ROOT) by { assert Crashes(cfg, there, next, ROOT); }
    hide Reachable, Step, Overruns, SomebodyEnabled, Finished;
    OneMoreReachable(cfg, there, next, ROOT, n);
    end, k := RunCanEnd(cfg, next, n + 1);
    forall r: nat | r < |end.ranks| ensures !Finished(end.ranks[r]) {
      RaisedMeansNobodyFinishes(cfg, end, k, r);
    }
  }

  // ----- what the ranks end up with

  /** The root's computation, by the code that computes it: the union of the gathered pools is split. */
  method RootSplit(cfg: Config, root: Rank) returns (computed: Computed)
    requires cfg.Valid() && root.requested == cfg.colors && root.affinities == cfg.affinities
    requires root.hwpools == cfg.hwpools
    ensures RootComputes(cfg, root, computed)
    ensures exists union, pieces ::
              && IsUnion(cfg.hwpools, union)
              && CutInto(
                   cfg.pus, union, cfg.objType, if cfg.npieces <= |cfg.colors| then cfg.npieces else |cfg.colors|, pieces)
              && Yields(cfg, union, pieces, computed)
  {
    hide CutInto, IsUnion, IsSplit;
    var gathered := UnpackPools(root.hwpools);
    var base := SetUnion(gathered);
    ghost var union := base.Value();
    forall t ensures |base.Devices(t)| + cfg.Size() <= StableMatching.FREE {
      UnionIsNoLarger(cfg.hwpools, union, t);
    }
    var hwsplit := new Splitter(cfg.Size(), cfg.npieces, cfg.objType, cfg.pus, base);
    hwsplit.Receive(root.requested, root.affinities);
    var r := hwsplit.MSplit();
    ghost var pieces := hwsplit.splitCpusets;
    match r {
      case Returned(rc) => computed := Done(rc, hwsplit.colors, Values(hwsplit.hwpools));
      case _ => computed := Raised;
    }
    assert RootComputesFrom(cfg, root, union, computed);
    assert Yields(cfg, union, pieces, computed);
  }

  /** The result of splitting `base` into `pieces`. */
  ghost predicate Yields(cfg: Config, base: PoolValue, pieces: seq<Bitmap>, computed: Computed)
    requires 0 < |cfg.colors| == |cfg.affinities|
  {
    match SplitOutcome(cfg.colors, pieces)
    case Returned(rc) =>
      && computed.Done? && computed.rc == rc
      && (rc == QV_SUCCESS ==> IsSplit(cfg.colors, cfg.affinities, base, pieces, computed.colors, computed.pools))
    case _ => computed == Raised
  }

  /** The pools as they arrive: one new object for each. */
  method UnpackPools(values: seq<PoolValue>) returns (pools: seq<HwPool>)
    ensures fresh(pools) && Values(pools) == values
    ensures forall p :: p in pools ==> p.Value() in values
  {
    pools := [];
    for i := 0 to |values|
      invariant fresh(pools) && |pools| == i
      invariant forall j :: 0 <= j < i ==> pools[j].Value() == values[j]
    {
      var pool := new HwPool.Unpacked(values[i]);
      pools := pools + [pool];
    }
  }

  /** Every rank that succeeds holds the root's pool for it, and the pools are a split of the union of the ranks'
      pools. If there are pieces it holds the root's colour too, and two ranks share their cpuset exactly when they
      have the same colour; success without pieces is that of the packed policy, and leaves every cpuset empty. */
  lemma RanksHoldTheSplit(cfg: Config, sys: System, steps: nat, i: nat, j: nat) returns (base: PoolValue)
    requires cfg.Valid() && Reachable(cfg, sys, steps) && PairwiseDisjoint(cfg.pus)
    requires i < |sys.ranks| && j < |sys.ranks| && sys.ranks[i].pc == SUCCEEDED && sys.ranks[j].pc == SUCCEEDED
    ensures IsUnion(cfg.hwpools, base) && sys.computed.Done?
    ensures IsSplit(cfg.colors, cfg.affinities, base, cfg.Pieces(base), sys.computed.colors, sys.computed.pools)
    ensures CutInto(
              cfg.pus, base, cfg.objType, if cfg.npieces <= |cfg.colors| then cfg.npieces else |cfg.colors|,
              cfg.Pieces(base))
    ensures i < |sys.computed.pools| && sys.ranks[i].pool == sys.computed.pools[i]
    ensures cfg.Pieces(base) == [] ==> AllAre(cfg.colors, QV_SCOPE_SPLIT_PACKED) && sys.ranks[i].pool.cpus == {}
    ensures cfg.Pieces(base) != [] ==>
              && i < |sys.computed.colors| && sys.ranks[i].color == sys.computed.colors[i]
              && (sys.ranks[i].color == sys.ranks[j].color <==> sys.ranks[i].pool.cpus == sys.ranks[j].pool.cpus)
              && (sys.ranks[i].color != sys.ranks[j].color <==> sys.ranks[i].pool.cpus !! sys.ranks[j].pool.cpus)
  {
    ReachableInv(cfg, sys, steps);
    assert RankOk(cfg, sys.computed, i, sys.ranks[i]) && RankOk(cfg, sys.computed, j, sys.ranks[j]);
    assert DataOk(cfg, sys.computed, i, sys.ranks[i]) && DataOk(cfg, sys.computed, j, sys.ranks[j]);
    base :| ResultFrom(cfg, base, sys.computed);
    ResultMeans(cfg, base, sys.computed);
    PiecesAreCut(cfg.pus, base, cfg.objType, cfg.npieces, cfg.Size());
    if cfg.Pieces(base) != [] {
      ColorsDecideCpusets(
        cfg.pus, PrimaryCpuset(base, cfg.objType), Min(cfg.npieces, cfg.Size()), cfg.colors, cfg.affinities, base,
        sys.computed.colors, sys.computed.pools, i, j);
    }
  }

  /** Every rank has succeeded, with its pool of the split of `base`. */
  ghost predicate AllHold(cfg: Config, sys: System, base: PoolValue, q: nat, pieces: seq<Bitmap>) {
    && sys.computed.Done? && |sys.ranks| == |sys.computed.pools| == |cfg.colors|
    && CutSplit(
         cfg.pus, base, cfg.objType, q, cfg.colors, cfg.affinities, pieces, sys.computed.colors, sys.computed.pools)
    && forall r :: 0 <= r < |sys.ranks| ==> sys.ranks[r].pool == sys.computed.pools[r]
  }

  lemma AllHoldTheSplit(cfg: Config, sys: System, steps: nat, q: nat) returns (base: PoolValue, pieces: seq<Bitmap>)
    requires cfg.Valid() && Reachable(cfg, sys, steps) && PairwiseDisjoint(cfg.pus)
    requires forall r :: 0 <= r < |sys.ranks| ==> sys.ranks[r].pc == SUCCEEDED
    requires q == if cfg.npieces <= |cfg.colors| then cfg.npieces else |cfg.colors|
    ensures IsUnion(cfg.hwpools, base) && AllHold(cfg, sys, base, q, pieces)
  {
    hide Reachable, CutInto, IsSplit, IsUnion;
    ReachableSize(cfg, sys, steps);
    base := RanksHoldTheSplit(cfg, sys, steps, 0, 0);
    pieces := cfg.Pieces(base);
    SplitSize(cfg, base, pieces, sys.computed);
    forall r: nat | r < |sys.ranks| ensures sys.ranks[r].pool == sys.computed.pools[r] {
      var base' := RanksHoldTheSplit(cfg, sys, steps, r, r);
    }
  }

  lemma SplitSize(cfg: Config, base: PoolValue, pieces: seq<Bitmap>, computed: Computed)
    requires |cfg.affinities| == |cfg.colors| > 0 && computed.Done?
    requires IsSplit(cfg.colors, cfg.affinities, base, pieces, computed.colors, computed.pools)
    ensures |computed.pools| == |cfg.colors|
  {
  }

  /** What the ranks of a successful split share out, said about the units of the united pools. Each rank's cpuset is
      an even share of them, or empty if there are too few units or no pieces were asked for; in a split at a device
      type no rank has anything that no device is near to. The ranks of a packed or spread split hold as many
      different cpusets as were asked for, at most one each, and leave no unit out. */
  lemma RanksShareTheUnits(cfg: Config, sys: System, steps: nat, q: nat) returns (base: PoolValue)
    requires cfg.Valid() && Reachable(cfg, sys, steps) && PairwiseDisjoint(cfg.pus)
    requires forall r :: 0 <= r < |sys.ranks| ==> sys.ranks[r].pc == SUCCEEDED
    requires q == if cfg.npieces <= |cfg.colors| then cfg.npieces else |cfg.colors|
    ensures IsUnion(cfg.hwpools, base)
    ensures forall r, x :: 0 <= r < |sys.ranks| && x in sys.ranks[r].pool.cpus ==> Divides(base, cfg.objType, x)
    ensures var units := Units(cfg.pus, base, cfg.objType);
            if 0 < q <= |units| then
              && (forall r :: 0 <= r < |sys.ranks| ==> HasShare(cfg.pus, sys.ranks[r].pool.cpus, |units|, q))
              && (AllAre(cfg.colors, QV_SCOPE_SPLIT_PACKED) || AllAre(cfg.colors, QV_SCOPE_SPLIT_SPREAD) ==>
                    && |set r | 0 <= r < |sys.ranks| :: sys.ranks[r].pool.cpus| == q
                    && forall p :: p in units ==> IsHeld(cfg.pus, sys, p))
            else forall r :: 0 <= r < |sys.ranks| ==> sys.ranks[r].pool.cpus == {}
  {
    hide Reachable, AllHold, HasShare, IsHeld, Units, Divides, IsUnion, AllAre, PairwiseDisjoint;
    var pieces;
    base, pieces := AllHoldTheSplit(cfg, sys, steps, q);
    forall r, x | 0 <= r < |sys.ranks| && x in sys.ranks[r].pool.cpus ensures Divides(base, cfg.objType, x) {
      RankStaysInside(cfg, sys, base, q, pieces, r, x);
    }
    forall r: nat | r < |sys.ranks|
      ensures var n := |Units(cfg.pus, base, cfg.objType)|;
              if 0 < q <= n then HasShare(cfg.pus, sys.ranks[r].pool.cpus, n, q) else sys.ranks[r].pool.cpus == {}
    {
      RankHasItsShare(cfg, sys, base, q, pieces, r);
    }
    if 0 < q <= |Units(cfg.pus, base, cfg.objType)| {
      if AllAre(cfg.colors, QV_SCOPE_SPLIT_PACKED) || AllAre(cfg.colors, QV_SCOPE_SPLIT_SPREAD) {
        RanksHoldAllPieces(cfg, sys, base, q, pieces);
      }
    }
  }

  /** One of `q` even shares of `n` units. */
  ghost predicate HasShare(pus: Level, cpuset: Bitmap, n: nat, q: nat)
    requires q > 0
  {
    |PlacesIn(pus, cpuset)| == n / q || (|PlacesIn(pus, cpuset)| == n / q + 1 && n % q > 0)
  }

  /** Some rank has all of unit `p`. */
  ghost predicate IsHeld(pus: Level, sys: System, p: nat) {
    p < |pus| && exists r :: 0 <= r < |sys.ranks| && pus[p] <= sys.ranks[r].pool.cpus
  }

  lemma RankStaysInside(
      cfg: Config, sys: System, base: PoolValue, q: nat, pieces: seq<Bitmap>, r: nat, x: nat)
    requires AllHold(cfg, sys, base, q, pieces) && r < |sys.ranks| && x in sys.ranks[r].pool.cpus
    ensures Divides(base, cfg.objType, x)
  {
    hide CutSplit;
    TaskStaysInside(
      cfg.pus, base, cfg.objType, q, cfg.colors, cfg.affinities, pieces, sys.computed.colors, sys.computed.pools, r, x);
  }

  lemma RankHasItsShare(cfg: Config, sys: System, base: PoolValue, q: nat, pieces: seq<Bitmap>, r: nat)
    requires AllHold(cfg, sys, base, q, pieces) && r < |sys.ranks| && PairwiseDisjoint(cfg.pus)
    ensures var n := |Units(cfg.pus, base, cfg.objType)|;
            if 0 < q <= n then HasShare(cfg.pus, sys.ranks[r].pool.cpus, n, q) else sys.ranks[r].pool.cpus == {}
  {
    hide CutSplit, PlacesIn, Units, PairwiseDisjoint;
    TaskHasItsShare(
      cfg.pus, base, cfg.objType, q, cfg.colors, cfg.affinities, pieces, sys.computed.colors, sys.computed.pools, r);
  }

  lemma RanksHoldAllPieces(cfg: Config, sys: System, base: PoolValue, q: nat, pieces: seq<Bitmap>)
    requires AllHold(cfg, sys, base, q, pieces) && PairwiseDisjoint(cfg.pus)
    requires AllAre(cfg.colors, QV_SCOPE_SPLIT_PACKED) || AllAre(cfg.colors, QV_SCOPE_SPLIT_SPREAD)
    requires 0 < q <= |Units(cfg.pus, base, cfg.objType)|
    ensures |set r | 0 <= r < |sys.ranks| :: sys.ranks[r].pool.cpus| == q
    ensures forall p :: p in Units(cfg.pus, base, cfg.objType) ==> IsHeld(cfg.pus, sys, p)
  {
    var pools := sys.computed.pools;
    PoliciesMakeAllCpusets(
      cfg.pus, base, cfg.objType, q, cfg.colors, cfg.affinities, pieces, sys.computed.colors, pools);
    forall p | p in Units(cfg.pus, base, cfg.objType) ensures IsHeld(cfg.pus, sys, p) {
      CutPoliciesUseAll(cfg, sys, base, q, pieces);
      UnitsAreCovered(
        cfg.pus, base, cfg.objType, q, cfg.colors, cfg.affinities, pieces, sys.computed.colors, pools, p);
      var r :| 0 <= r < |pools| && cfg.pus[p] <= pools[r].cpus;
      assert cfg.pus[p] <= sys.ranks[r].pool.cpus;
    }
    assert (set r | 0 <= r < |sys.ranks| :: sys.ranks[r].pool.cpus) == set i | 0 <= i < |pools| :: pools[i].cpus;
  }

  lemma CutPoliciesUseAll(cfg: Config, sys: System, base: PoolValue, q: nat, pieces: seq<Bitmap>)
    requires AllHold(cfg, sys, base, q, pieces) && 0 < q <= |Units(cfg.pus, base, cfg.objType)|
    requires AllAre(cfg.colors, QV_SCOPE_SPLIT_PACKED) || AllAre(cfg.colors, QV_SCOPE_SPLIT_SPREAD)
    ensures pieces != [] && UsesAllPieces(sys.computed.colors, |pieces|)
  {
    PoliciesUseAllPieces(cfg.colors, cfg.affinities, pieces, sys.computed.colors);
  }
}
