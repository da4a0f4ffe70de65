/**
 The close mapping in closed form. The market that affinities describe has one
 stable matching, and it is what two rounds of serving the sources in order give:
 first each source takes the best destination it wants that has room, then each
 source left over takes the best destination that has room.
 */
module Rounds {
  import opened Affinity
  import opened Solver
  import opened Sorting
  import opened StableMatching

  // ----- what the proofs use of stability

  ghost predicate Earned(aff: AffinityMap, w: map<nat, Slot>, t: Slot, s: nat, o: nat) {
    o in w && w[o] == t && SourceLess(aff, t.dest, o, s)
  }

  /** `s` would rather have `t` only if `t` is held by a source its destination would rather have. */
  ghost predicate NoEnvyOf(aff: AffinityMap, cont: map<nat, nat>, m: nat, w: map<nat, Slot>, s: nat, t: Slot)
    requires s in w
  {
    SlotLess(Wants(aff, s, m), cont, t, w[s]) ==> exists o :: Earned(aff, w, t, s, o)
  }

  /** One slot each, of `m` destinations with `k` slots, and nobody envies without cause. */
  ghost predicate Fair(aff: AffinityMap, cont: map<nat, nat>, n: nat, m: nat, k: nat, w: map<nat, Slot>) {
    && InRange(n, m, aff) && w.Keys == Upto(n)
    && (forall s :: s in w ==> w[s].dest < m && w[s].index < k)
    && (forall s, o :: s in w && o in w && w[s] == w[o] ==> s == o)
    && (forall s, t: Slot {:trigger NoEnvyOf(aff, cont, m, w, s, t)} :: s in w && t.dest < m && t.index < k ==>
          NoEnvyOf(aff, cont, m, w, s, t))
  }

  lemma StableIsFair(mk: Market, n: nat, m: nat, aff: AffinityMap, w: map<nat, Slot>)
    requires Describes(mk, n, m, aff) && mk.WellFormed() && Stable(mk, w)
    ensures Fair(aff, ContentionMap(m, aff), n, m, MaxIPerK(n, m), w)
  {
    var cont := ContentionMap(m, aff);
    forall s, t: Slot | s in w && t.dest < m && t.index < MaxIPerK(n, m) ensures NoEnvyOf(aff, cont, m, w, s, t) {
      assert t in mk.slots;
      if SlotLess(Wants(aff, s, m), cont, t, w[s]) {
        var o := EnviedSlotIsEarned(mk, n, m, aff, w, s, t);
        assert Earned(aff, w, t, s, o);
      }
    }
  }

  lemma WantsIsAffinity(aff: AffinityMap, n: nat, m: nat, s: nat, d: nat)
    requires InRange(n, m, aff) && d < m
    ensures d in Wants(aff, s, m) <==> HasAffinity(aff, s, d)
  {
  }

  // ----- there is only one

  ghost predicate OnWanted(aff: AffinityMap, m: nat, w: map<nat, Slot>, s: nat) {
    s in w && w[s].dest in Wants(aff, s, m)
  }

  ghost predicate SameIfWanted(aff: AffinityMap, m: nat, a: map<nat, Slot>, b: map<nat, Slot>, s: nat)
    requires s in a && s in b
  {
    OnWanted(aff, m, a, s) || OnWanted(aff, m, b, s) ==> a[s] == b[s]
  }

  lemma WantedNotBetter(
      aff: AffinityMap, cont: map<nat, nat>, n: nat, m: nat, k: nat, a: map<nat, Slot>, b: map<nat, Slot>, s: nat)
    requires Fair(aff, cont, n, m, k, a) && Fair(aff, cont, n, m, k, b) && s < n && OnWanted(aff, m, a, s)
    requires forall o: nat :: o < s ==> SameIfWanted(aff, m, a, b, o)
    ensures !SlotLess(Wants(aff, s, m), cont, a[s], b[s])
  {
    var t := a[s];
    WantsIsAffinity(aff, n, m, s, t.dest);
    forall o: nat | o < s && HasAffinity(aff, o, t.dest) ensures b[o] != t {
      WantsIsAffinity(aff, n, m, o, t.dest);
      assert SameIfWanted(aff, m, a, b, o);
    }
    assert NoEnvyOf(aff, cont, m, b, s, t);
  }

  lemma {:induction false} SameWanted(
      aff: AffinityMap, cont: map<nat, nat>, n: nat, m: nat, k: nat, a: map<nat, Slot>, b: map<nat, Slot>, s: nat)
    requires Fair(aff, cont, n, m, k, a) && Fair(aff, cont, n, m, k, b) && s < n
    ensures SameIfWanted(aff, m, a, b, s)
    decreases s
  {
    forall o: nat | o < s ensures SameIfWanted(aff, m, a, b, o) && SameIfWanted(aff, m, b, a, o) {
      SameWanted(aff, cont, n, m, k, a, b, o);
    }
    if OnWanted(aff, m, a, s) { WantedNotBetter(aff, cont, n, m, k, a, b, s); }
    if OnWanted(aff, m, b, s) { WantedNotBetter(aff, cont, n, m, k, b, a, s); }
  }

  lemma LeftoverNotBetter(
      aff: AffinityMap, cont: map<nat, nat>, n: nat, m: nat, k: nat, a: map<nat, Slot>, b: map<nat, Slot>, s: nat)
    requires Fair(aff, cont, n, m, k, a) && Fair(aff, cont, n, m, k, b) && s < n
    requires forall o: nat :: o < n ==> SameIfWanted(aff, m, a, b, o)
    requires forall o: nat :: o < s ==> a[o] == b[o]
    ensures !SlotLess(Wants(aff, s, m), cont, a[s], b[s])
  {
    var t := a[s];
    forall o: nat | o < n && SourceLess(aff, t.dest, o, s) ensures b[o] != t {
      WantsIsAffinity(aff, n, m, o, t.dest);
      assert SameIfWanted(aff, m, a, b, o);
    }
    assert NoEnvyOf(aff, cont, m, b, s, t);
  }

  lemma {:induction false} FairIsUnique(
      aff: AffinityMap, cont: map<nat, nat>, n: nat, m: nat, k: nat, a: map<nat, Slot>, b: map<nat, Slot>, s: nat)
    requires Fair(aff, cont, n, m, k, a) && Fair(aff, cont, n, m, k, b) && s < n
    ensures a[s] == b[s]
    decreases s
  {
    forall o: nat | o < n ensures SameIfWanted(aff, m, a, b, o) && SameIfWanted(aff, m, b, a, o) {
      SameWanted(aff, cont, n, m, k, a, b, o);
    }
    forall o: nat | o < s ensures a[o] == b[o] {
      FairIsUnique(aff, cont, n, m, k, a, b, o);
    }
    LeftoverNotBetter(aff, cont, n, m, k, a, b, s);
    LeftoverNotBetter(aff, cont, n, m, k, b, a, s);
  }

  /** The market that affinities describe has at most one stable matching, so being best for the sources is being best
      for the destinations. */
  lemma StableMatchingIsUnique(mk: Market, n: nat, m: nat, aff: AffinityMap, a: map<nat, Slot>, b: map<nat, Slot>)
    requires Describes(mk, n, m, aff) && mk.WellFormed() && Stable(mk, a) && Stable(mk, b)
    ensures a == b
  {
    StableIsFair(mk, n, m, aff, a);
    StableIsFair(mk, n, m, aff, b);
    forall s | s in a ensures a[s] == b[s] {
      FairIsUnique(aff, ContentionMap(m, aff), n, m, MaxIPerK(n, m), a, b, s);
    }
  }

  // ----- two rounds

  /** Who is on destination `d` so far. */
  ghost function On(part: map<nat, nat>, d: nat): set<nat> {
    set s | s in part && part[s] == d
  }

  /** The destinations that have room. */
  ghost function Room(part: map<nat, nat>, m: nat, k: nat): set<nat> {
    set d | d in Upto(m) && |On(part, d)| < k
  }

  ghost predicate IsBest(wants: set<nat>, cont: map<nat, nat>, choice: set<nat>, d: nat) {
    d in choice && forall e :: e in choice && e != d ==> DestLess(wants, cont, d, e)
  }

  lemma DestOrderIsTotal(wants: set<nat>, cont: map<nat, nat>)
    ensures StrictTotalOrder(ByDest(wants, cont))
  {
  }

  lemma BestExists(wants: set<nat>, cont: map<nat, nat>, choice: set<nat>)
    requires choice != {}
    ensures exists d :: IsBest(wants, cont, choice, d)
  {
    DestOrderIsTotal(wants, cont);
    RankingExists(ByDest(wants, cont), choice);
    var list :| Ranks(ByDest(wants, cont), choice, list);
    var x :| x in choice;
    assert x in list;
    forall e | e in choice && e != list[0] ensures DestLess(wants, cont, list[0], e) {
      assert e in list;
      var i :| 0 <= i < |list| && list[i] == e;
      assert ByDest(wants, cont)(list[0], list[i]);
    }
    assert IsBest(wants, cont, choice, list[0]);
  }

  ghost function Best(wants: set<nat>, cont: map<nat, nat>, choice: set<nat>): (d: nat)
    requires choice != {}
    ensures IsBest(wants, cont, choice, d)
  {
    BestExists(wants, cont, choice);
    var d :| IsBest(wants, cont, choice, d);
    d
  }

  lemma BestIsUnique(wants: set<nat>, cont: map<nat, nat>, choice: set<nat>, d: nat)
    requires IsBest(wants, cont, choice, d)
    ensures Best(wants, cont, choice) == d
  {
  }

  ghost function Serve(part: map<nat, nat>, s: nat, wants: set<nat>, cont: map<nat, nat>, choice: set<nat>)
      : map<nat, nat>
  {
    if choice == {} then part else part[s := Best(wants, cont, choice)]
  }

  /** The sources below `upto` in turn take what they want most of what has room. */
  ghost function WantedRound(aff: AffinityMap, cont: map<nat, nat>, m: nat, k: nat, upto: nat): map<nat, nat> {
    if upto == 0 then map[]
    else
      var part, wants := WantedRound(aff, cont, m, k, upto - 1), Wants(aff, upto - 1, m);
      Serve(part, upto - 1, wants, cont, wants * Room(part, m, k))
  }

  /** After that, the sources left over below `upto` in turn take the best of what has room. */
  ghost function LeftoverRound(aff: AffinityMap, cont: map<nat, nat>, n: nat, m: nat, k: nat, upto: nat): map<nat, nat> {
    if upto == 0 then WantedRound(aff, cont, m, k, n)
    else
      var part := LeftoverRound(aff, cont, n, m, k, upto - 1);
      if upto - 1 in part then part
      else Serve(part, upto - 1, Wants(aff, upto - 1, m), cont, Room(part, m, k))
  }

  ghost function TwoRounds(aff: AffinityMap, n: nat, m: nat): map<nat, nat> {
    LeftoverRound(aff, ContentionMap(m, aff), n, m, MaxIPerK(n, m), n)
  }

  // ----- the stable matching, as far as the rounds have come

  /** A part of the matching, destinations only. */
  ghost predicate PartOf(part: map<nat, nat>, w: map<nat, Slot>) {
    forall s :: s in part ==> s in w && part[s] == w[s].dest
  }

  /** A destination still has room while one that is to get a slot there has not been served. */
  lemma RoomForMore(part: map<nat, nat>, w: map<nat, Slot>, s: nat, k: nat)
    requires PartOf(part, w) && s in w && s !in part
    requires forall o :: o in w ==> w[o].index < k
    requires forall a, b :: a in w && b in w && w[a] == w[b] ==> a == b
    ensures |On(part, w[s].dest)| < k
  {
    var d := w[s].dest;
    var holders := On(part, d) + {s};
    SlotsOfCard(d, k);
    Pigeonhole(w, holders, SlotsOf(d, k));
    assert |holders| == |On(part, d)| + 1;
  }

  /** The slot is held by somebody who has been served. */
  ghost predicate HeldWithin(part: map<nat, nat>, w: map<nat, Slot>, t: Slot) {
    exists o :: o in part && o in w && w[o] == t
  }

  /** A destination has no room when all its slots are held by sources that have been served. */
  lemma NoRoom(part: map<nat, nat>, w: map<nat, Slot>, d: nat, k: nat)
    requires PartOf(part, w)
    requires forall j: nat :: j < k ==> HeldWithin(part, w, Slot(d, j))
    ensures k <= |On(part, d)|
  {
    var holder := map j: nat | j in Upto(k) :: HolderWithin(part, w, Slot(d, j));
    forall j | j in Upto(k) ensures holder[j] in On(part, d) && w[holder[j]] == Slot(d, j) {
      assert HeldWithin(part, w, Slot(d, j));
    }
    UptoCard(k);
    Pigeonhole(holder, Upto(k), On(part, d));
  }

  ghost function HolderWithin(part: map<nat, nat>, w: map<nat, Slot>, t: Slot): (o: nat)
    ensures HeldWithin(part, w, t) ==> o in part && o in w && w[o] == t
  {
    if HeldWithin(part, w, t) then
      var o :| o in part && o in w && w[o] == t; o
    else 0
  }

  /** A better destination of an unserved source has no room if whoever earned its slots has been served. */
  ghost predicate EarnersServed(aff: AffinityMap, part: map<nat, nat>, w: map<nat, Slot>, s: nat, d: nat) {
    forall o: nat :: o in w && w[o].dest == d && SourceLess(aff, d, o, s) ==> o in part
  }

  lemma BetterHasNoRoom(
      aff: AffinityMap, cont: map<nat, nat>, n: nat, m: nat, k: nat, w: map<nat, Slot>, part: map<nat, nat>, s: nat, d: nat)
    requires Fair(aff, cont, n, m, k, w) && PartOf(part, w) && s < n && d < m
    requires DestLess(Wants(aff, s, m), cont, d, w[s].dest) && EarnersServed(aff, part, w, s, d)
    ensures d !in Room(part, m, k)
  {
    DestOrderIsTotal(Wants(aff, s, m), cont);
    assert !ByDest(Wants(aff, s, m), cont)(d, d);
    forall j: nat | j < k ensures HeldWithin(part, w, Slot(d, j)) {
      assert NoEnvyOf(aff, cont, m, w, s, Slot(d, j));
      var o :| Earned(aff, w, Slot(d, j), s, o);
      assert o in part;
    }
    NoRoom(part, w, d, k);
  }

  /** What an unserved source gets is the best choice that includes it and only better ones without room. */
  lemma GetsTheBest(wants: set<nat>, cont: map<nat, nat>, choice: set<nat>, d: nat)
    requires d in choice && forall e :: e in choice ==> !DestLess(wants, cont, e, d)
    ensures IsBest(wants, cont, choice, d)
  {
    DestOrderIsTotal(wants, cont);
    forall e | e in choice && e != d ensures DestLess(wants, cont, d, e) {
      assert ByDest(wants, cont)(d, e) || ByDest(wants, cont)(e, d);
    }
  }

  ghost function WantedPart(aff: AffinityMap, m: nat, w: map<nat, Slot>, upto: nat): map<nat, nat> {
    map s | s in w && s < upto && OnWanted(aff, m, w, s) :: w[s].dest
  }

  /** Before its turn, a source's better wanted destinations are those without room. */
  lemma WantedWithoutRoom(
      aff: AffinityMap, cont: map<nat, nat>, n: nat, m: nat, k: nat, w: map<nat, Slot>, s: nat, d: nat)
    requires Fair(aff, cont, n, m, k, w) && s < n && d in Wants(aff, s, m)
    requires DestLess(Wants(aff, s, m), cont, d, w[s].dest)
    ensures d < m && d !in Room(WantedPart(aff, m, w, s), m, k)
  {
    var part := WantedPart(aff, m, w, s);
    WantsIsAffinity(aff, n, m, s, d);
    forall o: nat | o in w && w[o].dest == d && SourceLess(aff, d, o, s) ensures o in part {
      WantsIsAffinity(aff, n, m, o, d);
    }
    BetterHasNoRoom(aff, cont, n, m, k, w, part, s, d);
  }

  /** A source has to do without what it wants exactly if, when its turn comes, nothing it wants has room. */
  lemma DeniedInRound(aff: AffinityMap, cont: map<nat, nat>, n: nat, m: nat, k: nat, w: map<nat, Slot>, s: nat)
    requires Fair(aff, cont, n, m, k, w) && s < n
    ensures !OnWanted(aff, m, w, s) <==> Wants(aff, s, m) * Room(WantedPart(aff, m, w, s), m, k) == {}
  {
    var part := WantedPart(aff, m, w, s);
    RoomForMore(part, w, s, k);
    if !OnWanted(aff, m, w, s) {
      forall d | d in Wants(aff, s, m) ensures d !in Room(part, m, k) {
        WantedWithoutRoom(aff, cont, n, m, k, w, s, d);
      }
    } else {
      assert w[s].dest in Wants(aff, s, m) * Room(part, m, k);
    }
  }

  lemma WantedTurn(aff: AffinityMap, cont: map<nat, nat>, n: nat, m: nat, k: nat, w: map<nat, Slot>, s: nat)
    requires Fair(aff, cont, n, m, k, w) && s < n && OnWanted(aff, m, w, s)
    ensures var choice := Wants(aff, s, m) * Room(WantedPart(aff, m, w, s), m, k);
            choice != {} && Best(Wants(aff, s, m), cont, choice) == w[s].dest
  {
    var part, d := WantedPart(aff, m, w, s), w[s].dest;
    var choice := Wants(aff, s, m) * Room(part, m, k);
    RoomForMore(part, w, s, k);
    forall e | e in choice ensures !DestLess(Wants(aff, s, m), cont, e, d) {
      if DestLess(Wants(aff, s, m), cont, e, d) {
        WantedWithoutRoom(aff, cont, n, m, k, w, s, e);
      }
    }
    GetsTheBest(Wants(aff, s, m), cont, choice, d);
    BestIsUnique(Wants(aff, s, m), cont, choice, d);
  }

  lemma WantedServe(aff: AffinityMap, cont: map<nat, nat>, n: nat, m: nat, k: nat, w: map<nat, Slot>, s: nat)
    requires Fair(aff, cont, n, m, k, w) && s < n
    ensures var part, wants := WantedPart(aff, m, w, s), Wants(aff, s, m);
            Serve(part, s, wants, cont, wants * Room(part, m, k)) == WantedPart(aff, m, w, s + 1)
  {
    DeniedInRound(aff, cont, n, m, k, w, s);
    if OnWanted(aff, m, w, s) { WantedTurn(aff, cont, n, m, k, w, s); }
    WantedPartStep(aff, m, w, s);
    hide WantedPart, Room, Wants;
  }

  lemma {:induction false} WantedRoundIsPart(
      aff: AffinityMap, cont: map<nat, nat>, n: nat, m: nat, k: nat, w: map<nat, Slot>, upto: nat)
    requires Fair(aff, cont, n, m, k, w) && upto <= n
    ensures WantedRound(aff, cont, m, k, upto) == WantedPart(aff, m, w, upto)
  {
    hide Fair, Serve, Room;
    if upto == 0 {
      assert WantedPart(aff, m, w, 0) == map[];
    } else {
      WantedRoundIsPart(aff, cont, n, m, k, w, upto - 1);
      WantedServe(aff, cont, n, m, k, w, upto - 1);
    }
  }

  lemma WantedPartStep(aff: AffinityMap, m: nat, w: map<nat, Slot>, s: nat)
    requires s in w
    ensures WantedPart(aff, m, w, s + 1) ==
            if OnWanted(aff, m, w, s) then WantedPart(aff, m, w, s)[s := w[s].dest] else WantedPart(aff, m, w, s)
  {
  }

  ghost function LeftoverPart(aff: AffinityMap, m: nat, w: map<nat, Slot>, upto: nat): map<nat, nat> {
    map s | s in w && (s < upto || OnWanted(aff, m, w, s)) :: w[s].dest
  }

  lemma LeftoverTurn(aff: AffinityMap, cont: map<nat, nat>, n: nat, m: nat, k: nat, w: map<nat, Slot>, s: nat)
    requires Fair(aff, cont, n, m, k, w) && s < n && !OnWanted(aff, m, w, s)
    ensures var choice := Room(LeftoverPart(aff, m, w, s), m, k);
            choice != {} && Best(Wants(aff, s, m), cont, choice) == w[s].dest
  {
    var part, d := LeftoverPart(aff, m, w, s), w[s].dest;
    var choice := Room(part, m, k);
    RoomForMore(part, w, s, k);
    forall e | e in choice ensures !DestLess(Wants(aff, s, m), cont, e, d) {
      if DestLess(Wants(aff, s, m), cont, e, d) {
        forall o: nat | o in w && w[o].dest == e && SourceLess(aff, e, o, s) ensures o in part {
          WantsIsAffinity(aff, n, m, o, e);
        }
        BetterHasNoRoom(aff, cont, n, m, k, w, part, s, e);
      }
    }
    GetsTheBest(Wants(aff, s, m), cont, choice, d);
    BestIsUnique(Wants(aff, s, m), cont, choice, d);
  }

  lemma {:induction false} LeftoverRoundIsPart(
      aff: AffinityMap, cont: map<nat, nat>, n: nat, m: nat, k: nat, w: map<nat, Slot>, upto: nat)
    requires Fair(aff, cont, n, m, k, w) && upto <= n
    ensures LeftoverRound(aff, cont, n, m, k, upto) == LeftoverPart(aff, m, w, upto)
  {
    hide Serve, Room, Fair, LeftoverPart;
    if upto == 0 {
      LeftoverStart(aff, cont, n, m, k, w);
    } else {
      LeftoverRoundIsPart(aff, cont, n, m, k, w, upto - 1);
      LeftoverServe(aff, cont, n, m, k, w, upto - 1);
    }
  }

  lemma LeftoverStart(aff: AffinityMap, cont: map<nat, nat>, n: nat, m: nat, k: nat, w: map<nat, Slot>)
    requires Fair(aff, cont, n, m, k, w)
    ensures WantedRound(aff, cont, m, k, n) == LeftoverPart(aff, m, w, 0)
  {
    WantedRoundIsPart(aff, cont, n, m, k, w, n);
    assert WantedPart(aff, m, w, n) == LeftoverPart(aff, m, w, 0);
  }

  lemma LeftoverServe(aff: AffinityMap, cont: map<nat, nat>, n: nat, m: nat, k: nat, w: map<nat, Slot>, s: nat)
    requires Fair(aff, cont, n, m, k, w) && s < n
    ensures var part := LeftoverPart(aff, m, w, s);
            LeftoverPart(aff, m, w, s + 1) ==
            if s in part then part else Serve(part, s, Wants(aff, s, m), cont, Room(part, m, k))
  {
    if !OnWanted(aff, m, w, s) { LeftoverTurn(aff, cont, n, m, k, w, s); }
    LeftoverPartStep(aff, m, w, s);
    hide LeftoverPart, Room, Wants;
  }

  lemma LeftoverPartStep(aff: AffinityMap, m: nat, w: map<nat, Slot>, s: nat)
    requires s in w
    ensures s in LeftoverPart(aff, m, w, s) <==> OnWanted(aff, m, w, s)
    ensures LeftoverPart(aff, m, w, s + 1) ==
            if OnWanted(aff, m, w, s) then LeftoverPart(aff, m, w, s) else LeftoverPart(aff, m, w, s)[s := w[s].dest]
  {
  }

  // ----- the close mapping

  ghost function AsSets(part: map<nat, nat>): map<nat, set<nat>> {
    map s | s in part :: {part[s]}
  }

  /** The stable matching puts every source where the two rounds do. */
  lemma StableIsTwoRounds(mk: Market, n: nat, m: nat, aff: AffinityMap, w: map<nat, Slot>)
    requires Describes(mk, n, m, aff) && mk.WellFormed() && Stable(mk, w)
    ensures DestMap(w) == AsSets(TwoRounds(aff, n, m))
  {
    StableIsFair(mk, n, m, aff, w);
    LeftoverRoundIsPart(aff, ContentionMap(m, aff), n, m, MaxIPerK(n, m), w, n);
  }

  lemma CloseIsTwoRounds(n: nat, m: nat, aff: AffinityMap, mapping: map<nat, set<nat>>)
    requires IsCloseMapping(n, m, aff, mapping)
    ensures mapping == AsSets(TwoRounds(aff, n, m))
  {
    var mk: Market, w: map<nat, Slot> :| IsSolution(n, m, aff, mk, w) && mapping == DestMap(w);
    StableIsTwoRounds(mk, n, m, aff, w);
  }

  /** The close mapping in closed form. */
  lemma CloseMappingIsTwoRounds(n: nat, m: nat, aff: AffinityMap, mapping: map<nat, set<nat>>)
    requires n <= FREE && InRange(n, m, aff) && (n > 0 ==> m > 0)
    ensures IsCloseMapping(n, m, aff, mapping) <==> mapping == AsSets(TwoRounds(aff, n, m))
  {
    if IsCloseMapping(n, m, aff, mapping) {
      CloseIsTwoRounds(n, m, aff, mapping);
    } else {
      var close := CloseMappingExists(n, m, aff);
      CloseIsTwoRounds(n, m, aff, close);
    }
  }

  /** All destinations that `s` wants are full when the first round comes to it. */
  ghost predicate CrowdedOut(aff: AffinityMap, n: nat, m: nat, s: nat) {
    forall d :: d in Wants(aff, s, m) ==>
      MaxIPerK(n, m) <= |On(WantedRound(aff, ContentionMap(m, aff), m, MaxIPerK(n, m), s), d)|
  }

  lemma CrowdedOutInRound(aff: AffinityMap, cont: map<nat, nat>, n: nat, m: nat, k: nat, w: map<nat, Slot>, s: nat)
    requires Fair(aff, cont, n, m, k, w) && s < n
    ensures !OnWanted(aff, m, w, s) <==>
            forall d :: d in Wants(aff, s, m) ==> k <= |On(WantedRound(aff, cont, m, k, s), d)|
  {
    WantedRoundIsPart(aff, cont, n, m, k, w, s);
    DeniedInRound(aff, cont, n, m, k, w, s);
    RoomOfWanted(WantedPart(aff, m, w, s), Wants(aff, s, m), m, k);
  }

  lemma RoomOfWanted(part: map<nat, nat>, wants: set<nat>, m: nat, k: nat)
    requires wants <= Upto(m)
    ensures wants * Room(part, m, k) == {} <==> forall d :: d in wants ==> k <= |On(part, d)|
  {
    if forall d :: d in wants ==> k <= |On(part, d)| {
      assert wants * Room(part, m, k) == {};
    } else {
      var d :| d in wants && |On(part, d)| < k;
      assert d in wants * Room(part, m, k);
    }
  }

  /** The exact condition for a source to end on a destination it has no affinity for. */
  lemma DeniedIffCrowdedOut(mk: Market, n: nat, m: nat, aff: AffinityMap, w: map<nat, Slot>, s: nat)
    requires Describes(mk, n, m, aff) && mk.WellFormed() && Stable(mk, w) && s < n
    ensures s in w && (w[s].dest !in Wants(aff, s, m) <==> CrowdedOut(aff, n, m, s))
  {
    StableIsFair(mk, n, m, aff, w);
    CrowdedOutInRound(aff, ContentionMap(m, aff), n, m, MaxIPerK(n, m), w, s);
    hide Describes, Market.WellFormed, Stable, Wants, MaxIPerK;
  }

  lemma CloseDeniedIff(n: nat, m: nat, aff: AffinityMap, mapping: map<nat, set<nat>>, s: nat)
    requires IsCloseMapping(n, m, aff, mapping) && s < n
    ensures s in mapping && (mapping[s] !! Wants(aff, s, m) <==> CrowdedOut(aff, n, m, s))
  {
    var mk: Market, w: map<nat, Slot> :| IsSolution(n, m, aff, mk, w) && mapping == DestMap(w);
    DeniedIffCrowdedOut(mk, n, m, aff, w, s);
    hide Describes, Market.WellFormed, SourceOptimal, CrowdedOut, Wants;
    assert mapping[s] == {w[s].dest};
  }
}
