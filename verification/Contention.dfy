/**
 The close mapping without markets, slots and proposals: a source is somewhere
 other than on the destination it wants, or the one that fewer sources want, only
 if that one is full, and with whom is said too. There is only one such mapping.
 */
module Contention {
  import opened Affinity
  import opened Mappers
  import opened Rounds
  import opened Solver
  import opened Sorting
  import opened StableMatching

  /** `e` is better for `s` than `d`: it is wanted and `d` is not; or both are or neither is, and fewer sources want
      `e`, or as many and its number is smaller. */
  ghost predicate Better(aff: AffinityMap, s: nat, e: nat, d: nat) {
    if HasAffinity(aff, s, e) != HasAffinity(aff, s, d) then HasAffinity(aff, s, e)
    else
      var wantE, wantD := |set o | o in aff && HasAffinity(aff, o, e)|, |set o | o in aff && HasAffinity(aff, o, d)|;
      wantE < wantD || (wantE == wantD && e < d)
  }

  /** `o` comes before `s` on `e`: if `s` wants `e`, as a smaller source that wants it too, and otherwise as one that
      wants it or is smaller. */
  ghost predicate Before(aff: AffinityMap, e: nat, o: nat, s: nat) {
    if HasAffinity(aff, s, e) then HasAffinity(aff, o, e) && o < s else HasAffinity(aff, o, e) || o < s
  }

  /** `e` is full, with sources that come before `s`. */
  ghost predicate FullBefore(n: nat, m: nat, aff: AffinityMap, mapping: Mapping, e: nat, s: nat) {
    |SourcesOf(mapping, e)| == MaxIPerK(n, m) && forall o :: o in SourcesOf(mapping, e) ==> Before(aff, e, o, s)
  }

  /** Each slot of a destination better than the one `s` is on is held by a source that comes before `s` there. */
  lemma BetterIsEarned(
      aff: AffinityMap, n: nat, m: nat, k: nat, w: map<nat, Slot>, s: nat, e: nat, j: nat) returns (o: nat)
    requires Fair(aff, ContentionMap(m, aff), n, m, k, w) && s in w && e < m && j < k
    requires Better(aff, s, e, w[s].dest)
    ensures o in w && w[o] == Slot(e, j) && Before(aff, e, o, s)
  {
    var cont, t := ContentionMap(m, aff), Slot(e, j);
    WantsIsAffinity(aff, n, m, s, e);
    WantsIsAffinity(aff, n, m, s, w[s].dest);
    assert NoEnvyOf(aff, cont, m, w, s, t);
    assert SlotLess(Wants(aff, s, m), cont, t, w[s]);
    o :| Earned(aff, w, t, s, o);
  }

  /** As many sources are on `e` as there are slots, if each slot has one. */
  lemma AllSlotsHeld(w: map<nat, Slot>, e: nat, k: nat)
    requires forall j: nat :: j < k ==> Holder(w, Slot(e, j)) in w && w[Holder(w, Slot(e, j))] == Slot(e, j)
    ensures k <= |OnDest(w, e)|
  {
    var holder := map j: nat | j in Upto(k) :: Holder(w, Slot(e, j));
    UptoCard(k);
    Pigeonhole(holder, Upto(k), OnDest(w, e));
  }

  lemma HolderComesBefore(aff: AffinityMap, n: nat, m: nat, k: nat, w: map<nat, Slot>, s: nat, e: nat, o: nat)
    requires Fair(aff, ContentionMap(m, aff), n, m, k, w) && s in w && e < m && Better(aff, s, e, w[s].dest)
    requires o in w && w[o].dest == e
    ensures Before(aff, e, o, s)
  {
    hide NoEnvyOf, Better, Before;
    var o' := BetterIsEarned(aff, n, m, k, w, s, e, w[o].index);
    assert w[o'] == w[o];
  }

  /** The sources on a destination better than the one `s` is on all come before `s` there, and fill it. */
  lemma BetterInMatching(aff: AffinityMap, n: nat, m: nat, k: nat, w: map<nat, Slot>, s: nat, e: nat)
    requires Fair(aff, ContentionMap(m, aff), n, m, k, w) && s in w && e < m && Better(aff, s, e, w[s].dest)
    ensures k <= |OnDest(w, e)|
    ensures forall o :: o in OnDest(w, e) ==> Before(aff, e, o, s)
  {
    hide Fair, Better, Before;
    forall j: nat | j < k ensures Holder(w, Slot(e, j)) in w && w[Holder(w, Slot(e, j))] == Slot(e, j) {
      var o := BetterIsEarned(aff, n, m, k, w, s, e, j);
    }
    AllSlotsHeld(w, e, k);
    forall o | o in OnDest(w, e) ensures Before(aff, e, o, s) {
      HolderComesBefore(aff, n, m, k, w, s, e, o);
    }
  }

  lemma BetterInSolution(
      mk: Market, n: nat, m: nat, aff: AffinityMap, w: map<nat, Slot>, s: nat, e: nat)
    requires IsSolution(n, m, aff, mk, w) && s in w && e < m && Better(aff, s, e, w[s].dest)
    ensures FullBefore(n, m, aff, DestMap(w), e, s)
  {
    hide IsSolution, Fair, Better, Before, MaxIPerK;
    SolutionIsFair(mk, n, m, aff, w);
    SolutionLoads(n, m, aff, mk, w, e);
    BetterInMatching(aff, n, m, MaxIPerK(n, m), w, s, e);
    SourcesOnDest(w, e);
    hide OnDest, SourcesOf;
  }

  lemma SolutionIsFair(mk: Market, n: nat, m: nat, aff: AffinityMap, w: map<nat, Slot>)
    requires IsSolution(n, m, aff, mk, w)
    ensures Fair(aff, ContentionMap(m, aff), n, m, MaxIPerK(n, m), w)
  {
    StableIsFair(mk, n, m, aff, w);
  }

  lemma SourcesOnDest(w: map<nat, Slot>, d: nat)
    ensures SourcesOf(DestMap(w), d) == OnDest(w, d)
  {
  }

  /** A source that is on `d` although `e` would be better for it found `e` full, with sources that come before it. */
  lemma BetterIsFull(n: nat, m: nat, aff: AffinityMap, mapping: Mapping, s: nat, d: nat, e: nat)
    requires IsCloseMapping(n, m, aff, mapping) && s in mapping && d in mapping[s] && e < m && Better(aff, s, e, d)
    ensures FullBefore(n, m, aff, mapping, e, s)
  {
    hide IsSolution, Better, FullBefore;
    var mk: Market, w: map<nat, Slot> :| IsSolution(n, m, aff, mk, w) && mapping == DestMap(w);
    assert mapping[s] == {w[s].dest};
    BetterInSolution(mk, n, m, aff, w, s, e);
  }

  /** A source that is on `d` although fewer sources want `e` (or as many, and `e` has the smaller number), both
      wanted by it or both not, found `e` full: with smaller sources that want `e`, if it wanted `e` itself, and
      otherwise with sources that want `e` or are smaller. */
  lemma ContentionDecides(n: nat, m: nat, aff: AffinityMap, mapping: Mapping, s: nat, d: nat, e: nat)
    requires IsCloseMapping(n, m, aff, mapping) && s in mapping && d in mapping[s] && e < m && e != d
    requires HasAffinity(aff, s, d) <==> HasAffinity(aff, s, e)
    requires var wantE, wantD :=
               |set o | o in aff && HasAffinity(aff, o, e)|, |set o | o in aff && HasAffinity(aff, o, d)|;
             wantE < wantD || (wantE == wantD && e < d)
    ensures |set o | o in mapping && e in mapping[o]| == MaxIPerK(n, m)
    ensures forall o :: o in mapping && e in mapping[o] ==>
              if HasAffinity(aff, s, e) then HasAffinity(aff, o, e) && o < s else HasAffinity(aff, o, e) || o < s
  {
    hide IsCloseMapping, MaxIPerK;
    assert Better(aff, s, e, d);
    BetterIsFull(n, m, aff, mapping, s, d, e);
    forall o | o in mapping && e in mapping[o] ensures Before(aff, e, o, s) {
      assert o in SourcesOf(mapping, e);
    }
    assert SourcesOf(mapping, e) == set o | o in mapping && e in mapping[o];
  }

  // ----- bitmaps

  /** The same for the close mapping of bitmaps, where wanting is sharing a bit. A source is on a destination it shares
      no bit with although it shares one with `e`, or on one that more sources share bits with, only if `e` is full. */
  lemma SharedBitsDecide(src: seq<Bitmap>, dst: seq<Bitmap>, mapping: Mapping, s: nat, d: nat, e: nat)
    requires IsCloseMapping(|src|, |dst|, AffinitiesOf(src, dst), mapping)
    requires s < |src| && s in mapping && d < |dst| && d in mapping[s] && e < |dst| && e != d
    requires if src[s] * dst[e] != {} && src[s] * dst[d] == {} then true
             else if src[s] * dst[e] == {} && src[s] * dst[d] != {} then false
             else
               var shareE, shareD :=
                 |set o: nat | o < |src| && src[o] * dst[e] != {}|, |set o: nat | o < |src| && src[o] * dst[d] != {}|;
               shareE < shareD || (shareE == shareD && e < d)
    ensures |set o | o in mapping && e in mapping[o]| == MaxIPerK(|src|, |dst|)
    ensures forall o :: o in mapping && e in mapping[o] ==>
              && o < |src|
              && if src[s] * dst[e] != {} then src[o] * dst[e] != {} && o < s else src[o] * dst[e] != {} || o < s
  {
    hide IsCloseMapping, MaxIPerK, AffinitiesOf;
    var aff := AffinitiesOf(src, dst);
    SharingIsAffinity(src, dst, d);
    SharingIsAffinity(src, dst, e);
    BetterIsFull(|src|, |dst|, aff, mapping, s, d, e);
    CloseMappingIsTotal(|src|, |dst|, aff, mapping);
    forall o | o in mapping && e in mapping[o] ensures Before(aff, e, o, s) {
      assert o in SourcesOf(mapping, e);
    }
    assert SourcesOf(mapping, e) == set o | o in mapping && e in mapping[o];
  }

  lemma SharingIsAffinity(src: seq<Bitmap>, dst: seq<Bitmap>, d: nat)
    requires d < |dst|
    ensures var aff := AffinitiesOf(src, dst);
            && (forall o: nat :: HasAffinity(aff, o, d) <==> o < |src| && src[o] * dst[d] != {})
            && (set o | o in aff && HasAffinity(aff, o, d)) == set o: nat | o < |src| && src[o] * dst[d] != {}
  {
    var aff := AffinitiesOf(src, dst);
    forall o: nat ensures HasAffinity(aff, o, d) <==> o < |src| && src[o] * dst[d] != {} {
      if o < |src| && src[o] * dst[d] != {} { assert d in Overlapping(src[o], dst); }
    }
  }

  // ----- there is only one such mapping

  /** Everybody has one destination, none has more than ceil(n / m), and a better one is full with sources that come
      before. */
  ghost predicate Rightful(n: nat, m: nat, aff: AffinityMap, mapping: Mapping) {
    && mapping.Keys == Upto(n)
    && (forall s :: s in mapping ==> exists d: nat :: d < m && mapping[s] == {d})
    && (forall d: nat :: d < m ==> |SourcesOf(mapping, d)| <= MaxIPerK(n, m))
    && forall s: nat, d: nat, e: nat :: s < n && e < m && Related(mapping, s, d) && Better(aff, s, e, d) ==>
         FullBefore(n, m, aff, mapping, e, s)
  }

  lemma CloseIsRightful(n: nat, m: nat, aff: AffinityMap, mapping: Mapping)
    requires IsCloseMapping(n, m, aff, mapping)
    ensures Rightful(n, m, aff, mapping)
  {
    hide IsCloseMapping, Better, Before, MaxIPerK;
    CloseMappingIsTotal(n, m, aff, mapping);
    forall d: nat | d < m ensures |SourcesOf(mapping, d)| <= MaxIPerK(n, m) {
      CloseMappingLoads(n, m, aff, mapping, d);
    }
    forall s: nat, d: nat, e: nat | s < n && e < m && Related(mapping, s, d) && Better(aff, s, e, d)
      ensures FullBefore(n, m, aff, mapping, e, s)
    {
      BetterIsFull(n, m, aff, mapping, s, d, e);
    }
  }

  /** `s` is on the same destination in both, if it is on one that it wants in either. */
  ghost predicate SameWantedDest(aff: AffinityMap, a: Mapping, b: Mapping, s: nat) {
    forall d: nat :: HasAffinity(aff, s, d) ==> (Related(a, s, d) <==> Related(b, s, d))
  }

  /** If `e` is full in `b` with sources that are on it in `a` too, there is no room for another one in `a`. */
  lemma NoRoomForAnother(a: Mapping, b: Mapping, e: nat, s: nat, k: nat)
    requires |SourcesOf(b, e)| == k && SourcesOf(b, e) <= SourcesOf(a, e) && |SourcesOf(a, e)| <= k
    ensures s in SourcesOf(a, e) ==> s in SourcesOf(b, e)
  {
    SubsetCard(SourcesOf(b, e), SourcesOf(a, e));
  }

  lemma WantedNotBetterThan(n: nat, m: nat, aff: AffinityMap, a: Mapping, b: Mapping, s: nat, d: nat, e: nat)
    requires Rightful(n, m, aff, a) && Rightful(n, m, aff, b) && s < n
    requires Related(a, s, e) && Related(b, s, d) && HasAffinity(aff, s, e)
    requires forall o: nat :: o < s ==> SameWantedDest(aff, a, b, o)
    ensures !Better(aff, s, e, d)
  {
    hide Better, HasAffinity, MaxIPerK;
    if Better(aff, s, e, d) {
      DestInRange(n, m, aff, a, s, e);
      assert FullBefore(n, m, aff, b, e, s);
      forall o | o in SourcesOf(b, e) ensures o in SourcesOf(a, e) && o < s {
        assert Before(aff, e, o, s);
        assert SameWantedDest(aff, a, b, o);
        assert Related(b, o, e) && Related(a, o, e);
      }
      NoRoomForAnother(a, b, e, s, MaxIPerK(n, m));
    }
  }

  lemma DestInRange(n: nat, m: nat, aff: AffinityMap, mapping: Mapping, s: nat, d: nat)
    requires Rightful(n, m, aff, mapping) && Related(mapping, s, d)
    ensures s < n && d < m && mapping[s] == {d}
  {
    var e: nat :| e < m && mapping[s] == {e};
    assert d in {e};
  }

  lemma BetterIsTotal(aff: AffinityMap, s: nat, d: nat, e: nat)
    ensures d == e || Better(aff, s, e, d) || Better(aff, s, d, e)
  {
  }

  lemma {:induction false} WantedDestsAgree(n: nat, m: nat, aff: AffinityMap, a: Mapping, b: Mapping, s: nat)
    requires Rightful(n, m, aff, a) && Rightful(n, m, aff, b) && s < n
    ensures SameWantedDest(aff, a, b, s)
    decreases s
  {
    forall o: nat | o < s ensures SameWantedDest(aff, a, b, o) && SameWantedDest(aff, b, a, o) {
      WantedDestsAgree(n, m, aff, a, b, o);
    }
    var d, e := DestOf(n, m, aff, a, s), DestOf(n, m, aff, b, s);
    BetterIsTotal(aff, s, d, e);
    if HasAffinity(aff, s, d) { WantedNotBetterThan(n, m, aff, a, b, s, e, d); }
    if HasAffinity(aff, s, e) { WantedNotBetterThan(n, m, aff, b, a, s, d, e); }
    WantedBeatsUnwanted(aff, s, d, e);
    hide Better, HasAffinity, Rightful;
  }

  lemma WantedBeatsUnwanted(aff: AffinityMap, s: nat, d: nat, e: nat)
    ensures HasAffinity(aff, s, d) && !HasAffinity(aff, s, e) ==> Better(aff, s, d, e)
    ensures HasAffinity(aff, s, e) && !HasAffinity(aff, s, d) ==> Better(aff, s, e, d)
  {
  }

  ghost function DestOf(n: nat, m: nat, aff: AffinityMap, mapping: Mapping, s: nat): (d: nat)
    requires Rightful(n, m, aff, mapping) && s < n
    ensures d < m && s in mapping && mapping[s] == {d}
    ensures forall e: nat :: Related(mapping, s, e) <==> e == d
  {
    assert s in mapping;
    var d: nat :| d < m && mapping[s] == {d};
    d
  }

  lemma OtherNotBetterThan(n: nat, m: nat, aff: AffinityMap, a: Mapping, b: Mapping, s: nat, d: nat, e: nat)
    requires Rightful(n, m, aff, a) && Rightful(n, m, aff, b) && s < n
    requires Related(a, s, e) && Related(b, s, d)
    requires forall o: nat :: o < n ==> SameWantedDest(aff, a, b, o)
    requires forall o: nat :: o < s ==> a[o] == b[o]
    ensures !Better(aff, s, e, d)
  {
    hide Better, HasAffinity, MaxIPerK;
    if Better(aff, s, e, d) {
      DestInRange(n, m, aff, a, s, e);
      DestInRange(n, m, aff, b, s, d);
      BetterIsOther(aff, s, e, d);
      assert FullBefore(n, m, aff, b, e, s);
      forall o | o in SourcesOf(b, e) ensures o in SourcesOf(a, e) {
        assert Before(aff, e, o, s);
        assert SameWantedDest(aff, a, b, o);
        assert Related(b, o, e);
        assert o < s ==> a[o] == b[o];
        assert Related(a, o, e);
      }
      NoRoomForAnother(a, b, e, s, MaxIPerK(n, m));
    }
  }

  lemma BetterIsOther(aff: AffinityMap, s: nat, e: nat, d: nat)
    requires Better(aff, s, e, d)
    ensures e != d
  {
  }

  lemma {:induction false} DestsAgree(n: nat, m: nat, aff: AffinityMap, a: Mapping, b: Mapping, s: nat)
    requires Rightful(n, m, aff, a) && Rightful(n, m, aff, b) && s < n
    ensures s in a && s in b && a[s] == b[s]
    decreases s
  {
    forall o: nat | o < n ensures SameWantedDest(aff, a, b, o) && SameWantedDest(aff, b, a, o) {
      WantedDestsAgree(n, m, aff, a, b, o);
    }
    forall o: nat | o < s ensures o in a && o in b && a[o] == b[o] {
      DestsAgree(n, m, aff, a, b, o);
    }
    var d, e := DestOf(n, m, aff, a, s), DestOf(n, m, aff, b, s);
    BetterIsTotal(aff, s, d, e);
    OtherNotBetterThan(n, m, aff, a, b, s, e, d);
    OtherNotBetterThan(n, m, aff, b, a, s, d, e);
  }

  lemma RightfulIsUnique(n: nat, m: nat, aff: AffinityMap, a: Mapping, b: Mapping)
    requires Rightful(n, m, aff, a) && Rightful(n, m, aff, b)
    ensures a == b
  {
    hide Better, MaxIPerK;
    forall s | s in a ensures s in b && a[s] == b[s] {
      DestsAgree(n, m, aff, a, b, s);
    }
    assert a.Keys == b.Keys;
  }

  /** The close mapping is the one rightful mapping. */
  lemma CloseIffRightful(n: nat, m: nat, aff: AffinityMap, mapping: Mapping)
    requires n <= FREE && InRange(n, m, aff) && (n > 0 ==> m > 0)
    ensures IsCloseMapping(n, m, aff, mapping) <==> Rightful(n, m, aff, mapping)
  {
    hide IsCloseMapping, Rightful;
    var close := CloseMappingExists(n, m, aff);
    CloseIsRightful(n, m, aff, close);
    if IsCloseMapping(n, m, aff, mapping) {
      CloseIsRightful(n, m, aff, mapping);
    }
    if Rightful(n, m, aff, mapping) {
      RightfulIsUnique(n, m, aff, mapping, close);
    }
  }

  // ----- the first source

  /** Source 0, if it wants anything, gets the destination it wants that the fewest sources want, and of several the
      one with the smallest number. */
  lemma FirstSourceChoosesLeastContended(n: nat, m: nat, aff: AffinityMap, mapping: Mapping, wanted: nat)
      returns (d: nat)
    requires IsCloseMapping(n, m, aff, mapping) && 0 < n && wanted < m && HasAffinity(aff, 0, wanted)
    ensures 0 in mapping && mapping[0] == {d} && d < m && HasAffinity(aff, 0, d)
    ensures forall e :: 0 <= e < m && e != d && HasAffinity(aff, 0, e) ==>
              var wantE, wantD :=
                |set o | o in aff && HasAffinity(aff, o, e)|, |set o | o in aff && HasAffinity(aff, o, d)|;
              wantD < wantE || (wantD == wantE && d < e)
  {
    d := FirstSourceIsOnWanted(n, m, aff, mapping, wanted);
    forall e | 0 <= e < m && e != d && HasAffinity(aff, 0, e)
      ensures var wantE, wantD :=
                |set o | o in aff && HasAffinity(aff, o, e)|, |set o | o in aff && HasAffinity(aff, o, d)|;
              wantD < wantE || (wantD == wantE && d < e)
    {
      var wantE, wantD := |set o | o in aff && HasAffinity(aff, o, e)|, |set o | o in aff && HasAffinity(aff, o, d)|;
      if wantE < wantD || (wantE == wantD && e < d) {
        // It would have been earned by a source before the first one.
        var o := SomebodyEarnedIt(n, m, aff, mapping, 0, d, e);
        assert false;
      }
    }
  }

  lemma FirstSourceIsOnWanted(n: nat, m: nat, aff: AffinityMap, mapping: Mapping, wanted: nat) returns (d: nat)
    requires IsCloseMapping(n, m, aff, mapping) && 0 < n && wanted < m && HasAffinity(aff, 0, wanted)
    ensures 0 in mapping && mapping[0] == {d} && d < m && HasAffinity(aff, 0, d)
  {
    var mk: Market, w: map<nat, Slot> :| IsSolution(n, m, aff, mk, w) && mapping == DestMap(w);
    WantsIsAffinity(aff, n, m, 0, wanted);
    FirstSourceIsSatisfied(mk, n, m, aff, w);
    d := w[0].dest;
    assert w[0] in mk.slots;
    WantsIsAffinity(aff, n, m, 0, d);
  }

  lemma SomebodyEarnedIt(n: nat, m: nat, aff: AffinityMap, mapping: Mapping, s: nat, d: nat, e: nat) returns (o: nat)
    requires IsCloseMapping(n, m, aff, mapping) && 0 < n && s in mapping && d in mapping[s] && e < m && e != d
    requires HasAffinity(aff, s, d) && HasAffinity(aff, s, e)
    requires var wantE, wantD :=
               |set o | o in aff && HasAffinity(aff, o, e)|, |set o | o in aff && HasAffinity(aff, o, d)|;
             wantE < wantD || (wantE == wantD && e < d)
    ensures o in mapping && e in mapping[o] && o < s
  {
    hide IsCloseMapping;
    ContentionDecides(n, m, aff, mapping, s, d, e);
    MaxIPerKIsPositive(n, m);
    var holders := set o | o in mapping && e in mapping[o];
    o :| o in holders;
  }

  /** Source 0 shares bits with both destinations, source 1 with destination 0 only: destination 1 is the less
      contended one, so source 0 leaves destination 0 to source 1. */
  lemma LeavesTheContendedOne(mapping: Mapping)
    requires IsCloseMapping(2, 2, AffinitiesOf([{0, 1}, {0}], [{0}, {1}]), mapping)
    ensures mapping == map[0 := {1}, 1 := {0}]
  {
    TwoAffinities();
    var aff: AffinityMap := map[0 := {0, 1}, 1 := {0}];
    FirstTakesOne(mapping, aff);
    OtherTakesZero(mapping, aff);
  }

  lemma FirstTakesOne(mapping: Mapping, aff: AffinityMap)
    requires IsCloseMapping(2, 2, aff, mapping) && aff == map[0 := {0, 1}, 1 := {0}]
    ensures 0 in mapping && mapping[0] == {1}
  {
    hide IsCloseMapping;
    var d := FirstSourceChoosesLeastContended(2, 2, aff, mapping, 0);
    assert (set o | o in aff && HasAffinity(aff, o, 0)) == {0, 1};
    assert (set o | o in aff && HasAffinity(aff, o, 1)) == {0};
  }

  lemma OtherTakesZero(mapping: Mapping, aff: AffinityMap)
    requires IsCloseMapping(2, 2, aff, mapping) && 0 in mapping && mapping[0] == {1}
    ensures mapping == map[0 := {1}, 1 := {0}]
  {
    hide IsCloseMapping;
    CloseMappingIsTotal(2, 2, aff, mapping);
    var e: nat :| e < 2 && mapping[1] == {e};
    if e == 1 { CloseMappingDoesNotShare(2, 2, aff, mapping, 0, 1, 1); }
    assert mapping.Keys == {0, 1};
  }

  lemma TwoAffinities()
    ensures AffinitiesOf([{0, 1}, {0}], [{0}, {1}]) == map[0 := {0, 1}, 1 := {0}]
  {
    var src: seq<Bitmap>, dst: seq<Bitmap> := [{0, 1}, {0}], [{0}, {1}];
    assert 0 in src[0] * dst[0] && 1 in src[0] * dst[1] && 0 in src[1] * dst[0];
    assert src[1] * dst[1] == {};
    assert Overlapping(src[0], dst) == {0, 1} && Overlapping(src[1], dst) == {0};
  }

  // ----- an empty set of affinities

  /** An empty set of affinities means any destination: it is as good as naming all of them. */
  lemma EmptyMeansAny(n: nat, m: nat, aff: AffinityMap, s: nat, mapping: Mapping)
    requires s in aff && aff[s] == {}
    ensures IsCloseMapping(n, m, aff, mapping) <==> IsCloseMapping(n, m, aff[s := Upto(m)], mapping)
  {
    var all := aff[s := Upto(m)];
    if IsCloseMapping(n, m, aff, mapping) {
      var mk: Market, w: map<nat, Slot> :| IsSolution(n, m, aff, mk, w) && mapping == DestMap(w);
      SameMarket(mk, n, m, aff, all, s);
      assert IsSolution(n, m, all, mk, w);
    }
    if IsCloseMapping(n, m, all, mapping) {
      var mk: Market, w: map<nat, Slot> :| IsSolution(n, m, all, mk, w) && mapping == DestMap(w);
      SameMarket(mk, n, m, aff, all, s);
      assert IsSolution(n, m, aff, mk, w);
    }
  }

  lemma SameMarket(mk: Market, n: nat, m: nat, aff: AffinityMap, all: AffinityMap, s: nat)
    requires s in aff && aff[s] == {} && all == aff[s := Upto(m)]
    ensures Describes(mk, n, m, aff) <==> Describes(mk, n, m, all)
  {
    assert InRange(n, m, aff) <==> InRange(n, m, all) by {
      assert forall o :: o in all && o != s ==> o in aff && all[o] == aff[o];
    }
    if InRange(n, m, aff) && InRange(n, m, all) {
      assert forall o: nat, d: nat :: d < m ==> (HasAffinity(aff, o, d) <==> HasAffinity(all, o, d));
      SameContention(m, aff, all);
      assert forall o :: Wants(aff, o, m) == Wants(all, o, m);
      forall t | t in mk.slots && t.dest < m ensures SlotListOk(mk, aff, t) <==> SlotListOk(mk, all, t) {
        SameSlotList(mk, aff, all, t);
      }
    }
  }

  lemma SameContention(m: nat, aff: AffinityMap, all: AffinityMap)
    requires aff.Keys == all.Keys
    requires forall o: nat, d: nat :: d < m ==> (HasAffinity(aff, o, d) <==> HasAffinity(all, o, d))
    ensures ContentionMap(m, aff) == ContentionMap(m, all)
  {
    forall d | d in Upto(m) ensures Contention(aff, d) == Contention(all, d) {
      assert (set o | o in aff && HasAffinity(aff, o, d)) == (set o | o in all && HasAffinity(all, o, d));
    }
  }

  lemma SameSlotList(mk: Market, aff: AffinityMap, all: AffinityMap, t: Slot)
    requires forall o: nat :: HasAffinity(aff, o, t.dest) <==> HasAffinity(all, o, t.dest)
    ensures SlotListOk(mk, aff, t) <==> SlotListOk(mk, all, t)
  {
  }
}
