/**
 How affinities become preferences, and what a stable matching of those
 preferences means for the affinities.
 */
module Affinity {
  import opened Sorting
  import opened StableMatching

  /** Source to the destinations it shares hardware with; an absent source has none, an empty set means any. */
  type AffinityMap = map<nat, set<nat>>

  ghost predicate InRange(n: nat, m: nat, aff: AffinityMap) {
    && (forall s :: s in aff ==> s < n)
    && (forall s, d :: s in aff && d in aff[s] ==> d < m)
  }

  predicate HasAffinity(aff: AffinityMap, s: nat, d: nat) {
    s in aff && (aff[s] == {} || d in aff[s])
  }

  /** The destinations a source asks for first. */
  function Wants(aff: AffinityMap, s: nat, m: nat): set<nat> {
    if s !in aff then {} else if aff[s] == {} then Upto(m) else aff[s]
  }

  /** The most items a container needs room for when `i` items share `k` containers. */
  function MaxIPerK(i: nat, k: nat): nat {
    if k == 0 then 0 else (i + k - 1) / k
  }

  /** There is room for all items, and for less than one more in each container. */
  lemma MaxIPerKBounds(i: nat, k: nat)
    requires k > 0
    ensures i <= k * MaxIPerK(i, k) < i + k
  {
  }

  /** It is the least number per container with room for all items. */
  lemma MaxIPerKIsLeast(i: nat, k: nat, j: nat)
    requires k > 0
    ensures i <= k * j <==> MaxIPerK(i, k) <= j
  {
    MaxIPerKBounds(i, k);
    if MaxIPerK(i, k) <= j {
      MulMonotone(k, MaxIPerK(i, k), j);
    } else {
      MulMonotone(k, j + 1, MaxIPerK(i, k));
    }
  }

  lemma MaxIPerKIsPositive(i: nat, k: nat)
    requires i > 0 && k > 0
    ensures MaxIPerK(i, k) > 0
  {
  }

  // ----- slots

  ghost function SlotSet(m: nat, k: nat): set<Slot> {
    set d, j | 0 <= d < m && 0 <= j < k :: Slot(d, j)
  }

  ghost function SlotsOf(d: nat, k: nat): set<Slot> {
    set j | 0 <= j < k :: Slot(d, j)
  }

  lemma {:induction false} SlotsOfCard(d: nat, k: nat)
    ensures |SlotsOf(d, k)| == k
  {
    if k > 0 {
      SlotsOfCard(d, k - 1);
      assert SlotsOf(d, k) == SlotsOf(d, k - 1) + {Slot(d, k - 1)};
    }
  }

  lemma {:induction false} SlotSetCard(m: nat, k: nat)
    ensures |SlotSet(m, k)| == m * k
  {
    if m == 0 {
      assert SlotSet(m, k) == {};
    } else {
      SlotSetCard(m - 1, k);
      SlotsOfCard(m - 1, k);
      assert SlotSet(m, k) == SlotSet(m - 1, k) + SlotsOf(m - 1, k);
      assert SlotSet(m - 1, k) !! SlotsOf(m - 1, k);
      assert m * k == (m - 1) * k + k;
    }
  }

  // ----- preference orders

  /** How many sources have an affinity for `d`. */
  ghost function Contention(aff: AffinityMap, d: nat): nat {
    |set s | s in aff && HasAffinity(aff, s, d)|
  }

  ghost function ContentionMap(m: nat, aff: AffinityMap): map<nat, nat> {
    map d | d in Upto(m) :: Contention(aff, d)
  }

  function Score(contention: map<nat, nat>, d: nat): nat {
    if d in contention then contention[d] else 0
  }

  /** Less contended first, then by number. */
  predicate LessContended(contention: map<nat, nat>, a: nat, b: nat) {
    if Score(contention, a) != Score(contention, b) then Score(contention, a) < Score(contention, b) else a < b
  }

  /** Wanted destinations first. */
  predicate DestLess(wants: set<nat>, contention: map<nat, nat>, a: nat, b: nat) {
    if (a in wants) != (b in wants) then a in wants else LessContended(contention, a, b)
  }

  predicate SlotLess(wants: set<nat>, contention: map<nat, nat>, a: Slot, b: Slot) {
    if a.dest != b.dest then DestLess(wants, contention, a.dest, b.dest) else a.index < b.index
  }

  /** What a destination prefers: sources with affinity for it, then by number. */
  predicate SourceLess(aff: AffinityMap, d: nat, a: nat, b: nat) {
    if HasAffinity(aff, a, d) != HasAffinity(aff, b, d) then HasAffinity(aff, a, d) else a < b
  }

  function ByContention(contention: map<nat, nat>): (nat, nat) -> bool {
    (a: nat, b: nat) => LessContended(contention, a, b)
  }

  ghost function ByDest(wants: set<nat>, contention: map<nat, nat>): (nat, nat) -> bool {
    (a: nat, b: nat) => DestLess(wants, contention, a, b)
  }

  ghost function BySlot(wants: set<nat>, contention: map<nat, nat>): (Slot, Slot) -> bool {
    (a, b) => SlotLess(wants, contention, a, b)
  }

  ghost function BySource(aff: AffinityMap, d: nat): (nat, nat) -> bool {
    (a: nat, b: nat) => SourceLess(aff, d, a, b)
  }

  lemma ContentionOrderIsTotal(contention: map<nat, nat>)
    ensures StrictTotalOrder(ByContention(contention))
  {
  }

  lemma SlotOrderIsTotal(wants: set<nat>, contention: map<nat, nat>)
    ensures StrictTotalOrder(BySlot(wants, contention))
  {
  }

  lemma SourceOrderIsTotal(aff: AffinityMap, d: nat)
    ensures StrictTotalOrder(BySource(aff, d))
  {
  }

  /** `list` has exactly these elements, best first. */
  ghost predicate Ranks<T>(less: (T, T) -> bool, elems: set<T>, list: seq<T>) {
    Enumerates(list, elems) && Ascends(less, list)
  }

  lemma RankFollowsOrder<T(!new)>(less: (T, T) -> bool, elems: set<T>, list: seq<T>, a: T, b: T)
    requires StrictTotalOrder(less) && Ranks(less, elems, list) && a in elems && b in elems
    ensures Rank(list, a) < Rank(list, b) <==> less(a, b)
  {
    assert a in list && b in list;
    assert list[Rank(list, a)] == a && list[Rank(list, b)] == b;
  }

  ghost predicate SourceListOk(mk: Market, m: nat, aff: AffinityMap, s: nat) {
    s in mk.srcPrefs && Ranks(BySlot(Wants(aff, s, m), ContentionMap(m, aff)), mk.slots, mk.srcPrefs[s])
  }

  ghost predicate SlotListOk(mk: Market, aff: AffinityMap, t: Slot) {
    t in mk.slotPrefs && Ranks(BySource(aff, t.dest), Upto(mk.nsrc), mk.slotPrefs[t])
  }

  /** The market the solver builds for `n` sources and `m` destinations. */
  ghost predicate Describes(mk: Market, n: nat, m: nat, aff: AffinityMap) {
    && n <= FREE && InRange(n, m, aff)
    && mk.nsrc == n
    && mk.slots == SlotSet(m, MaxIPerK(n, m))
    && mk.srcPrefs.Keys == Upto(n)
    && mk.slotPrefs.Keys == mk.slots
    && (forall s :: s in Upto(n) ==> SourceListOk(mk, m, aff, s))
    && (forall t :: t in mk.slots ==> SlotListOk(mk, aff, t))
  }

  lemma DescribedIsWellFormed(mk: Market, n: nat, m: nat, aff: AffinityMap)
    requires Describes(mk, n, m, aff)
    ensures mk.WellFormed()
  {
    assert forall s :: s in mk.srcPrefs ==> SourceListOk(mk, m, aff, s);
    assert forall t :: t in mk.slotPrefs ==> SlotListOk(mk, aff, t);
  }

  /** The affinities determine the market. */
  lemma MarketIsDetermined(mk: Market, mk': Market, n: nat, m: nat, aff: AffinityMap)
    requires Describes(mk, n, m, aff) && Describes(mk', n, m, aff)
    ensures mk == mk'
  {
    forall s | s in Upto(n) ensures mk.srcPrefs[s] == mk'.srcPrefs[s] {
      assert SourceListOk(mk, m, aff, s) && SourceListOk(mk', m, aff, s);
      SlotOrderIsTotal(Wants(aff, s, m), ContentionMap(m, aff));
      RankingIsUnique(BySlot(Wants(aff, s, m), ContentionMap(m, aff)), mk.slots, mk.srcPrefs[s], mk'.srcPrefs[s]);
    }
    forall t | t in mk.slots ensures mk.slotPrefs[t] == mk'.slotPrefs[t] {
      assert SlotListOk(mk, aff, t) && SlotListOk(mk', aff, t);
      SourceOrderIsTotal(aff, t.dest);
      RankingIsUnique(BySource(aff, t.dest), Upto(n), mk.slotPrefs[t], mk'.slotPrefs[t]);
    }
    assert mk.srcPrefs == mk'.srcPrefs && mk.slotPrefs == mk'.slotPrefs;
  }

  lemma RankingIsUnique<T(!new)>(less: (T, T) -> bool, elems: set<T>, a: seq<T>, b: seq<T>)
    requires StrictTotalOrder(less) && Ranks(less, elems, a) && Ranks(less, elems, b)
    ensures a == b
  {
    forall x ensures x in a <==> x in b {
    }
    AscendingIsUnique(less, a, b);
  }

  lemma SourcePrefers(mk: Market, n: nat, m: nat, aff: AffinityMap, s: nat, t: Slot, u: Slot)
    requires Describes(mk, n, m, aff) && s < n && t in mk.slots && u in mk.slots
    ensures mk.SrcPrefers(s, t, u) <==> SlotLess(Wants(aff, s, m), ContentionMap(m, aff), t, u)
  {
    assert SourceListOk(mk, m, aff, s);
    SlotOrderIsTotal(Wants(aff, s, m), ContentionMap(m, aff));
    RankFollowsOrder(BySlot(Wants(aff, s, m), ContentionMap(m, aff)), mk.slots, mk.srcPrefs[s], t, u);
  }

  lemma SlotPrefers(mk: Market, n: nat, m: nat, aff: AffinityMap, t: Slot, a: nat, b: nat)
    requires Describes(mk, n, m, aff) && t in mk.slots && a < n && b < n
    ensures mk.SlotPrefers(t, a, b) <==> SourceLess(aff, t.dest, a, b)
  {
    assert SlotListOk(mk, aff, t);
    SourceOrderIsTotal(aff, t.dest);
    RankFollowsOrder(BySource(aff, t.dest), Upto(n), mk.slotPrefs[t], a, b);
  }

  // ----- what stability means

  /** A slot a source would rather have is held by a source that its destination would rather have. */
  lemma EnviedSlotIsEarned(mk: Market, n: nat, m: nat, aff: AffinityMap, w: map<nat, Slot>, s: nat, t: Slot)
      returns (o: nat)
    requires Describes(mk, n, m, aff) && mk.WellFormed() && Stable(mk, w)
    requires s < n && t in mk.slots && SlotLess(Wants(aff, s, m), ContentionMap(m, aff), t, w[s])
    ensures o in w && w[o] == t && o < n && SourceLess(aff, t.dest, o, s)
  {
    SourcePrefers(mk, n, m, aff, s, t, w[s]);
    o := NoEnvy(mk, w, s, t);
    SlotPrefers(mk, n, m, aff, t, o, s);
  }

  /** `o` holds `t`, wants its destination, and comes before `s`. */
  ghost predicate TakenBy(aff: AffinityMap, w: map<nat, Slot>, t: Slot, s: nat, o: nat) {
    o in w && w[o] == t && o < s && HasAffinity(aff, o, t.dest)
  }

  ghost predicate LostTo(aff: AffinityMap, w: map<nat, Slot>, t: Slot, s: nat) {
    exists o :: TakenBy(aff, w, t, s, o)
  }

  /** A source that ends on a destination it has no affinity for lost every slot of
      every wanted destination to a smaller-numbered source that wants it too. */
  lemma DeniedOnlyForCause(mk: Market, n: nat, m: nat, aff: AffinityMap, w: map<nat, Slot>, s: nat, d: nat)
    requires Describes(mk, n, m, aff) && mk.WellFormed() && Stable(mk, w)
    requires s < n && d < m && d in Wants(aff, s, m) && w[s].dest !in Wants(aff, s, m)
    ensures forall j: nat :: j < MaxIPerK(n, m) ==> LostTo(aff, w, Slot(d, j), s)
  {
    forall j: nat | j < MaxIPerK(n, m) ensures LostTo(aff, w, Slot(d, j), s) {
      var o := EnviedSlotIsEarned(mk, n, m, aff, w, s, Slot(d, j));
      assert TakenBy(aff, w, Slot(d, j), s, o);
    }
  }

  /** A source gets a destination it has affinity for unless at least as many smaller-numbered
      sources want that destination as it has slots. */
  lemma AffinityGuaranteed(mk: Market, n: nat, m: nat, aff: AffinityMap, w: map<nat, Slot>, s: nat, d: nat)
    requires Describes(mk, n, m, aff) && mk.WellFormed() && Stable(mk, w)
    requires s < n && d < m && d in Wants(aff, s, m)
    requires |set o | o in aff && o < s && HasAffinity(aff, o, d)| < MaxIPerK(n, m)
    ensures w[s].dest in Wants(aff, s, m)
  {
    if w[s].dest !in Wants(aff, s, m) {
      var rivals := set o | o in aff && o < s && HasAffinity(aff, o, d);
      var k := MaxIPerK(n, m);
      DeniedOnlyForCause(mk, n, m, aff, w, s, d);
      var holder := map j | j in Upto(k) :: Holder(w, Slot(d, j));
      forall j | j in Upto(k) ensures holder[j] in rivals && holder[j] in w && w[holder[j]] == Slot(d, j) {
        assert LostTo(aff, w, Slot(d, j), s);
        var o :| TakenBy(aff, w, Slot(d, j), s, o);
        assert o in w && holder[j] in w && w[holder[j]] == w[o];
      }
      Pigeonhole(holder, Upto(k), rivals);
      UptoCard(k);
    }
  }

  ghost function Holder(w: map<nat, Slot>, t: Slot): nat {
    if exists o :: o in w && w[o] == t then
      var o :| o in w && w[o] == t; o
    else 0
  }

  lemma FirstSourceIsSatisfied(mk: Market, n: nat, m: nat, aff: AffinityMap, w: map<nat, Slot>)
    requires Describes(mk, n, m, aff) && mk.WellFormed() && Stable(mk, w)
    requires 0 < n && 0 < m && Wants(aff, 0, m) != {}
    ensures w[0].dest in Wants(aff, 0, m)
  {
    var d :| d in Wants(aff, 0, m);
    MaxIPerKIsPositive(n, m);
    assert (set o: nat | o in aff && o < 0 && HasAffinity(aff, o, d)) == {};
    AffinityGuaranteed(mk, n, m, aff, w, 0, d);
  }

  /** In each destination the occupied slots form a prefix, held in the destination's order. */
  lemma OccupiedSlotsFormPrefix(mk: Market, n: nat, m: nat, aff: AffinityMap, w: map<nat, Slot>, s: nat, i: nat)
    requires Describes(mk, n, m, aff) && mk.WellFormed() && Stable(mk, w)
    requires s < n && i < w[s].index
    ensures exists o :: o in w && w[o] == Slot(w[s].dest, i) && SourceLess(aff, w[s].dest, o, s)
  {
    assert w[s] in mk.slots;
    var o := EnviedSlotIsEarned(mk, n, m, aff, w, s, Slot(w[s].dest, i));
  }

  // ----- loads

  /** The sources on destination `d`. */
  ghost function OnDest(w: map<nat, Slot>, d: nat): set<nat> {
    set s | s in w && w[s].dest == d
  }

  /** No destination gets more than ceil(n / m) sources. */
  lemma LoadIsBounded(mk: Market, n: nat, m: nat, aff: AffinityMap, w: map<nat, Slot>, d: nat)
    requires Describes(mk, n, m, aff) && mk.WellFormed() && IsMatching(mk, w) && d < m
    ensures |OnDest(w, d)| <= MaxIPerK(n, m)
  {
    var k := MaxIPerK(n, m);
    SlotsOfCard(d, k);
    Pigeonhole(w, OnDest(w, d), SlotsOf(d, k));
  }

  /** With as many slots as sources every slot is held. */
  lemma EqualCountsMeanFull(mk: Market, w: map<nat, Slot>)
    requires IsMatching(mk, w) && mk.nsrc == |mk.slots|
    ensures forall t :: t in mk.slots ==> Holder(w, t) in w && w[Holder(w, t)] == t
  {
    assert w.Keys == Upto(mk.nsrc);
    UptoCard(mk.nsrc);
    Pigeonhole(w, w.Keys, mk.slots);
    forall t | t in mk.slots ensures Holder(w, t) in w && w[Holder(w, t)] == t {
      var o :| o in w.Keys && w[o] == t;
    }
  }

  /** When m divides n each destination gets exactly n / m sources. */
  lemma DivisibleLoad(mk: Market, n: nat, m: nat, aff: AffinityMap, w: map<nat, Slot>, d: nat)
    requires Describes(mk, n, m, aff) && mk.WellFormed() && IsMatching(mk, w) && d < m && n % m == 0
    ensures |OnDest(w, d)| == n / m
  {
    var k := MaxIPerK(n, m);
    DivisibleSlots(n, m);
    LoadIsBounded(mk, n, m, aff, w, d);
    SlotSetCard(m, k);
    EqualCountsMeanFull(mk, w);
    SlotsOfCard(d, k);
    var holder := map t | t in SlotsOf(d, k) :: Holder(w, t);
    assert forall t :: t in SlotsOf(d, k) ==> t in mk.slots;
    Pigeonhole(holder, SlotsOf(d, k), OnDest(w, d));
  }

  lemma DivisibleSlots(n: nat, m: nat)
    requires m > 0 && n % m == 0
    ensures MaxIPerK(n, m) == n / m && n == m * MaxIPerK(n, m)
  {
    var k := MaxIPerK(n, m);
    var q := n / m;
    MaxIPerKBounds(n, m);
    assert n == m * q;
    assert m * q <= m * k < m * q + m;
    if q < k { MulMonotone(m, q + 1, k); }
  }

  lemma MulMonotone(m: nat, a: nat, b: nat)
    requires a <= b
    ensures m * a <= m * b
  {
    assert m * b == m * a + m * (b - a);
  }

  // ----- when every destination is used

  /** Sources that do not fit on all destinations but one leave none of them empty. */
  lemma EveryDestIsUsed(mk: Market, n: nat, m: nat, aff: AffinityMap, w: map<nat, Slot>, d: nat)
    requires Describes(mk, n, m, aff) && mk.WellFormed() && IsMatching(mk, w)
    requires d < m && (m - 1) * MaxIPerK(n, m) < n
    ensures OnDest(w, d) != {}
  {
    hide MaxIPerK, Market.WellFormed, SourceListOk, SlotListOk;
    var k := MaxIPerK(n, m);
    var others := mk.slots - SlotsOf(d, k);
    SlotSetCard(m, k);
    SlotsOfCard(d, k);
    SubsetCard(SlotsOf(d, k), mk.slots);
    assert |others| == m * k - k == (m - 1) * k;
    assert w.Keys == Upto(n);
    UptoCard(n);
    if forall s :: s in w ==> w[s] in others {
      Pigeonhole(w, w.Keys, others);
    }
    var s :| s in w && w[s] !in others;
    assert s in OnDest(w, d);
  }

  // ----- existence

  /** Every finite set can be ranked by a strict total order. */
  lemma {:induction false} RankingExists<T(!new)>(less: (T, T) -> bool, elems: set<T>)
    requires StrictTotalOrder(less)
    ensures exists list :: Ranks(less, elems, list)
    decreases elems
  {
    if elems == {} {
      assert Ranks(less, elems, []);
    } else {
      var x :| x in elems;
      RankingExists(less, elems - {x});
      var rest :| Ranks(less, elems - {x}, rest);
      RankingGrows(less, elems, x, rest);
    }
  }

  lemma RankingGrows<T(!new)>(less: (T, T) -> bool, elems: set<T>, x: T, rest: seq<T>)
    requires StrictTotalOrder(less) && x in elems && Ranks(less, elems - {x}, rest)
    ensures exists list :: Ranks(less, elems, list)
  {
    TotalIsWeak(less);
    AscendsIsSorted(less, rest);
    var all, list := [x] + rest, Insert(less, x, rest);
    assert multiset(all) == multiset(rest) + multiset{x};
    SortedEnumeration(less, all, list);
    AscendsHasNoDuplicates(less, list);
    forall y ensures y in list <==> y in elems {
      assert y in all <==> y == x || y in rest;
      if y in rest {
        var i :| 0 <= i < |rest| && rest[i] == y;
      }
    }
    assert forall i :: 0 <= i < |list| ==> list[i] in list;
    assert Ranks(less, elems, list);
  }

  lemma AscendsIsSorted<T(!new)>(less: (T, T) -> bool, s: seq<T>)
    requires StrictTotalOrder(less) && Ascends(less, s)
    ensures Sorted(less, s)
  {
  }

  ghost function Ranking<T(!new)>(less: (T, T) -> bool, elems: set<T>): (list: seq<T>)
    requires StrictTotalOrder(less)
    ensures Ranks(less, elems, list)
  {
    RankingExists(less, elems);
    var list :| Ranks(less, elems, list);
    list
  }

  /** Every affinity map describes a market. */
  lemma MarketExists(n: nat, m: nat, aff: AffinityMap) returns (mk: Market)
    requires n <= FREE && InRange(n, m, aff)
    ensures Describes(mk, n, m, aff)
  {
    var slots, cont := SlotSet(m, MaxIPerK(n, m)), ContentionMap(m, aff);
    forall wants ensures StrictTotalOrder(BySlot(wants, cont)) { SlotOrderIsTotal(wants, cont); }
    forall d ensures StrictTotalOrder(BySource(aff, d)) { SourceOrderIsTotal(aff, d); }
    mk := Market(
      n, slots,
      map s | s in Upto(n) :: Ranking(BySlot(Wants(aff, s, m), cont), slots),
      map t | t in slots :: Ranking(BySource(aff, t.dest), Upto(n)));
  }
}
