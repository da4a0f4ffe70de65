/**
 Preference lists written out slot by slot, and the mapping that comes out when
 all sources have the same affinity.
 */
module SlotLists {
  import opened Sorting
  import opened StableMatching
  import opened Affinity

  /** All slots of one destination, in order. */
  function Row(d: nat, k: nat): (r: seq<Slot>)
    ensures |r| == k && forall j :: 0 <= j < k ==> r[j] == Slot(d, j)
  {
    seq(k, j requires 0 <= j => Slot(d, j))
  }

  /** All slots of the listed destinations, destination by destination. */
  function Expand(ds: seq<nat>, k: nat): seq<Slot> {
    if ds == [] then [] else Expand(ds[..|ds| - 1], k) + Row(ds[|ds| - 1], k)
  }

  lemma {:induction false} ExpandConcat(a: seq<nat>, b: seq<nat>, k: nat)
    ensures Expand(a + b, k) == Expand(a, k) + Expand(b, k)
  {
    if b == [] {
      assert a + b == a;
    } else {
      var l := |b| - 1;
      assert (a + b)[..|a + b| - 1] == a + b[..l];
      ExpandConcat(a, b[..l], k);
    }
  }

  /** Element j * k + x is slot x of the j-th destination. */
  lemma {:induction false} ExpandAt(ds: seq<nat>, k: nat, j: nat, x: nat)
    requires j < |ds| && x < k
    ensures |Expand(ds, k)| == |ds| * k && j * k + x < |ds| * k
    ensures Expand(ds, k)[j * k + x] == Slot(ds[j], x)
  {
    var l := |ds| - 1;
    ExpandLength(ds, k);
    ExpandLength(ds[..l], k);
    assert |ds| * k == l * k + k;
    if j < l {
      ExpandAt(ds[..l], k, j, x);
    }
  }

  lemma {:induction false} ExpandLength(ds: seq<nat>, k: nat)
    ensures |Expand(ds, k)| == |ds| * k
  {
    if ds != [] {
      ExpandLength(ds[..|ds| - 1], k);
      assert |ds| * k == (|ds| - 1) * k + k;
    }
  }

  ghost function SlotsOver(dests: set<nat>, k: nat): set<Slot> {
    set d, j | d in dests && 0 <= j < k :: Slot(d, j)
  }

  /** Listing the slots of destinations that are in order puts the slots in order. */
  lemma {:induction false} ExpandRanks(
      wants: set<nat>, contention: map<nat, nat>, dests: set<nat>, ds: seq<nat>, k: nat)
    requires Ranks(ByDest(wants, contention), dests, ds)
    ensures Ranks(BySlot(wants, contention), SlotsOver(dests, k), Expand(ds, k))
  {
    hide SlotLess, DestLess, LessContended;
    assert forall d :: d in dests ==> d in ds;
    if ds == [] {
      assert SlotsOver(dests, k) == {};
    } else {
      var l := |ds| - 1;
      var last := ds[l];
      var rest := dests - {last};
      assert ds == ds[..l] + [last];
      assert Enumerates(ds[..l], rest);
      ExpandRanks(wants, contention, rest, ds[..l], k);
      assert forall i :: 0 <= i < l ==> DestLess(wants, contention, ds[i], last);
      AppendRow(wants, contention, rest, Expand(ds[..l], k), last, k);
      assert SlotsOver(dests, k) == SlotsOver(rest, k) + SlotsOf(last, k);
    }
  }

  lemma AppendRow(
      wants: set<nat>, contention: map<nat, nat>, rest: set<nat>, list: seq<Slot>, last: nat, k: nat)
    requires Ranks(BySlot(wants, contention), SlotsOver(rest, k), list)
    requires last !in rest && forall d :: d in rest ==> DestLess(wants, contention, d, last)
    ensures Ranks(BySlot(wants, contention), SlotsOver(rest, k) + SlotsOf(last, k), list + Row(last, k))
  {
    var row := Row(last, k);
    var all := list + row;
    assert forall i :: 0 <= i < |list| ==> all[i] in SlotsOver(rest, k);
    assert forall i :: |list| <= i < |all| ==> all[i] == Slot(last, i - |list|);
    forall t | t in SlotsOf(last, k) ensures t in all {
      assert all[|list| + t.index] == t;
    }
    forall t | t in SlotsOver(rest, k) ensures t in all {
      assert t in list;
    }
    assert Ascends(BySlot(wants, contention), all);
    SlotOrderIsTotal(wants, contention);
    AscendsHasNoDuplicates(BySlot(wants, contention), all);
  }

  lemma SlotSetIsOver(m: nat, k: nat)
    ensures SlotSet(m, k) == SlotsOver(Upto(m), k)
  {
  }

  // ----- all sources with one affinity

  /** Every source has this list, and every slot prefers the smaller-numbered source. */
  ghost predicate Uniform(mk: Market, list: seq<Slot>) {
    && (forall s :: s in mk.srcPrefs ==> mk.srcPrefs[s] == list)
    && (forall t: Slot, a: nat, b: nat {:trigger mk.SlotPrefers(t, a, b)} ::
          t in mk.slotPrefs && b < a < mk.nsrc ==> !mk.SlotPrefers(t, a, b))
  }

  ghost predicate InPlace(w: map<nat, Slot>, list: seq<Slot>, i: nat) {
    i in w && i < |list| && w[i] == list[i]
  }

  lemma NotEarlier(mk: Market, w: map<nat, Slot>, list: seq<Slot>, i: nat, r: nat)
    requires IsMatching(mk, w) && i < mk.nsrc && r < |list| && w[i] == list[r]
    requires r < i ==> InPlace(w, list, r)
    ensures i <= r
  {
  }

  lemma HolderIsLater(w: map<nat, Slot>, list: seq<Slot>, i: nat, o: nat)
    requires NoDuplicates(list) && i < |list| && o in w && w[o] == list[i]
    requires o < i ==> InPlace(w, list, o)
    ensures i <= o
  {
  }

  lemma NotLater(mk: Market, w: map<nat, Slot>, list: seq<Slot>, i: nat)
    requires mk.WellFormed() && Stable(mk, w) && i < mk.nsrc && Uniform(mk, list)
    requires NoDuplicates(list) && i < |list| && list[i] in mk.slots
    requires forall j: nat :: j < i ==> InPlace(w, list, j)
    ensures !mk.SrcPrefers(i, list[i], w[i])
  {
    if mk.SrcPrefers(i, list[i], w[i]) {
      var o := NoEnvy(mk, w, i, list[i]);
      HolderIsLater(w, list, i, o);
    }
  }

  /** If sources 0 .. i - 1 hold the first i slots of the common list, source i holds the next. */
  lemma NextInLine(mk: Market, w: map<nat, Slot>, list: seq<Slot>, i: nat)
    requires mk.WellFormed() && Stable(mk, w) && i < mk.nsrc && Uniform(mk, list)
    requires forall j: nat :: j < i ==> InPlace(w, list, j)
    ensures InPlace(w, list, i)
  {
    assert mk.srcPrefs[i] == list;
    assert w[i] in list;
    var r := Rank(list, w[i]);
    assert r < i ==> InPlace(w, list, r);
    NotEarlier(mk, w, list, i, r);
    RankOfElement(list, i);
    NotLater(mk, w, list, i);
  }

  /** Everybody has the same list and every slot prefers smaller numbers: source i gets the i-th slot. */
  lemma {:induction false} FirstComeFirstServed(mk: Market, w: map<nat, Slot>, list: seq<Slot>, i: nat)
    requires mk.WellFormed() && Stable(mk, w) && i < mk.nsrc && Uniform(mk, list)
    ensures InPlace(w, list, i)
    decreases i
  {
    forall j: nat | j < i ensures InPlace(w, list, j) {
      FirstComeFirstServed(mk, w, list, j);
    }
    NextInLine(mk, w, list, i);
  }

  /** The affinity set ascending, then the other destinations ascending. */
  function SharedOrder(wants: set<nat>, m: nat): seq<nat> {
    Ascending(wants) + Ascending(Upto(m) - wants)
  }

  lemma SharedContention(n: nat, m: nat, aff: AffinityMap, wants: set<nat>, d: nat)
    requires InRange(n, m, aff) && d < m
    requires forall s: nat :: s < n ==> Wants(aff, s, m) == wants
    ensures Score(ContentionMap(m, aff), d) == if d in wants then n else 0
  {
    var who := set s | s in aff && HasAffinity(aff, s, d);
    forall s: nat | s < n ensures s in who <==> d in wants {
      assert Wants(aff, s, m) == wants;
    }
    if d in wants {
      UptoCard(n);
      assert who == Upto(n);
    } else {
      assert who == {};
    }
  }

  lemma SharedOrderAscends(wants: set<nat>, m: nat, n: nat, contention: map<nat, nat>)
    requires forall d: nat :: d < m ==> Score(contention, d) == if d in wants then n else 0
    requires wants <= Upto(m)
    ensures Ascends(ByDest(wants, contention), SharedOrder(wants, m))
  {
    var order := SharedOrder(wants, m);
    forall i, j | 0 <= i < j < |order| ensures DestLess(wants, contention, order[i], order[j]) {
      SharedOrderAt(wants, m, i);
      SharedOrderAt(wants, m, j);
      SharedOrderStep(wants, m, i, j);
    }
  }

  lemma SharedOrderAt(wants: set<nat>, m: nat, i: nat)
    requires wants <= Upto(m) && i < |SharedOrder(wants, m)|
    ensures SharedOrder(wants, m)[i] < m
    ensures SharedOrder(wants, m)[i] in wants <==> i < |Ascending(wants)|
  {
    var first, others := Ascending(wants), Ascending(Upto(m) - wants);
    if i < |first| {
      AscendingElement(wants, i);
    } else {
      AscendingElement(Upto(m) - wants, i - |first|);
    }
  }

  /** Within each tier the order ascends. */
  lemma SharedOrderStep(wants: set<nat>, m: nat, i: nat, j: nat)
    requires i < j < |SharedOrder(wants, m)|
    ensures j < |Ascending(wants)| || |Ascending(wants)| <= i ==> SharedOrder(wants, m)[i] < SharedOrder(wants, m)[j]
  {
    var first, others := Ascending(wants), Ascending(Upto(m) - wants);
    if |first| <= i {
      assert others[i - |first|] < others[j - |first|];
    }
  }

  lemma SharedOrderRanks(n: nat, m: nat, aff: AffinityMap, wants: set<nat>)
    requires InRange(n, m, aff) && wants <= Upto(m)
    requires forall s: nat :: s < n ==> Wants(aff, s, m) == wants
    ensures Ranks(ByDest(wants, ContentionMap(m, aff)), Upto(m), SharedOrder(wants, m))
  {
    var cont := ContentionMap(m, aff);
    SharedOrderElements(wants, m);
    forall d: nat | d < m ensures Score(cont, d) == if d in wants then n else 0 {
      SharedContention(n, m, aff, wants, d);
    }
    SharedOrderAscends(wants, m, n, cont);
  }

  lemma SharedOrderElements(wants: set<nat>, m: nat)
    requires wants <= Upto(m)
    ensures |SharedOrder(wants, m)| == m
    ensures Enumerates(SharedOrder(wants, m), Upto(m))
  {
    AscendingEnumerates(wants);
    AscendingEnumerates(Upto(m) - wants);
    EnumerateBoth(Ascending(wants), Ascending(Upto(m) - wants), wants, Upto(m) - wants);
    assert wants + (Upto(m) - wants) == Upto(m);
    UptoCard(m);
  }

  lemma SharedLists(mk: Market, n: nat, m: nat, aff: AffinityMap, wants: set<nat>)
    requires Describes(mk, n, m, aff) && wants <= Upto(m)
    requires forall s: nat :: s < n ==> Wants(aff, s, m) == wants
    ensures forall s :: s in mk.srcPrefs ==> mk.srcPrefs[s] == Expand(SharedOrder(wants, m), MaxIPerK(n, m))
  {
    var cont := ContentionMap(m, aff);
    SharedOrderRanks(n, m, aff, wants);
    ExpandRanks(wants, cont, Upto(m), SharedOrder(wants, m), MaxIPerK(n, m));
    SlotSetIsOver(m, MaxIPerK(n, m));
    SlotOrderIsTotal(wants, cont);
    forall s | s in mk.srcPrefs ensures mk.srcPrefs[s] == Expand(SharedOrder(wants, m), MaxIPerK(n, m)) {
      assert s in Upto(n) && SourceListOk(mk, m, aff, s);
      RankingIsUnique(BySlot(wants, cont), mk.slots, mk.srcPrefs[s], Expand(SharedOrder(wants, m), MaxIPerK(n, m)));
    }
  }

  lemma SharedMarketIsUniform(mk: Market, n: nat, m: nat, aff: AffinityMap, wants: set<nat>)
    requires Describes(mk, n, m, aff) && wants <= Upto(m)
    requires forall s: nat :: s < n ==> Wants(aff, s, m) == wants
    ensures Uniform(mk, Expand(SharedOrder(wants, m), MaxIPerK(n, m)))
  {
    SharedLists(mk, n, m, aff, wants);
    forall t: Slot, a: nat, b: nat {:trigger mk.SlotPrefers(t, a, b)} | t in mk.slotPrefs && b < a < n
      ensures !mk.SlotPrefers(t, a, b)
    {
      SlotPrefers(mk, n, m, aff, t, a, b);
      assert Wants(aff, a, m) == Wants(aff, b, m);
    }
  }

  lemma ExpandPlace(ds: seq<nat>, k: nat, i: nat, j: nat, x: nat)
    requires i < |Expand(ds, k)| && x < k && i == j * k + x
    ensures j < |ds| && Expand(ds, k)[i] == Slot(ds[j], x)
  {
    ExpandLength(ds, k);
    if |ds| <= j {
      MulMonotone(k, |ds|, j);
    }
    ExpandAt(ds, k, j, x);
  }

  /** With one affinity for all, source j * ceil(n / m) + x gets slot x of the j-th destination of the shared order. */
  lemma SharedAffinityClosedForm(
      mk: Market, n: nat, m: nat, aff: AffinityMap, w: map<nat, Slot>, wants: set<nat>, i: nat, j: nat, x: nat)
    requires Describes(mk, n, m, aff) && mk.WellFormed() && Stable(mk, w)
    requires wants <= Upto(m) && forall s: nat :: s < n ==> Wants(aff, s, m) == wants
    requires i < n && x < MaxIPerK(n, m) && i == j * MaxIPerK(n, m) + x
    ensures i in w && j < |SharedOrder(wants, m)| && w[i] == Slot(SharedOrder(wants, m)[j], x)
  {
    SharedMarketIsUniform(mk, n, m, aff, wants);
    FirstComeFirstServed(mk, w, Expand(SharedOrder(wants, m), MaxIPerK(n, m)), i);
    ExpandPlace(SharedOrder(wants, m), MaxIPerK(n, m), i, j, x);
  }
}
