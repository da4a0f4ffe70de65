/**
 Deferred acceptance between sources and slots, on immutable values. The solver
 class refines the steps defined here; what its result means is proved here for
 every market and for every order in which free sources may be served.
 */
module StableMatching {
  import opened Sorting

  /** The marker of a free slot: the largest 64-bit size. */
  const FREE: nat := 0xFFFF_FFFF_FFFF_FFFF

  datatype Slot = Slot(dest: nat, index: nat)

  /** Sources 0 .. nsrc - 1, the slots, and everybody's preference list, best first. */
  datatype Market = Market(
    nsrc: nat, slots: set<Slot>, srcPrefs: map<nat, seq<Slot>>, slotPrefs: map<Slot, seq<nat>>)
  {
    ghost predicate WellFormed() {
      && nsrc <= FREE
      && (forall s :: s in srcPrefs <==> 0 <= s < nsrc)
      && (forall s :: s in srcPrefs ==> Enumerates(srcPrefs[s], slots))
      && slotPrefs.Keys == slots
      && (forall t :: t in slotPrefs ==> Enumerates(slotPrefs[t], Upto(nsrc)))
    }

    predicate SlotPrefers(t: Slot, a: nat, b: nat)
      requires t in slotPrefs
    {
      Rank(slotPrefs[t], a) < Rank(slotPrefs[t], b)
    }

    predicate SrcPrefers(s: nat, t: Slot, u: Slot)
      requires s in srcPrefs
    {
      Rank(srcPrefs[s], t) < Rank(srcPrefs[s], u)
    }
  }

  // ----- matchings

  /** Every source has a slot and no two sources share one. */
  ghost predicate IsMatching(mk: Market, m: map<nat, Slot>) {
    && (forall s :: s in m <==> 0 <= s < mk.nsrc)
    && (forall s :: s in m ==> m[s] in mk.slots)
    && (forall s, o :: s in m && o in m && s != o ==> m[s] != m[o])
  }

  /** `s` would rather have `t`, and `t` is free or would rather have `s`. */
  ghost predicate Blocks(mk: Market, m: map<nat, Slot>, s: nat, t: Slot)
    requires mk.WellFormed() && IsMatching(mk, m)
  {
    && s < mk.nsrc && t in mk.slots
    && mk.SrcPrefers(s, t, m[s])
    && forall o :: o in m && m[o] == t ==> mk.SlotPrefers(t, s, o)
  }

  ghost predicate Stable(mk: Market, m: map<nat, Slot>)
    requires mk.WellFormed()
  {
    && IsMatching(mk, m)
    && forall s, t {:trigger Blocks(mk, m, s, t)} :: s in m && t in mk.slots ==> !Blocks(mk, m, s, t)
  }

  /** Stable, and no source does better in any other stable matching. */
  ghost predicate SourceOptimal(mk: Market, best: map<nat, Slot>)
    requires mk.WellFormed()
  {
    && Stable(mk, best)
    && forall m, s :: Stable(mk, m) && s in best ==>
         best[s] == m[s] || mk.SrcPrefers(s, best[s], m[s])
  }

  lemma SourceOptimalIsUnique(mk: Market, a: map<nat, Slot>, b: map<nat, Slot>)
    requires mk.WellFormed() && SourceOptimal(mk, a) && SourceOptimal(mk, b)
    ensures a == b
  {
    assert a.Keys == b.Keys;
  }

  /** What the sources gain the slots pay for: each slot gets its worst stable partner. */
  lemma SourceOptimalIsSlotPessimal(mk: Market, best: map<nat, Slot>, m: map<nat, Slot>, s: nat, o: nat)
    requires mk.WellFormed() && SourceOptimal(mk, best) && Stable(mk, m)
    requires s in best && o in m && best[s] == m[o] && s != o
    ensures mk.SlotPrefers(best[s], o, s)
  {
    var t := best[s];
    assert m[s] != t;
    assert mk.SrcPrefers(s, t, m[s]);
    assert !Blocks(mk, m, s, t);
    RanksDiffer(mk.slotPrefs[t], Upto(mk.nsrc), s, o);
  }

  /** In a stable matching a slot that a source would rather have is held by a source the slot prefers. */
  lemma NoEnvy(mk: Market, m: map<nat, Slot>, s: nat, t: Slot) returns (o: nat)
    requires mk.WellFormed() && Stable(mk, m) && s in m && t in mk.slots
    requires mk.SrcPrefers(s, t, m[s])
    ensures o in m && o < mk.nsrc && m[o] == t && o != s && mk.SlotPrefers(t, o, s)
  {
    assert !Blocks(mk, m, s, t);
    o :| o in m && m[o] == t && !mk.SlotPrefers(t, s, o);
    RanksDiffer(mk.slotPrefs[t], Upto(mk.nsrc), s, o);
  }

  lemma RanksDiffer<T>(list: seq<T>, elems: set<T>, a: T, b: T)
    requires Enumerates(list, elems) && a in elems && b in elems && a != b
    ensures Rank(list, a) != Rank(list, b)
  {
    assert list[Rank(list, a)] == a by { assert a in list; }
  }

  // ----- states of the solver

  datatype State = State(srcToSlot: map<nat, Slot>, slotToSrc: map<Slot, nat>, next: map<nat, nat>)

  ghost predicate IsFree(mk: Market, st: State, s: nat) {
    s < mk.nsrc && s !in st.srcToSlot
  }

  ghost predicate Complete(mk: Market, st: State) {
    forall s :: 0 <= s < mk.nsrc ==> s in st.srcToSlot
  }

  ghost predicate HasProposalLeft(mk: Market, st: State, s: nat) {
    s in st.next && s in mk.srcPrefs && st.next[s] < |mk.srcPrefs[s]|
  }

  function AllMapped<T, U>(keys: set<T>, value: U): map<T, U> {
    map x | x in keys :: value
  }

  /** Nobody is matched and nobody has proposed. */
  function Initial(mk: Market): State {
    State(map[], AllMapped(mk.slots, FREE), AllMapped(mk.srcPrefs.Keys, 0))
  }

  /** Source `s` proposes to the next slot on its list. */
  function Propose(mk: Market, st: State, s: nat): State
    requires mk.slotPrefs.Keys == st.slotToSrc.Keys
    requires s in st.next && s in mk.srcPrefs && st.next[s] < |mk.srcPrefs[s]|
    requires mk.srcPrefs[s][st.next[s]] in st.slotToSrc
  {
    var t := mk.srcPrefs[s][st.next[s]];
    var cur := st.slotToSrc[t];
    var next := st.next[s := st.next[s] + 1];
    if cur == FREE then
      State(st.srcToSlot[s := t], st.slotToSrc[t := s], next)
    else if mk.SlotPrefers(t, s, cur) then
      State(st.srcToSlot[s := t] - {cur}, st.slotToSrc[t := s], next)
    else
      State(st.srcToSlot, st.slotToSrc, next)
  }

  /** A matched source holds the slot of its latest proposal, and the slot knows it. */
  ghost predicate HoldsLatest(mk: Market, st: State, s: nat) {
    s in st.srcToSlot ==>
      && s in st.next && s in mk.srcPrefs
      && 1 <= st.next[s] <= |mk.srcPrefs[s]|
      && st.srcToSlot[s] == mk.srcPrefs[s][st.next[s] - 1]
      && st.srcToSlot[s] in st.slotToSrc
      && st.slotToSrc[st.srcToSlot[s]] == s
  }

  /** The source a slot names is matched to that slot. */
  ghost predicate HeldByMatched(st: State, t: Slot) {
    t in st.slotToSrc && st.slotToSrc[t] != FREE ==>
      && st.slotToSrc[t] in st.srcToSlot
      && st.srcToSlot[st.slotToSrc[t]] == t
  }

  /** The two tables are mutual inverses, and a matched source holds its latest proposal. */
  ghost predicate Coherent(mk: Market, st: State) {
    && st.slotToSrc.Keys == mk.slots
    && (forall s :: s in st.next <==> 0 <= s < mk.nsrc)
    && (forall s :: s in st.next ==> s in mk.srcPrefs && st.next[s] <= |mk.srcPrefs[s]|)
    && (forall s :: HoldsLatest(mk, st, s))
    && (forall t :: HeldByMatched(st, t))
  }

  /** The slot at place `i` of the list of `s` is held, by `s` or by a source it prefers to `s`. */
  ghost predicate BeatenAt(mk: Market, st: State, s: nat, i: nat)
    requires s in mk.srcPrefs && i < |mk.srcPrefs[s]|
  {
    var t := mk.srcPrefs[s][i];
    && t in st.slotToSrc && t in mk.slotPrefs
    && st.slotToSrc[t] != FREE
    && (st.slotToSrc[t] == s || mk.SlotPrefers(t, st.slotToSrc[t], s))
  }

  /** A slot that was ever proposed to is held by the best of its proposers. */
  ghost predicate Settled(mk: Market, st: State)
    requires Coherent(mk, st)
  {
    forall s: nat, i: nat :: s in st.next && i < st.next[s] ==> BeatenAt(mk, st, s, i)
  }

  /** Place `i` of the list of `s` is not what `s` has in `m`. */
  ghost predicate NotAt(mk: Market, m: map<nat, Slot>, s: nat, i: nat)
    requires s in mk.srcPrefs && i < |mk.srcPrefs[s]| && s in m
  {
    m[s] != mk.srcPrefs[s][i]
  }

  /** No source was turned down by the slot it has in `m`. */
  ghost predicate NotPassed(mk: Market, st: State, m: map<nat, Slot>)
    requires Coherent(mk, st) && IsMatching(mk, m)
  {
    forall s: nat, i: nat :: s in st.next && i < st.next[s] && (s in st.srcToSlot ==> i < st.next[s] - 1) ==>
      NotAt(mk, m, s, i)
  }

  ghost predicate Invariant(mk: Market, st: State)
    requires mk.WellFormed()
  {
    && Coherent(mk, st) && Settled(mk, st)
    && forall m :: Stable(mk, m) ==> NotPassed(mk, st, m)
  }

  lemma InitialInvariant(mk: Market)
    requires mk.WellFormed()
    ensures Invariant(mk, Initial(mk))
  {
  }

  lemma NextSlot(mk: Market, st: State, s: nat)
    requires mk.WellFormed() && Coherent(mk, st) && HasProposalLeft(mk, st, s)
    ensures mk.srcPrefs[s][st.next[s]] in st.slotToSrc
  {
  }

  /** `s` is free and has a slot left to ask. */
  ghost predicate CanStep(mk: Market, st: State, s: nat) {
    && IsFree(mk, st, s) && HasProposalLeft(mk, st, s)
    && mk.slotPrefs.Keys == st.slotToSrc.Keys
    && mk.srcPrefs[s][st.next[s]] in st.slotToSrc
  }

  lemma StepCoherent(mk: Market, st: State, s: nat)
    requires mk.WellFormed() && Coherent(mk, st) && CanStep(mk, st, s)
    ensures Coherent(mk, Propose(mk, st, s))
  {
    var st' := Propose(mk, st, s);
    var t := mk.srcPrefs[s][st.next[s]];
    assert HeldByMatched(st, t);
    forall o: nat ensures HoldsLatest(mk, st', o) {
      assert HoldsLatest(mk, st, o);
    }
    forall u ensures HeldByMatched(st', u) {
      assert HeldByMatched(st, u);
    }
  }

  lemma StepSettled(mk: Market, st: State, s: nat)
    requires mk.WellFormed() && Coherent(mk, st) && CanStep(mk, st, s)
    requires Coherent(mk, Propose(mk, st, s)) && Settled(mk, st)
    ensures Settled(mk, Propose(mk, st, s))
  {
    var st' := Propose(mk, st, s);
    var t := mk.srcPrefs[s][st.next[s]];
    var cur := st.slotToSrc[t];
    if cur != FREE {
      assert HeldByMatched(st, t) && HoldsLatest(mk, st, cur);
      RanksDiffer(mk.slotPrefs[t], Upto(mk.nsrc), s, cur);
    }
    forall o: nat, i: nat | o in st'.next && i < st'.next[o] ensures BeatenAt(mk, st', o, i) {
      if o != s || i < st.next[s] {
        assert BeatenAt(mk, st, o, i);
      }
    }
  }

  /** A slot that prefers `w`, which has nothing better left, to `l` is not `l`'s in any stable matching. */
  lemma LoserHasNoClaim(mk: Market, m: map<nat, Slot>, w: nat, l: nat, p: nat)
    requires mk.WellFormed() && Stable(mk, m)
    requires w < mk.nsrc && l < mk.nsrc && w != l && p < |mk.srcPrefs[w]|
    requires forall i: nat :: i < p ==> NotAt(mk, m, w, i)
    requires mk.srcPrefs[w][p] in mk.slotPrefs && mk.SlotPrefers(mk.srcPrefs[w][p], w, l)
    ensures m[l] != mk.srcPrefs[w][p]
  {
    var t := mk.srcPrefs[w][p];
    RankOfElement(mk.srcPrefs[w], p);
    assert m[w] in mk.srcPrefs[w];
    assert !Blocks(mk, m, w, t);
    assert Rank(mk.srcPrefs[w], m[w]) < p ==> NotAt(mk, m, w, Rank(mk.srcPrefs[w], m[w]));
    assert m[w] != t ==> mk.SrcPrefers(w, t, m[w]);
  }

  lemma StepNotPassed(mk: Market, st: State, s: nat, m: map<nat, Slot>)
    requires mk.WellFormed() && Coherent(mk, st) && CanStep(mk, st, s)
    requires Coherent(mk, Propose(mk, st, s))
    requires Stable(mk, m) && NotPassed(mk, st, m)
    ensures NotPassed(mk, Propose(mk, st, s), m)
  {
    var st' := Propose(mk, st, s);
    var t := mk.srcPrefs[s][st.next[s]];
    var cur := st.slotToSrc[t];
    if cur != FREE {
      assert HeldByMatched(st, t) && HoldsLatest(mk, st, cur);
      if mk.SlotPrefers(t, s, cur) {
        LoserHasNoClaim(mk, m, s, cur, st.next[s]);
      } else {
        RanksDiffer(mk.slotPrefs[t], Upto(mk.nsrc), s, cur);
        LoserHasNoClaim(mk, m, cur, s, st.next[cur] - 1);
      }
    }
    forall o: nat, i: nat | o in st'.next && i < st'.next[o] && (o in st'.srcToSlot ==> i < st'.next[o] - 1)
      ensures NotAt(mk, m, o, i)
    {
    }
  }

  /** Every proposal keeps the invariant, whichever free source makes it. */
  lemma StepInvariant(mk: Market, st: State, s: nat)
    requires mk.WellFormed() && Invariant(mk, st) && CanStep(mk, st, s)
    ensures Invariant(mk, Propose(mk, st, s))
  {
    StepCoherent(mk, st, s);
    StepSettled(mk, st, s);
    forall m | Stable(mk, m) ensures NotPassed(mk, Propose(mk, st, s), m) {
      StepNotPassed(mk, st, s, m);
    }
  }

  /** The slots asked by a source with an exhausted list are all held, by others if it is free. */
  lemma {:induction false} HoldersAreMany(mk: Market, st: State, ts: set<Slot>)
    requires Coherent(mk, st) && ts <= mk.slots
    requires forall t :: t in ts ==> st.slotToSrc[t] != FREE
    ensures |set t | t in ts :: st.slotToSrc[t]| == |ts|
  {
    if ts != {} {
      var t :| t in ts;
      var rest := set u | u in ts - {t} :: st.slotToSrc[u];
      HoldersAreMany(mk, st, ts - {t});
      assert HeldByMatched(st, t);
      assert forall u :: u in ts - {t} ==> HeldByMatched(st, u) && st.slotToSrc[u] != st.slotToSrc[t];
      assert (set u | u in ts :: st.slotToSrc[u]) == rest + {st.slotToSrc[t]};
    }
  }

  /** With at least as many slots as sources, a free source always has a slot left to ask. */
  lemma NeverExhausted(mk: Market, st: State, s: nat)
    requires mk.WellFormed() && Coherent(mk, st) && Settled(mk, st) && IsFree(mk, st, s)
    requires mk.nsrc <= |mk.slots|
    ensures HasProposalLeft(mk, st, s)
  {
    if st.next[s] == |mk.srcPrefs[s]| {
      // Every slot is held, all by sources other than s: there are too few of those.
      forall t | t in mk.slots
        ensures st.slotToSrc[t] != FREE && st.slotToSrc[t] < mk.nsrc && st.slotToSrc[t] != s
      {
        assert t in mk.srcPrefs[s];
        assert BeatenAt(mk, st, s, Rank(mk.srcPrefs[s], t));
        assert HeldByMatched(st, t) && HoldsLatest(mk, st, st.slotToSrc[t]);
      }
      var holders := set t | t in mk.slots :: st.slotToSrc[t];
      HoldersAreMany(mk, st, mk.slots);
      UptoCard(mk.nsrc);
      SubsetCard(holders, Upto(mk.nsrc) - {s});
    }
  }

  lemma CompleteIsStable(mk: Market, st: State)
    requires mk.WellFormed() && Coherent(mk, st) && Settled(mk, st) && Complete(mk, st)
    ensures Stable(mk, st.srcToSlot)
  {
    var m := st.srcToSlot;
    assert forall s :: s in m ==> HoldsLatest(mk, st, s);
    forall s, t {:trigger Blocks(mk, m, s, t)} | s in m && t in mk.slots ensures !Blocks(mk, m, s, t) {
      var prefs := mk.srcPrefs[s];
      assert HoldsLatest(mk, st, s);
      RankOfElement(prefs, st.next[s] - 1);
      assert t in prefs;
      if Rank(prefs, t) < st.next[s] {
        assert BeatenAt(mk, st, s, Rank(prefs, t));
        assert HeldByMatched(st, t);
      }
    }
  }

  /** The state in which no source is free holds the source-optimal stable matching. */
  lemma CompleteIsSourceOptimal(mk: Market, st: State)
    requires mk.WellFormed() && Invariant(mk, st) && Complete(mk, st)
    ensures SourceOptimal(mk, st.srcToSlot)
  {
    CompleteIsStable(mk, st);
    var best := st.srcToSlot;
    forall m, s | Stable(mk, m) && s in best
      ensures best[s] == m[s] || mk.SrcPrefers(s, best[s], m[s])
    {
      var prefs := mk.srcPrefs[s];
      assert HoldsLatest(mk, st, s);
      RankOfElement(prefs, st.next[s] - 1);
      assert m[s] in prefs;
      var r := Rank(prefs, m[s]);
      assert NotPassed(mk, st, m);
      assert r < st.next[s] - 1 ==> NotAt(mk, m, s, r);
    }
  }

  // ----- runs: any free source may be served at each step

  function Proposals(next: map<nat, nat>, n: nat): nat {
    if n == 0 then 0 else Proposals(next, n - 1) + (if n - 1 in next then next[n - 1] else 0)
  }

  lemma {:induction false} OneMoreProposal(next: map<nat, nat>, s: nat, n: nat)
    requires s in next
    ensures Proposals(next[s := next[s] + 1], n) == Proposals(next, n) + if s < n then 1 else 0
  {
    if n > 0 { OneMoreProposal(next, s, n - 1); }
  }

  lemma {:induction false} ProposalsBound(next: map<nat, nat>, n: nat, k: nat)
    requires forall s :: s in next ==> next[s] <= k
    ensures Proposals(next, n) <= n * k
  {
    if n > 0 {
      ProposalsBound(next, n - 1, k);
      assert n * k == (n - 1) * k + k;
    }
  }

  lemma {:induction false} NoProposals(next: map<nat, nat>, n: nat)
    requires forall s :: s in next ==> next[s] == 0
    ensures Proposals(next, n) == 0
  {
    if n > 0 { NoProposals(next, n - 1); }
  }

  ghost predicate Steps(mk: Market, st: State, s: nat, st': State) {
    CanStep(mk, st, s) && st' == Propose(mk, st, s)
  }

  /** Serving the free sources named by `picks`, in that order, leads from the initial state to `st`. */
  ghost predicate Reaches(mk: Market, picks: seq<nat>, st: State)
    decreases |picks|
  {
    if picks == [] then st == Initial(mk)
    else
      var k := |picks| - 1;
      exists before :: Reaches(mk, picks[..k], before) && Steps(mk, before, picks[k], st)
  }

  lemma {:induction false} RunInvariant(mk: Market, picks: seq<nat>, st: State)
    requires mk.WellFormed() && Reaches(mk, picks, st)
    ensures Invariant(mk, st)
    decreases |picks|
  {
    if picks == [] {
      InitialInvariant(mk);
    } else {
      var k := |picks| - 1;
      var before :| Reaches(mk, picks[..k], before) && Steps(mk, before, picks[k], st);
      RunInvariant(mk, picks[..k], before);
      StepInvariant(mk, before, picks[k]);
    }
  }

  /** Each step of a run is one proposal that was not made before. */
  lemma {:induction false} RunLength(mk: Market, picks: seq<nat>, st: State)
    requires Reaches(mk, picks, st)
    ensures Proposals(st.next, mk.nsrc) == |picks|
    decreases |picks|
  {
    if picks == [] {
      NoProposals(st.next, mk.nsrc);
    } else {
      var k := |picks| - 1;
      var before :| Reaches(mk, picks[..k], before) && Steps(mk, before, picks[k], st);
      RunLength(mk, picks[..k], before);
      OneMoreProposal(before.next, picks[k], mk.nsrc);
    }
  }

  /** No run is longer than the number of (source, slot) pairs. */
  lemma RunsAreBounded(mk: Market, picks: seq<nat>, st: State)
    requires mk.WellFormed() && Reaches(mk, picks, st)
    ensures |picks| <= mk.nsrc * |mk.slots|
  {
    RunInvariant(mk, picks, st);
    RunLength(mk, picks, st);
    forall s | s in st.next ensures st.next[s] <= |mk.slots| {
      EnumerationLength(mk.srcPrefs[s], mk.slots);
    }
    ProposalsBound(st.next, mk.nsrc, |mk.slots|);
  }

  lemma {:induction false} EnumerationLength<T>(list: seq<T>, elems: set<T>)
    requires Enumerates(list, elems)
    ensures |list| == |elems|
  {
    assert forall x :: x in elems ==> x in list;
    if list != [] {
      var x := list[0];
      assert forall y :: y in list ==> y == x || y in list[1..];
      EnumerationLength(list[1..], elems - {x});
    }
  }

  /** With at least as many slots as sources, any free source of any reachable state can be served next. */
  lemma RunsNeverGetStuck(mk: Market, picks: seq<nat>, st: State, s: nat)
    requires mk.WellFormed() && Reaches(mk, picks, st) && mk.nsrc <= |mk.slots|
    requires IsFree(mk, st, s)
    ensures CanStep(mk, st, s) && Reaches(mk, picks + [s], Propose(mk, st, s))
  {
    RunInvariant(mk, picks, st);
    NeverExhausted(mk, st, s);
    NextSlot(mk, st, s);
    assert (picks + [s])[..|picks|] == picks;
    assert Steps(mk, st, s, Propose(mk, st, s));
  }

  /** Serving the free sources in any two orders ends in the same, source-optimal, matching. */
  lemma OrderDoesNotMatter(mk: Market, picks: seq<nat>, st: State, picks': seq<nat>, st': State)
    requires mk.WellFormed() && Reaches(mk, picks, st) && Reaches(mk, picks', st')
    requires Complete(mk, st) && Complete(mk, st')
    ensures st.srcToSlot == st'.srcToSlot
    ensures SourceOptimal(mk, st.srcToSlot)
  {
    RunInvariant(mk, picks, st);
    RunInvariant(mk, picks', st');
    CompleteIsSourceOptimal(mk, st);
    CompleteIsSourceOptimal(mk, st');
    SourceOptimalIsUnique(mk, st.srcToSlot, st'.srcToSlot);
  }

  // ----- existence

  lemma SomebodyIsFree(mk: Market, st: State) returns (s: nat)
    requires !Complete(mk, st)
    ensures IsFree(mk, st, s)
  {
    s :| 0 <= s < mk.nsrc && s !in st.srcToSlot;
  }

  /** Every run can be continued until everybody is matched. */
  lemma {:induction false} RunCanComplete(mk: Market, picks: seq<nat>, st: State) returns (picks': seq<nat>, st': State)
    requires mk.WellFormed() && mk.nsrc <= |mk.slots| && Reaches(mk, picks, st)
    ensures Reaches(mk, picks', st') && Complete(mk, st')
    decreases mk.nsrc * |mk.slots| - |picks|
  {
    RunsAreBounded(mk, picks, st);
    if Complete(mk, st) {
      picks', st' := picks, st;
    } else {
      var s := SomebodyIsFree(mk, st);
      RunsNeverGetStuck(mk, picks, st, s);
      RunsAreBounded(mk, picks + [s], Propose(mk, st, s));
      picks', st' := RunCanComplete(mk, picks + [s], Propose(mk, st, s));
    }
  }

  /** With at least as many slots as sources there is a stable matching that is best for every source. */
  lemma SourceOptimalExists(mk: Market) returns (best: map<nat, Slot>)
    requires mk.WellFormed() && mk.nsrc <= |mk.slots|
    ensures SourceOptimal(mk, best)
  {
    assert Reaches(mk, [], Initial(mk));
    var picks, st := RunCanComplete(mk, [], Initial(mk));
    RunInvariant(mk, picks, st);
    CompleteIsSourceOptimal(mk, st);
    best := st.srcToSlot;
  }
}
