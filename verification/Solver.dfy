/**
 The affinity mapper: deferred acceptance with several slots per destination,
 run in place on the solver's tables and a queue of free sources.
 */
module Solver {
  import opened Affinity
  import opened SlotLists
  import opened Sorting
  import opened StableMatching
  import opened Status

  /** How many of the listed sources have an affinity for `d`. */
  ghost function Wanting(aff: AffinityMap, keys: seq<nat>, d: nat): nat {
    if keys == [] then 0
    else Wanting(aff, keys[..|keys| - 1], d) + if HasAffinity(aff, keys[|keys| - 1], d) then 1 else 0
  }

  lemma {:induction false} WantingCounts(aff: AffinityMap, keys: seq<nat>, who: set<nat>, d: nat)
    requires Enumerates(keys, who)
    ensures Wanting(aff, keys, d) == |set s | s in who && HasAffinity(aff, s, d)|
  {
    hide Enumerates, HasAffinity;
    EnumeratePrefix(keys, who);
    if keys == [] {
      assert (set s | s in who && HasAffinity(aff, s, d)) == {};
    } else {
      var l := |keys| - 1;
      WantingCounts(aff, keys[..l], who - {keys[l]}, d);
      CountWithout(aff, who, keys[l], d);
    }
  }

  lemma EnumeratePrefix<T>(list: seq<T>, elems: set<T>)
    requires Enumerates(list, elems)
    ensures list == [] ==> elems == {}
    ensures var l := |list| - 1; list != [] ==> list[l] in elems && Enumerates(list[..l], elems - {list[l]})
  {
    assert forall x :: x in elems ==> x in list;
    if list != [] {
      assert list == list[..|list| - 1] + [list[|list| - 1]];
    }
  }

  lemma CountWithout(aff: AffinityMap, who: set<nat>, s: nat, d: nat)
    requires s in who
    ensures |set o | o in who && HasAffinity(aff, o, d)| ==
            |set o | o in who - {s} && HasAffinity(aff, o, d)| + if HasAffinity(aff, s, d) then 1 else 0
  {
    var before, after := set o | o in who - {s} && HasAffinity(aff, o, d), set o | o in who && HasAffinity(aff, o, d);
    assert after == if HasAffinity(aff, s, d) then before + {s} else before;
  }

  ghost predicate Counts(counts: map<nat, nat>, aff: AffinityMap, m: nat, keys: seq<nat>) {
    && counts.Keys == Upto(m)
    && forall d: nat :: d < m ==> counts[d] == Wanting(aff, keys, d)
  }

  lemma WantingIsContention(aff: AffinityMap, m: nat, counts: map<nat, nat>)
    requires Counts(counts, aff, m, Ascending(aff.Keys))
    ensures counts == ContentionMap(m, aff)
  {
    AscendingEnumerates(aff.Keys);
    forall d | d in Upto(m) ensures counts[d] == Contention(aff, d) {
      WantingCounts(aff, Ascending(aff.Keys), aff.Keys, d);
      assert (set s | s in aff.Keys && HasAffinity(aff, s, d)) == (set s | s in aff && HasAffinity(aff, s, d));
    }
  }

  lemma CountNextSource(
      aff: AffinityMap, m: nat, keys: seq<nat>, i: nat, dests: seq<nat>, before: map<nat, nat>, after: map<nat, nat>)
    requires i < |keys| && keys[i] in aff && Counts(before, aff, m, keys[..i])
    requires forall d: nat :: d < m ==> (d in dests <==> HasAffinity(aff, keys[i], d))
    requires after.Keys == before.Keys
    requires forall d :: d in before ==> after[d] == before[d] + if d in dests then 1 else 0
    ensures Counts(after, aff, m, keys[..i + 1])
  {
    assert keys[..i + 1][..i] == keys[..i];
  }

  /** Two ranked lists, everything in the first before everything in the second. */
  lemma JoinTiers<T(!new)>(
      tier: (T, T) -> bool, less: (T, T) -> bool, a: seq<T>, b: seq<T>, s: set<T>, t: set<T>)
    requires Ranks(tier, s, a) && Ranks(tier, t, b) && s !! t
    requires forall x, y :: x in s && y in s && tier(x, y) ==> less(x, y)
    requires forall x, y :: x in t && y in t && tier(x, y) ==> less(x, y)
    requires forall x, y :: x in s && y in t ==> less(x, y)
    ensures Ranks(less, s + t, a + b)
  {
    EnumerateBoth(a, b, s, t);
    forall i, j | 0 <= i < j < |a + b| ensures less((a + b)[i], (a + b)[j]) {
      if j < |a| {
        assert tier(a[i], a[j]);
      } else if |a| <= i {
        assert tier(b[i - |a|], b[j - |a|]);
      }
    }
  }

  /** Wanted destinations by contention, then the others by contention, slot by slot. */
  lemma TieredPrefs(
      wants: set<nat>, contention: map<nat, nat>, m: nat, k: nat, preferred: seq<nat>, others: seq<nat>)
    requires wants <= Upto(m)
    requires Ranks(ByContention(contention), wants, preferred)
    requires Ranks(ByContention(contention), Upto(m) - wants, others)
    ensures Ranks(BySlot(wants, contention), SlotSet(m, k), Expand(preferred, k) + Expand(others, k))
  {
    JoinTiers<nat>(ByContention(contention), ByDest(wants, contention), preferred, others, wants, Upto(m) - wants);
    assert wants + (Upto(m) - wants) == Upto(m);
    ExpandConcat(preferred, others, k);
    ExpandRanks(wants, contention, Upto(m), preferred + others, k);
    SlotSetIsOver(m, k);
  }

  /** A library sort of an enumeration ranks the elements. */
  method SortEnumeration<T(!new)>(less: (T, T) -> bool, s: seq<T>, ghost elems: set<T>) returns (r: seq<T>)
    requires StrictTotalOrder(less) && Enumerates(s, elems)
    ensures Ranks(less, elems, r)
  {
    TotalIsWeak(less);
    r := Sort(less, s);
    SortedEnumeration(less, s, r);
    AscendsHasNoDuplicates(less, r);
    assert forall i :: 0 <= i < |r| ==> r[i] in r;
    assert forall x :: x in elems ==> x in s;
  }

  method SortByContention(contention: map<nat, nat>, dests: seq<nat>, ghost elems: set<nat>) returns (r: seq<nat>)
    requires Enumerates(dests, elems)
    ensures Ranks(ByContention(contention), elems, r)
  {
    ContentionOrderIsTotal(contention);
    r := SortEnumeration<nat>(ByContention(contention), dests, elems);
  }

  lemma NothingElse(wants: set<nat>, m: nat)
    requires wants <= Upto(m) && m <= |wants|
    ensures Upto(m) - wants == {}
  {
    SubsetCard(wants, Upto(m));
    UptoCard(m);
  }

  class StableMarriageSolver {
    const nsrcs: nat
    const ndsts: nat
    const slotsPerDst: nat
    // Everybody's list, best first.
    var srcPrefs: map<nat, seq<Slot>>
    var slotPrefs: map<Slot, seq<nat>>
    // The two directions of the matching.
    var srcToSlot: map<nat, Slot>
    var slotToSrc: map<Slot, nat>
    // How far down its list each source is.
    var srcNextProposal: map<nat, nat>

    ghost function MarketOf(): Market
      reads this
    {
      Market(nsrcs, SlotSet(ndsts, slotsPerDst), srcPrefs, slotPrefs)
    }

    ghost function StateOf(): State
      reads this
    {
      State(srcToSlot, slotToSrc, srcNextProposal)
    }

    /** Higher score means more sources want the destination. */
    method CalculateDstContention(affinities: AffinityMap) returns (contention: map<nat, nat>)
      requires InRange(nsrcs, ndsts, affinities)
      ensures contention == ContentionMap(ndsts, affinities)
    {
      contention := map[];
      for dst := 0 to ndsts
        invariant contention == AllMapped(Upto(dst), 0)
      {
        contention := contention[dst := 0];
      }
      var keys := Ascending(affinities.Keys);
      assert forall i :: 0 <= i < |keys| ==> keys[i] in keys;
      assert Counts(contention, affinities, ndsts, keys[..0]);
      for i := 0 to |keys|
        invariant Counts(contention, affinities, ndsts, keys[..i])
      {
        contention := CountSource(affinities, keys, i, contention);
      }
      assert keys[..|keys|] == keys;
      WantingIsContention(affinities, ndsts, contention);
    }

    /** One more source: adds one to the score of every destination it wants. */
    method CountSource(affinities: AffinityMap, keys: seq<nat>, i: nat, contention: map<nat, nat>)
        returns (r: map<nat, nat>)
      requires InRange(nsrcs, ndsts, affinities) && i < |keys| && keys[i] in affinities
      requires Counts(contention, affinities, ndsts, keys[..i])
      ensures Counts(r, affinities, ndsts, keys[..i + 1])
    {
      var dsts := affinities[keys[i]];
      // An empty set stands for all destinations.
      var dests := Ascending(if dsts == {} then Upto(ndsts) else dsts);
      r := AddOne(contention, dests);
      CountNextSource(affinities, ndsts, keys, i, dests, contention, r);
    }

    /** Adds one to the score of every listed destination. */
    method AddOne(contention: map<nat, nat>, dests: seq<nat>) returns (r: map<nat, nat>)
      requires NoDuplicates(dests) && forall d :: d in dests ==> d in contention
      ensures r.Keys == contention.Keys
      ensures forall d :: d in contention ==> r[d] == contention[d] + if d in dests then 1 else 0
    {
      r := contention;
      for j := 0 to |dests|
        invariant r.Keys == contention.Keys
        invariant forall d :: d in contention ==> r[d] == contention[d] + if d in dests[..j] then 1 else 0
      {
        assert dests[j] in dests && dests[j] !in dests[..j];
        assert dests[..j + 1] == dests[..j] + [dests[j]];
        r := r[dests[j] := r[dests[j]] + 1];
      }
      assert dests[..|dests|] == dests;
    }

    /** Appends all slots of the listed destinations. */
    method AppendSlots(preferences: seq<Slot>, dests: seq<nat>) returns (r: seq<Slot>)
      ensures r == preferences + Expand(dests, slotsPerDst)
    {
      r := preferences;
      for i := 0 to |dests|
        invariant r == preferences + Expand(dests[..i], slotsPerDst)
      {
        ghost var before := r;
        for slot := 0 to slotsPerDst
          invariant r == before + Row(dests[i], slotsPerDst)[..slot]
        {
          r := r + [Slot(dests[i], slot)];
        }
        assert dests[..i + 1][..i] == dests[..i];
        assert Row(dests[i], slotsPerDst)[..slotsPerDst] == Row(dests[i], slotsPerDst);
      }
      assert dests[..|dests|] == dests;
    }

    /** The destinations outside `affinities`, in increasing order. */
    method NonPreferred(affinities: set<nat>) returns (r: seq<nat>)
      ensures Enumerates(r, Upto(ndsts) - affinities)
    {
      r := [];
      for dst := 0 to ndsts
        invariant Enumerates(r, Upto(dst) - affinities)
      {
        if dst !in affinities {
          EnumerateBoth(r, [dst], Upto(dst) - affinities, {dst});
          assert Upto(dst + 1) - affinities == (Upto(dst) - affinities) + {dst};
          r := r + [dst];
        } else {
          assert Upto(dst + 1) - affinities == Upto(dst) - affinities;
        }
      }
    }

    /** Wanted destinations first, then the others; within each, less contended first. */
    method BuildSrcPrefs(affinities: set<nat>, hasEmptyAffinity: bool, contention: map<nat, nat>)
        returns (preferences: seq<Slot>)
      requires affinities <= Upto(ndsts) && (hasEmptyAffinity ==> affinities == Upto(ndsts))
      ensures Ranks(BySlot(affinities, contention), SlotSet(ndsts, slotsPerDst), preferences)
    {
      AscendingEnumerates(affinities);
      var preferred := SortByContention(contention, Ascending(affinities), affinities);
      preferences := AppendSlots([], preferred);
      assert preferences == Expand(preferred, slotsPerDst);
      if !hasEmptyAffinity && |affinities| < ndsts {
        var others := NonPreferred(affinities);
        others := SortByContention(contention, others, Upto(ndsts) - affinities);
        preferences := AppendSlots(preferences, others);
        TieredPrefs(affinities, contention, ndsts, slotsPerDst, preferred, others);
      } else {
        if !hasEmptyAffinity { NothingElse(affinities, ndsts); }
        TieredPrefs(affinities, contention, ndsts, slotsPerDst, preferred, []);
        assert preferences == Expand(preferred, slotsPerDst) + Expand([], slotsPerDst);
      }
    }

    /** Sources with affinity for the destination first; within each group by number. */
    method BuildSlotPreferences(slot: Slot, affinities: AffinityMap) returns (preferences: seq<nat>)
      ensures Ranks(BySource(affinities, slot.dest), Upto(nsrcs), preferences)
    {
      var withAffinity: seq<nat>, withoutAffinity: seq<nat> := [], [];
      ghost var with': set<nat>, without': set<nat> := {}, {};
      for src := 0 to nsrcs
        invariant Enumerates(withAffinity, with') && Enumerates(withoutAffinity, without')
        invariant with' + without' == Upto(src)
        invariant forall s :: s in with' ==> HasAffinity(affinities, s, slot.dest)
        invariant forall s :: s in without' ==> !HasAffinity(affinities, s, slot.dest)
      {
        if HasAffinity(affinities, src, slot.dest) {
          EnumerateBoth(withAffinity, [src], with', {src});
          withAffinity, with' := withAffinity + [src], with' + {src};
        } else {
          EnumerateBoth(withoutAffinity, [src], without', {src});
          withoutAffinity, without' := withoutAffinity + [src], without' + {src};
        }
      }
      BelowIsTotal();
      withAffinity := SortEnumeration<nat>(Below, withAffinity, with');
      withoutAffinity := SortEnumeration<nat>(Below, withoutAffinity, without');
      JoinTiers<nat>(Below, BySource(affinities, slot.dest), withAffinity, withoutAffinity, with', without');
      preferences := withAffinity + withoutAffinity;
    }

    constructor (n: nat, m: nat, affinities: AffinityMap)
      requires n + m <= FREE && InRange(n, m, affinities)
      ensures nsrcs == n && ndsts == m && slotsPerDst == MaxIPerK(n, m)
      ensures Describes(MarketOf(), n, m, affinities)
      ensures StateOf() == Initial(MarketOf())
    {
      nsrcs, ndsts, slotsPerDst := n, m, MaxIPerK(n, m);
      srcPrefs, slotPrefs, srcToSlot, slotToSrc, srcNextProposal := map[], map[], map[], map[], map[];
      new;
      PrepareSources(affinities);
      PrepareSlots(affinities);
    }

    ghost predicate SourcesReady(upto: nat, affinities: AffinityMap)
      reads this
    {
      ListsReady(MarketOf(), srcNextProposal, upto, ndsts, affinities)
    }

    ghost predicate SlotsReady(slots: set<Slot>, affinities: AffinityMap)
      reads this
    {
      && slotPrefs.Keys == slots
      && slotToSrc == AllMapped(slots, FREE)
      && forall t :: t in slots ==> SlotListOk(MarketOf(), affinities, t)
    }

    /** Builds the preference lists of the sources. */
    method PrepareSources(affinities: AffinityMap)
      requires InRange(nsrcs, ndsts, affinities) && srcPrefs == map[] && srcNextProposal == map[]
      modifies this`srcPrefs, this`srcNextProposal
      ensures SourcesReady(nsrcs, affinities)
    {
      var contention := CalculateDstContention(affinities);
      for src := 0 to nsrcs
        invariant SourcesReady(src, affinities)
      {
        AddSource(src, affinities, contention);
      }
    }

    /** Builds the preference lists of the slots, and marks the slots free. */
    method PrepareSlots(affinities: AffinityMap)
      requires slotPrefs == map[] && slotToSrc == map[]
      modifies this`slotPrefs, this`slotToSrc
      ensures SlotsReady(SlotSet(ndsts, slotsPerDst), affinities)
    {
      for dst := 0 to ndsts
        invariant SlotsReady(SlotSet(dst, slotsPerDst), affinities)
      {
        AddDestination(dst, affinities);
      }
    }

    /** Prepares source `src`. */
    method AddSource(src: nat, affinities: AffinityMap, contention: map<nat, nat>)
      requires src < nsrcs && InRange(nsrcs, ndsts, affinities) && contention == ContentionMap(ndsts, affinities)
      requires SourcesReady(src, affinities)
      modifies this`srcPrefs, this`srcNextProposal
      ensures SourcesReady(src + 1, affinities)
    {
      var hasEmptyAffinity := src in affinities && affinities[src] == {};
      var preferences := BuildSrcPrefs(Wants(affinities, src, ndsts), hasEmptyAffinity, contention);
      ListsReadyExtends(MarketOf(), srcNextProposal, src, ndsts, affinities, preferences);
      srcPrefs := srcPrefs[src := preferences];
      srcNextProposal := srcNextProposal[src := 0];
    }

    /** Prepares the slots of destination `dst`. */
    method AddDestination(dst: nat, affinities: AffinityMap)
      requires SlotsReady(SlotSet(dst, slotsPerDst), affinities)
      modifies this`slotPrefs, this`slotToSrc
      ensures SlotsReady(SlotSet(dst + 1, slotsPerDst), affinities)
    {
      for slotId := 0 to slotsPerDst
        invariant SlotsReady(SlotSet(dst, slotsPerDst) + SlotsOf(dst, slotId), affinities)
      {
        var slot := Slot(dst, slotId);
        var preferences := BuildSlotPreferences(slot, affinities);
        ghost var slots := SlotSet(dst, slotsPerDst) + SlotsOf(dst, slotId);
        assert SlotsOf(dst, slotId + 1) == SlotsOf(dst, slotId) + {slot};
        assert slots + {slot} == SlotSet(dst, slotsPerDst) + SlotsOf(dst, slotId + 1);
        SlotListsExtend(MarketOf(), affinities, slots, slot, preferences);
        slotPrefs := slotPrefs[slot := preferences];
        AllMappedExtends(slots, FREE, slot);
        slotToSrc := slotToSrc[slot := FREE];
      }
      assert SlotSet(dst + 1, slotsPerDst) == SlotSet(dst, slotsPerDst) + SlotsOf(dst, slotsPerDst);
    }

    /** Does the slot prefer `newSource` to `curSource`? */
    method SlotPrefersNew(slot: Slot, newSource: nat, curSource: nat) returns (r: bool)
      requires slot in slotPrefs && NoDuplicates(slotPrefs[slot])
      ensures r <==> MarketOf().SlotPrefers(slot, newSource, curSource)
    {
      var prefs := slotPrefs[slot];
      // A rank past the end of the list for both.
      var newRank, curRank := |prefs|, |prefs|;
      for i := 0 to |prefs|
        invariant newRank == if Rank(prefs, newSource) < i then Rank(prefs, newSource) else |prefs|
        invariant curRank == if Rank(prefs, curSource) < i then Rank(prefs, curSource) else |prefs|
      {
        if prefs[i] == newSource { newRank := i; }
        if prefs[i] == curSource { curRank := i; }
        // Nothing later in the list can change the answer.
        if newRank != |prefs| && curRank != |prefs| { break; }
      }
      r := newRank < curRank;
    }

    ghost function FreeSources(): set<nat>
      reads this
    {
      Upto(nsrcs) - srcToSlot.Keys
    }

    /** One proposal by `source`, which has a slot left to ask; the source that ends up free joins the queue. */
    method ServeSource(source: nat, queue: seq<nat>) returns (queue': seq<nat>)
      requires MarketOf().WellFormed() && Coherent(MarketOf(), StateOf())
      requires CanStep(MarketOf(), StateOf(), source)
      requires Enumerates(queue, FreeSources() - {source})
      modifies this`srcToSlot, this`slotToSrc, this`srcNextProposal
      ensures StateOf() == Propose(MarketOf(), old(StateOf()), source)
      ensures Enumerates(queue', FreeSources())
    {
      var slot := srcPrefs[source][srcNextProposal[source]];
      ghost var free := FreeSources();
      assert HeldByMatched(StateOf(), slot) && HoldsLatest(MarketOf(), StateOf(), slotToSrc[slot]);
      srcNextProposal := srcNextProposal[source := srcNextProposal[source] + 1];

      var currentMatch := slotToSrc[slot];
      var preferred := SlotPrefersNew(slot, source, currentMatch);
      if currentMatch == FREE {
        // Nobody loses the slot.
        srcToSlot := srcToSlot[source := slot];
        slotToSrc := slotToSrc[slot := source];
        queue' := queue;
        assert FreeSources() == free - {source};
      } else if preferred {
        // The holder is replaced and becomes free.
        srcToSlot := srcToSlot[source := slot];
        slotToSrc := slotToSrc[slot := source];
        srcToSlot := srcToSlot - {currentMatch};
        EnumerateBoth(queue, [currentMatch], free - {source}, {currentMatch});
        queue' := queue + [currentMatch];
        assert FreeSources() == (free - {source}) + {currentMatch};
      } else {
        // The holder stays and the proposer is still free.
        EnumerateBoth(queue, [source], free - {source}, {source});
        queue' := queue + [source];
        assert FreeSources() == (free - {source}) + {source};
      }
    }

    method AllSources() returns (queue: seq<nat>)
      ensures Enumerates(queue, Upto(nsrcs))
    {
      queue := [];
      for src := 0 to nsrcs
        invariant Enumerates(queue, Upto(src))
      {
        EnumerateBoth(queue, [src], Upto(src), {src});
        assert Upto(src + 1) == Upto(src) + {src};
        queue := queue + [src];
      }
    }

    /** Takes the first free source off the queue and serves it, unless its list is exhausted. */
    method ServeNext(queue: seq<nat>, ghost picks: seq<nat>) returns (exhausted: bool, queue': seq<nat>)
      requires MarketOf().WellFormed() && slotsPerDst == MaxIPerK(nsrcs, ndsts)
      requires Reaches(MarketOf(), picks, StateOf())
      requires queue != [] && Enumerates(queue, FreeSources())
      modifies this`srcToSlot, this`slotToSrc, this`srcNextProposal
      ensures exhausted ==> ndsts == 0 && nsrcs > 0 && StateOf() == old(StateOf())
      ensures !exhausted ==> Reaches(MarketOf(), picks + [queue[0]], StateOf()) && Enumerates(queue', FreeSources())
    {
      var source := queue[0];
      EnumerateRest(queue, FreeSources());
      RunInvariant(MarketOf(), picks, StateOf());
      if srcNextProposal[source] >= |srcPrefs[source]| {
        ExhaustedMeansNoDestination(MarketOf(), nsrcs, ndsts, StateOf(), source);
        return true, queue;
      }
      exhausted := false;
      NextSlot(MarketOf(), StateOf(), source);
      ExtendRun(MarketOf(), picks, StateOf(), source);
      queue' := ServeSource(source, queue[1..]);
    }

    /** Runs the proposals to the end; raises an error exactly when there are sources but no destination. */
    method Solve() returns (r: Outcome<()>, ghost picks: seq<nat>)
      requires MarketOf().WellFormed() && slotsPerDst == MaxIPerK(nsrcs, ndsts)
      requires StateOf() == Initial(MarketOf())
      modifies this`srcToSlot, this`slotToSrc, this`srcNextProposal
      ensures r == if nsrcs > 0 && ndsts == 0 then Thrown(QV_ERR_NOT_SUPPORTED) else Returned(())
      ensures Reaches(MarketOf(), picks, StateOf())
      ensures |picks| <= nsrcs * |MarketOf().slots| && |MarketOf().slots| == ndsts * slotsPerDst
      ensures r.Returned? ==> Complete(MarketOf(), StateOf())
    {
      ghost var mk := MarketOf();
      ghost var bound := mk.nsrc * |mk.slots|;
      picks := [];
      SlotSetCard(ndsts, slotsPerDst);
      RunsAreBounded(mk, picks, StateOf());
      var freeSources := AllSources();
      assert FreeSources() == Upto(nsrcs);
      while freeSources != []
        invariant Reaches(mk, picks, StateOf()) && |picks| <= bound
        invariant Enumerates(freeSources, FreeSources())
        decreases bound - |picks|
      {
        ghost var source := freeSources[0];
        var exhausted;
        exhausted, freeSources := ServeNext(freeSources, picks);
        if exhausted {
          return Thrown(QV_ERR_NOT_SUPPORTED), picks;
        }
        picks := picks + [source];
        RunsAreBounded(mk, picks, StateOf());
      }
      NobodyQueued(freeSources);
      RunInvariant(mk, picks, StateOf());
      if nsrcs > 0 {
        MatchedMeansDestination(mk, ndsts, slotsPerDst, StateOf());
      }
      r := Returned(());
    }

    lemma NobodyQueued(queue: seq<nat>)
      requires Enumerates(queue, FreeSources()) && queue == []
      ensures Complete(MarketOf(), StateOf())
    {
      forall s | 0 <= s < nsrcs ensures s in srcToSlot {
        assert s in FreeSources() ==> s in queue;
      }
    }

    /** Is `src` in no blocking pair? */
    method SourceIsContent(src: nat) returns (ok: bool)
      requires MarketOf().WellFormed() && TablesAgree(MarketOf(), StateOf()) && src in srcToSlot
      ensures ok <==> Content(MarketOf(), StateOf(), src)
    {
      var prefs := srcPrefs[src];
      var currentSlot := srcToSlot[src];
      ghost var mk, st := MarketOf(), StateOf();
      ElementsAreSlots(mk, st, src);
      for i := 0 to |prefs|
        invariant i <= Rank(prefs, currentSlot)
        invariant ContentBefore(mk, st, src, i)
      {
        var preferredSlot := prefs[i];
        RankOfElement(prefs, i);
        if preferredSlot == currentSlot {
          ContentWithPrefix(mk, st, src, i);
          return true;
        }
        var otherSource := slotToSrc[preferredSlot];
        if otherSource == FREE {
          assert BlocksInTables(mk, st, src, preferredSlot);
          return false;
        }
        var prefers := SlotPrefersNew(preferredSlot, src, otherSource);
        if prefers {
          assert BlocksInTables(mk, st, src, preferredSlot);
          return false;
        }
      }
      ok := true;
    }

    /** True exactly when all sources are matched and no pair blocks. */
    method IsStable() returns (r: bool)
      requires MarketOf().WellFormed() && TablesAgree(MarketOf(), StateOf())
      ensures r <==> Complete(MarketOf(), StateOf()) && Stable(MarketOf(), srcToSlot)
    {
      ghost var mk, st := MarketOf(), StateOf();
      StableMeansContent(mk, st);
      for src := 0 to nsrcs
        invariant AllContent(mk, st, src)
      {
        NextContent(mk, st, src);
        if src !in srcToSlot { return false; }
        var content := SourceIsContent(src);
        if !content { return false; }
      }
      r := true;
    }

    /** The destination of every matched source. */
    method GetMatching() returns (result: map<nat, set<nat>>)
      ensures result == DestMap(srcToSlot)
    {
      result := map[];
      var keys := Ascending(srcToSlot.Keys);
      AscendingEnumerates(srcToSlot.Keys);
      for i := 0 to |keys|
        invariant Matches(result, srcToSlot)
        invariant forall j :: 0 <= j < i ==> keys[j] in result
      {
        MatchesExtends(result, srcToSlot, keys[i]);
        result := result[keys[i] := {srcToSlot[keys[i]].dest}];
      }
      AllKeysMatched(result, srcToSlot);
    }
  }

  ghost predicate Matches(result: map<nat, set<nat>>, w: map<nat, Slot>) {
    result.Keys <= w.Keys && forall s :: s in result ==> result[s] == {w[s].dest}
  }

  lemma MatchesExtends(result: map<nat, set<nat>>, w: map<nat, Slot>, s: nat)
    requires Matches(result, w) && s in w
    ensures Matches(result[s := {w[s].dest}], w)
  {
  }

  lemma AllKeysMatched(result: map<nat, set<nat>>, w: map<nat, Slot>)
    requires Matches(result, w) && forall j :: 0 <= j < |Ascending(w.Keys)| ==> Ascending(w.Keys)[j] in result
    ensures result == DestMap(w)
  {
    forall s | s in w ensures s in result {
      var j := PlaceInAscending(w.Keys, s);
    }
  }

  // ----- reading stability off the tables

  /** The tables name each other's entries. */
  ghost predicate TablesAgree(mk: Market, st: State) {
    && st.slotToSrc.Keys == mk.slots
    && (forall s :: s in st.srcToSlot ==>
          s < mk.nsrc && st.srcToSlot[s] in st.slotToSrc && st.slotToSrc[st.srcToSlot[s]] == s)
    && (forall t :: t in st.slotToSrc && st.slotToSrc[t] != FREE ==>
          st.slotToSrc[t] in st.srcToSlot && st.srcToSlot[st.slotToSrc[t]] == t)
  }

  /** `s` would rather have `t`, and by the tables `t` is free or would rather have `s`. */
  ghost predicate BlocksInTables(mk: Market, st: State, s: nat, t: Slot)
    requires s in st.srcToSlot && s in mk.srcPrefs && t in st.slotToSrc && t in mk.slotPrefs
  {
    && mk.SrcPrefers(s, t, st.srcToSlot[s])
    && (st.slotToSrc[t] == FREE || mk.SlotPrefers(t, s, st.slotToSrc[t]))
  }

  ghost predicate Content(mk: Market, st: State, s: nat)
    requires mk.WellFormed() && TablesAgree(mk, st) && s in st.srcToSlot
  {
    forall t :: t in st.slotToSrc ==> !BlocksInTables(mk, st, s, t)
  }

  /** None of the first `i` slots on its list tempts `s`. */
  ghost predicate ContentBefore(mk: Market, st: State, s: nat, i: nat)
    requires mk.WellFormed() && TablesAgree(mk, st) && s in st.srcToSlot && i <= |mk.srcPrefs[s]|
  {
    forall j :: 0 <= j < i ==> mk.srcPrefs[s][j] in mk.slots && !BlocksInTables(mk, st, s, mk.srcPrefs[s][j])
  }

  lemma ElementsAreSlots(mk: Market, st: State, s: nat)
    requires mk.WellFormed() && TablesAgree(mk, st) && s in st.srcToSlot
    ensures st.srcToSlot[s] in mk.srcPrefs[s] && Rank(mk.srcPrefs[s], st.srcToSlot[s]) < |mk.srcPrefs[s]|
    ensures forall j :: 0 <= j < |mk.srcPrefs[s]| ==> mk.srcPrefs[s][j] in st.slotToSrc
  {
    assert Enumerates(mk.srcPrefs[s], mk.slots);
  }

  /** Only the slots before its own can tempt a source. */
  lemma ContentWithPrefix(mk: Market, st: State, s: nat, i: nat)
    requires mk.WellFormed() && TablesAgree(mk, st) && s in st.srcToSlot
    requires i == Rank(mk.srcPrefs[s], st.srcToSlot[s]) <= |mk.srcPrefs[s]| && ContentBefore(mk, st, s, i)
    ensures Content(mk, st, s)
  {
    var prefs := mk.srcPrefs[s];
    assert Enumerates(prefs, mk.slots);
    forall t | t in st.slotToSrc ensures !BlocksInTables(mk, st, s, t) {
      assert t in prefs;
      assert Rank(prefs, t) < i ==> prefs[Rank(prefs, t)] == t;
    }
  }

  /** On complete tables the two readings of "blocking pair" agree. */
  lemma BlockingInTables(mk: Market, st: State, s: nat, t: Slot)
    requires mk.WellFormed() && TablesAgree(mk, st) && IsMatching(mk, st.srcToSlot)
    requires s in st.srcToSlot && t in mk.slots
    ensures BlocksInTables(mk, st, s, t) <==> Blocks(mk, st.srcToSlot, s, t)
  {
  }

  lemma CompleteIsMatching(mk: Market, st: State)
    requires TablesAgree(mk, st) && Complete(mk, st)
    ensures IsMatching(mk, st.srcToSlot)
  {
  }

  /** The sources below `upto` are matched and content. */
  ghost predicate AllContent(mk: Market, st: State, upto: nat)
    requires mk.WellFormed() && TablesAgree(mk, st)
  {
    forall s: nat :: s < upto ==> s in st.srcToSlot && Content(mk, st, s)
  }

  lemma NextContent(mk: Market, st: State, s: nat)
    requires mk.WellFormed() && TablesAgree(mk, st) && AllContent(mk, st, s) && s < mk.nsrc
    ensures AllContent(mk, st, s + 1) <==> s in st.srcToSlot && Content(mk, st, s)
    ensures AllContent(mk, st, mk.nsrc) ==> AllContent(mk, st, s + 1)
  {
  }

  lemma StableMeansContent(mk: Market, st: State)
    requires mk.WellFormed() && TablesAgree(mk, st)
    ensures AllContent(mk, st, mk.nsrc) <==> Complete(mk, st) && Stable(mk, st.srcToSlot)
  {
    if Complete(mk, st) {
      CompleteIsMatching(mk, st);
      forall s, t | s in st.srcToSlot && t in mk.slots
        ensures BlocksInTables(mk, st, s, t) <==> Blocks(mk, st.srcToSlot, s, t)
      {
        BlockingInTables(mk, st, s, t);
      }
      StableIffContent(mk, st);
    }
  }

  lemma StableIffContent(mk: Market, st: State)
    requires mk.WellFormed() && TablesAgree(mk, st) && Complete(mk, st) && IsMatching(mk, st.srcToSlot)
    requires forall s, t :: s in st.srcToSlot && t in mk.slots ==>
               (BlocksInTables(mk, st, s, t) <==> Blocks(mk, st.srcToSlot, s, t))
    ensures AllContent(mk, st, mk.nsrc) <==> Stable(mk, st.srcToSlot)
  {
    if AllContent(mk, st, mk.nsrc) {
      forall s, t | s in st.srcToSlot && t in mk.slots ensures !Blocks(mk, st.srcToSlot, s, t) {
        assert Content(mk, st, s) && !BlocksInTables(mk, st, s, t);
      }
    }
  }

  // ----- preparing the tables

  lemma AllMappedExtends<T, U>(keys: set<T>, value: U, x: T)
    ensures AllMapped(keys, value)[x := value] == AllMapped(keys + {x}, value)
  {
  }

  /** The sources below `upto` have their lists and have not proposed. */
  ghost predicate ListsReady(mk: Market, next: map<nat, nat>, upto: nat, m: nat, aff: AffinityMap) {
    && mk.srcPrefs.Keys == Upto(upto)
    && next == AllMapped(Upto(upto), 0)
    && forall s :: s in Upto(upto) ==> SourceListOk(mk, m, aff, s)
  }

  lemma ListsReadyExtends(mk: Market, next: map<nat, nat>, s: nat, m: nat, aff: AffinityMap, prefs: seq<Slot>)
    requires ListsReady(mk, next, s, m, aff)
    requires Ranks(BySlot(Wants(aff, s, m), ContentionMap(m, aff)), mk.slots, prefs)
    ensures ListsReady(mk.(srcPrefs := mk.srcPrefs[s := prefs]), next[s := 0], s + 1, m, aff)
  {
    SourceListsExtend(mk, m, aff, s, prefs);
    AllMappedExtends(Upto(s), 0, s);
  }

  lemma SourceListsExtend(mk: Market, m: nat, aff: AffinityMap, s: nat, prefs: seq<Slot>)
    requires forall o :: o in Upto(s) ==> SourceListOk(mk, m, aff, o)
    requires Ranks(BySlot(Wants(aff, s, m), ContentionMap(m, aff)), mk.slots, prefs)
    ensures Upto(s + 1) == Upto(s) + {s}
    ensures var more := mk.(srcPrefs := mk.srcPrefs[s := prefs]);
            forall o :: o in Upto(s + 1) ==> SourceListOk(more, m, aff, o)
  {
    var more := mk.(srcPrefs := mk.srcPrefs[s := prefs]);
    forall o | o in Upto(s + 1) ensures SourceListOk(more, m, aff, o) {
      assert o != s ==> SourceListOk(mk, m, aff, o) && more.srcPrefs[o] == mk.srcPrefs[o];
    }
  }

  lemma SlotListsExtend(mk: Market, aff: AffinityMap, slots: set<Slot>, t: Slot, prefs: seq<nat>)
    requires forall o :: o in slots ==> SlotListOk(mk, aff, o)
    requires Ranks(BySource(aff, t.dest), Upto(mk.nsrc), prefs)
    ensures var more := mk.(slotPrefs := mk.slotPrefs[t := prefs]);
            forall o :: o in slots + {t} ==> SlotListOk(more, aff, o)
  {
    var more := mk.(slotPrefs := mk.slotPrefs[t := prefs]);
    forall o | o in slots + {t} ensures SlotListOk(more, aff, o) {
      assert o != t ==> SlotListOk(mk, aff, o) && more.slotPrefs[o] == mk.slotPrefs[o];
    }
  }

  ghost function DestMap(w: map<nat, Slot>): map<nat, set<nat>> {
    map s | s in w :: {w[s].dest}
  }

  lemma ExhaustedMeansNoDestination(mk: Market, n: nat, m: nat, st: State, s: nat)
    requires mk.WellFormed() && Coherent(mk, st) && Settled(mk, st) && IsFree(mk, st, s)
    requires mk.nsrc == n && mk.slots == SlotSet(m, MaxIPerK(n, m)) && !HasProposalLeft(mk, st, s)
    ensures m == 0
  {
    if m > 0 {
      MaxIPerKBounds(n, m);
      SlotSetCard(m, MaxIPerK(n, m));
      NeverExhausted(mk, st, s);
    }
  }

  lemma MatchedMeansDestination(mk: Market, m: nat, k: nat, st: State)
    requires mk.nsrc > 0 && mk.slots == SlotSet(m, k) && Coherent(mk, st) && Complete(mk, st)
    ensures m > 0
  {
    assert HoldsLatest(mk, st, 0);
  }

  lemma ExtendRun(mk: Market, picks: seq<nat>, before: State, s: nat)
    requires Reaches(mk, picks, before) && CanStep(mk, before, s)
    ensures Reaches(mk, picks + [s], Propose(mk, before, s))
  {
    assert (picks + [s])[..|picks|] == picks;
    assert Steps(mk, before, s, Propose(mk, before, s));
  }

  /** The source-optimal stable matching of the market that the affinities describe, slot by slot. */
  ghost predicate IsSolution(n: nat, m: nat, aff: AffinityMap, mk: Market, w: map<nat, Slot>) {
    Describes(mk, n, m, aff) && mk.WellFormed() && SourceOptimal(mk, w)
  }

  ghost predicate IsCloseMapping(n: nat, m: nat, aff: AffinityMap, mapping: map<nat, set<nat>>) {
    exists mk, w :: IsSolution(n, m, aff, mk, w) && mapping == DestMap(w)
  }

  /** There is a close mapping unless there are sources and no destination. */
  lemma CloseMappingExists(n: nat, m: nat, aff: AffinityMap) returns (mapping: map<nat, set<nat>>)
    requires n <= FREE && InRange(n, m, aff) && (n > 0 ==> m > 0)
    ensures IsCloseMapping(n, m, aff, mapping)
  {
    var mk := MarketExists(n, m, aff);
    DescribedIsWellFormed(mk, n, m, aff);
    SlotSetCard(m, MaxIPerK(n, m));
    if m > 0 { MaxIPerKBounds(n, m); }
    var w := SourceOptimalExists(mk);
    assert IsSolution(n, m, aff, mk, w);
    mapping := DestMap(w);
  }

  /** The affinities determine the mapping. */
  lemma CloseMappingIsDetermined(n: nat, m: nat, aff: AffinityMap, a: map<nat, set<nat>>, b: map<nat, set<nat>>)
    requires IsCloseMapping(n, m, aff, a) && IsCloseMapping(n, m, aff, b)
    ensures a == b
  {
    var mk, w :| IsSolution(n, m, aff, mk, w) && a == DestMap(w);
    var mk', w' :| IsSolution(n, m, aff, mk', w') && b == DestMap(w');
    MarketIsDetermined(mk, mk', n, m, aff);
    SourceOptimalIsUnique(mk, w, w');
  }

  /** Builds, solves and checks; the check never fails. */
  method SolveApMapping(n: nat, m: nat, affinities: AffinityMap) returns (r: Outcome<map<nat, set<nat>>>)
    requires n + m <= FREE && InRange(n, m, affinities)
    ensures if n > 0 && m == 0 then r == Thrown(QV_ERR_NOT_SUPPORTED)
            else r.Returned? && IsCloseMapping(n, m, affinities, r.value)
  {
    var solver := new StableMarriageSolver(n, m, affinities);
    ghost var mk := solver.MarketOf();
    DescribedIsWellFormed(mk, n, m, affinities);
    ghost var picks;
    var solved;
    solved, picks := solver.Solve();
    if solved.Thrown? {
      return Thrown(solved.rc);
    }
    RunInvariant(mk, picks, solver.StateOf());
    CompleteIsSourceOptimal(mk, solver.StateOf());
    CoherentTablesAgree(solver);
    var stable := solver.IsStable();
    if !stable {
      return Thrown(QV_ERR_NOT_SUPPORTED);
    }
    var mapping := solver.GetMatching();
    assert IsSolution(n, m, affinities, mk, solver.srcToSlot);
    r := Returned(mapping);
  }

  lemma CoherentTablesAgree(solver: StableMarriageSolver)
    requires Coherent(solver.MarketOf(), solver.StateOf())
    ensures TablesAgree(solver.MarketOf(), solver.StateOf())
  {
    assert forall s :: s in solver.srcToSlot ==> HoldsLatest(solver.MarketOf(), solver.StateOf(), s);
    assert forall t :: t in solver.slotToSrc ==> HeldByMatched(solver.StateOf(), t);
  }
}
