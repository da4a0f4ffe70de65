/**
 The mappers: packed, spread, colours and close, with the helpers that invert a
 mapping, make it injective, find affinities and clamp colours.
 */
module Mappers {
  import opened Affinity
  import opened Chunks
  import opened Sorting
  import opened Solver
  import opened StableMatching
  import opened Status

  /** Source IDs to their destination IDs. */
  type Mapping = map<nat, set<nat>>

  function Related(mapping: Mapping, s: nat, d: nat): bool {
    s in mapping && d in mapping[s]
  }

  /** Inserting a known source adds to its destinations. */
  function InsertPair(mapping: Mapping, s: nat, d: nat): Mapping {
    mapping[s := (if s in mapping then mapping[s] else {}) + {d}]
  }

  lemma InsertFresh(mapping: Mapping, s: nat, d: nat)
    requires s !in mapping
    ensures InsertPair(mapping, s, d) == mapping[s := {d}]
  {
    assert {} + {d} == {d};
  }

  // ----- inversion

  ghost function Image(mapping: Mapping): set<nat> {
    set s, d | s in mapping && d in mapping[s] :: d
  }

  /** The sources mapped to `d`. */
  ghost function SourcesOf(mapping: Mapping, d: nat): set<nat> {
    set s | s in mapping && d in mapping[s]
  }

  /** The relational converse. */
  ghost function Converse(mapping: Mapping): Mapping {
    map d | d in Image(mapping) :: SourcesOf(mapping, d)
  }

  ghost predicate NoEmptyValues(mapping: Mapping) {
    forall s :: s in mapping ==> mapping[s] != {}
  }

  /** A mapping without empty values is determined by the pairs it relates. */
  lemma SamePairs(a: Mapping, b: Mapping)
    requires NoEmptyValues(a) && NoEmptyValues(b)
    requires forall s: nat, d: nat :: Related(a, s, d) <==> Related(b, s, d)
    ensures a == b
  {
    HalfSamePairs(a, b);
    HalfSamePairs(b, a);
    assert a.Keys == b.Keys;
    assert forall s :: s in a ==> a[s] == b[s];
  }

  lemma HalfSamePairs(a: Mapping, b: Mapping)
    requires NoEmptyValues(a)
    requires forall s: nat, d: nat :: Related(a, s, d) ==> Related(b, s, d)
    ensures forall s :: s in a ==> s in b && a[s] <= b[s]
  {
    forall s | s in a ensures s in b && a[s] <= b[s] {
      var d :| d in a[s];
      assert forall e :: e in a[s] ==> Related(a, s, e);
    }
  }

  lemma ConversePairs(mapping: Mapping)
    ensures NoEmptyValues(Converse(mapping))
    ensures forall s: nat, d: nat :: Related(Converse(mapping), d, s) <==> Related(mapping, s, d)
  {
    forall d | d in Converse(mapping) ensures Converse(mapping)[d] != {} {
      var s :| s in mapping && d in mapping[s];
      assert s in SourcesOf(mapping, d);
    }
  }

  /** Inverting twice gives the mapping back exactly when no source has an empty value. */
  lemma ConverseIsInvolutive(mapping: Mapping)
    ensures Converse(Converse(mapping)) == mapping <==> NoEmptyValues(mapping)
  {
    ConversePairs(mapping);
    ConversePairs(Converse(mapping));
    if NoEmptyValues(mapping) {
      forall s: nat, d: nat ensures Related(Converse(Converse(mapping)), s, d) <==> Related(mapping, s, d) {
        assert Related(Converse(mapping), d, s) <==> Related(mapping, s, d);
      }
      SamePairs(Converse(Converse(mapping)), mapping);
    }
  }

  /** `r` relates what `base` relates, and each of `values` to `key`. */
  ghost predicate AddsKey(base: Mapping, r: Mapping, key: nat, values: set<nat>) {
    && NoEmptyValues(r)
    && forall s: nat, d: nat :: Related(r, d, s) <==> Related(base, d, s) || (s == key && d in values)
  }

  lemma AddsNone(mapping: Mapping, key: nat)
    requires NoEmptyValues(mapping)
    ensures AddsKey(mapping, mapping, key, {})
  {
  }

  lemma AddsOneMore(base: Mapping, r: Mapping, key: nat, values: set<nat>, v: nat)
    requires AddsKey(base, r, key, values)
    ensures AddsKey(base, InsertPair(r, v, key), key, values + {v})
  {
    var r' := InsertPair(r, v, key);
    forall s: nat, d: nat ensures Related(r', d, s) <==> Related(base, d, s) || (s == key && d in values + {v}) {
      assert Related(r', d, s) <==> Related(r, d, s) || (d == v && s == key);
    }
  }

  /** `inverted` relates exactly the pairs of the sources in `done`, the other way round. */
  ghost predicate Inverts(original: Mapping, inverted: Mapping, done: set<nat>) {
    && NoEmptyValues(inverted)
    && forall s: nat, d: nat :: Related(inverted, d, s) <==> s in done && Related(original, s, d)
  }

  lemma InvertsNone(original: Mapping)
    ensures Inverts(original, map[], {})
  {
  }

  lemma InvertsOneMore(original: Mapping, inverted: Mapping, done: set<nat>, r: Mapping, key: nat)
    requires key in original && Inverts(original, inverted, done)
    requires AddsKey(inverted, r, key, original[key])
    ensures Inverts(original, r, done + {key})
  {
    forall s: nat, d: nat ensures Related(r, d, s) <==> s in done + {key} && Related(original, s, d) {
      assert Related(r, d, s) <==> Related(inverted, d, s) || (s == key && d in original[key]);
    }
  }

  lemma InvertsAll(original: Mapping, inverted: Mapping)
    requires Inverts(original, inverted, original.Keys)
    ensures inverted == Converse(original)
  {
    ConversePairs(original);
    SamePairs(inverted, Converse(original));
  }

  /** Values become keys and keys become values. */
  method InvertMap(original: Mapping) returns (inverted: Mapping)
    ensures inverted == Converse(original)
  {
    hide AddsKey, Ascending, Related;
    inverted := map[];
    var keys := Ascending(original.Keys);
    AscendingEnumerates(original.Keys);
    ghost var done: set<nat> := {};
    InvertsNone(original);
    for i := 0 to |keys|
      invariant Inverts(original, inverted, done)
      invariant forall j :: 0 <= j < i ==> keys[j] in done
      invariant done <= original.Keys
    {
      ghost var before := inverted;
      inverted := InsertAll(inverted, original[keys[i]], keys[i]);
      InvertsOneMore(original, before, done, inverted, keys[i]);
      done := done + {keys[i]};
    }
    forall s | s in original ensures s in done {
      var j := PlaceInAscending(original.Keys, s);
    }
    assert done == original.Keys;
    InvertsAll(original, inverted);
  }

  /** Inserts `key` under each of the values. */
  method InsertAll(mapping: Mapping, values: set<nat>, key: nat) returns (r: Mapping)
    requires NoEmptyValues(mapping)
    ensures AddsKey(mapping, r, key, values)
  {
    hide AddsKey, Ascending;
    r := mapping;
    var list := Ascending(values);
    AscendingEnumerates(values);
    ghost var done: set<nat> := {};
    AddsNone(mapping, key);
    for j := 0 to |list|
      invariant AddsKey(mapping, r, key, done)
      invariant forall i :: 0 <= i < j ==> list[i] in done
      invariant done <= values
    {
      AddsOneMore(mapping, r, key, done, list[j]);
      r := InsertPair(r, list[j], key);
      done := done + {list[j]};
    }
    forall v | v in values ensures v in done {
      var i := PlaceInAscending(values, v);
    }
    assert done == values;
  }

  // ----- packed and spread

  /** Consecutive sources fill one destination after the other. */
  ghost function Packed(n: nat, m: nat): Mapping
    requires m > 0
  {
    map p | p in Upto(n) :: {ChunkOf(n, m, p)}
  }

  /** Sources go round the destinations. */
  ghost function Spread(n: nat, m: nat): Mapping
    requires m > 0
  {
    map p | p in Upto(n) :: {p % m}
  }

  /** What packing yields: nothing when a count is zero. */
  ghost function PackedOutcome(nsrc: nat, ndst: nat): Outcome<Mapping> {
    if nsrc == 0 || ndst == 0 then Returned(map[])
    else if nsrc >= ndst then Returned(Packed(nsrc, ndst))
    else Returned(Converse(Packed(ndst, nsrc)))
  }

  /** Packs `nsrc` sources onto `ndst` destinations; solves the inverted problem when sources are fewer. Either way
      the fewer share the more in consecutive chunks. */
  method MapPacked(nsrc: nat, ndst: nat) returns (rc: int, mapping: Mapping)
    ensures rc == QV_SUCCESS && PackedOutcome(nsrc, ndst) == Returned(mapping)
    ensures nsrc == 0 || ndst == 0 ==> mapping == map[]
    ensures nsrc > 0 && ndst > 0 ==> Balanced(mapping, nsrc, ndst)
    ensures 0 < ndst <= nsrc ==>
              forall s: nat, d: nat :: s < nsrc && d < ndst ==> (Related(mapping, s, d) <==> InChunk(nsrc, ndst, d, s))
    ensures 0 < nsrc < ndst ==>
              forall s: nat, d: nat :: s < nsrc && d < ndst ==> (Related(mapping, s, d) <==> InChunk(ndst, nsrc, s, d))
  {
    rc, mapping := QV_SUCCESS, map[];
    var inverted := nsrc < ndst;
    var n, m := nsrc, ndst;
    if inverted {
      n, m := m, n;
    }
    if n == 0 || m == 0 {
      return;
    }
    mapping := PackConsecutive(n, m);
    PackedIsBalanced(n, m);
    PackedRelates(n, m);
    if inverted {
      mapping := InvertMap(mapping);
      ConversePairs(Packed(n, m));
      ConverseIsBalanced(Packed(n, m), n, m);
    }
  }

  /** Packing relates each source to the destination of its chunk. */
  lemma PackedRelates(n: nat, m: nat)
    requires m > 0
    ensures forall s: nat, d: nat :: s < n && d < m ==> (Related(Packed(n, m), s, d) <==> InChunk(n, m, d, s))
  {
    forall s: nat, d: nat | s < n && d < m ensures Related(Packed(n, m), s, d) <==> InChunk(n, m, d, s) {
      if InChunk(n, m, d, s) { ChunkIsUnique(n, m, d, ChunkOf(n, m, s), s); }
    }
  }

  method PackConsecutive(n: nat, m: nat) returns (mapping: Mapping)
    requires m > 0
    ensures mapping == Packed(n, m)
  {
    mapping := map[];
    var baseCount := n / m;
    var extra := n % m;
    var sourceId := 0;
    for destId := 0 to m
      invariant sourceId == ChunkStart(n, m, destId) <= n
      invariant PacksUpto(mapping, n, m, sourceId)
    {
      // The size of this destination's chunk.
      var count := baseCount + if destId < extra then 1 else 0;
      ChunkInRange(n, m, destId);
      for i := 0 to count
        invariant sourceId == ChunkStart(n, m, destId) + i
        invariant PacksUpto(mapping, n, m, sourceId)
      {
        PacksNext(mapping, n, m, sourceId, destId);
        mapping := InsertPair(mapping, sourceId, destId);
        sourceId := sourceId + 1;
      }
    }
    ChunksCoverAll(n, m);
  }

  lemma PacksNext(mapping: Mapping, n: nat, m: nat, s: nat, d: nat)
    requires d < m && s < n && InChunk(n, m, d, s) && PacksUpto(mapping, n, m, s)
    ensures PacksUpto(InsertPair(mapping, s, d), n, m, s + 1)
  {
    ChunkIsUnique(n, m, d, ChunkOf(n, m, s), s);
    InsertFresh(mapping, s, d);
  }

  ghost predicate PacksUpto(mapping: Mapping, n: nat, m: nat, upto: nat)
    requires m > 0 && upto <= n
  {
    mapping.Keys == Upto(upto) && forall p: nat :: p < upto ==> mapping[p] == {ChunkOf(n, m, p)}
  }

  /** What spreading yields: it divides by zero when exactly one of the counts is zero. */
  ghost function SpreadOutcome(nsrc: nat, ndst: nat): Outcome<Mapping> {
    if nsrc == 0 && ndst == 0 then Returned(map[])
    else if nsrc == 0 || ndst == 0 then Aborted
    else if nsrc >= ndst then Returned(Spread(nsrc, ndst))
    else Returned(Converse(Spread(ndst, nsrc)))
  }

  /** Maps sources to destinations round-robin; solves the inverted problem when sources are fewer. */
  method MapSpread(nsrc: nat, ndst: nat) returns (r: Outcome<Mapping>)
    ensures r == SpreadOutcome(nsrc, ndst)
    ensures r == Aborted <==> (nsrc == 0) != (ndst == 0)
    ensures nsrc == 0 && ndst == 0 ==> r == Returned(map[])
    ensures nsrc > 0 && ndst > 0 ==> r.Returned? && Balanced(r.value, nsrc, ndst)
    ensures 0 < ndst <= nsrc ==>
              forall s: nat, d: nat :: s < nsrc ==> (Related(r.value, s, d) <==> d == s % ndst)
    ensures 0 < nsrc < ndst ==>
              forall s: nat, d: nat :: s < nsrc ==> (Related(r.value, s, d) <==> d < ndst && d % nsrc == s)
  {
    var inverted := nsrc < ndst;
    var n, m := nsrc, ndst;
    if inverted {
      n, m := m, n;
    }
    r := SpreadRound(n, m);
    if 0 < m {
      SpreadIsBalanced(n, m);
      SpreadRelates(n, m);
    }
    if inverted && r.Returned? {
      var mapping := InvertMap(r.value);
      r := Returned(mapping);
      ConversePairs(Spread(n, m));
      ConverseIsBalanced(Spread(n, m), n, m);
    }
  }

  /** Spreading relates each source to its remainder. */
  lemma SpreadRelates(n: nat, m: nat)
    requires m > 0
    ensures forall s: nat, d: nat :: Related(Spread(n, m), s, d) <==> s < n && d == s % m
  {
  }

  method SpreadRound(n: nat, m: nat) returns (r: Outcome<Mapping>)
    ensures r == if n == 0 then Returned(map[]) else if m == 0 then Aborted else Returned(Spread(n, m))
  {
    var mapping: Mapping := map[];
    var dsti := 0;
    for srci := 0 to n
      invariant dsti == srci
      invariant if m > 0 then mapping == Spread(srci, m) else srci == 0
      invariant srci == 0 ==> mapping == map[]
    {
      // The remainder by zero destinations is undefined.
      if m == 0 { return Aborted; }
      SpreadStep(srci, m);
      InsertFresh(mapping, srci, dsti % m);
      mapping := InsertPair(mapping, srci, dsti % m);
      dsti := dsti + 1;
    }
    r := Returned(mapping);
  }

  /** Under packing destination `d` gets its chunk of sources. */
  lemma PackedSources(n: nat, m: nat, d: nat)
    requires d < m
    ensures |SourcesOf(Packed(n, m), d)| == ChunkSize(n, m, d)
    ensures forall p: nat :: p in SourcesOf(Packed(n, m), d) <==> InChunk(n, m, d, p)
  {
    ChunkInRange(n, m, d);
    var from, to := ChunkStart(n, m, d), ChunkStart(n, m, d + 1);
    forall p: nat ensures p in SourcesOf(Packed(n, m), d) <==> InChunk(n, m, d, p) {
      if InChunk(n, m, d, p) {
        ChunkIsUnique(n, m, d, ChunkOf(n, m, p), p);
      }
    }
    assert SourcesOf(Packed(n, m), d) == Upto(to) - Upto(from);
    SubsetCard(Upto(from), Upto(to));
    UptoCard(from);
    UptoCard(to);
    assert |Upto(to) - Upto(from)| == to - from;
  }

  /** Packing keeps the sources in order. */
  lemma PackedIsMonotone(n: nat, m: nat, p: nat, q: nat)
    requires 0 < m && p <= q < n
    ensures ChunkOf(n, m, p) <= ChunkOf(n, m, q)
  {
    var i, j := ChunkOf(n, m, p), ChunkOf(n, m, q);
    if j < i {
      ChunkStartMonotone(n, m, j + 1, i);
    }
  }

  lemma SpreadStep(n: nat, m: nat)
    requires m > 0
    ensures n !in Spread(n, m) && Spread(n + 1, m) == Spread(n, m)[n := {n % m}]
  {
    assert Upto(n + 1) == Upto(n) + {n};
  }

  /** Spreading puts exactly as many sources on each destination as packing does. */
  lemma {:induction false} SpreadSources(n: nat, m: nat, d: nat)
    requires d < m
    ensures |SourcesOf(Spread(n, m), d)| == ChunkSize(n, m, d)
  {
    if n == 0 {
      assert SourcesOf(Spread(0, m), d) == {};
    } else {
      SpreadSources(n - 1, m, d);
      SpreadSourcesStep(n - 1, m, d);
    }
  }

  lemma SpreadSourcesStep(n: nat, m: nat, d: nat)
    requires d < m && |SourcesOf(Spread(n, m), d)| == ChunkSize(n, m, d)
    ensures |SourcesOf(Spread(n + 1, m), d)| == ChunkSize(n + 1, m, d)
  {
    var r := n % m;
    ChunkSizeStep(n, m, d);
    SpreadStep(n, m);
    OneMoreSource(Spread(n, m), n, r, d);
  }

  /** One more position makes one chunk larger. */
  lemma ChunkSizeStep(n: nat, m: nat, d: nat)
    requires d < m
    ensures ChunkSize(n + 1, m, d) == ChunkSize(n, m, d) + if n % m == d then 1 else 0
  {
    NextRemainder(n, m);
  }

  lemma OneMoreSource(mapping: Mapping, s: nat, e: nat, d: nat)
    requires s !in mapping
    ensures |SourcesOf(mapping[s := {e}], d)| == |SourcesOf(mapping, d)| + if e == d then 1 else 0
  {
    var before, after := SourcesOf(mapping, d), SourcesOf(mapping[s := {e}], d);
    assert after == if e == d then before + {s} else before;
  }

  lemma NextRemainder(n: nat, m: nat)
    requires m > 0
    ensures if n % m == m - 1 then (n + 1) % m == 0 && (n + 1) / m == n / m + 1
            else (n + 1) % m == n % m + 1 && (n + 1) / m == n / m
  {
    var q, r := n / m, n % m;
    assert n + 1 == q * m + (r + 1);
    if r == m - 1 {
      assert n + 1 == (q + 1) * m;
      DivModOf(n + 1, m, q + 1, 0);
    } else {
      DivModOf(n + 1, m, q, r + 1);
    }
  }

  lemma DivModOf(x: nat, m: nat, q: nat, r: nat)
    requires m > 0 && x == q * m + r && r < m
    ensures x / m == q && x % m == r
  {
    var q', r' := x / m, x % m;
    assert q' * m + r' == x;
    if q' < q { MulMonotone(m, q' + 1, q); }
    if q < q' { MulMonotone(m, q + 1, q'); }
  }

  /** n sources over m destinations: with enough sources everybody has one destination and the loads are
      those of the chunks; with fewer, every destination has one source and the shares are those of the chunks. */
  ghost predicate Balanced(mapping: Mapping, n: nat, m: nat)
    requires n > 0 && m > 0
  {
    && mapping.Keys == Upto(n)
    && (m <= n ==>
          && (forall s :: s in mapping ==> exists d: nat :: d < m && mapping[s] == {d})
          && (forall d: nat :: d < m ==> |SourcesOf(mapping, d)| == ChunkSize(n, m, d)))
    && (n < m ==>
          && (forall d: nat :: d < m ==> exists s: nat :: s < n && SourcesOf(mapping, d) == {s})
          && (forall s :: s in mapping ==> mapping[s] <= Upto(m) && |mapping[s]| == ChunkSize(m, n, s)))
  }

  lemma PackedIsBalanced(n: nat, m: nat)
    requires 0 < m <= n
    ensures Balanced(Packed(n, m), n, m)
  {
    forall d: nat | d < m ensures |SourcesOf(Packed(n, m), d)| == ChunkSize(n, m, d) {
      PackedSources(n, m, d);
    }
    forall s | s in Packed(n, m) ensures exists d: nat :: d < m && Packed(n, m)[s] == {d} {
      assert Packed(n, m)[s] == {ChunkOf(n, m, s)};
    }
  }

  lemma SpreadIsBalanced(n: nat, m: nat)
    requires 0 < m <= n
    ensures Balanced(Spread(n, m), n, m)
  {
    forall d: nat | d < m ensures |SourcesOf(Spread(n, m), d)| == ChunkSize(n, m, d) {
      SpreadSources(n, m, d);
    }
    forall s | s in Spread(n, m) ensures exists d: nat :: d < m && Spread(n, m)[s] == {d} {
      assert Spread(n, m)[s] == {s % m};
    }
  }

  /** Inverting a balanced mapping onto no more destinations than sources gives one the other way round. */
  lemma ConverseIsBalanced(mapping: Mapping, n: nat, m: nat)
    requires 0 < m < n && Balanced(mapping, n, m)
    ensures Balanced(Converse(mapping), m, n)
  {
    var inverse := Converse(mapping);
    ConversePairs(mapping);
    forall d: nat | d < m ensures d in inverse {
      assert ChunkSize(n, m, d) > 0 by { QuotientIsPositive(n, m); }
      assert |SourcesOf(mapping, d)| > 0;
      var s :| s in SourcesOf(mapping, d);
    }
    assert inverse.Keys == Upto(m);
    forall s: nat | s < n ensures exists d: nat :: d < m && SourcesOf(inverse, s) == {d} {
      var d: nat :| d < m && mapping[s] == {d};
      forall e: nat ensures e in SourcesOf(inverse, s) <==> e == d {
        assert Related(inverse, e, s) <==> Related(mapping, s, e);
      }
      assert SourcesOf(inverse, s) == {d};
    }
    forall d | d in inverse ensures inverse[d] <= Upto(n) && |inverse[d]| == ChunkSize(n, m, d) {
      assert inverse[d] == SourcesOf(mapping, d);
    }
  }

  lemma QuotientIsPositive(n: nat, m: nat)
    requires 0 < m <= n
    ensures n / m > 0
  {
  }

  // ----- making a mapping injective

  /** Some source below `s` has `d`. */
  ghost predicate Seen(mapping: Mapping, s: nat, d: nat) {
    exists o: nat :: o < s && Related(mapping, o, d)
  }

  /** `s` gets the first of its destinations that no smaller source got, if there is one. */
  ghost predicate FirstUnseen(mapping: Mapping, result: Mapping, s: nat)
    requires s in mapping
  {
    if s in result then
      exists d :: && result[s] == {d} && d in mapping[s] && !Seen(result, s, d)
                  && forall e :: e in mapping[s] && e < d ==> Seen(result, s, e)
    else
      forall d :: d in mapping[s] ==> Seen(result, s, d)
  }

  ghost predicate IsUniq(mapping: Mapping, result: Mapping) {
    && result.Keys <= mapping.Keys
    && forall s :: s in mapping ==> FirstUnseen(mapping, result, s)
  }

  /** `seen` is everything that `result` uses. */
  ghost predicate Uses(result: Mapping, seen: set<nat>) {
    && (forall d: nat :: d in seen ==> exists o: nat :: Related(result, o, d))
    && (forall o: nat, d: nat :: Related(result, o, d) ==> d in seen)
  }

  /** The sources up to `upto` have been served. */
  ghost predicate UniqUpto(mapping: Mapping, result: Mapping, upto: nat) {
    && (forall s :: s in result ==> s < upto && s in mapping)
    && forall s :: s in mapping && s < upto ==> FirstUnseen(mapping, result, s)
  }

  /** Maps each source to its first destination that is not taken yet. */
  method MapUniq(mapping: Mapping) returns (result: Mapping)
    ensures IsUniq(mapping, result)
  {
    hide Uses, UniqUpto, IsUniq, Ascending;
    result := map[];
    var seen: set<nat> := {};
    var keys := Ascending(mapping.Keys);
    ghost var upto := 0;
    NothingTaken(mapping);
    for i := 0 to |keys|
      invariant Uses(result, seen) && UniqUpto(mapping, result, upto)
      invariant upto == if i == 0 then 0 else keys[i - 1] + 1
    {
      AscendingElement(mapping.Keys, i);
      SkipAbsent(mapping, result, i, upto);
      upto := keys[i] + 1;
      result, seen := TakeFirst(mapping, keys[i], result, seen);
    }
    UniqDone(mapping, result, upto);
  }

  lemma NothingTaken(mapping: Mapping)
    ensures Uses(map[], {}) && UniqUpto(mapping, map[], 0)
  {
  }

  lemma UniqDone(mapping: Mapping, result: Mapping, upto: nat)
    requires UniqUpto(mapping, result, upto)
    requires var keys := Ascending(mapping.Keys); upto == if keys == [] then 0 else keys[|keys| - 1] + 1
    ensures IsUniq(mapping, result)
  {
    forall s | s in mapping ensures FirstUnseen(mapping, result, s) {
      var j := PlaceInAscending(mapping.Keys, s);
    }
  }

  /** There are no elements between two consecutive ones. */
  lemma NothingBetween(ks: set<nat>, i: nat, s: nat)
    requires i < |Ascending(ks)| && s in ks && s < Ascending(ks)[i]
    ensures i > 0 && s <= Ascending(ks)[i - 1]
  {
    var j := PlaceInAscending(ks, s);
  }

  lemma SkipAbsent(mapping: Mapping, result: Mapping, i: nat, upto: nat)
    requires i < |Ascending(mapping.Keys)| && UniqUpto(mapping, result, upto)
    requires upto == if i == 0 then 0 else Ascending(mapping.Keys)[i - 1] + 1
    ensures UniqUpto(mapping, result, Ascending(mapping.Keys)[i])
  {
    var next := Ascending(mapping.Keys)[i];
    assert upto <= next;
    forall s | s in mapping && s < next ensures FirstUnseen(mapping, result, s) {
      NothingBetween(mapping.Keys, i, s);
    }
  }

  /** The place of the first element outside `seen`. */
  method FirstOutside(values: set<nat>, seen: set<nat>) returns (j: nat)
    ensures j <= |Ascending(values)| && (forall i :: 0 <= i < j ==> Ascending(values)[i] in seen)
    ensures j < |Ascending(values)| ==> Ascending(values)[j] !in seen
  {
    var list := Ascending(values);
    j := 0;
    while j < |list| && list[j] in seen
      invariant j <= |list| && forall i :: 0 <= i < j ==> list[i] in seen
    {
      // This one is taken already.
      j := j + 1;
    }
  }

  /** Gives `src` its first destination outside `seen`. */
  method TakeFirst(mapping: Mapping, src: nat, before: Mapping, seen: set<nat>)
      returns (result: Mapping, seen': set<nat>)
    requires src in mapping && Uses(before, seen) && UniqUpto(mapping, before, src)
    ensures Uses(result, seen') && UniqUpto(mapping, result, src + 1)
  {
    var j := FirstOutside(mapping[src], seen);
    if j < |Ascending(mapping[src])| {
      // The first one left; from now on it is taken.
      var dst := Ascending(mapping[src])[j];
      TakingKeepsOrder(mapping, src, before, seen, j);
      result, seen' := before[src := {dst}], seen + {dst};
    } else {
      LeavingKeepsOrder(mapping, src, before, seen);
      result, seen' := before, seen;
    }
  }

  lemma SmallerAreSeen(values: set<nat>, seen: set<nat>, j: nat)
    requires j <= |Ascending(values)|
    requires forall i :: 0 <= i < j ==> Ascending(values)[i] in seen
    ensures forall e :: e in values && (j < |Ascending(values)| ==> e < Ascending(values)[j]) ==> e in seen
  {
    forall e | e in values && (j < |Ascending(values)| ==> e < Ascending(values)[j]) ensures e in seen {
      var i := PlaceInAscending(values, e);
    }
  }

  lemma LeavingKeepsOrder(mapping: Mapping, src: nat, before: Mapping, seen: set<nat>)
    requires src in mapping && Uses(before, seen) && UniqUpto(mapping, before, src)
    requires forall i :: 0 <= i < |Ascending(mapping[src])| ==> Ascending(mapping[src])[i] in seen
    ensures UniqUpto(mapping, before, src + 1)
  {
    hide Uses, Seen, Related, FirstUnseen, Ascending;
    SmallerAreSeen(mapping[src], seen, |Ascending(mapping[src])|);
    forall e | e in mapping[src] ensures Seen(before, src, e) {
      UsedIsSeen(mapping, src, before, seen, e);
    }
    NothingFirstUnseen(mapping, before, src);
    UniqExtends(mapping, before, src);
  }

  lemma NothingFirstUnseen(mapping: Mapping, result: Mapping, s: nat)
    requires s in mapping && s !in result && forall d :: d in mapping[s] ==> Seen(result, s, d)
    ensures FirstUnseen(mapping, result, s)
  {
  }

  lemma UniqExtends(mapping: Mapping, result: Mapping, s: nat)
    requires s in mapping && UniqUpto(mapping, result, s) && FirstUnseen(mapping, result, s)
    ensures UniqUpto(mapping, result, s + 1)
  {
  }

  lemma UsedIsSeen(mapping: Mapping, src: nat, before: Mapping, seen: set<nat>, e: nat)
    requires Uses(before, seen) && UniqUpto(mapping, before, src) && e in seen
    ensures Seen(before, src, e)
  {
    var o: nat :| Related(before, o, e);
    assert o in before;
  }

  lemma TakingKeepsOrder(mapping: Mapping, src: nat, before: Mapping, seen: set<nat>, j: nat)
    requires src in mapping && Uses(before, seen) && UniqUpto(mapping, before, src)
    requires var dsts := Ascending(mapping[src]);
             j < |dsts| && dsts[j] !in seen && forall i :: 0 <= i < j ==> dsts[i] in seen
    ensures var dst := Ascending(mapping[src])[j];
            Uses(before[src := {dst}], seen + {dst}) && UniqUpto(mapping, before[src := {dst}], src + 1)
  {
    var dst := Ascending(mapping[src])[j];
    AscendingElement(mapping[src], j);
    SmallerAreSeen(mapping[src], seen, j);
    FirstIsTaken(mapping, src, before, seen, dst);
  }

  lemma FirstIsTaken(mapping: Mapping, src: nat, before: Mapping, seen: set<nat>, dst: nat)
    requires src in mapping && Uses(before, seen) && UniqUpto(mapping, before, src)
    requires dst in mapping[src] && dst !in seen && forall e :: e in mapping[src] && e < dst ==> e in seen
    ensures Uses(before[src := {dst}], seen + {dst}) && UniqUpto(mapping, before[src := {dst}], src + 1)
  {
    var after := before[src := {dst}];
    assert forall o: nat, d: nat :: o != src ==> (Related(after, o, d) <==> Related(before, o, d));
    assert Related(after, src, dst);
    forall s: nat, d: nat | s <= src ensures Seen(after, s, d) <==> Seen(before, s, d) {
    }
    forall d: nat | d in seen + {dst} ensures exists o: nat :: Related(after, o, d) {
      if d in seen {
        var o: nat :| Related(before, o, d);
        assert Related(after, o, d);
      }
    }
    forall e | e in mapping[src] && e < dst ensures Seen(after, src, e) {
      var o: nat :| Related(before, o, e);
      assert Related(after, o, e);
    }
  }

  /** One destination per source, and no destination shared. */
  ghost predicate Injective(mapping: Mapping) {
    && (forall s :: s in mapping ==> exists d: nat :: mapping[s] == {d})
    && (forall s: nat, o: nat, d: nat :: Related(mapping, s, d) && Related(mapping, o, d) ==> s == o)
  }

  lemma UniqIsInjective(mapping: Mapping, result: Mapping)
    requires IsUniq(mapping, result)
    ensures Injective(result)
    ensures forall s: nat, d: nat :: Related(result, s, d) ==> Related(mapping, s, d)
  {
    assert forall s :: s in result ==> FirstUnseen(mapping, result, s);
    forall s: nat, o: nat, d: nat | Related(result, s, d) && Related(result, o, d) ensures s == o {
      assert !Seen(result, s, d) && !Seen(result, o, d);
    }
  }

  lemma {:induction false} UniqAgrees(mapping: Mapping, a: Mapping, b: Mapping, s: nat)
    requires IsUniq(mapping, a) && IsUniq(mapping, b) && s in mapping
    ensures s in a <==> s in b
    ensures s in a ==> a[s] == b[s]
    decreases s
  {
    forall o: nat, d: nat | o < s ensures Related(a, o, d) <==> Related(b, o, d) {
      if o in mapping { UniqAgrees(mapping, a, b, o); }
    }
    assert forall d: nat :: Seen(a, s, d) <==> Seen(b, s, d);
    assert FirstUnseen(mapping, a, s) && FirstUnseen(mapping, b, s);
  }

  /** The rule determines the result. */
  lemma UniqIsDetermined(mapping: Mapping, a: Mapping, b: Mapping)
    requires IsUniq(mapping, a) && IsUniq(mapping, b)
    ensures a == b
  {
    forall s | s in mapping ensures (s in a <==> s in b) && (s in a ==> a[s] == b[s]) {
      UniqAgrees(mapping, a, b, s);
    }
    assert a.Keys == b.Keys;
  }

  /** Of two sources with the same two destinations the smaller one gets the smaller destination; a third one that has
      nothing else left gets none. */
  lemma UniqOfThree(result: Mapping)
    requires IsUniq(map[0 := {3, 5}, 1 := {3, 5}, 2 := {5}], result)
    ensures result == map[0 := {3}, 1 := {5}]
  {
    var mapping: Mapping, expected: Mapping := map[0 := {3, 5}, 1 := {3, 5}, 2 := {5}], map[0 := {3}, 1 := {5}];
    forall s | s in mapping ensures FirstUnseen(mapping, expected, s) {
      FirstUnseenOfThree(mapping, expected, s);
    }
    UniqIsDetermined(mapping, result, expected);
  }

  lemma FirstUnseenOfThree(mapping: Mapping, result: Mapping, s: nat)
    requires s < 3 && mapping.Keys == {0, 1, 2} && mapping[0] == mapping[1] == {3, 5} && mapping[2] == {5}
    requires result.Keys == {0, 1} && result[0] == {3} && result[1] == {5}
    ensures FirstUnseen(mapping, result, s)
  {
    assert Related(result, 0, 3) && Related(result, 1, 5);
    if s == 0 {
      assert !Seen(result, 0, 3);
    } else if s == 1 {
      assert Seen(result, 1, 3) && !Seen(result, 1, 5);
    } else {
      assert Seen(result, 2, 5);
    }
  }

  /** Making a mapping injective changes nothing exactly when it is. */
  lemma UniqIsIdentityIff(mapping: Mapping, result: Mapping)
    requires IsUniq(mapping, result)
    ensures result == mapping <==> Injective(mapping)
  {
    UniqIsInjective(mapping, result);
    if Injective(mapping) {
      forall s | s in mapping ensures FirstUnseen(mapping, mapping, s) {
        var d: nat :| mapping[s] == {d};
        assert Related(mapping, s, d);
        assert !Seen(mapping, s, d);
      }
      UniqIsDetermined(mapping, result, mapping);
    }
  }

  // ----- affinities and the close mapper

  /** A bitmap is the set of its set bits. */
  type Bitmap = set<nat>

  ghost function Overlapping(cpus: Bitmap, dst: seq<Bitmap>): set<nat> {
    set d | d in Upto(|dst|) && cpus * dst[d] != {}
  }

  /** The destinations each source shares a bit with; sources that share none are absent. */
  ghost function AffinitiesOf(src: seq<Bitmap>, dst: seq<Bitmap>): AffinityMap {
    map s | s in Upto(|src|) && Overlapping(src[s], dst) != {} :: Overlapping(src[s], dst)
  }

  lemma OverlappingStep(cpus: Bitmap, dst: seq<Bitmap>, d: nat)
    requires d < |dst|
    ensures Overlapping(cpus, dst[..d + 1]) == Overlapping(cpus, dst[..d]) + if cpus * dst[d] != {} then {d} else {}
  {
  }

  lemma AffinitiesStep(src: seq<Bitmap>, dst: seq<Bitmap>, s: nat)
    requires s < |src|
    ensures var before, found := AffinitiesOf(src[..s], dst), Overlapping(src[s], dst);
            && s !in before
            && AffinitiesOf(src[..s + 1], dst) == if found == {} then before else before[s := found]
  {
    assert Upto(s + 1) == Upto(s) + {s};
  }

  method MapCalcAffinities(src: seq<Bitmap>, dst: seq<Bitmap>) returns (result: AffinityMap)
    ensures result == AffinitiesOf(src, dst)
    ensures forall s: nat, d: nat :: s < |src| && d < |dst| ==> (Related(result, s, d) <==> src[s] * dst[d] != {})
    ensures forall s :: s in result ==> s < |src| && result[s] != {} && forall d :: d in result[s] ==> d < |dst|
  {
    result := map[];
    for srci := 0 to |src|
      invariant result == AffinitiesOf(src[..srci], dst)
    {
      ghost var before := result;
      ghost var found: set<nat> := {};
      AffinitiesStep(src, dst, srci);
      for dsti := 0 to |dst|
        invariant found == Overlapping(src[srci], dst[..dsti])
        invariant result == if found == {} then before else before[srci := found]
      {
        OverlappingStep(src[srci], dst, dsti);
        if src[srci] * dst[dsti] != {} {
          found := found + {dsti};
          result := InsertPair(result, srci, dsti);
        }
      }
      assert dst[..|dst|] == dst;
    }
    assert src[..|src|] == src;
    AffinitiesRelate(src, dst);
  }

  lemma AffinitiesRelate(src: seq<Bitmap>, dst: seq<Bitmap>)
    ensures forall s: nat, d: nat :: s < |src| && d < |dst| ==>
              (Related(AffinitiesOf(src, dst), s, d) <==> src[s] * dst[d] != {})
  {
    forall s: nat, d: nat | s < |src| && d < |dst|
      ensures Related(AffinitiesOf(src, dst), s, d) <==> src[s] * dst[d] != {}
    {
      if src[s] * dst[d] != {} { assert d in Overlapping(src[s], dst); }
    }
  }

  /** Maps by affinity; raises an error exactly when there are sources but no destination. */
  method MapClose(src: seq<Bitmap>, dst: seq<Bitmap>) returns (r: Outcome<Mapping>)
    requires |src| + |dst| <= FREE
    ensures if |src| > 0 && |dst| == 0 then r == Thrown(QV_ERR_NOT_SUPPORTED)
            else r.Returned? && IsCloseMapping(|src|, |dst|, AffinitiesOf(src, dst), r.value)
  {
    var affinities := MapCalcAffinities(src, dst);
    r := SolveApMapping(|src|, |dst|, affinities);
  }

  lemma SolutionLoads(n: nat, m: nat, aff: AffinityMap, mk: Market, w: map<nat, Slot>, d: nat)
    requires IsSolution(n, m, aff, mk, w) && d < m
    ensures |SourcesOf(DestMap(w), d)| <= MaxIPerK(n, m)
    ensures n % m == 0 ==> |SourcesOf(DestMap(w), d)| == n / m
  {
    assert SourcesOf(DestMap(w), d) == OnDest(w, d);
    LoadIsBounded(mk, n, m, aff, w, d);
    if n % m == 0 { DivisibleLoad(mk, n, m, aff, w, d); }
  }

  /** A close mapping gives every source one destination. */
  lemma CloseMappingIsTotal(n: nat, m: nat, aff: AffinityMap, mapping: Mapping)
    requires IsCloseMapping(n, m, aff, mapping)
    ensures mapping.Keys == Upto(n)
    ensures forall s :: s in mapping ==> exists d: nat :: d < m && mapping[s] == {d}
  {
    var mk: Market, w: map<nat, Slot> :| IsSolution(n, m, aff, mk, w) && mapping == DestMap(w);
    SolutionIsTotal(n, m, aff, mk, w);
  }

  lemma SolutionIsTotal(n: nat, m: nat, aff: AffinityMap, mk: Market, w: map<nat, Slot>)
    requires IsSolution(n, m, aff, mk, w)
    ensures DestMap(w).Keys == Upto(n)
    ensures forall s :: s in DestMap(w) ==> exists d: nat :: d < m && DestMap(w)[s] == {d}
  {
    forall s | s in w ensures exists d: nat :: d < m && DestMap(w)[s] == {d} {
      assert w[s] in mk.slots;
      assert DestMap(w)[s] == {w[s].dest};
    }
  }

  /** A close mapping gives no destination more than ceil(n / m) sources, and when m divides n each gets n / m. */
  lemma CloseMappingLoads(n: nat, m: nat, aff: AffinityMap, mapping: Mapping, d: nat)
    requires IsCloseMapping(n, m, aff, mapping) && d < m
    ensures |SourcesOf(mapping, d)| <= MaxIPerK(n, m)
    ensures n % m == 0 ==> |SourcesOf(mapping, d)| == n / m
  {
    var mk: Market, w: map<nat, Slot> :| IsSolution(n, m, aff, mk, w) && mapping == DestMap(w);
    SolutionLoads(n, m, aff, mk, w, d);
  }

  lemma SharingNeedsTwo(mapping: Mapping, s: nat, o: nat, d: nat)
    requires Related(mapping, s, d) && Related(mapping, o, d) && |SourcesOf(mapping, d)| <= 1
    ensures s == o
  {
    SubsetCard({s, o}, SourcesOf(mapping, d));
  }

  lemma CloseMappingDoesNotShare(n: nat, m: nat, aff: AffinityMap, mapping: Mapping, s: nat, o: nat, d: nat)
    requires IsCloseMapping(n, m, aff, mapping) && n <= m
    requires Related(mapping, s, d) && Related(mapping, o, d)
    ensures s == o
  {
    CloseMappingIsTotal(n, m, aff, mapping);
    CloseMappingLoads(n, m, aff, mapping, d);
    FewSourcesOneSlot(n, m);
    SharingNeedsTwo(mapping, s, o, d);
  }

  /** With no more sources than destinations the close mapping is already injective. */
  lemma CloseMappingIsInjective(n: nat, m: nat, aff: AffinityMap, mapping: Mapping)
    requires IsCloseMapping(n, m, aff, mapping) && n <= m
    ensures Injective(mapping)
  {
    forall s: nat, o: nat, d: nat | Related(mapping, s, d) && Related(mapping, o, d) ensures s == o {
      CloseMappingDoesNotShare(n, m, aff, mapping, s, o, d);
    }
    CloseMappingIsTotal(n, m, aff, mapping);
  }

  lemma FewSourcesOneSlot(n: nat, m: nat)
    requires 0 < m && n <= m
    ensures MaxIPerK(n, m) <= 1
  {
    MaxIPerKBounds(n, m);
    if MaxIPerK(n, m) >= 2 { MulMonotone(m, 2, MaxIPerK(n, m)); }
  }
}
