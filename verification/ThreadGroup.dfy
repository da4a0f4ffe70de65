/**
 A thread group hands each calling thread a task: the one it had before, as long
 as the cache remembers it, otherwise the next one round-robin.
 */
module ThreadGroup {
  import Affinity
  import opened LruCache
  import Mappers
  import opened Sorting

  const SIZE_LIMIT: nat := 0x1_0000_0000_0000_0000

  /** The round-robin counter, which all groups of the process share; it wraps like the machine's sizes. */
  class Counter {
    var value: nat

    constructor ()
      ensures value == 0
    {
      value := 0;
    }
  }

  /** One call for a task: the calling thread and the task index it got. */
  datatype Call = Call(tid: int, index: nat)

  /** The cache operations that a sequence of calls makes. */
  ghost function Ops(capacity: nat, calls: seq<Call>): seq<Op<int, nat>> {
    if calls == [] then []
    else
      var before := Ops(capacity, calls[..|calls| - 1]);
      var c := calls[|calls| - 1];
      before + [Op.Get(c.tid)] + if Hit(capacity, before, c.tid) then [] else [Op.Put(c.tid, c.index)]
  }

  /** A remembered thread got the index stored for it. */
  ghost predicate Remembers(capacity: nat, calls: seq<Call>, j: nat)
    requires j < |calls|
  {
    var before := Ops(capacity, calls[..j]);
    Hit(capacity, before, calls[j].tid) ==> calls[j].index == LastPut(before, calls[j].tid)
  }

  /** Every call got a task of the group, a remembered thread the one stored for it. */
  ghost predicate CallsOk(capacity: nat, ntasks: nat, calls: seq<Call>) {
    forall j: nat :: j < |calls| ==> calls[j].index < ntasks && Remembers(capacity, calls, j)
  }

  class ThreadGroup {
    const ntasks: nat
    const tid2index: LruCache<int, nat>
    // The calls so far.
    ghost var calls: seq<Call>

    ghost predicate Valid()
      reads this, tid2index, tid2index.cacheList
    {
      && 0 < ntasks && tid2index.capacity == ntasks * 8
      && tid2index.Valid()
      && tid2index.history == Ops(tid2index.capacity, calls)
      && CallsOk(tid2index.capacity, ntasks, calls)
    }

    constructor (nthreads: nat)
      requires 0 < nthreads
      ensures Valid() && ntasks == nthreads && calls == []
    {
      ntasks := nthreads;
      tid2index := new LruCache<int, nat>(nthreads * 8);
      calls := [];
    }

    /** The index of the task of thread `mytid`: the one stored for it, or a new one, round-robin. */
    method Task(mytid: int, nextIndex: Counter) returns (myindex: nat)
      requires Valid()
      modifies this, tid2index, tid2index.cacheList, nextIndex
      ensures Valid() && calls == old(calls) + [Call(mytid, myindex)]
      ensures Serves(ntasks * 8, ntasks, old(calls), Call(mytid, myindex), old(nextIndex.value), nextIndex.value)
      ensures if Hit(ntasks * 8, old(tid2index.history), mytid) then
                myindex == LastPut(old(tid2index.history), mytid) && nextIndex.value == old(nextIndex.value)
              else
                myindex == old(nextIndex.value) % ntasks && nextIndex.value == (old(nextIndex.value) + 1) % SIZE_LIMIT
    {
      ghost var before := calls;
      ghost var hit;
      myindex, hit := Lookup(mytid, nextIndex);
      CallGrows(tid2index.capacity, ntasks, before, Call(mytid, myindex));
      calls := calls + [Call(mytid, myindex)];
    }

    method Lookup(mytid: int, nextIndex: Counter) returns (myindex: nat, ghost hit: bool)
      requires 0 < ntasks && tid2index.Valid()
      modifies tid2index, tid2index.cacheList, nextIndex
      ensures tid2index.Valid()
      ensures hit <==> Hit(tid2index.capacity, old(tid2index.history), mytid)
      ensures hit ==>
                && tid2index.history == old(tid2index.history) + [Op.Get(mytid)]
                && myindex == LastPut(old(tid2index.history), mytid) && nextIndex.value == old(nextIndex.value)
      ensures !hit ==>
                && tid2index.history == old(tid2index.history) + [Op.Get(mytid)] + [Op.Put(mytid, myindex)]
                && myindex == old(nextIndex.value) % ntasks
                && nextIndex.value == (old(nextIndex.value) + 1) % SIZE_LIMIT
    {
      hide WasPut, TouchedSince, Recency, Take, LastPut;
      var found := tid2index.Get(mytid);
      hit := found.Some?;
      if found.Some? {
        // The thread is remembered.
        myindex := found.value;
      } else {
        // The thread is new, or was forgotten.
        myindex := NextIndex(mytid, nextIndex);
      }
    }

    method NextIndex(mytid: int, nextIndex: Counter) returns (myindex: nat)
      requires 0 < ntasks && tid2index.Valid()
      modifies tid2index, tid2index.cacheList, nextIndex
      ensures tid2index.Valid() && tid2index.history == old(tid2index.history) + [Op.Put(mytid, myindex)]
      ensures myindex == old(nextIndex.value) % ntasks && nextIndex.value == (old(nextIndex.value) + 1) % SIZE_LIMIT
    {
      myindex := nextIndex.value % ntasks;
      nextIndex.value := (nextIndex.value + 1) % SIZE_LIMIT;
      tid2index.Put(mytid, myindex);
    }
  }

  lemma {:induction false} StoredIndexInRange(capacity: nat, n: nat, calls: seq<Call>, k: int)
    requires CallsOk(capacity, n, calls) && WasPut(Ops(capacity, calls), k)
    ensures LastPut(Ops(capacity, calls), k) < n
  {
    if calls != [] {
      var l := |calls| - 1;
      var before := Ops(capacity, calls[..l]);
      var c := calls[l];
      assert forall j: nat :: j < l ==> (Remembers(capacity, calls[..l], j) <==> Remembers(capacity, calls, j)) by {
        assert forall j: nat :: j < l ==> calls[..l][..j] == calls[..j];
      }
      HistoryGrows(before, Op.Get(c.tid), k);
      if !Hit(capacity, before, c.tid) {
        HistoryGrows(before + [Op.Get(c.tid)], Op.Put(c.tid, c.index), k);
        assert Ops(capacity, calls) == before + [Op.Get(c.tid)] + [Op.Put(c.tid, c.index)];
      } else {
        assert Ops(capacity, calls) == before + [Op.Get(c.tid)];
      }
      if WasPut(before, k) {
        StoredIndexInRange(capacity, n, calls[..l], k);
      }
    }
  }

  /** A call answered by the cache, or with a new index of the group. */
  lemma CallGrows(capacity: nat, n: nat, calls: seq<Call>, c: Call)
    requires CallsOk(capacity, n, calls)
    requires if Hit(capacity, Ops(capacity, calls), c.tid) then c.index == LastPut(Ops(capacity, calls), c.tid)
             else c.index < n
    ensures var before := Ops(capacity, calls);
            Ops(capacity, calls + [c]) ==
            before + [Op.Get(c.tid)] + if Hit(capacity, before, c.tid) then [] else [Op.Put(c.tid, c.index)]
    ensures CallsOk(capacity, n, calls + [c])
  {
    if Hit(capacity, Ops(capacity, calls), c.tid) {
      StoredIndexInRange(capacity, n, calls, c.tid);
    }
    CallsGrow(capacity, n, calls, c);
  }

  lemma CallsGrow(capacity: nat, n: nat, calls: seq<Call>, c: Call)
    requires CallsOk(capacity, n, calls) && c.index < n
    requires Hit(capacity, Ops(capacity, calls), c.tid) ==> c.index == LastPut(Ops(capacity, calls), c.tid)
    ensures var before := Ops(capacity, calls);
            Ops(capacity, calls + [c]) ==
            before + [Op.Get(c.tid)] + if Hit(capacity, before, c.tid) then [] else [Op.Put(c.tid, c.index)]
    ensures CallsOk(capacity, n, calls + [c])
  {
    var more := calls + [c];
    assert more[..|calls|] == calls;
    forall j: nat | j < |more| ensures more[j].index < n && Remembers(capacity, more, j) {
      if j < |calls| {
        assert more[..j] == calls[..j] && Remembers(capacity, calls, j);
      }
    }
  }

  // ----- stickiness

  /** The other threads that called between calls `i` and `j`. */
  ghost function OthersBetween(calls: seq<Call>, i: nat, j: nat): set<int>
    requires i <= j <= |calls|
  {
    set k | i <= k < j && calls[k].tid != calls[i].tid :: calls[k].tid
  }

  /** A thread remembered with index `x`, at most `others` having called since. */
  ghost predicate Remembered(capacity: nat, h: seq<Op<int, nat>>, tid: int, x: nat, others: set<int>) {
    WasPut(h, tid) && LastPut(h, tid) == x && TouchedSince(capacity, h, tid) <= others
  }

  lemma OpKeepsMemory(capacity: nat, h: seq<Op<int, nat>>, op: Op<int, nat>, tid: int, x: nat, others: set<int>)
    requires Remembered(capacity, h, tid, x, others) && op.key != tid
    ensures Remembered(capacity, h + [op], tid, x, others + {op.key})
  {
    assert (h + [op])[..|h|] == h;
    HistoryGrows(h, op, tid);
  }

  /** A call of another thread. */
  lemma OtherCallKeepsMemory(capacity: nat, calls: seq<Call>, tid: int, x: nat, others: set<int>)
    requires calls != [] && calls[|calls| - 1].tid != tid
    requires Remembered(capacity, Ops(capacity, calls[..|calls| - 1]), tid, x, others)
    ensures Remembered(capacity, Ops(capacity, calls), tid, x, others + {calls[|calls| - 1].tid})
  {
    var before := Ops(capacity, calls[..|calls| - 1]);
    var c := calls[|calls| - 1];
    OpKeepsMemory(capacity, before, Op.Get(c.tid), tid, x, others);
    if Hit(capacity, before, c.tid) {
      assert Ops(capacity, calls) == before + [Op.Get(c.tid)];
    } else {
      OpKeepsMemory(capacity, before + [Op.Get(c.tid)], Op.Put(c.tid, c.index), tid, x, others + {c.tid});
      assert Ops(capacity, calls) == before + [Op.Get(c.tid)] + [Op.Put(c.tid, c.index)];
      assert others + {c.tid} + {c.tid} == others + {c.tid};
    }
  }

  /** A call of the thread itself. */
  lemma OwnCallIsRemembered(capacity: nat, calls: seq<Call>)
    requires calls != [] && Remembers(capacity, calls, |calls| - 1)
    ensures Remembered(capacity, Ops(capacity, calls), calls[|calls| - 1].tid, calls[|calls| - 1].index, {})
  {
    var before := Ops(capacity, calls[..|calls| - 1]);
    var c := calls[|calls| - 1];
    var got := before + [Op.Get(c.tid)];
    assert got[..|before|] == before;
    HistoryGrows(before, Op.Get(c.tid), c.tid);
    if Hit(capacity, before, c.tid) {
      assert Ops(capacity, calls) == got;
    } else {
      var put := got + [Op.Put(c.tid, c.index)];
      assert put[..|got|] == got;
      HistoryGrows(got, Op.Put(c.tid, c.index), c.tid);
      assert Ops(capacity, calls) == put;
    }
  }

  lemma OneMoreCall(calls: seq<Call>, i: nat, j: nat)
    requires i < j <= |calls|
    ensures OthersBetween(calls, i, j) == OthersBetween(calls, i, j - 1) +
              if calls[j - 1].tid != calls[i].tid then {calls[j - 1].tid} else {}
  {
  }

  /** From call `i` on, while fewer other threads than the capacity call, the thread stays remembered. */
  lemma {:induction false} StaysRemembered(capacity: nat, n: nat, calls: seq<Call>, i: nat, j: nat)
    requires CallsOk(capacity, n, calls) && i < j <= |calls|
    requires |OthersBetween(calls, i, j)| < capacity
    ensures Remembered(capacity, Ops(capacity, calls[..j]), calls[i].tid, calls[i].index, OthersBetween(calls, i, j))
  {
    var tid, x := calls[i].tid, calls[i].index;
    var c := calls[j - 1];
    var others := OthersBetween(calls, i, j);
    assert calls[..j][..j - 1] == calls[..j - 1];
    assert Remembers(capacity, calls, j - 1) && Remembers(capacity, calls[..j], j - 1);
    if i == j - 1 {
      OwnCallIsRemembered(capacity, calls[..j]);
    } else {
      var fewer := OthersBetween(calls, i, j - 1);
      OneMoreCall(calls, i, j);
      SmallerSet(fewer, others);
      StaysRemembered(capacity, n, calls, i, j - 1);
      if c.tid != tid {
        OtherCallKeepsMemory(capacity, calls[..j], tid, x, fewer);
      } else {
        SmallerSet(TouchedSince(capacity, Ops(capacity, calls[..j - 1]), tid), fewer);
        OwnCallIsRemembered(capacity, calls[..j]);
      }
    }
  }

  /** A thread keeps its task index while fewer than eight times as many other threads as there are tasks call
      between its calls. */
  lemma TaskIsSticky(n: nat, calls: seq<Call>, i: nat, j: nat)
    requires CallsOk(n * 8, n, calls) && i < j < |calls| && calls[i].tid == calls[j].tid
    requires |OthersBetween(calls, i, j)| < n * 8
    ensures calls[i].index == calls[j].index
  {
    StaysRemembered(n * 8, n, calls, i, j);
    SmallerSet(TouchedSince(n * 8, Ops(n * 8, calls[..j]), calls[i].tid), OthersBetween(calls, i, j));
    assert Remembers(n * 8, calls, j);
  }

  // ----- how new threads are spread over the tasks

  /** What a call gets and does to the counter, given the calls before it. */
  ghost predicate Serves(capacity: nat, n: nat, calls: seq<Call>, c: Call, before: nat, after: nat)
    requires n > 0
  {
    var h := Ops(capacity, calls);
    if Hit(capacity, h, c.tid) then c.index == LastPut(h, c.tid) && after == before
    else c.index == before % n && after == (before + 1) % SIZE_LIMIT
  }

  /** Calls of one group while no other group advances the counter. */
  ghost predicate Undisturbed(capacity: nat, n: nat, calls: seq<Call>, more: seq<Call>, counters: seq<nat>)
    requires n > 0
  {
    && |counters| == |more| + 1
    && forall i: nat :: i < |more| ==> Serves(capacity, n, calls + more[..i], more[i], counters[i], counters[i + 1])
  }

  /** Every one of the calls is by a thread that has not called before. */
  ghost predicate AllNew(capacity: nat, calls: seq<Call>, more: seq<Call>) {
    && (forall i: nat :: i < |more| ==> !WasPut(Ops(capacity, calls), more[i].tid))
    && forall i, j :: 0 <= i < j < |more| ==> more[i].tid != more[j].tid
  }

  /** The index of the `i`-th new thread when a counter that wraps at `l` starts at `c`. */
  function Indexed(l: nat, c: nat, i: nat, n: nat): nat
    requires l > 0 && n > 0
  {
    ((c + i) % l) % n
  }

  lemma CallPutsOnlyItself(capacity: nat, calls: seq<Call>, c: Call, k: int)
    requires k != c.tid && !WasPut(Ops(capacity, calls), k)
    ensures !WasPut(Ops(capacity, calls + [c]), k)
  {
    var before := Ops(capacity, calls);
    assert (calls + [c])[..|calls|] == calls;
    HistoryGrows(before, Op.Get(c.tid), k);
    HistoryGrows(before + [Op.Get(c.tid)], Op.Put(c.tid, c.index), k);
    assert Ops(capacity, calls + [c]) ==
           before + [Op.Get(c.tid)] + if Hit(capacity, before, c.tid) then [] else [Op.Put(c.tid, c.index)];
  }

  lemma {:induction false} StillNew(capacity: nat, calls: seq<Call>, more: seq<Call>, i: nat, k: int)
    requires i <= |more| && !WasPut(Ops(capacity, calls), k) && forall j :: 0 <= j < i ==> more[j].tid != k
    ensures !WasPut(Ops(capacity, calls + more[..i]), k)
  {
    if i == 0 {
      assert calls + more[..0] == calls;
    } else {
      StillNew(capacity, calls, more, i - 1, k);
      CallPutsOnlyItself(capacity, calls + more[..i - 1], more[i - 1], k);
      assert calls + more[..i] == calls + more[..i - 1] + [more[i - 1]];
    }
  }

  lemma NextCount(c: nat, i: nat, before: nat)
    requires before == (c + i) % SIZE_LIMIT
    ensures (before + 1) % SIZE_LIMIT == (c + i + 1) % SIZE_LIMIT
  {
    Mappers.NextRemainder(c + i, SIZE_LIMIT);
    Mappers.NextRemainder(before, SIZE_LIMIT);
  }

  /** New threads of an undisturbed group get the tasks round-robin from where the counter stands. */
  lemma {:induction false} NewThreadsInTurn(
      capacity: nat, n: nat, calls: seq<Call>, more: seq<Call>, counters: seq<nat>, i: nat)
    requires n > 0 && Undisturbed(capacity, n, calls, more, counters) && AllNew(capacity, calls, more)
    requires counters[0] < SIZE_LIMIT && i <= |more|
    ensures counters[i] == (counters[0] + i) % SIZE_LIMIT
    ensures i < |more| ==> more[i].index == Indexed(SIZE_LIMIT, counters[0], i, n)
  {
    hide Ops, WasPut, LastPut;
    if i > 0 {
      NewThreadsInTurn(capacity, n, calls, more, counters, i - 1);
      StillNew(capacity, calls, more, i - 1, more[i - 1].tid);
      assert Serves(capacity, n, calls + more[..i - 1], more[i - 1], counters[i - 1], counters[i]);
      NextCount(counters[0], i - 1, counters[i - 1]);
    }
    if i < |more| {
      StillNew(capacity, calls, more, i, more[i].tid);
      assert Serves(capacity, n, calls + more[..i], more[i], counters[i], counters[i + 1]);
    }
  }

  /** The first n of the numbers from `c` on, counted modulo `l`, differ modulo n. */
  ghost predicate AllDifferent(l: nat, c: nat, n: nat)
    requires l > 0 && n > 0
  {
    forall i: nat, j: nat :: i < j < n ==> Indexed(l, c, i, n) != Indexed(l, c, j, n)
  }

  lemma CloseNumbersDiffer(a: nat, b: nat, n: nat)
    requires n > 0 && a < b < a + n
    ensures a % n != b % n
  {
    var p, q := a / n, b / n;
    if q <= p {
      Affinity.MulMonotone(n, q, p);
    } else {
      Affinity.MulMonotone(n, p + 1, q);
    }
  }

  lemma MulAssociates(q: nat, p: nat, n: nat)
    ensures q * (p * n) == (q * p) * n
  {
  }

  lemma RemainderOfRemainder(x: nat, l: nat, n: nat)
    requires n > 0 && l > 0 && l % n == 0
    ensures (x % l) % n == x % n
  {
    var p, q, y := l / n, x / l, x % l;
    assert l == p * n && x == q * l + y;
    MulAssociates(q, p, n);
    SplitOff(x, q * p, y, n);
  }

  lemma SplitOff(x: nat, rows: nat, y: nat, n: nat)
    requires n > 0 && x == rows * n + y
    ensures x % n == y % n
  {
    var z, r := y / n, y % n;
    assert (rows + z) * n == rows * n + z * n;
    Mappers.DivModOf(x, n, rows + z, r);
  }

  lemma SmallRemainder(x: nat, l: nat)
    requires x < l
    ensures x % l == x
  {
    Mappers.DivModOf(x, l, 0, x);
  }

  /** The restart comes late enough for a multiple of n to be right before it. */
  lemma CollidesBefore(l: nat, c: nat, n: nat, p: nat, r: nat)
    requires n > 0 && l == p * n + r && 0 < r < n && c + r <= l < c + n
    ensures Indexed(l, c, l - c - r, n) == Indexed(l, c, l - c, n)
  {
    SmallRemainder(l - r, l);
    Mappers.DivModOf(l - r, n, p, 0);
    Mappers.DivModOf(l, l, 1, 0);
    SmallRemainder(0, n);
  }

  /** Otherwise the first number collides with one after the restart. */
  lemma CollidesAfter(l: nat, c: nat, n: nat, p: nat, r: nat)
    requires n > 0 && l == p * n + r && r < n && c < l < c + r
    ensures Indexed(l, c, 0, n) == Indexed(l, c, r, n)
  {
    var rest := c + r - l;
    SmallRemainder(c, l);
    Mappers.DivModOf(c, n, p, rest);
    Mappers.DivModOf(c + r, l, 1, rest);
    SmallRemainder(rest, n);
  }

  /** Between the last number and the restart two numbers collide if the restart is out of step. */
  lemma WrapCollides(l: nat, c: nat, n: nat)
    requires 0 < n <= l && c < l < c + n && l % n != 0
    ensures exists i: nat, j: nat :: i < j < n && Indexed(l, c, i, n) == Indexed(l, c, j, n)
  {
    var p, r := l / n, l % n;
    hide Indexed;
    if c + r <= l {
      CollidesBefore(l, c, n, p, r);
    } else {
      CollidesAfter(l, c, n, p, r);
    }
  }

  lemma IndexesDiffer(l: nat, c: nat, i: nat, j: nat, n: nat)
    requires 0 < n && 0 < l && i < j < n && (c + n <= l || l % n == 0)
    ensures Indexed(l, c, i, n) != Indexed(l, c, j, n)
  {
    CloseNumbersDiffer(c + i, c + j, n);
    if l % n == 0 {
      RemainderOfRemainder(c + i, l, n);
      RemainderOfRemainder(c + j, l, n);
    } else {
      SmallRemainder(c + i, l);
      SmallRemainder(c + j, l);
    }
  }

  /** n new threads in a row get n different tasks exactly if the counter does not wrap on the way, or wraps in step. */
  lemma NewThreadsDifferIff(l: nat, c: nat, n: nat)
    requires 0 < n <= l && c < l
    ensures AllDifferent(l, c, n) <==> c + n <= l || l % n == 0
  {
    hide Indexed;
    if c + n <= l || l % n == 0 {
      forall i: nat, j: nat | i < j < n ensures Indexed(l, c, i, n) != Indexed(l, c, j, n) {
        IndexesDiffer(l, c, i, j, n);
      }
    } else {
      WrapCollides(l, c, n);
    }
  }

  /** So without a wrap every task gets exactly one of as many new threads as there are tasks. */
  lemma EveryTaskGetsOne(
      capacity: nat, n: nat, calls: seq<Call>, more: seq<Call>, counters: seq<nat>, t: nat) returns (i: nat)
    requires 0 < n == |more| && Undisturbed(capacity, n, calls, more, counters) && AllNew(capacity, calls, more)
    requires counters[0] + n <= SIZE_LIMIT && t < n
    ensures i < n && more[i].index == t
    ensures forall j: nat :: j < n && more[j].index == t ==> j == i
  {
    var start := counters[0];
    hide Undisturbed, AllNew, Indexed;
    forall j: nat | j < n ensures more[j].index == Indexed(SIZE_LIMIT, start, j, n) < n {
      NewThreadsInTurn(capacity, n, calls, more, counters, j);
      IndexedIsTask(SIZE_LIMIT, start, j, n);
    }
    NewThreadsDifferIff(SIZE_LIMIT, start, n);
    i := OneAtEach(seq(n, j requires 0 <= j < n => more[j].index), t);
  }

  lemma IndexedIsTask(l: nat, c: nat, i: nat, n: nat)
    requires l > 0 && n > 0
    ensures Indexed(l, c, i, n) < n
  {
  }

  /** n different numbers below n are all of them. */
  lemma OneAtEach(s: seq<nat>, t: nat) returns (i: nat)
    requires t < |s| && NoDuplicates(s) && forall j :: 0 <= j < |s| ==> s[j] < |s|
    ensures i < |s| && s[i] == t
  {
    TooManyForTheRest(s, t);
    i :| i < |s| && s[i] == t;
  }

  lemma TooManyForTheRest(s: seq<nat>, t: nat)
    requires t < |s| && NoDuplicates(s) && forall j :: 0 <= j < |s| ==> s[j] < |s|
    ensures t in s
  {
    assert NoRepeats(s);
    ElementsCard(s);
    UptoCard(|s|);
    forall x | x in Elements(s) ensures x in Upto(|s|) { InElements(s, x); }
    SubsetCard(Elements(s), Upto(|s|));
    InElements(s, t);
  }

  /** Two threads share a task, while another is unused, when the counter wraps between them ... */
  lemma WrapSharesATask()
    ensures Serves(24, 3, [], Call(1, 0), SIZE_LIMIT - 1, 0)
    ensures Serves(24, 3, [Call(1, 0)], Call(2, 0), 0, 1)
  {
    assert [Call(1, 0)][..0] == [];
    CallPutsOnlyItself(24, [], Call(1, 0), 2);
    assert [] + [Call(1, 0)] == [Call(1, 0)];
  }

  /** ... or when another group has advanced it. */
  lemma OtherGroupSharesATask()
    ensures Serves(16, 2, [], Call(1, 0), 0, 1)
    ensures Serves(16, 2, [Call(1, 0)], Call(2, 0), 2, 3)
  {
    CallPutsOnlyItself(16, [], Call(1, 0), 2);
    assert [] + [Call(1, 0)] == [Call(1, 0)];
  }
}
