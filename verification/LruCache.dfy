/**
 The least-recently-used cache: a list of entries, most recent first, and an
 index from keys to entries of the list. It is proved to refine a definition of
 hits that only looks at the history of operations.
 */
module LruCache {

  datatype Option<T> = None | Some(value: T)

  // ----- the specification: histories

  datatype Op<K, V> = Put(key: K, value: V) | Get(key: K)

  /** Has `k` been put? */
  ghost predicate WasPut<K, V>(h: seq<Op<K, V>>, k: K) {
    exists i :: 0 <= i < |h| && h[i].Put? && h[i].key == k
  }

  /** The value that was put last for `k`. */
  ghost function LastPut<K, V>(h: seq<Op<K, V>>, k: K): V
    requires WasPut(h, k)
    decreases |h|
  {
    var op := h[|h| - 1];
    if op.Put? && op.key == k then op.value else LastPut(h[..|h| - 1], k)
  }

  /** Does the last operation of the history touch its key: a put, or a get that finds something? */
  ghost predicate LastTouches<K, V>(capacity: nat, h: seq<Op<K, V>>)
    requires h != []
    decreases |h|, 0
  {
    h[|h| - 1].Put? || Hit(capacity, h[..|h| - 1], h[|h| - 1].key)
  }

  /** The other keys that have been touched since `k` was touched last (or ever, if it never was). */
  ghost function TouchedSince<K, V>(capacity: nat, h: seq<Op<K, V>>, k: K): set<K>
    decreases |h|, 1
  {
    if h == [] then {}
    else
      var before := h[..|h| - 1];
      var op := h[|h| - 1];
      if !LastTouches(capacity, h) then TouchedSince(capacity, before, k)
      else if op.key == k then {}
      else TouchedSince(capacity, before, k) + {op.key}
  }

  /** A get after history `h` finds `k`: it was put, and fewer other keys than the capacity were touched since. */
  ghost predicate Hit<K, V>(capacity: nat, h: seq<Op<K, V>>, k: K)
    decreases |h|, 2
  {
    WasPut(h, k) && |TouchedSince(capacity, h, k)| < capacity
  }

  /** What a get returns. */
  ghost function Answer<K, V>(capacity: nat, h: seq<Op<K, V>>, k: K): Option<V> {
    if Hit(capacity, h, k) then Some(LastPut(h, k)) else None
  }

  // ----- the state: keys in order of recency

  ghost predicate NoRepeats<K>(s: seq<K>) {
    forall i, j :: 0 <= i < j < |s| ==> s[i] != s[j]
  }

  ghost function Elements<K>(s: seq<K>): set<K> {
    set i | 0 <= i < |s| :: s[i]
  }

  /** All keys ever touched, most recent first, as if nothing were ever evicted. */
  ghost function Recency<K, V>(capacity: nat, h: seq<Op<K, V>>): seq<K>
    decreases |h|
  {
    if h == [] then []
    else
      var before := Recency(capacity, h[..|h| - 1]);
      if LastTouches(capacity, h) then MoveToFront(before, h[|h| - 1].key) else before
  }

  function MoveToFront<K(==)>(s: seq<K>, k: K): seq<K> {
    [k] + Without(s, k)
  }

  function Without<K(==)>(s: seq<K>, k: K): seq<K> {
    if s == [] then [] else if s[0] == k then Without(s[1..], k) else [s[0]] + Without(s[1..], k)
  }

  lemma {:induction false} WithoutAbsent<K>(s: seq<K>, k: K)
    requires k !in s
    ensures Without(s, k) == s
  {
    if s != [] {
      assert s[0] in s;
      WithoutAbsent(s[1..], k);
    }
  }

  lemma {:induction false} WithoutAt<K>(s: seq<K>, p: nat)
    requires NoRepeats(s) && p < |s|
    ensures Without(s, s[p]) == s[..p] + s[p + 1..]
  {
    if p == 0 {
      WithoutAbsent(s[1..], s[0]);
    } else {
      assert s[0] != s[p] && s[1..][p - 1] == s[p];
      WithoutAt(s[1..], p - 1);
      assert s[..p] == [s[0]] + s[1..][..p - 1];
      assert s[p + 1..] == s[1..][p..];
    }
  }

  lemma MoveToFrontKeeps<K>(s: seq<K>, k: K)
    requires NoRepeats(s)
    ensures NoRepeats(MoveToFront(s, k))
    ensures Elements(MoveToFront(s, k)) == Elements(s) + {k}
  {
    if k in s {
      var p :| 0 <= p < |s| && s[p] == k;
      WithoutAt(s, p);
      ElementsOfCons(k, s[..p] + s[p + 1..]);
      ElementsWithout(s, p, |s|);
      assert s[..|s|] == s;
    } else {
      WithoutAbsent(s, k);
      ElementsOfCons(k, s);
    }
  }

  lemma InElements<K>(s: seq<K>, k: K)
    ensures k in Elements(s) <==> k in s
  {
  }

  /** The place of a key in the recency order is the number of keys touched since, and exactly these precede it. */
  ghost predicate RecencyOk<K(!new), V>(capacity: nat, h: seq<Op<K, V>>) {
    var s := Recency(capacity, h);
    && NoRepeats(s)
    && (forall k :: k in s <==> WasPut(h, k))
    && (forall p :: 0 <= p < |s| ==> Elements(s[..p]) == TouchedSince(capacity, h, s[p]))
  }

  lemma WasPutStep<K, V>(h: seq<Op<K, V>>, k: K)
    requires h != []
    ensures WasPut(h, k) <==> WasPut(h[..|h| - 1], k) || (h[|h| - 1].Put? && h[|h| - 1].key == k)
  {
    var l := |h| - 1;
    if WasPut(h[..l], k) {
      var i :| 0 <= i < l && h[..l][i].Put? && h[..l][i].key == k;
      assert h[i].Put?;
    }
    if WasPut(h, k) {
      var i :| 0 <= i < |h| && h[i].Put? && h[i].key == k;
      assert i < l ==> h[..l][i] == h[i];
    }
  }

  /** Touching a key moves it to the front and puts it between every key that was before it and the present. */
  lemma TouchPlaces<K>(s: seq<K>, x: K, p: nat)
    requires NoRepeats(s) && 0 < p < |MoveToFront(s, x)|
    ensures var t := MoveToFront(s, x);
            && t[p] != x
            && exists q :: 0 <= q < |s| && s[q] == t[p] && Elements(t[..p]) == Elements(s[..q]) + {x}
  {
    hide Elements;
    var t := MoveToFront(s, x);
    if x in s {
      var r :| 0 <= r < |s| && s[r] == x;
      WithoutAt(s, r);
      assert t == [x] + s[..r] + s[r + 1..];
      if p <= r {
        assert t[..p] == [x] + s[..p - 1];
        ElementsOfCons(x, s[..p - 1]);
        assert s[p - 1] == t[p];
      } else {
        assert t[..p] == [x] + (s[..r] + s[r + 1..p]);
        ElementsOfCons(x, s[..r] + s[r + 1..p]);
        ElementsWithout(s, r, p);
        assert s[p] == t[p];
      }
    } else {
      WithoutAbsent(s, x);
      assert t[..p] == [x] + s[..p - 1];
      ElementsOfCons(x, s[..p - 1]);
      assert s[p - 1] == t[p] && s[p - 1] in s;
    }
  }

  lemma ElementsOfCons<K>(x: K, s: seq<K>)
    ensures Elements([x] + s) == Elements(s) + {x}
  {
    var t := [x] + s;
    assert t[0] == x && forall i :: 0 <= i < |s| ==> t[i + 1] == s[i];
  }

  lemma ElementsWithout<K>(s: seq<K>, r: nat, p: nat)
    requires r < p <= |s|
    ensures Elements(s[..r] + s[r + 1..p]) + {s[r]} == Elements(s[..p])
  {
    var t := s[..r] + s[r + 1..p];
    assert forall i :: 0 <= i < r ==> t[i] == s[i];
    assert forall i :: r < i < p ==> t[i - 1] == s[i];
    assert s[..p][r] == s[r];
    assert forall i :: 0 <= i < p ==> s[..p][i] == s[i];
  }

  lemma {:induction false} RecencyIsOk<K(!new), V>(capacity: nat, h: seq<Op<K, V>>)
    ensures RecencyOk(capacity, h)
    decreases |h|
  {
    if h != [] {
      var before := h[..|h| - 1];
      var x := h[|h| - 1].key;
      RecencyIsOk(capacity, before);
      var s, t := Recency(capacity, before), Recency(capacity, h);
      forall k ensures WasPut(h, k) <==> WasPut(before, k) || (h[|h| - 1].Put? && x == k) {
        WasPutStep(h, k);
      }
      if LastTouches(capacity, h) {
        MoveToFrontKeeps(s, x);
        WasPutStep(h, x);
        assert h[|h| - 1].Put? || Hit(capacity, before, x);
        forall k ensures k in t <==> WasPut(h, k) {
          InElements(t, k);
          InElements(s, k);
          assert k in s <==> WasPut(before, k);
        }
        forall p | 0 <= p < |t| ensures Elements(t[..p]) == TouchedSince(capacity, h, t[p]) {
          if p > 0 {
            TouchPlaces(s, x, p);
          }
        }
      }
    }
  }

  lemma {:induction false} ElementsCard<K>(s: seq<K>)
    requires NoRepeats(s)
    ensures |Elements(s)| == |s|
  {
    if s != [] {
      var l := |s| - 1;
      ElementsCard(s[..l]);
      assert forall i :: 0 <= i < l ==> s[..l][i] == s[i];
      assert Elements(s) == Elements(s[..l]) + {s[l]};
    }
  }

  /** The first `n` of a sequence, or all of it. */
  function Take<K>(s: seq<K>, n: nat): seq<K> {
    if n <= |s| then s[..n] else s
  }

  /** A get finds exactly the keys at the first `capacity` places of the recency order. */
  lemma HitIffRecent<K(!new), V>(capacity: nat, h: seq<Op<K, V>>, k: K)
    ensures Hit(capacity, h, k) <==> k in Take(Recency(capacity, h), capacity)
  {
    RecencyIsOk(capacity, h);
    var s := Recency(capacity, h);
    if k in s {
      var p :| 0 <= p < |s| && s[p] == k;
      ElementsCard(s[..p]);
      if p < capacity {
        assert Take(s, capacity)[p] == k;
      } else {
        forall q | 0 <= q < |Take(s, capacity)| ensures Take(s, capacity)[q] != k {
          assert s[q] != s[p];
        }
      }
    }
  }

  /** Moving a key to the front of everything ever touched does to the first places what the cache does. */
  lemma TakeAfterTouch<K>(s: seq<K>, n: nat, k: K)
    requires NoRepeats(s) && n > 0
    ensures var t := Take(s, n);
            Take(MoveToFront(s, k), n) ==
            if k in t then MoveToFront(t, k) else [k] + if |t| == n then t[..n - 1] else t
  {
    if k in s {
      var p: nat :| p < |s| && s[p] == k;
      if p < n {
        TouchWithin(s, n, p);
      } else {
        TouchBeyond(s, n, p);
      }
    } else {
      WithoutAbsent(s, k);
      var t := Take(s, n);
      assert k !in t by { assert forall q :: 0 <= q < |t| ==> t[q] == s[q]; }
    }
  }

  lemma TouchWithin<K>(s: seq<K>, n: nat, p: nat)
    requires NoRepeats(s) && p < n && p < |s|
    ensures s[p] in Take(s, n) && Take(MoveToFront(s, s[p]), n) == MoveToFront(Take(s, n), s[p])
  {
    var t := Take(s, n);
    assert t[p] == s[p];
    WithoutAt(s, p);
    WithoutAt(t, p);
  }

  lemma TouchBeyond<K>(s: seq<K>, n: nat, p: nat)
    requires NoRepeats(s) && 0 < n <= p < |s|
    ensures s[p] !in Take(s, n) && |Take(s, n)| == n
    ensures Take(MoveToFront(s, s[p]), n) == [s[p]] + Take(s, n)[..n - 1]
  {
    WithoutAt(s, p);
  }

  /** One more operation: what was put, and last. */
  lemma HistoryGrows<K, V>(h: seq<Op<K, V>>, op: Op<K, V>, k: K)
    ensures WasPut(h + [op], k) <==> WasPut(h, k) || (op.Put? && op.key == k)
    ensures op.Put? && op.key == k ==> LastPut(h + [op], k) == op.value
    ensures WasPut(h, k) && !(op.Put? && op.key == k) ==> LastPut(h + [op], k) == LastPut(h, k)
  {
    assert (h + [op])[..|h|] == h;
    WasPutStep(h + [op], k);
  }

  /** One more operation: the recency order. */
  lemma RecencyGrows<K(!new), V>(capacity: nat, h: seq<Op<K, V>>, op: Op<K, V>)
    ensures Recency(capacity, h + [op]) ==
            if op.Put? || Hit(capacity, h, op.key) then MoveToFront(Recency(capacity, h), op.key)
            else Recency(capacity, h)
    ensures NoRepeats(Recency(capacity, h))
  {
    assert (h + [op])[..|h|] == h;
    RecencyIsOk(capacity, h);
  }

  // ----- runs of operations

  /** The keys other than `k` that some operation names. */
  ghost function OtherKeys<K, V>(ops: seq<Op<K, V>>, k: K): set<K> {
    set i | 0 <= i < |ops| && ops[i].key != k :: ops[i].key
  }

  /** The keys that some operation puts. */
  ghost function PutKeys<K, V>(ops: seq<Op<K, V>>): set<K> {
    set i | 0 <= i < |ops| && ops[i].Put? :: ops[i].key
  }

  /** One more operation, on whatever key. */
  lemma OneMoreOp<K(!new), V>(capacity: nat, h: seq<Op<K, V>>, op: Op<K, V>, k: K)
    ensures TouchedSince(capacity, h + [op], k) ==
            if op.Get? && !Hit(capacity, h, op.key) then TouchedSince(capacity, h, k)
            else if op.key == k then {} else TouchedSince(capacity, h, k) + {op.key}
    ensures WasPut(h, k) && !(op.Put? && op.key == k) ==>
              WasPut(h + [op], k) && LastPut(h + [op], k) == LastPut(h, k)
    ensures op.Put? && op.key == k ==> WasPut(h + [op], k) && LastPut(h + [op], k) == op.value
  {
    assert (h + [op])[..|h|] == h;
    HistoryGrows(h, op, k);
  }

  lemma {:induction false} RunKeeps<K(!new), V>(capacity: nat, h: seq<Op<K, V>>, after: seq<Op<K, V>>, k: K)
    requires WasPut(h, k) && TouchedSince(capacity, h, k) == {}
    requires forall i :: 0 <= i < |after| && after[i].key == k ==> after[i].Get?
    ensures WasPut(h + after, k) && LastPut(h + after, k) == LastPut(h, k)
    ensures TouchedSince(capacity, h + after, k) <= OtherKeys(after, k)
    decreases |after|
  {
    if after == [] {
      assert h + after == h;
    } else {
      var l := |after| - 1;
      RunKeeps(capacity, h, after[..l], k);
      assert h + after == (h + after[..l]) + [after[l]];
      OneMoreOp(capacity, h + after[..l], after[l], k);
      hide WasPut, TouchedSince, LastPut, Hit;
      assert forall i :: 0 <= i < l ==> after[..l][i] == after[i];
    }
  }

  /** What was put, or found by a get, is found again as long as the operations that follow name fewer other keys than
      there is room for, and do not put the key anew. */
  lemma FoundAgain<K(!new), V>(capacity: nat, h: seq<Op<K, V>>, op: Op<K, V>, v: V, after: seq<Op<K, V>>)
    requires op == Put(op.key, v) || (op.Get? && Answer(capacity, h, op.key) == Some(v))
    requires forall i :: 0 <= i < |after| && after[i].key == op.key ==> after[i].Get?
    requires |OtherKeys(after, op.key)| < capacity
    ensures Answer(capacity, h + [op] + after, op.key) == Some(v)
  {
    hide WasPut, TouchedSince, LastPut, OtherKeys;
    OneMoreOp(capacity, h, op, op.key);
    RunKeeps(capacity, h + [op], after, op.key);
    SmallerSet(TouchedSince(capacity, h + [op] + after, op.key), OtherKeys(after, op.key));
  }

  lemma SmallerSet<K>(a: set<K>, b: set<K>)
    requires a <= b
    ensures |a| <= |b|
  {
    assert b == a + (b - a);
  }

  lemma {:induction false} RunCrowds<K(!new), V>(capacity: nat, h: seq<Op<K, V>>, after: seq<Op<K, V>>, k: K)
    requires forall i :: 0 <= i < |after| ==> after[i].key != k
    ensures PutKeys(after) <= TouchedSince(capacity, h + after, k)
    decreases |after|
  {
    if after != [] {
      var l := |after| - 1;
      RunCrowds(capacity, h, after[..l], k);
      assert h + after == (h + after[..l]) + [after[l]];
      OneMoreOp(capacity, h + after[..l], after[l], k);
      hide WasPut, TouchedSince, LastPut, Hit;
      assert forall i :: 0 <= i < l ==> after[..l][i] == after[i];
    }
  }

  /** And it is gone once as many other keys as there is room for have been put without an operation on it. */
  lemma GoneWhenCrowded<K(!new), V>(capacity: nat, h: seq<Op<K, V>>, after: seq<Op<K, V>>, k: K)
    requires (forall i :: 0 <= i < |after| ==> after[i].key != k) && capacity <= |PutKeys(after)|
    ensures Answer(capacity, h + after, k) == None
  {
    RunCrowds(capacity, h, after, k);
    hide WasPut, TouchedSince, LastPut, PutKeys;
    SmallerSet(PutKeys(after), TouchedSince(capacity, h + after, k));
  }

  // ----- the cache

  class Entry<K, V> {
    const key: K
    var value: V

    constructor (key: K, value: V)
      ensures this.key == key && this.value == value
    {
      this.key, this.value := key, value;
    }
  }

  class LruCache<K(==, !new), V> {
    const capacity: nat
    // Most recently used first.
    var cacheList: seq<Entry<K, V>>
    // From keys to their entries in the list.
    var cacheMap: map<K, Entry<K, V>>
    // The operations so far.
    ghost var history: seq<Op<K, V>>

    ghost function Keys(): (r: seq<K>)
      reads this
      ensures |r| == |cacheList|
    {
      KeysOf(cacheList)
    }

    /** The list holds the most recent keys and their last values, and the index names its entries. */
    ghost predicate Valid()
      reads this, cacheList
    {
      && 0 < capacity
      && Keys() == Take(Recency(capacity, history), capacity)
      && NoRepeats(Keys())
      && (forall i :: 0 <= i < |cacheList| ==> Holds(cacheList[i], history))
      && IndexOk(cacheList, cacheMap)
    }

    constructor (capacity: nat)
      requires 0 < capacity
      ensures Valid() && this.capacity == capacity && history == [] && cacheList == []
    {
      this.capacity := capacity;
      cacheList, cacheMap, history := [], map[], [];
    }

    /** Moves an entry to the front of the list. */
    method Splice(e: Entry<K, V>)
      requires e in cacheList && NoRepeats(Keys()) && IndexOk(cacheList, cacheMap)
      modifies this`cacheList
      ensures Keys() == MoveToFront(old(Keys()), e.key) && NoRepeats(Keys())
      ensures IndexOk(cacheList, cacheMap)
      ensures cacheList[..1] == [e] && forall i :: 0 <= i < |cacheList| ==> cacheList[i] in old(cacheList)
    {
      ghost var p :| 0 <= p < |cacheList| && cacheList[p] == e;
      SplicedList(cacheList, p);
      SplicedKeys(cacheList, p);
      SplicedIndexOk(cacheList, [e] + Without(cacheList, e), p, cacheMap);
      cacheList := [e] + Without(cacheList, e);
    }

    /** Removes the last entry. */
    method Evict()
      requires cacheList != [] && NoRepeats(Keys()) && IndexOk(cacheList, cacheMap)
      modifies this`cacheList, this`cacheMap
      ensures cacheList == old(cacheList)[..|old(cacheList)| - 1]
      ensures Keys() == old(Keys())[..|old(cacheList)| - 1] && NoRepeats(Keys())
      ensures IndexOk(cacheList, cacheMap)
    {
      ghost var before := cacheList;
      var back := cacheList[|cacheList| - 1];
      assert forall i :: 0 <= i < |before| ==> KeysOf(before)[i] == before[i].key;
      cacheMap := cacheMap - {back.key};
      cacheList := cacheList[..|cacheList| - 1];
      forall k | k in cacheMap ensures cacheMap[k] in cacheList {
        var i :| 0 <= i < |before| && before[i] == cacheMap[k];
        assert cacheList[i] == cacheMap[k];
      }
    }

    /** Adds a new entry to the front. */
    method Insert(key: K, value: V)
      requires key !in Keys() && NoRepeats(Keys()) && IndexOk(cacheList, cacheMap)
      requires forall i :: 0 <= i < |cacheList| ==> Holds(cacheList[i], history)
      modifies this`cacheList, this`cacheMap
      ensures Keys() == [key] + old(Keys()) && NoRepeats(Keys()) && IndexOk(cacheList, cacheMap)
      ensures forall i :: 0 <= i < |cacheList| ==> Holds(cacheList[i], history + [Op.Put(key, value)])
      ensures forall e :: e in cacheList ==> e in old(cacheList) || fresh(e)
    {
      ghost var before := cacheList;
      var entry := new Entry(key, value);
      cacheList := [entry] + cacheList;
      KeysInIndex(before, cacheMap, key);
      InsertedIndexOk(before, entry, cacheMap);
      cacheMap := cacheMap[key := entry];
      assert Keys() == [key] + KeysOf(before);
      HoldsAfterPut(cacheList, history, key, value);
    }

    /** Updates the value of a key and moves its entry to the front. */
    method Update(key: K, value: V)
      requires Valid() && key in cacheMap
      modifies this`cacheList, cacheList
      ensures Keys() == MoveToFront(old(Keys()), key) && NoRepeats(Keys()) && IndexOk(cacheList, cacheMap)
      ensures forall i :: 0 <= i < |cacheList| ==> Holds(cacheList[i], history + [Op.Put(key, value)])
      ensures forall e :: e in cacheList ==> e in old(cacheList)
    {
      var got := cacheMap[key];
      Splice(got);
      assert forall i :: 1 <= i < |cacheList| ==> Holds(cacheList[i], history);
      assert forall i :: 0 <= i < |cacheList| ==> Keys()[i] == cacheList[i].key;
      got.value := value;
      HoldsAfterPut(cacheList, history, key, value);
    }

    /** Touches the key and makes the value its last one. */
    method Put(key: K, value: V)
      requires Valid()
      modifies this, cacheList
      ensures Valid() && history == old(history) + [Op.Put(key, value)]
      ensures forall e :: e in cacheList ==> e in old(cacheList) || fresh(e)
    {
      hide Recency, Take, MoveToFront, NoRepeats, IndexOk, Holds, WasPut, LastPut;
      ghost var op := Op.Put(key, value);
      KeysAfterPut(capacity, history, key, value);
      KeysInIndex(cacheList, cacheMap, key);
      if key in cacheMap {
        Update(key, value);
      } else {
        // The least recently touched key makes room.
        if |cacheList| == capacity {
          Evict();
        }
        Insert(key, value);
      }
      history := history + [op];
    }

    /** Finds a value and makes its entry the most recent one. */
    method Get(key: K) returns (r: Option<V>)
      requires Valid()
      modifies this
      ensures Valid() && history == old(history) + [Op.Get(key)]
      ensures r == Answer(capacity, old(history), key)
      ensures forall e :: e in cacheList ==> e in old(cacheList)
    {
      ghost var op: Op<K, V> := Op.Get(key);
      KeysAfterGet(capacity, history, key);
      KeysInIndex(cacheList, cacheMap, key);
      r := None;
      if key in cacheMap {
        // A hit is a touch.
        var it := cacheMap[key];
        assert Holds(it, history);
        Splice(it);
        r := Some(it.value);
      }
      HoldsAfterGet(cacheList, history, key);
      history := history + [op];
    }
  }

  /** The entry has the last value put for its key. */
  ghost predicate Holds<K, V>(e: Entry<K, V>, h: seq<Op<K, V>>)
    reads e
  {
    WasPut(h, e.key) && e.value == LastPut(h, e.key)
  }

  ghost function KeysOf<K, V>(list: seq<Entry<K, V>>): (r: seq<K>)
    ensures |r| == |list| && forall i :: 0 <= i < |r| ==> r[i] == list[i].key
  {
    seq(|list|, i requires 0 <= i < |list| => list[i].key)
  }

  /** List and index agree. */
  ghost predicate IndexOk<K, V>(list: seq<Entry<K, V>>, index: map<K, Entry<K, V>>) {
    && (forall i :: 0 <= i < |list| ==> list[i].key in index && index[list[i].key] == list[i])
    && (forall k :: k in index ==> index[k] in list && index[k].key == k)
  }

  lemma KeysAfterPut<K(!new), V>(capacity: nat, h: seq<Op<K, V>>, key: K, value: V)
    requires capacity > 0
    ensures var t := Take(Recency(capacity, h), capacity);
            Take(Recency(capacity, h + [Op.Put(key, value)]), capacity) ==
            if key in t then MoveToFront(t, key) else [key] + if |t| == capacity then t[..capacity - 1] else t
  {
    RecencyGrows(capacity, h, Op.Put(key, value));
    TakeAfterTouch(Recency(capacity, h), capacity, key);
  }

  lemma KeysAfterGet<K(!new), V>(capacity: nat, h: seq<Op<K, V>>, key: K)
    requires capacity > 0
    ensures var t := Take(Recency(capacity, h), capacity);
            && (Hit(capacity, h, key) <==> key in t)
            && Take(Recency(capacity, h + [Op.Get(key)]), capacity) == if key in t then MoveToFront(t, key) else t
  {
    RecencyGrows(capacity, h, Op.Get(key));
    TakeAfterTouch(Recency(capacity, h), capacity, key);
    HitIffRecent(capacity, h, key);
  }

  lemma KeysInIndex<K, V>(list: seq<Entry<K, V>>, index: map<K, Entry<K, V>>, k: K)
    requires IndexOk(list, index)
    ensures k in index <==> k in KeysOf(list)
  {
    if k in index {
      var i :| 0 <= i < |list| && list[i] == index[k];
      assert KeysOf(list)[i] == k;
    }
  }

  lemma SplicedList<K, V>(list: seq<Entry<K, V>>, p: nat)
    requires NoRepeats(KeysOf(list)) && p < |list|
    ensures [list[p]] + Without(list, list[p]) == [list[p]] + list[..p] + list[p + 1..]
  {
    hide Without;
    assert NoRepeats(list) by {
      assert forall i :: 0 <= i < |list| ==> KeysOf(list)[i] == list[i].key;
    }
    WithoutAt(list, p);
  }

  lemma SplicedKeys<K, V>(list: seq<Entry<K, V>>, p: nat)
    requires NoRepeats(KeysOf(list)) && p < |list|
    ensures KeysOf([list[p]] + list[..p] + list[p + 1..]) == MoveToFront(KeysOf(list), list[p].key)
    ensures NoRepeats(MoveToFront(KeysOf(list), list[p].key))
  {
    WithoutAt(KeysOf(list), p);
    MoveToFrontKeeps(KeysOf(list), list[p].key);
    assert KeysOf([list[p]] + list[..p] + list[p + 1..]) ==
           [list[p].key] + KeysOf(list)[..p] + KeysOf(list)[p + 1..];
  }

  lemma SplicedIndexOk<K, V>(list: seq<Entry<K, V>>, list': seq<Entry<K, V>>, p: nat, index: map<K, Entry<K, V>>)
    requires IndexOk(list, index) && p < |list| && list' == [list[p]] + list[..p] + list[p + 1..]
    ensures IndexOk(list', index)
    ensures forall i :: 0 <= i < |list'| ==> list'[i] in list
  {
    forall k | k in index ensures index[k] in list' {
      var i :| 0 <= i < |list| && list[i] == index[k];
      assert if i < p then list'[i + 1] == list[i] else if i == p then list'[0] == list[i] else list'[i] == list[i];
    }
  }

  lemma InsertedIndexOk<K, V>(list: seq<Entry<K, V>>, entry: Entry<K, V>, index: map<K, Entry<K, V>>)
    requires IndexOk(list, index) && entry.key !in index
    ensures IndexOk([entry] + list, index[entry.key := entry])
  {
    var list' := [entry] + list;
    assert list'[0] == entry && forall i :: 0 <= i < |list| ==> list'[i + 1] == list[i];
  }

  lemma HoldsAfterGet<K, V>(list: seq<Entry<K, V>>, h: seq<Op<K, V>>, key: K)
    requires forall i :: 0 <= i < |list| ==> Holds(list[i], h)
    ensures forall i :: 0 <= i < |list| ==> Holds(list[i], h + [Op.Get(key)])
  {
    forall i | 0 <= i < |list| ensures Holds(list[i], h + [Op.Get(key)]) {
      assert Holds(list[i], h);
      HistoryGrows(h, Op.Get(key), list[i].key);
    }
  }

  /** The first entry has been given the new value, the others still have theirs. */
  lemma HoldsAfterPut<K, V>(list: seq<Entry<K, V>>, h: seq<Op<K, V>>, key: K, value: V)
    requires |list| > 0 && list[0].key == key && list[0].value == value && NoRepeats(KeysOf(list))
    requires forall i :: 1 <= i < |list| ==> Holds(list[i], h)
    ensures forall i :: 0 <= i < |list| ==> Holds(list[i], h + [Op.Put(key, value)])
  {
    forall i | 0 <= i < |list| ensures Holds(list[i], h + [Op.Put(key, value)]) {
      assert i > 0 ==> Holds(list[i], h) && KeysOf(list)[i] != KeysOf(list)[0];
      HistoryGrows(h, Op.Put(key, value), list[i].key);
    }
  }
}
