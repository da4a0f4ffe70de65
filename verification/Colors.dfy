/** Colours: clamping them to a dense range, and the mapper that follows them. */
module Colors {
  import opened Mappers
  import opened Sorting
  import opened Status

  ghost predicate AllNonNegative(colors: seq<int>) {
    forall i :: 0 <= i < |colors| ==> colors[i] >= 0
  }

  /** Task i to the piece of its colour. */
  ghost function AsMapping(colors: seq<int>): Mapping
    requires AllNonNegative(colors)
  {
    map i | i in Upto(|colors|) :: {colors[i]}
  }

  /** Each source goes to the piece its colour names. A negative colour fails the mapper's assertion; where
      assertions are compiled out it turns into an index that the caller's checked access refuses. */
  method MapColors(srcColors: seq<int>) returns (r: Outcome<Mapping>)
    ensures r == if AllNonNegative(srcColors) then Returned(AsMapping(srcColors)) else Aborted
  {
    for i := 0 to |srcColors|
      invariant forall j :: 0 <= j < i ==> srcColors[j] >= 0
    {
      if srcColors[i] < 0 { return Aborted; }
    }
    var mapping: Mapping := map[];
    for i := 0 to |srcColors|
      invariant mapping.Keys == Upto(i)
      invariant forall j: nat :: j < i ==> mapping[j] == {srcColors[j]}
    {
      InsertFresh(mapping, i, srcColors[i]);
      mapping := InsertPair(mapping, i, srcColors[i]);
    }
    assert mapping == AsMapping(srcColors);
    r := Returned(mapping);
  }

  function ColorSet(colors: seq<int>): (r: set<int>)
    ensures forall c :: c in r <==> c in colors
  {
    set c | c in colors
  }

  ghost function Under(colors: set<int>, limit: int): set<int> {
    set x | x in colors && x < limit
  }

  /** How many distinct colours come before `c`. */
  ghost function ColorsBelow(colors: set<int>, c: int): nat {
    |Under(colors, c)|
  }

  ghost function Clamped(colors: seq<int>): (r: seq<int>)
    ensures |r| == |colors|
  {
    seq(|colors|, i requires 0 <= i < |colors| => ColorsBelow(ColorSet(colors), colors[i]))
  }

  lemma SomeElement<T>(s: set<T>) returns (x: T)
    requires s != {}
    ensures x in s
  {
    x :| x in s;
  }

  lemma LeastExists(s: set<int>)
    requires s != {}
    ensures exists c :: c in s && forall x :: x in s ==> c <= x
  {
    var y := SomeElement(s);
    if s == {y} {
      assert forall x :: x in s ==> y <= x;
    } else {
      assert s - {y} != {};
      LeastExists(s - {y});
      var c :| c in s - {y} && forall x :: x in s - {y} ==> c <= x;
      var least := if y < c then y else c;
      forall x | x in s ensures least <= x {
        assert x == y || x in s - {y};
      }
      assert least in s;
    }
  }

  /** Replaces each colour by the number of distinct smaller ones, in place. */
  method MapClampColors(colors: array<int>) returns (rc: int)
    modifies colors
    ensures rc == QV_SUCCESS
    ensures colors[..] == Clamped(old(colors[..]))
  {
    var colorset := ColorSet(colors[..]);
    var color2clamped := ClampTable(colorset);
    ghost var before := colors[..];
    for i := 0 to colors.Length
      invariant forall j :: 0 <= j < i ==> colors[j] == Clamped(before)[j]
      invariant forall j :: i <= j < colors.Length ==> colors[j] == before[j]
    {
      assert before[i] in before;
      colors[i] := color2clamped[colors[i]];
    }
    rc := QV_SUCCESS;
  }

  /** `table` numbers the `done` colours, which are those under some limit, in increasing order. */
  ghost predicate Numbers(table: map<int, int>, colors: set<int>, done: set<int>, limit: int) {
    && table.Keys == done == Under(colors, limit)
    && (forall c :: c in table ==> table[c] == ColorsBelow(colors, c))
  }

  /** The least colour left has exactly the finished ones below it. */
  lemma NextLimit(colors: set<int>, done: set<int>, limit: int, c: int)
    requires done == Under(colors, limit) && c in colors - done
    requires forall x :: x in colors - done ==> c <= x
    ensures Under(colors, c) == done
    ensures Under(colors, c + 1) == done + {c}
  {
    forall x | x in colors ensures x < c <==> x in done {
      assert x !in done ==> x in colors - done;
    }
  }

  /** Numbers the colours in increasing order. */
  method ClampTable(colorset: set<int>) returns (color2clamped: map<int, int>)
    ensures color2clamped.Keys == colorset
    ensures forall c :: c in colorset ==> color2clamped[c] == ColorsBelow(colorset, c)
  {
    color2clamped := map[];
    var done: set<int> := {};
    var colorp := 0;
    ghost var limit := LowerLimit(colorset);
    while colorset - done != {}
      invariant Numbers(color2clamped, colorset, done, limit) && colorp == |done|
      decreases colorset - done
    {
      LeastExists(colorset - done);
      var val: int :| val in colorset - done && forall x :: x in colorset - done ==> val <= x;
      NextLimit(colorset, done, limit, val);
      color2clamped := color2clamped[val := colorp];
      colorp := colorp + 1;
      done := done + {val};
      limit := val + 1;
    }
    assert done == colorset;
  }

  lemma LowerLimit(colors: set<int>) returns (limit: int)
    ensures Under(colors, limit) == {}
  {
    limit := 0;
    if colors != {} {
      LeastExists(colors);
      limit :| limit in colors && forall x :: x in colors ==> limit <= x;
    }
  }

  /** Clamping keeps the order of the colours, and in particular which are equal. */
  lemma ClampKeepsOrder(colors: set<int>, a: int, b: int)
    requires a in colors && b in colors
    ensures ColorsBelow(colors, a) < ColorsBelow(colors, b) <==> a < b
    ensures ColorsBelow(colors, a) < |colors|
  {
    var below, below' := Under(colors, a), Under(colors, b);
    SubsetCard(below, colors);
    if a < b {
      SubsetCard(below, below');
      assert a in below' && a !in below;
    } else {
      SubsetCard(below', below);
    }
  }

  /** Every number below the count of colours is the clamped value of one of them. */
  lemma EveryNumberIsUsed(colors: set<int>, v: nat) returns (c: int)
    requires v < |colors|
    ensures c in colors && ColorsBelow(colors, c) == v
  {
    var f := map x | x in colors :: ColorsBelow(colors, x);
    forall a, b | a in colors && b in colors && a != b ensures f[a] != f[b] {
      ClampKeepsOrder(colors, a, b);
      ClampKeepsOrder(colors, b, a);
    }
    forall a | a in colors ensures f[a] in Upto(|colors|) {
      ClampKeepsOrder(colors, a, a);
    }
    UptoCard(|colors|);
    Pigeonhole(f, colors, Upto(|colors|));
    assert v in Upto(|colors|);
    c :| c in colors && f[c] == v;
  }

  /** The clamped colours are exactly 0 .. (number of distinct colours) - 1. */
  lemma ClampIsOnto(colors: seq<int>)
    ensures forall v :: v in Clamped(colors) <==> 0 <= v < |ColorSet(colors)|
  {
    var cs := ColorSet(colors);
    forall i | 0 <= i < |colors| ensures Clamped(colors)[i] < |cs| {
      ClampKeepsOrder(cs, colors[i], colors[i]);
    }
    forall v | 0 <= v < |cs| ensures v in Clamped(colors) {
      var c := EveryNumberIsUsed(cs, v);
      var i :| 0 <= i < |colors| && colors[i] == c;
      assert Clamped(colors)[i] == v;
    }
  }

  /** Clamping clamped colours changes nothing. */
  lemma ClampIsIdempotent(colors: seq<int>)
    ensures Clamped(Clamped(colors)) == Clamped(colors)
  {
    var once := Clamped(colors);
    ClampIsOnto(colors);
    forall i | 0 <= i < |once| ensures Clamped(once)[i] == once[i] {
      assert once[i] in once;
      assert Under(ColorSet(once), once[i]) == Upto(once[i]);
      UptoCard(once[i]);
    }
  }
}
