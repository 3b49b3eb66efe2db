/**
 How far the head of a disk travels while the pending requests of module Elevator are
 served.  The list is sorted by the sector read as a signed int, so its sectors are in
 order only if they all lie on one side of 2^31; nothing on the way from bread to the
 driver looks at their size.
 */
module HeadTravel {
  import opened Words
  import opened Elevator

  function Sectors(list: seq<Request>): (x: seq<int>)
    ensures |x| == |list| && forall i :: 0 <= i < |x| ==> x[i] == list[i].idx
  {
    seq(|list|, i requires 0 <= i < |list| => list[i].idx as int)
  }

  function Distance(a: int, b: int): nat {
    if a < b then b - a else a - b
  }

  function Travel(x: seq<int>): nat {
    if |x| <= 1 then 0 else Distance(x[0], x[1]) + Travel(x[1..])
  }

  predicate Rising(x: seq<int>) {
    forall i, j :: 0 <= i < j < |x| ==> x[i] <= x[j]
  }

  predicate Falling(x: seq<int>) {
    forall i, j :: 0 <= i < j < |x| ==> x[i] >= x[j]
  }

  function Lowest(x: seq<int>): (r: int)
    requires x != []
    ensures r in x && forall y :: y in x ==> r <= y
  {
    if |x| == 1 then x[0] else assert x == [x[0]] + x[1..]; var r := Lowest(x[1..]); if r < x[0] then r else x[0]
  }

  function Highest(x: seq<int>): (r: int)
    requires x != []
    ensures r in x && forall y :: y in x ==> y <= r
  {
    if |x| == 1 then x[0] else assert x == [x[0]] + x[1..]; var r := Highest(x[1..]); if r > x[0] then r else x[0]
  }

  // ---------- sector order ----------

  // All pending sectors are below 2^31, or none is.
  predicate OneSide(list: seq<Request>) {
    forall i, j :: 0 <= i < |list| && 0 <= j < |list| ==> (list[i].idx < TWO31 <==> list[j].idx < TWO31)
  }

  // How many requests stand in front because their sector is 2^31 or more.
  function Large(list: seq<Request>): (p: nat)
    ensures p <= |list|
    ensures forall i :: 0 <= i < p ==> list[i].idx >= TWO31
    ensures p < |list| ==> list[p].idx < TWO31
  {
    if list == [] || list[0].idx < TWO31 then 0 else 1 + Large(list[1..])
  }

  // Two rising runs, the first p numbers all larger than the rest.
  predicate Rotated(x: seq<int>, p: nat) {
    p <= |x| && forall i, j :: 0 <= i < j < |x| ==> if i < p <= j then x[i] > x[j] else x[i] <= x[j]
  }

  lemma KeyOrder(a: Request, b: Request)
    ensures Key(a) <= Key(b) <==> if a.idx < TWO31 <==> b.idx < TWO31 then a.idx <= b.idx else a.idx >= TWO31
  {
  }

  lemma SortedRotates(list: seq<Request>)
    requires Sorted(list)
    ensures Rotated(Sectors(list), Large(list))
    ensures OneSide(list) <==> Large(list) == 0 || Large(list) == |list|
  {
    var p := Large(list);
    LargeAre(list);
    hide Key, Large;
    forall i, j | 0 <= i < j < |list|
      ensures if i < p <= j then list[i].idx > list[j].idx else list[i].idx <= list[j].idx
    {
      KeyOrder(list[i], list[j]);
    }
    if 0 < p < |list| {
      assert list[0].idx >= TWO31 > list[p].idx;
    }
  }

  lemma LargeAre(list: seq<Request>)
    requires Sorted(list)
    ensures forall i :: 0 <= i < |list| ==> (list[i].idx >= TWO31 <==> i < Large(list))
  {
    var p := Large(list);
    hide Key, Large;
    forall j | p <= j < |list| ensures list[j].idx < TWO31 {
      KeyOrder(list[p], list[j]);
    }
  }

  // The queue is in the order of its sectors exactly if they lie on one side of 2^31.
  lemma SectorOrder(list: seq<Request>)
    requires Sorted(list)
    ensures Rising(Sectors(list)) <==> OneSide(list)
  {
    SortedRotates(list);
    hide Key, OneSide, Sorted, Large, Sectors;
    var x, p := Sectors(list), Large(list);
    if 0 < p < |x| {
      assert x[p - 1] > x[p];
    }
  }

  // ---------- runs of a rotated sequence ----------

  lemma {:induction false} OneWay(x: seq<int>)
    requires x != [] && (Rising(x) || Falling(x))
    ensures Travel(x) == Distance(x[0], x[|x| - 1])
  {
    if |x| > 1 {
      assert Rising(x) ==> Rising(x[1..]);
      assert Falling(x) ==> Falling(x[1..]);
      OneWay(x[1..]);
      assert Rising(x) ==> x[0] <= x[1] <= x[|x| - 1];
      assert Falling(x) ==> x[0] >= x[1] >= x[|x| - 1];
    }
  }

  lemma {:induction false} TwoWays(a: seq<int>, b: seq<int>)
    requires a != [] && b != []
    ensures Travel(a + b) == Travel(a) + Distance(a[|a| - 1], b[0]) + Travel(b)
  {
    if |a| == 1 {
      assert (a + b)[1..] == b;
    } else {
      TwoWays(a[1..], b);
      assert (a + b)[1..] == a[1..] + b;
    }
  }

  lemma {:induction false} ReversedAt<T>(list: seq<T>, k: nat)
    requires k < |list|
    ensures Reversed(list)[k] == list[|list| - 1 - k]
  {
    if k > 0 {
      ReversedAt(list[..|list| - 1], k - 1);
    }
  }

  // The way back is as long as the way.
  lemma {:induction false} ReversedTravel(x: seq<int>)
    ensures Travel(Reversed(x)) == Travel(x)
  {
    if |x| > 1 {
      var front, last := x[..|x| - 1], x[|x| - 1];
      ReversedTravel(front);
      ReversedAt(front, 0);
      TwoWays([last], Reversed(front));
      TwoWays(front, [last]);
      assert front + [last] == x;
    } else if |x| == 1 {
      assert Reversed(x) == [x[0]] + Reversed(x[..0]) && Reversed(x[..0]) == [];
    }
  }

  // The travel over x[a..b], which passes the step down at p or not.
  function Sweep(x: seq<int>, p: nat, a: nat, b: nat): int
    requires a < b <= |x|
  {
    if a < p < b then x[p - 1] - x[a] + x[p - 1] - x[p] + x[b - 1] - x[p] else x[b - 1] - x[a]
  }

  lemma SweepTravel(x: seq<int>, p: nat, a: nat, b: nat)
    requires Rotated(x, p) && a < b <= |x|
    ensures Travel(x[a..b]) == Sweep(x, p, a, b)
  {
    if a < p < b {
      PartRises(x, p, a, p);
      PartRises(x, p, p, b);
      assert x[p - 1] > x[p];
      hide Rotated, Rising, Travel;
      OneWay(x[a..p]);
      OneWay(x[p..b]);
      TwoWays(x[a..p], x[p..b]);
      assert x[a..b] == x[a..p] + x[p..b];
    } else {
      PartRises(x, p, a, b);
      hide Rotated, Rising, Travel;
      OneWay(x[a..b]);
    }
  }

  lemma PartRises(x: seq<int>, p: nat, a: nat, b: nat)
    requires Rotated(x, p) && a < b <= |x| && !(a < p < b)
    ensures Rising(x[a..b]) && x[a] <= x[b - 1]
  {
  }

  // ---------- the whole drain ----------

  // The sectors in the order in which they are served from position i on.
  function Route(x: seq<int>, i: nat, direct: Direct): seq<int>
    requires i < |x|
  {
    if direct == Up then x[i..] + Reversed(x[..i]) else Reversed(x[..i + 1]) + x[i + 1..]
  }

  lemma ReversedSectors(list: seq<Request>)
    ensures Sectors(Reversed(list)) == Reversed(Sectors(list))
  {
    forall k | 0 <= k < |list| ensures Reversed(Sectors(list))[k] == Sectors(Reversed(list))[k] {
      ReversedAt(list, k);
      ReversedAt(Sectors(list), k);
    }
  }

  lemma DrainRoute(list: seq<Request>, i: nat, direct: Direct)
    requires i < |list|
    ensures Sectors(Drain(list, i, direct)) == Route(Sectors(list), i, direct)
  {
    var x := Sectors(list);
    hide Drain, Reversed;
    if direct == Up {
      SweepUp(list, i);
      ReversedSectors(list[..i]);
      assert Sectors(list[..i]) == x[..i] && Sectors(list[i..]) == x[i..];
      SectorsOf(list[i..], Reversed(list[..i]));
    } else {
      SweepDown(list, i);
      ReversedSectors(list[..i + 1]);
      assert Sectors(list[..i + 1]) == x[..i + 1] && Sectors(list[i + 1..]) == x[i + 1..];
      SectorsOf(Reversed(list[..i + 1]), list[i + 1..]);
    }
  }

  lemma SectorsOf(a: seq<Request>, b: seq<Request>)
    ensures Sectors(a + b) == Sectors(a) + Sectors(b)
  {
  }

  // The travel of a route: the sweep, the turn, and the sweep over the rest.
  lemma RouteTravel(x: seq<int>, p: nat, i: nat, direct: Direct)
    requires Rotated(x, p) && i < |x|
    ensures var n := |x|;
      Travel(Route(x, i, direct)) ==
        if (direct == Up && i == 0) || (direct == Down && i == n - 1) then Sweep(x, p, 0, n)
        else if direct == Up then Sweep(x, p, i, n) + Distance(x[n - 1], x[i - 1]) + Sweep(x, p, 0, i)
        else Sweep(x, p, 0, i + 1) + Distance(x[0], x[i + 1]) + Sweep(x, p, i + 1, n)
  {
    hide Rotated, Travel, Reversed;
    var n := |x|;
    var c := if direct == Up then i else i + 1;
    var low, up := x[..c], x[c..];
    ReversedTravel(low);
    assert x[0..n] == x && x[0..c] == low && x[c..n] == up;
    EmptyReversed<int>();
    if c == 0 || c == n {
      SweepTravel(x, p, 0, n);
      assert low == [] || up == [];
      assert Reversed(low) + up == (if c == 0 then up else Reversed(low));
      assert up + Reversed(low) == (if c == 0 then up else Reversed(low));
    } else {
      SweepTravel(x, p, 0, c);
      SweepTravel(x, p, c, n);
      ReversedAt(low, 0);
      ReversedAt(low, c - 1);
      if direct == Up {
        TwoWays(up, Reversed(low));
      } else {
        TwoWays(Reversed(low), up);
      }
    }
  }

  // With sectors on both sides of 2^31 the head sweeps twice over them.  When that is
  // still within twice the span, for each place and direction it may start in.
  predicate StartsWell(x: seq<int>, p: nat, i: nat, direct: Direct)
    requires i < |x| && p <= |x|
  {
    var n := |x|;
    if direct == Up then
      if i < p then i == 0 || 2 * x[i - 1] <= x[i] + x[0] else i == p || 2 * x[n - 1] <= x[i] + x[0]
    else
      if i < p then i == p - 1 || x[i] + x[n - 1] <= 2 * x[0] else i == n - 1 || x[i] + x[n - 1] <= 2 * x[i + 1]
  }

  lemma Pair(x: seq<int>, p: nat, i: nat, j: nat)
    requires Rotated(x, p) && i <= j < |x|
    ensures if i < p <= j then x[i] > x[j] else x[i] <= x[j]
  {
  }

  function Span(x: seq<int>, p: nat): int
    requires x != []
  {
    if 0 < p < |x| then x[p - 1] - x[p] else x[|x| - 1] - x[0]
  }

  lemma SpanIs(x: seq<int>, p: nat)
    requires Rotated(x, p) && x != []
    ensures Highest(x) - Lowest(x) == Span(x, p)
  {
    hide Highest, Lowest, Rotated;
    var h, l := if p == 0 then |x| - 1 else p - 1, if p == |x| then 0 else p;
    assert h < |x| && l < |x| by {
      Pair(x, p, 0, 0);
      RotatedBy(x, p);
    }
    forall y | y in x ensures x[l] <= y <= x[h] {
      var i :| 0 <= i < |x| && x[i] == y;
      if i < h { Pair(x, p, i, h); } else { Pair(x, p, h, i); }
      if i < l { Pair(x, p, i, l); } else { Pair(x, p, l, i); }
    }
    assert x[h] in x && x[l] in x;
  }

  lemma RotatedBy(x: seq<int>, p: nat)
    requires Rotated(x, p)
    ensures p <= |x|
  {
  }

  // Within twice the span, in each of the four starting places.
  lemma UpBounded(x: seq<int>, p: nat, i: nat)
    requires Rotated(x, p) && 0 < i < |x|
    ensures var n := |x|;
      p <= n && (Sweep(x, p, i, n) + Distance(x[n - 1], x[i - 1]) + Sweep(x, p, 0, i) <= 2 * Span(x, p) <==>
        p == 0 || p == n || StartsWell(x, p, i, Up))
  {
    RotatedBy(x, p);
    hide Rotated;
    var n := |x|;
    Pair(x, p, i - 1, n - 1);
    Pair(x, p, 0, i);
    if 0 < p < n {
      Pair(x, p, p - 1, n - 1);
      Pair(x, p, 0, p);
    }
  }

  lemma DownBounded(x: seq<int>, p: nat, i: nat)
    requires Rotated(x, p) && i < |x| - 1
    ensures var n := |x|;
      p <= n && (Sweep(x, p, 0, i + 1) + Distance(x[0], x[i + 1]) + Sweep(x, p, i + 1, n) <= 2 * Span(x, p) <==>
        p == 0 || p == n || StartsWell(x, p, i, Down))
  {
    RotatedBy(x, p);
    hide Rotated;
    var n := |x|;
    Pair(x, p, 0, i + 1);
    Pair(x, p, i, n - 1);
    if 0 < p < n {
      Pair(x, p, 0, n - 1);
      Pair(x, p, 0, p);
    }
  }

  lemma StraightBounded(x: seq<int>, p: nat, i: nat, direct: Direct)
    requires Rotated(x, p) && i < |x| && if direct == Up then i == 0 else i == |x| - 1
    ensures p <= |x| && Sweep(x, p, 0, |x|) <= 2 * Span(x, p) && (p == 0 || p == |x| || StartsWell(x, p, i, direct))
  {
    Pair(x, p, 0, |x| - 1);
  }

  lemma RouteBounded(x: seq<int>, p: nat, i: nat, direct: Direct)
    requires Rotated(x, p) && i < |x|
    ensures Travel(Route(x, i, direct)) <= 2 * (Highest(x) - Lowest(x)) <==> p == 0 || p == |x| || StartsWell(x, p, i, direct)
  {
    RouteTravel(x, p, i, direct);
    SpanIs(x, p);
    RotatedBy(x, p);
    hide Travel, Route, Highest, Lowest, Rotated, Sweep, Distance, Span, StartsWell;
    if (direct == Up && i == 0) || (direct == Down && i == |x| - 1) {
      StraightBounded(x, p, i, direct);
    } else if direct == Up {
      UpBounded(x, p, i);
    } else {
      DownBounded(x, p, i);
    }
  }

  lemma FallsBack(x: seq<int>)
    requires Rising(x)
    ensures Falling(Reversed(x))
  {
    hide Reversed;
    forall i, j | 0 <= i < j < |x| ensures Reversed(x)[i] >= Reversed(x)[j] {
      ReversedAt(x, i);
      ReversedAt(x, j);
    }
  }

  // From position i on all pending requests are served in one sweep and at most one
  // back.  Over sectors on one side of 2^31 each of them is monotone, and the travel is
  // at most twice the span; with sectors on both sides it is exactly if the head starts
  // in a place where the second sweep is short enough.
  lemma TravelIsBounded(list: seq<Request>, i: nat, direct: Direct)
    requires Sorted(list) && i < |list|
    ensures var x := Sectors(list);
      var c := if direct == Up then i else i + 1;
      && Sectors(Drain(list, i, direct)) == (if direct == Up then x[c..] + Reversed(x[..c]) else Reversed(x[..c]) + x[c..])
      && (OneSide(list) ==> Rising(x[c..]) && Falling(Reversed(x[..c])))
      && (Travel(Sectors(Drain(list, i, direct))) <= 2 * (Highest(x) - Lowest(x)) <==>
            OneSide(list) || StartsWell(x, Large(list), i, direct))
  {
    DrainRoute(list, i, direct);
    SortedRotates(list);
    hide Drain, StartsWell, Sorted, OneSide, Reversed, Travel, Highest, Lowest, Large, Rotated, Rising, Falling;
    var x := Sectors(list);
    RouteBounded(x, Large(list), i, direct);
    if OneSide(list) {
      SectorOrder(list);
      PartsOf(x, if direct == Up then i else i + 1);
    }
    hide Sectors;
  }

  lemma PartsOf(x: seq<int>, c: nat)
    requires Rising(x) && c <= |x|
    ensures Rising(x[c..]) && Falling(Reversed(x[..c]))
  {
    FallsBack(x[..c]);
  }

  // Both fail: the head, going up at the last sector of the front run, first comes down
  // to 0 and then goes back over the run.
  lemma FarSideTravels(list: seq<Request>)
    requires |list| == 4 && list[0].idx == TWO31 && list[1].idx == TWO31 + 100 && list[2].idx == TWO31 + 101 && list[3].idx == 0
    ensures Sorted(list) && !OneSide(list) && !Rising(Sectors(list))
    ensures Sectors(Drain(list, 2, Up)) == [TWO31 + 101, 0, TWO31 + 100, TWO31]
    ensures Travel(Sectors(Drain(list, 2, Up))) > 2 * (Highest(Sectors(list)) - Lowest(Sectors(list)))
  {
    hide *;
    LargeOfFour(list);
    SectorsOfFour(list);
    SectorOrder(list);
    TravelIsBounded(list, 2, Up);
    StartsBadly(Sectors(list));
    ReversedPair(TWO31, TWO31 + 100);
  }

  lemma StartsBadly(x: seq<int>)
    requires x == [TWO31, TWO31 + 100, TWO31 + 101, 0]
    ensures !StartsWell(x, 3, 2, Up) && x[..2] == [TWO31, TWO31 + 100] && x[2..] == [TWO31 + 101, 0]
  {
  }

  lemma ReversedPair(a: int, b: int)
    ensures Reversed([a, b]) == [b, a]
  {
    ReversedAt([a, b], 0);
    ReversedAt([a, b], 1);
  }

  lemma SectorsOfFour(list: seq<Request>)
    requires |list| == 4 && list[0].idx == TWO31 && list[1].idx == TWO31 + 100 && list[2].idx == TWO31 + 101 && list[3].idx == 0
    ensures Sectors(list) == [TWO31, TWO31 + 100, TWO31 + 101, 0] && !OneSide(list)
  {
    assert list[0].idx >= TWO31 > list[3].idx;
  }

  lemma LargeOfFour(list: seq<Request>)
    requires |list| == 4 && list[0].idx == TWO31 && list[1].idx == TWO31 + 100 && list[2].idx == TWO31 + 101 && list[3].idx == 0
    ensures Sorted(list) && Large(list) == 3
  {
    LargeAre(list);
  }
}
