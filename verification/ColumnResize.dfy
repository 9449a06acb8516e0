/** Vertical resize of a window in a column (sway/commands/resize.c, tiled_resize_vertical_px; the clamp is
    in sway/tree/container.c). Lengths are reals. */
module ColumnResize {
  import opened Common

  function FMin(a: real, b: real): real { if a <= b then a else b }
  function FMax(a: real, b: real): real { if a >= b then a else b }

  /** The interval that a window's height is clamped to: its floor, and its cap cut off at the column's
      usable height but never below the floor. */
  datatype Bounds = Bounds(lo: real, hi: real)

  /** fmax(lo, fmin(desired, fmin(available, hi))) */
  function Clamp(b: Bounds, desired: real, available: real): real {
    FMax(b.lo, FMin(desired, FMin(available, b.hi)))
  }

  function Cap(b: Bounds, available: real): real {
    FMax(b.lo, FMin(available, b.hi))
  }

  /** The size in the interval that is nearest to the desired one; a cap below the floor does not count. */
  lemma ClampIsNearest(b: Bounds, desired: real, available: real)
    ensures var cap := if b.hi < available then b.hi else available;
      var r := Clamp(b, desired, available);
      && (desired <= b.lo || cap <= b.lo ==> r == b.lo)
      && (desired > b.lo && cap > b.lo ==> r == if desired <= cap then desired else cap)
  {
  }

  ghost function Sum(s: seq<real>): real {
    if s == [] then 0.0 else Sum(s[..|s| - 1]) + s[|s| - 1]
  }

  lemma {:induction false} SumUpdate(s: seq<real>, k: nat, x: real)
    requires k < |s|
    ensures Sum(s[k := x]) == Sum(s) - s[k] + x
  {
    var n := |s| - 1;
    if k < n {
      SumUpdate(s[..n], k, x);
      assert s[k := x][..n] == s[..n][k := x];
    } else {
      assert s[k := x][..n] == s[..n];
    }
  }

  // ----- the order in which siblings are asked

  datatype Edge = Edge(top: bool, bottom: bool)

  function Adjacent(index: int, edge: Edge): int {
    index + if edge.bottom then 1 else -1
  }

  predicate HasAdjacent(n: int, index: int, edge: Edge) {
    (edge.top || edge.bottom) && 0 <= Adjacent(index, edge) < n
  }

  function Distance(a: int, b: int): nat {
    if a <= b then b - a else a - b
  }

  /** Farther from the focused window first, and above before below. */
  predicate Before(index: int, a: int, b: int) {
    Distance(index, a) > Distance(index, b) || (Distance(index, a) == Distance(index, b) && a < b)
  }

  predicate Within(order: seq<int>, n: int) {
    forall j :: 0 <= j < |order| ==> 0 <= order[j] < n
  }

  /** Every sibling once, the edge-adjacent one first on an edge drag, the others farthest first. */
  ghost predicate VisitingOrder(order: seq<int>, n: int, index: int, edge: Edge) {
    && NoDuplicates(order) && Within(order, n)
    && (forall k :: k in order <==> 0 <= k < n && k != index)
    && (HasAdjacent(n, index, edge) ==> order != [] && order[0] == Adjacent(index, edge))
    && forall i, j :: (if HasAdjacent(n, index, edge) then 1 else 0) <= i < j < |order| ==>
         Before(index, order[i], order[j])
  }

  ghost function Elements(s: seq<int>): (r: set<int>)
    ensures forall k :: k in r <==> k in s
    ensures NoDuplicates(s) ==> |r| == |s|
  {
    if s == [] then {} else
      var n := |s| - 1;
      assert forall i :: 0 <= i < n ==> s[..n][i] == s[i];
      Elements(s[..n]) + {s[n]}
  }

  lemma {:induction false} BoundedSet(a: set<int>, n: nat)
    requires forall k :: k in a ==> 0 <= k < n
    ensures |a| <= n
  {
    if n > 0 {
      BoundedSet(a - {n - 1}, n - 1);
    } else {
      assert forall k :: k !in a;
      assert a == {};
    }
  }

  /** Distinct numbers below n, other than index, are at most n - 1 many. */
  lemma AtMost(order: seq<int>, n: nat, index: int)
    requires NoDuplicates(order) && 0 <= index < n
    requires forall k :: k in order ==> 0 <= k < n && k != index
    ensures |order| < n
  {
    BoundedSet(Elements(order) + {index}, n);
  }

  /** What `order` holds when the distances above d, and d itself upwards when `up`, have been visited. */
  ghost predicate Visited(order: seq<int>, n: int, index: int, edge: Edge, d: int, up: bool) {
    && NoDuplicates(order)
    && (forall k :: k in order <==>
         || (HasAdjacent(n, index, edge) && k == Adjacent(index, edge))
         || (0 <= k < n && k != index && (Distance(index, k) > d || (up && k == index - d))))
    && (HasAdjacent(n, index, edge) ==> order != [] && order[0] == Adjacent(index, edge))
    && forall i, j :: (if HasAdjacent(n, index, edge) then 1 else 0) <= i < j < |order| ==>
         Before(index, order[i], order[j])
  }

  lemma VisitNext(order: seq<int>, n: nat, index: int, edge: Edge, d: int, up: bool)
    requires 0 <= index < n && 1 <= d < n && Visited(order, n, index, edge, d, up)
    ensures var k := if up then index + d else index - d;
      var next := if 0 <= k < n && k != index && k !in order then order + [k] else order;
      Visited(next, n, index, edge, if up then d - 1 else d, !up)
  {
    var k := if up then index + d else index - d;
    if 0 <= k < n && k != index && k !in order {
      var start := if HasAdjacent(n, index, edge) then 1 else 0;
      assert HasAdjacent(n, index, edge) ==> order[0] in order;
      forall i | start <= i < |order| ensures Before(index, order[i], k) {
        assert order[i] in order;
        assert start == 1 ==> order[i] != order[0];
      }
    }
  }

  lemma VisitStart(n: nat, index: int, edge: Edge)
    requires 0 <= index < n
    ensures Visited(if HasAdjacent(n, index, edge) then [Adjacent(index, edge)] else [], n, index, edge, n - 1, false)
  {
  }

  lemma VisitedFits(order: seq<int>, n: nat, index: int, edge: Edge, d: int, up: bool)
    requires 0 <= index < n && Visited(order, n, index, edge, d, up)
    ensures |order| < n
    ensures d == 0 && !up ==> VisitingOrder(order, n, index, edge)
  {
    AtMost(order, n, index);
    assert forall j :: 0 <= j < |order| ==> order[j] in order;
  }

  /** The local array `order[64]` of the source, filled step by step. */
  method BuildOrder(n: nat, index: int, edge: Edge) returns (order: array<int>, no: nat)
    requires 0 <= index < n <= 65
    ensures no <= order.Length == 64 && VisitingOrder(order[..no], n, index, edge)
    ensures forall k :: k in order[..no] <==> 0 <= k < n && k != index
    ensures var first := if edge.bottom then index + 1 else index - 1;
      var dragged := (edge.top || edge.bottom) && 0 <= first < n;
      && (dragged ==> no > 0 && order[0] == first)
      && forall i, j :: (if dragged then 1 else 0) <= i < j < no ==>
           var a, b := order[i] - index, order[j] - index;
           var far, near := if a < 0 then -a else a, if b < 0 then -b else b;
           far > near || (far == near && order[i] < order[j])
  {
    hide Visited, VisitingOrder;
    order := new int[64];
    no := 0;
    VisitStart(n, index, edge);
    if edge.top || edge.bottom {
      var adj := index + if edge.bottom then 1 else -1;
      if adj >= 0 && adj < n && adj != index {
        order[no] := adj;
        no := no + 1;
      }
    }
    assert order[..no] == if HasAdjacent(n, index, edge) then [Adjacent(index, edge)] else [];
    var d := n - 1;
    while d >= 1
      invariant 0 <= d < n && no <= order.Length == 64
      invariant Visited(order[..no], n, index, edge, d, false)
    {
      var dir := -1;
      while dir <= 1
        invariant dir == -1 || dir == 1 || dir == 3
        invariant no <= order.Length == 64
        invariant Visited(order[..no], n, index, edge, if dir == 3 then d - 1 else d, dir == 1) && 1 <= d < n
        decreases 3 - dir
      {
        no := VisitAt(order, no, n, index, edge, d, dir);
        dir := dir + 2;
      }
      d := d - 1;
    }
    VisitedFits(order[..no], n, index, edge, 0, false);
    OrderInFull(order[..no], n, index, edge);
    assert forall i :: 0 <= i < no ==> order[i] == order[..no][i];
  }

  lemma OrderInFull(order: seq<int>, n: nat, index: int, edge: Edge)
    requires VisitingOrder(order, n, index, edge)
    ensures forall k :: k in order <==> 0 <= k < n && k != index
    ensures var first := if edge.bottom then index + 1 else index - 1;
      var dragged := (edge.top || edge.bottom) && 0 <= first < n;
      && (dragged ==> |order| > 0 && order[0] == first)
      && forall i, j :: (if dragged then 1 else 0) <= i < j < |order| ==>
           var a, b := order[i] - index, order[j] - index;
           var far, near := if a < 0 then -a else a, if b < 0 then -b else b;
           far > near || (far == near && order[i] < order[j])
  {
  }

  /** One turn of the inner loop: the window at distance d on one side, unless it is there already. */
  method VisitAt(order: array<int>, no: nat, n: nat, index: int, ghost edge: Edge, d: int, dir: int)
    returns (next: nat)
    requires 0 <= index < n <= 65 && 1 <= d < n && (dir == -1 || dir == 1)
    requires no <= order.Length == 64 && Visited(order[..no], n, index, edge, d, dir == 1)
    modifies order
    ensures next <= order.Length
    ensures Visited(order[..next], n, index, edge, if dir == 1 then d - 1 else d, dir == -1)
  {
    hide Visited;
    VisitNext(order[..no], n, index, edge, d, dir == 1);
    next := no;
    var k := index + dir * d;
    if k < 0 || k >= n || k == index {
      return;
    }
    var already := IsIn(order, no, k);
    if !already {
      VisitedFits(order[..no] + [k], n, index, edge, if dir == 1 then d - 1 else d, dir == -1);
      ghost var before := order[..no];
      order[no] := k;
      next := no + 1;
      assert order[..next] == before + [k];
    }
  }

  method IsIn(order: array<int>, no: nat, k: int) returns (already: bool)
    requires no <= order.Length
    ensures already <==> k in order[..no]
  {
    already := false;
    for j := 0 to no
      invariant k !in order[..j]
    {
      if order[j] == k {
        return true;
      }
    }
  }

  // ----- handing the difference to the siblings

  ghost predicate InBounds(heights: seq<real>, bounds: seq<Bounds>, usable: real) {
    |heights| == |bounds| &&
    forall k :: 0 <= k < |heights| ==> bounds[k].lo <= heights[k] <= Cap(bounds[k], usable)
  }

  /** Siblings in this order each take what their clamp lets them take of `remaining`; the heights after it,
      and what is left. */
  function Absorb(heights: seq<real>, bounds: seq<Bounds>, usable: real, order: seq<int>, remaining: real)
    : (r: (seq<real>, real))
    requires |heights| == |bounds| && Within(order, |heights|)
    ensures |r.0| == |heights|
    decreases |order|
  {
    if order == [] || remaining == 0.0 then (heights, remaining)
    else
      var k := order[0];
      var h := Clamp(bounds[k], heights[k] - remaining, usable);
      Absorb(heights[k := h], bounds, usable, order[1..], remaining - (heights[k] - h))
  }

  /** Nothing is lost: whatever leaves the remainder leaves the column, with no assumption on the heights. */
  lemma {:induction false} AbsorbConserves(heights: seq<real>, bounds: seq<Bounds>, usable: real,
                                           order: seq<int>, remaining: real)
    requires |heights| == |bounds| && Within(order, |heights|)
    ensures var r := Absorb(heights, bounds, usable, order, remaining);
      && Sum(r.0) - r.1 == Sum(heights) - remaining
      && forall k :: 0 <= k < |heights| && k !in order ==> r.0[k] == heights[k]
    decreases |order|
  {
    if order != [] && remaining != 0.0 {
      var k := order[0];
      var h := Clamp(bounds[k], heights[k] - remaining, usable);
      SumUpdate(heights, k, h);
      AbsorbConserves(heights[k := h], bounds, usable, order[1..], remaining - (heights[k] - h));
    }
  }

  /** What the windows of `order` can give before they are at their floors. */
  ghost function RoomDown(heights: seq<real>, bounds: seq<Bounds>, order: seq<int>): real
    requires |heights| == |bounds| && Within(order, |heights|)
  {
    if order == [] then 0.0 else heights[order[0]] - bounds[order[0]].lo + RoomDown(heights, bounds, order[1..])
  }

  /** What they can take before they are at their caps. */
  ghost function RoomUp(heights: seq<real>, bounds: seq<Bounds>, usable: real, order: seq<int>): real
    requires |heights| == |bounds| && Within(order, |heights|)
  {
    if order == [] then 0.0
    else Cap(bounds[order[0]], usable) - heights[order[0]] + RoomUp(heights, bounds, usable, order[1..])
  }

  lemma {:induction false} RoomElsewhere(heights: seq<real>, bounds: seq<Bounds>, usable: real, order: seq<int>,
                                         k: nat, h: real)
    requires |heights| == |bounds| && k < |heights| && k !in order && Within(order, |heights|)
    ensures RoomDown(heights[k := h], bounds, order) == RoomDown(heights, bounds, order)
    ensures RoomUp(heights[k := h], bounds, usable, order) == RoomUp(heights, bounds, usable, order)
    decreases |order|
  {
    if order != [] {
      RoomElsewhere(heights, bounds, usable, order[1..], k, h);
    }
  }

  /** Taking: what is left is just what all of them together cannot give. */
  lemma {:induction false} AbsorbTakes(heights: seq<real>, bounds: seq<Bounds>, usable: real,
                                       order: seq<int>, remaining: real)
    requires InBounds(heights, bounds, usable) && NoDuplicates(order) && Within(order, |heights|)
    requires remaining >= 0.0
    ensures var r := Absorb(heights, bounds, usable, order, remaining);
      && InBounds(r.0, bounds, usable) && r.1 >= 0.0
      && r.1 == FMax(0.0, remaining - RoomDown(heights, bounds, order))
      && forall k :: 0 <= k < |heights| ==> r.0[k] <= heights[k]
    decreases |order|
  {
    RoomIsPositive(heights, bounds, usable, order);
    if order != [] && remaining != 0.0 {
      var k := order[0];
      var h := Clamp(bounds[k], heights[k] - remaining, usable);
      assert h == FMax(bounds[k].lo, heights[k] - remaining);
      Others(order);
      RoomElsewhere(heights, bounds, usable, order[1..], k, h);
      AbsorbTakes(heights[k := h], bounds, usable, order[1..], remaining - (heights[k] - h));
      RoomIsPositive(heights[k := h], bounds, usable, order[1..]);
    }
  }

  lemma Others(order: seq<int>)
    requires order != [] && NoDuplicates(order)
    ensures order[0] !in order[1..] && NoDuplicates(order[1..])
  {
    assert forall j :: 0 <= j < |order[1..]| ==> order[1..][j] == order[j + 1];
  }

  /** One sibling is at its floor before the next one is asked. */
  lemma {:induction false} AbsorbTakesInOrder(heights: seq<real>, bounds: seq<Bounds>, usable: real,
                                              order: seq<int>, remaining: real, i: nat, j: nat)
    requires InBounds(heights, bounds, usable) && NoDuplicates(order) && Within(order, |heights|)
    requires remaining >= 0.0 && i < j < |order|
    requires Absorb(heights, bounds, usable, order, remaining).0[order[j]] < heights[order[j]]
    ensures Absorb(heights, bounds, usable, order, remaining).0[order[i]] == bounds[order[i]].lo
    decreases |order|
  {
    var k := order[0];
    var h := Clamp(bounds[k], heights[k] - remaining, usable);
    var next, rest, left := heights[k := h], order[1..], remaining - (heights[k] - h);
    Others(order);
    assert rest[j - 1] == order[j];
    if i > 0 {
      assert rest[i - 1] == order[i];
      AbsorbTakesInOrder(next, bounds, usable, rest, left, i - 1, j - 1);
    } else {
      AbsorbConserves(next, bounds, usable, rest, left);
    }
  }

  /** Giving: the mirror image, up to the caps. */
  lemma {:induction false} AbsorbGives(heights: seq<real>, bounds: seq<Bounds>, usable: real,
                                       order: seq<int>, remaining: real)
    requires InBounds(heights, bounds, usable) && NoDuplicates(order) && Within(order, |heights|)
    requires remaining <= 0.0
    ensures var r := Absorb(heights, bounds, usable, order, remaining);
      && InBounds(r.0, bounds, usable)
      && r.1 == FMin(0.0, remaining + RoomUp(heights, bounds, usable, order))
      && forall k :: 0 <= k < |heights| ==> r.0[k] >= heights[k]
    decreases |order|
  {
    RoomIsPositive(heights, bounds, usable, order);
    if order != [] && remaining != 0.0 {
      var k := order[0];
      var h := Clamp(bounds[k], heights[k] - remaining, usable);
      assert h == FMin(Cap(bounds[k], usable), heights[k] - remaining);
      Others(order);
      RoomElsewhere(heights, bounds, usable, order[1..], k, h);
      AbsorbGives(heights[k := h], bounds, usable, order[1..], remaining - (heights[k] - h));
      RoomIsPositive(heights[k := h], bounds, usable, order[1..]);
    }
  }

  lemma {:induction false} RoomIsPositive(heights: seq<real>, bounds: seq<Bounds>, usable: real, order: seq<int>)
    requires InBounds(heights, bounds, usable) && Within(order, |heights|)
    ensures RoomDown(heights, bounds, order) >= 0.0 && RoomUp(heights, bounds, usable, order) >= 0.0
    decreases |order|
  {
    if order != [] {
      RoomIsPositive(heights, bounds, usable, order[1..]);
    }
  }

  // ----- the whole column

  ghost function Floors(bounds: seq<Bounds>): (s: seq<real>)
    ensures |s| == |bounds| && forall k :: 0 <= k < |bounds| ==> s[k] == bounds[k].lo
  {
    seq(|bounds|, k requires 0 <= k < |bounds| => bounds[k].lo)
  }

  ghost function Caps(bounds: seq<Bounds>, usable: real): (s: seq<real>)
    ensures |s| == |bounds| && forall k :: 0 <= k < |bounds| ==> s[k] == Cap(bounds[k], usable)
  {
    seq(|bounds|, k requires 0 <= k < |bounds| => Cap(bounds[k], usable))
  }

  /** `h` with the entries listed in `order` replaced by those of `to`. */
  ghost function Towards(h: seq<real>, to: seq<real>, order: seq<int>): (r: seq<real>)
    requires |h| == |to| && Within(order, |h|)
    ensures |r| == |h| && forall k :: 0 <= k < |h| ==> r[k] == if k in order then to[k] else h[k]
    decreases |order|
  {
    if order == [] then h else Towards(h[order[0] := to[order[0]]], to, order[1..])
  }

  lemma {:induction false} RoomIsDifference(h: seq<real>, bounds: seq<Bounds>, usable: real, order: seq<int>)
    requires |h| == |bounds| && NoDuplicates(order) && Within(order, |h|)
    ensures RoomDown(h, bounds, order) == Sum(h) - Sum(Towards(h, Floors(bounds), order))
    ensures RoomUp(h, bounds, usable, order) == Sum(Towards(h, Caps(bounds, usable), order)) - Sum(h)
    decreases |order|
  {
    if order != [] {
      var k := order[0];
      SumUpdate(h, k, bounds[k].lo);
      SumUpdate(h, k, Cap(bounds[k], usable));
      RoomIsDifference(h[k := bounds[k].lo], bounds, usable, order[1..]);
      RoomIsDifference(h[k := Cap(bounds[k], usable)], bounds, usable, order[1..]);
      assert forall j :: 0 <= j < |order[1..]| ==> order[1..][j] == order[j + 1];
      RoomElsewhere(h, bounds, usable, order[1..], k, bounds[k].lo);
      RoomElsewhere(h, bounds, usable, order[1..], k, Cap(bounds[k], usable));
    }
  }

  /** Over all siblings, the room down is the column's height less the floors, but for the focused window. */
  lemma RoomOfSiblings(h: seq<real>, bounds: seq<Bounds>, usable: real, order: seq<int>, index: nat, edge: Edge)
    requires |h| == |bounds| && index < |h| && VisitingOrder(order, |h|, index, edge)
    ensures RoomDown(h, bounds, order) == (Sum(h) - h[index]) - (Sum(Floors(bounds)) - bounds[index].lo)
    ensures RoomUp(h, bounds, usable, order) ==
      (Sum(Caps(bounds, usable)) - Cap(bounds[index], usable)) - (Sum(h) - h[index])
  {
    RoomOfOthers(h, bounds, usable, order, index);
  }

  lemma RoomOfOthers(h: seq<real>, bounds: seq<Bounds>, usable: real, order: seq<int>, index: nat)
    requires |h| == |bounds| && index < |h| && NoDuplicates(order) && Within(order, |h|)
    requires forall k :: k in order <==> 0 <= k < |h| && k != index
    ensures RoomDown(h, bounds, order) == (Sum(h) - h[index]) - (Sum(Floors(bounds)) - bounds[index].lo)
    ensures RoomUp(h, bounds, usable, order) ==
      (Sum(Caps(bounds, usable)) - Cap(bounds[index], usable)) - (Sum(h) - h[index])
  {
    RoomIsDifference(h, bounds, usable, order);
    assert Towards(h, Floors(bounds), order) == Floors(bounds)[index := h[index]];
    SumUpdate(Floors(bounds), index, h[index]);
    assert Towards(h, Caps(bounds, usable), order) == Caps(bounds, usable)[index := h[index]];
    SumUpdate(Caps(bounds, usable), index, h[index]);
  }

  /** Heights after the resize, once the focused window's own clamp has settled on a change of `delta`. */
  function Resized(heights: seq<real>, bounds: seq<Bounds>, usable: real, order: seq<int>, index: nat, delta: real,
                   occupied: real): (r: seq<real>)
    requires |heights| == |bounds| && index < |heights| && Within(order, |heights|)
    ensures |r| == |heights|
  {
    var grown := heights[index := heights[index] + delta];
    var (after, left) :=
      Absorb(grown, bounds, usable, order, if delta < 0.0 then delta else FMax(0.0, occupied + delta - usable));
    if left > 0.0 then after[index := Clamp(bounds[index], after[index] - left, usable)] else after
  }

  /** Growing: whatever does not fit is taken from the siblings, and what they cannot give is taken back from
      the focused window. The column ends exactly full, unless it had room for all of the growth, or unless
      its floors alone do not fit. */
  lemma GrowTotal(heights: seq<real>, bounds: seq<Bounds>, usable: real, order: seq<int>, index: nat, edge: Edge,
                  delta: real)
    requires InBounds(heights, bounds, usable) && index < |heights|
    requires VisitingOrder(order, |heights|, index, edge)
    requires delta > 0.0 && heights[index] + delta <= Cap(bounds[index], usable)
    ensures var r := Resized(heights, bounds, usable, order, index, delta, Sum(heights));
      && Sum(r) == FMin(Sum(heights) + delta, FMax(usable, Sum(Floors(bounds))))
      && InBounds(r, bounds, usable)
      && (forall k :: 0 <= k < |heights| && k != index ==> r[k] <= heights[k])
      && r[index] <= heights[index] + delta
      && (Sum(heights) <= usable ==> r[index] >= heights[index])
  {
    hide VisitingOrder, Absorb, Floors, InBounds, FMax, FMin, Clamp, Cap, Sum;
    var grown := heights[index := heights[index] + delta];
    OrderFacts(order, |heights|, index, edge);
    StaysInBounds(heights, bounds, usable, index, heights[index]);
    GrowAbsorbed(heights, bounds, usable, order, index, edge, delta);
    var needed := FMax(0.0, Sum(heights) + delta - usable);
    var (after, left) := Absorb(grown, bounds, usable, order, needed);
    var h := Clamp(bounds[index], after[index] - left, usable);
    PulledBack(bounds[index], usable, heights[index], delta, left);
    SumUpdate(after, index, h);
    StaysInBounds(after, bounds, usable, index, h);
    GrowArithmetic(Sum(heights), delta, usable, Sum(Floors(bounds)), bounds[index].lo, heights[index], left);
  }

  /** What the siblings' part of a growth comes to, in totals. */
  lemma GrowAbsorbed(heights: seq<real>, bounds: seq<Bounds>, usable: real, order: seq<int>, index: nat, edge: Edge,
                     delta: real)
    requires InBounds(heights, bounds, usable) && index < |heights|
    requires VisitingOrder(order, |heights|, index, edge) && Within(order, |heights|)
    requires delta > 0.0 && heights[index] + delta <= Cap(bounds[index], usable)
    ensures var needed := FMax(0.0, Sum(heights) + delta - usable);
      var floors, h, lo := Sum(Floors(bounds)), heights[index], bounds[index].lo;
      var (after, left) := Absorb(heights[index := h + delta], bounds, usable, order, needed);
      && left == FMax(0.0, needed - (Sum(heights) - h - floors + lo)) && left >= 0.0
      && Sum(after) == Sum(heights) + delta - needed + left
      && InBounds(after, bounds, usable) && after[index] == h + delta
      && (forall k :: 0 <= k < |heights| && k != index ==> after[k] <= heights[k])
      && lo <= h && floors <= Sum(heights) && floors <= Sum(after) && Sum(heights) - h - floors + lo >= 0.0
  {
    hide VisitingOrder, Absorb, Floors, RoomDown, InBounds, FMin, Clamp, Cap, Sum;
    var grown := heights[index := heights[index] + delta];
    var needed := FMax(0.0, Sum(heights) + delta - usable);
    OrderFacts(order, |heights|, index, edge);
    SumUpdate(heights, index, heights[index] + delta);
    StaysInBounds(heights, bounds, usable, index, heights[index] + delta);
    RoomIsPositive(grown, bounds, usable, order);
    AbsorbTakes(grown, bounds, usable, order, needed);
    AbsorbConserves(grown, bounds, usable, order, needed);
    RoomOfSiblings(grown, bounds, usable, order, index, edge);
    FloorsBelow(heights, bounds, usable);
    FloorsBelow(Absorb(grown, bounds, usable, order, needed).0, bounds, usable);
  }

  lemma StaysInBounds(heights: seq<real>, bounds: seq<Bounds>, usable: real, k: nat, h: real)
    requires InBounds(heights, bounds, usable) && k < |heights|
    ensures |heights| == |bounds| && bounds[k].lo <= heights[k] <= Cap(bounds[k], usable)
    ensures bounds[k].lo <= h <= Cap(bounds[k], usable) ==> InBounds(heights[k := h], bounds, usable)
  {
  }

  lemma PulledBack(b: Bounds, usable: real, h: real, delta: real, left: real)
    requires b.lo <= h && h + delta <= Cap(b, usable) && left >= 0.0 && delta > 0.0
    ensures Clamp(b, h + delta - left, usable) == FMax(b.lo, h + delta - left)
    ensures left == 0.0 ==> Clamp(b, h + delta, usable) == h + delta
    ensures h + delta - left <= Clamp(b, h + delta - left, usable) && (left <= delta ==> h <= h + delta - left)
    ensures Clamp(b, h + delta - left, usable) <= h + delta
    ensures b.lo <= Clamp(b, h + delta - left, usable) <= Cap(b, usable)
  {
  }

  lemma GrowArithmetic(total: real, delta: real, usable: real, floors: real, lo: real, h: real, left: real)
    requires delta > 0.0 && lo <= h && floors <= total && total - h - floors + lo >= 0.0
    requires var needed := FMax(0.0, total + delta - usable);
      left == FMax(0.0, needed - (total - h - floors + lo))
    ensures var needed, goal := FMax(0.0, total + delta - usable), FMin(total + delta, FMax(usable, floors));
      && (left == 0.0 && floors <= total + delta - needed ==> total + delta - needed == goal)
      && (left > 0.0 ==> total + delta - needed + left - (h + delta) + FMax(lo, h + delta - left) == goal)
      && (total <= usable ==> left <= delta)
  {
  }

  lemma OrderFacts(order: seq<int>, n: nat, index: nat, edge: Edge)
    requires VisitingOrder(order, n, index, edge)
    ensures NoDuplicates(order) && Within(order, n) && index !in order
  {
  }

  lemma {:induction false} FloorsBelow(h: seq<real>, bounds: seq<Bounds>, usable: real)
    requires InBounds(h, bounds, usable)
    ensures Sum(Floors(bounds)) <= Sum(h)
  {
    if h != [] {
      var n := |h| - 1;
      FloorsBelow(h[..n], bounds[..n], usable);
      assert Floors(bounds)[..n] == Floors(bounds[..n]);
    }
  }

  /** Shrinking: the focused window keeps its new height, and the siblings take all of the freed space that
      their caps let them take; the rest of it stays free. */
  lemma ShrinkTotal(heights: seq<real>, bounds: seq<Bounds>, usable: real, order: seq<int>, index: nat, edge: Edge,
                    delta: real)
    requires InBounds(heights, bounds, usable) && index < |heights|
    requires VisitingOrder(order, |heights|, index, edge)
    requires delta < 0.0 && heights[index] + delta >= bounds[index].lo
    ensures var r := Resized(heights, bounds, usable, order, index, delta, Sum(heights));
      && Sum(r) == FMin(Sum(heights), Sum(Caps(bounds, usable)) - Cap(bounds[index], usable) + heights[index] + delta)
      && InBounds(r, bounds, usable)
      && (forall k :: 0 <= k < |heights| && k != index ==> r[k] >= heights[k])
      && r[index] == heights[index] + delta
  {
    hide VisitingOrder, Absorb, Caps, InBounds, FMax, FMin, Clamp, Cap, Sum;
    OrderFacts(order, |heights|, index, edge);
    ShrinkAbsorbed(heights, bounds, usable, order, index, edge, delta);
  }

  lemma ShrinkAbsorbed(heights: seq<real>, bounds: seq<Bounds>, usable: real, order: seq<int>, index: nat,
                       edge: Edge, delta: real)
    requires InBounds(heights, bounds, usable) && index < |heights|
    requires VisitingOrder(order, |heights|, index, edge) && Within(order, |heights|)
    requires delta < 0.0 && heights[index] + delta >= bounds[index].lo
    ensures var caps := Sum(Caps(bounds, usable)) - Cap(bounds[index], usable);
      var (after, left) := Absorb(heights[index := heights[index] + delta], bounds, usable, order, delta);
      && left <= 0.0 && Sum(after) == FMin(Sum(heights), caps + heights[index] + delta)
      && InBounds(after, bounds, usable) && after[index] == heights[index] + delta
      && forall k :: 0 <= k < |heights| && k != index ==> after[k] >= heights[k]
  {
    hide VisitingOrder, Absorb, Caps, RoomUp, InBounds, FMax, Clamp, Cap, Sum;
    var grown := heights[index := heights[index] + delta];
    OrderFacts(order, |heights|, index, edge);
    SumUpdate(heights, index, heights[index] + delta);
    StaysInBounds(heights, bounds, usable, index, heights[index] + delta);
    AbsorbGives(grown, bounds, usable, order, delta);
    AbsorbConserves(grown, bounds, usable, order, delta);
    RoomOfSiblings(grown, bounds, usable, order, index, edge);
  }

  // ----- over any run of resizes

  /** What asks for a resize. */
  datatype Resize = Resize(index: int, edge: Edge, deltaPx: real)

  /** What one call comes to. */
  ghost predicate ResizedBy(before: seq<real>, after: seq<real>, bounds: seq<Bounds>, usable: real, r: Resize) {
    && |before| == |bounds|
    && var n := |before|;
       if n < 2 || r.index < 0 || r.index >= n || usable <= 0.0 then after == before
       else
         var delta := Clamp(bounds[r.index], before[r.index] + r.deltaPx, usable) - before[r.index];
         if delta == 0.0 then after == before
         else exists order ::
           && VisitingOrder(order, n, r.index, r.edge) && Within(order, n)
           && after == Resized(before, bounds, usable, order, r.index, delta, Sum(before))
  }

  /** No window has a largest height of its own. */
  predicate Unconstrained(bounds: seq<Bounds>, usable: real) {
    forall k :: 0 <= k < |bounds| ==> 0.0 <= bounds[k].lo && usable <= bounds[k].hi
  }

  /** One resize leaves every window between its bounds, and the column no fuller than it was or than fits; a column
      that is full stays full. */
  lemma ResizeKeeps(before: seq<real>, after: seq<real>, bounds: seq<Bounds>, usable: real, r: Resize)
    requires ResizedBy(before, after, bounds, usable, r) && InBounds(before, bounds, usable)
    ensures InBounds(after, bounds, usable)
    ensures Sum(after) <= FMax(Sum(before), usable)
    ensures Unconstrained(bounds, usable) && Sum(before) == usable ==> Sum(after) == usable
  {
    hide VisitingOrder, Absorb, Floors, Caps, InBounds, FMin, FMax, Clamp, Cap, Sum, Resized, Within, Unconstrained;
    MaxIsEither(Sum(before), usable);
    if after != before {
      var i, n := r.index, |before|;
      var delta := Clamp(bounds[i], before[i] + r.deltaPx, usable) - before[i];
      var order :| VisitingOrder(order, n, i, r.edge) && Within(order, n)
        && after == Resized(before, bounds, usable, order, i, delta, Sum(before));
      ClampWithin(bounds[i], before[i] + r.deltaPx, usable);
      FloorsBelow(before, bounds, usable);
      if delta > 0.0 {
        GrowTotal(before, bounds, usable, order, i, r.edge, delta);
        GrownTotal(Sum(before), delta, usable, Sum(Floors(bounds)));
      } else {
        ShrinkTotal(before, bounds, usable, order, i, r.edge, delta);
        MinIsEither(Sum(before), Sum(Caps(bounds, usable)) - Cap(bounds[i], usable) + before[i] + delta);
        if Unconstrained(bounds, usable) {
          OthersHaveRoom(before, bounds, usable, i, before[i] + delta);
        }
      }
    }
  }

  lemma ClampWithin(b: Bounds, desired: real, usable: real)
    ensures b.lo <= Clamp(b, desired, usable) <= Cap(b, usable)
  {
  }

  lemma MaxIsEither(a: real, b: real)
    ensures a <= FMax(a, b) && b <= FMax(a, b)
  {
  }

  lemma MinIsEither(a: real, b: real)
    ensures FMin(a, b) <= a && (a <= b ==> FMin(a, b) == a)
  {
  }

  lemma GrownTotal(total: real, delta: real, usable: real, floors: real)
    requires delta > 0.0 && floors <= total
    ensures var r := FMin(total + delta, FMax(usable, floors));
      r <= FMax(total, usable) && (total == usable ==> r == usable)
  {
  }

  /** In a full column of such windows any other one has room for all that a window gives up. */
  lemma OthersHaveRoom(h: seq<real>, bounds: seq<Bounds>, usable: real, i: nat, floor: real)
    requires InBounds(h, bounds, usable) && Unconstrained(bounds, usable) && i < |h| && |h| >= 2 && usable > 0.0
    requires bounds[i].lo <= floor
    ensures usable <= Sum(Caps(bounds, usable)) - Cap(bounds[i], usable) + floor
  {
    hide Sum;
    var caps := Caps(bounds, usable);
    var j := if i == 0 then 1 else 0;
    CapsAdd(caps, usable, i, j);
  }

  lemma {:induction false} CapsAdd(caps: seq<real>, usable: real, i: nat, j: nat)
    requires i < |caps| && j < |caps| && i != j && usable <= caps[j]
    requires forall k :: 0 <= k < |caps| ==> caps[k] >= 0.0
    ensures Sum(caps) - caps[i] >= usable
  {
    SumUpdate(caps, i, 0.0);
    var rest := caps[i := 0.0];
    SumUpdate(rest, j, 0.0);
    SumIsPositive(rest[j := 0.0]);
  }

  lemma {:induction false} SumIsPositive(s: seq<real>)
    requires forall k :: 0 <= k < |s| ==> s[k] >= 0.0
    ensures Sum(s) >= 0.0 && ((forall k :: 0 <= k < |s| ==> s[k] == 0.0) ==> Sum(s) == 0.0)
  {
    if s != [] {
      SumIsPositive(s[..|s| - 1]);
    }
  }

  /** The heights at each moment of a run. */
  ghost predicate RunOf(states: seq<seq<real>>, bounds: seq<Bounds>, usable: real, resizes: seq<Resize>) {
    && |states| == |resizes| + 1
    && forall i :: 0 <= i < |resizes| ==> ResizedBy(states[i], states[i + 1], bounds, usable, resizes[i])
  }

  /** Over every run of resizes, whichever windows and edges they take: each window stays between its bounds, a column
      that fits goes on fitting, and one that is full, of windows without a largest height, stays exactly full. */
  lemma {:induction false} RunFits(states: seq<seq<real>>, bounds: seq<Bounds>, usable: real, resizes: seq<Resize>)
    requires RunOf(states, bounds, usable, resizes) && InBounds(states[0], bounds, usable)
    ensures forall i :: 0 <= i < |states| ==>
      && InBounds(states[i], bounds, usable)
      && (Sum(states[0]) <= usable ==> Sum(states[i]) <= usable)
      && (Unconstrained(bounds, usable) && Sum(states[0]) == usable ==> Sum(states[i]) == usable)
    decreases |resizes|
  {
    hide InBounds, Sum, ResizedBy, Unconstrained;
    if resizes != [] {
      var n := |resizes| - 1;
      RunFits(states[..n + 1], bounds, usable, resizes[..n]);
      assert states[..n + 1][n] == states[n];
      ResizeKeeps(states[n], states[n + 1], bounds, usable, resizes[n]);
    }
  }

  /** With the gaps counted: a column that fits its height goes on fitting it, and one that fills it stays full. */
  lemma RunFitsWithGaps(states: seq<seq<real>>, bounds: seq<Bounds>, height: real, gaps: real, resizes: seq<Resize>)
    requires RunOf(states, bounds, height - gaps, resizes) && InBounds(states[0], bounds, height - gaps)
    ensures forall i :: 0 <= i < |states| ==>
      && (Sum(states[0]) + gaps <= height ==> Sum(states[i]) + gaps <= height)
      && (Unconstrained(bounds, height) && gaps >= 0.0 && Sum(states[0]) + gaps == height ==>
            Sum(states[i]) + gaps == height)
  {
    hide InBounds, Sum, ResizedBy;
    RunFits(states, bounds, height - gaps, resizes);
  }

  /** In terms of the column's height: a window that asks for more gets it up to its cap, from free space first and then
      from the others, and with the gaps the column ends at its height or below it, unless the floors alone and the gaps
      are higher. */
  ghost predicate GrowsWithGaps(before: seq<real>, after: seq<real>, bounds: seq<Bounds>, height: real, gaps: real,
                                index: nat, desired: real)
    requires |before| == |bounds| && index < |before|
  {
    var cap := FMax(bounds[index].lo, FMin(height - gaps, bounds[index].hi));
    var wanted := FMin(desired, cap);
    wanted > before[index] ==>
      Sum(after) + gaps ==
      FMin(Sum(before) + (wanted - before[index]) + gaps, FMax(height, Sum(Floors(bounds)) + gaps))
  }

  ghost predicate FitsWithGaps(before: seq<real>, after: seq<real>, bounds: seq<Bounds>, height: real, gaps: real,
                               r: Resize) {
    && InBounds(after, bounds, height - gaps)
    && (Sum(before) + gaps <= height ==> Sum(after) + gaps <= height)
    && (0 <= r.index < |before| == |bounds| && |before| > 1 && gaps < height ==>
          GrowsWithGaps(before, after, bounds, height, gaps, r.index, before[r.index] + r.deltaPx))
  }

  lemma VerticalTotal(before: seq<real>, after: seq<real>, bounds: seq<Bounds>, height: real, gaps: real, r: Resize)
    requires InBounds(before, bounds, height - gaps) && ResizedBy(before, after, bounds, height - gaps, r)
    ensures FitsWithGaps(before, after, bounds, height, gaps, r)
  {
    hide InBounds, Sum, GrowsWithGaps, ResizedBy, FMax;
    ResizeKeeps(before, after, bounds, height - gaps, r);
    MaxIsEither(Sum(before), height - gaps);
    MaxOfLess(Sum(before), height - gaps);
    if 0 <= r.index < |before| == |bounds| && |before| > 1 && gaps < height {
      GrownWithGaps(before, after, bounds, height, gaps, r);
    }
  }

  lemma MaxOfLess(a: real, b: real)
    ensures a <= b ==> FMax(a, b) == b
  {
  }

  lemma GrownWithGaps(before: seq<real>, after: seq<real>, bounds: seq<Bounds>, height: real, gaps: real, r: Resize)
    requires ResizedBy(before, after, bounds, height - gaps, r) && InBounds(before, bounds, height - gaps)
    requires 0 <= r.index < |before| == |bounds| && |before| > 1 && gaps < height
    ensures GrowsWithGaps(before, after, bounds, height, gaps, r.index, before[r.index] + r.deltaPx)
  {
    hide VisitingOrder, Absorb, Floors, InBounds, Sum, Resized, Within, Clamp, FMin, FMax;
    var usable, i := height - gaps, r.index;
    var b, h := bounds[i], before[i];
    StaysInBounds(before, bounds, usable, i, h);
    ClampIsWanted(b, h, h + r.deltaPx, usable);
    ClampWithin(b, h + r.deltaPx, usable);
    var delta := Clamp(b, h + r.deltaPx, usable) - h;
    if FMin(h + r.deltaPx, Cap(b, usable)) > h {
      var order :| VisitingOrder(order, |before|, i, r.edge) && Within(order, |before|)
        && after == Resized(before, bounds, usable, order, i, delta, Sum(before));
      GrowTotal(before, bounds, usable, order, i, r.edge, delta);
      GapsMove(Sum(before) + delta, height, Sum(Floors(bounds)), gaps);
    }
  }

  lemma ClampIsWanted(b: Bounds, h: real, desired: real, usable: real)
    requires b.lo <= h
    ensures FMin(desired, Cap(b, usable)) > h ==> Clamp(b, desired, usable) == FMin(desired, Cap(b, usable))
  {
  }

  lemma GapsMove(x: real, height: real, floors: real, gaps: real)
    ensures FMin(x + gaps, FMax(height, floors + gaps)) == FMin(x, FMax(height - gaps, floors)) + gaps
  {
  }

  class Column {
    var height: real
    var gap: real
    var heights: array<real>     // pending.height of each window
    const bounds: seq<Bounds>

    constructor (height: real, gap: real, heights: array<real>, bounds: seq<Bounds>)
      ensures this.height == height && this.gap == gap && this.heights == heights && this.bounds == bounds
    {
      this.height, this.gap, this.heights, this.bounds := height, gap, heights, bounds;
    }

    /** What n windows have between them once the gaps are taken off. */
    function UsableBy(n: int): real
      reads this
    {
      height - gap * (n - 1) as real
    }

    /** The order in which the siblings were asked comes back as a ghost. */
    method TiledResizeVertical(index: int, edge: Edge, deltaPx: real) returns (ghost order: seq<int>)
      requires heights.Length == |bounds| <= 65
      modifies heights
      ensures var n, usable, before := heights.Length, UsableBy(heights.Length), old(heights[..]);
        if n < 2 || index < 0 || index >= n || usable <= 0.0 then heights[..] == before
        else var delta := Clamp(bounds[index], before[index] + deltaPx, usable) - before[index];
          if delta == 0.0 then heights[..] == before
          else
            && VisitingOrder(order, n, index, edge) && Within(order, n)
            && heights[..] == Resized(before, bounds, usable, order, index, delta, Sum(before))
      ensures ResizedBy(old(heights[..]), heights[..], bounds, UsableBy(heights.Length), Resize(index, edge, deltaPx))
      ensures var n, before, gaps := heights.Length, old(heights[..]), old(gap * (heights.Length - 1) as real);
        InBounds(before, bounds, height - gaps) ==>
          && InBounds(heights[..], bounds, height - gaps)
          && (Sum(before) + gaps <= height ==> Sum(heights[..]) + gaps <= height)
          && (0 <= index < n && n > 1 && gaps < height ==>
                GrowsWithGaps(before, heights[..], bounds, height, gaps, index, before[index] + deltaPx))
    {
      hide VisitingOrder, Within, Absorb, Clamp, Resized, Sum, InBounds, GrowsWithGaps, ResizedBy, FMin;
      ghost var before, gaps := heights[..], gap * (heights.Length - 1) as real;
      order := ResizeUnlessStuck(index, edge, deltaPx);
      assert gaps == old(gap * (heights.Length - 1) as real) && UsableBy(heights.Length) == height - gaps;
      if InBounds(before, bounds, height - gaps) {
        VerticalTotal(before, heights[..], bounds, height, gaps, Resize(index, edge, deltaPx));
      }
    }

    /** All of it, with its early returns. */
    method ResizeUnlessStuck(index: int, edge: Edge, deltaPx: real) returns (ghost order: seq<int>)
      requires heights.Length == |bounds| <= 65
      modifies heights
      ensures var n, usable, before := heights.Length, UsableBy(heights.Length), old(heights[..]);
        if n < 2 || index < 0 || index >= n || usable <= 0.0 then heights[..] == before
        else var delta := Clamp(bounds[index], before[index] + deltaPx, usable) - before[index];
          if delta == 0.0 then heights[..] == before
          else
            && VisitingOrder(order, n, index, edge) && Within(order, n)
            && heights[..] == Resized(before, bounds, usable, order, index, delta, Sum(before))
      ensures ResizedBy(old(heights[..]), heights[..], bounds, UsableBy(heights.Length), Resize(index, edge, deltaPx))
    {
      hide VisitingOrder, Within, Absorb, Clamp, Resized, Sum, UsableBy;
      order := [];
      var n := heights.Length;
      if n < 2 || index < 0 || index >= n {
        return;
      }
      var usable := UsableBy(n);
      if usable <= 0.0 {
        return;
      }
      var newH := Clamp(bounds[index], heights[index] + deltaPx, usable);
      var realDelta := newH - heights[index];
      assert realDelta == Clamp(bounds[index], old(heights[..])[index] + deltaPx, usable) - old(heights[..])[index];
      if realDelta == 0.0 {
        assert heights[..] == old(heights[..]);
        return;
      }
      order := ResizeBy(index, edge, usable, realDelta);
    }

    /** The rest of the resize, once it is known to change something. */
    method ResizeBy(index: nat, edge: Edge, usable: real, realDelta: real) returns (ghost order: seq<int>)
      requires index < heights.Length == |bounds| <= 65
      modifies heights
      ensures VisitingOrder(order, heights.Length, index, edge) && Within(order, heights.Length)
      ensures heights[..] ==
        Resized(old(heights[..]), bounds, usable, order, index, realDelta, Sum(old(heights[..])))
    {
      hide VisitingOrder, Absorb, Clamp;
      var occupied := Occupied();
      var remaining := if realDelta < 0.0 then realDelta else FMax(0.0, occupied + realDelta - usable);
      ghost var before := heights[..];
      heights[index] := heights[index] + realDelta;
      assert heights[..] == before[index := before[index] + realDelta];
      var asked, no := BuildOrder(heights.Length, index, edge);
      order := asked[..no];
      OrderFacts(order, heights.Length, index, edge);
      HandOut(asked, no, usable, remaining, index);
    }

    method Occupied() returns (occupied: real)
      ensures occupied == Sum(heights[..])
    {
      occupied := 0.0;
      for i := 0 to heights.Length
        invariant occupied == Sum(heights[..i])
      {
        assert heights[..i + 1][..i] == heights[..i];
        occupied := occupied + heights[i];
      }
      assert heights[..heights.Length] == heights[..];
    }

    method HandOut(order: array<int>, no: nat, usable: real, remaining: real, index: nat)
      requires heights.Length == |bounds| && index < heights.Length
      requires no <= order.Length && Within(order[..no], heights.Length)
      modifies heights
      ensures var (after, left) := Absorb(old(heights[..]), bounds, usable, order[..no], remaining);
        heights[..] == if left > 0.0 then after[index := Clamp(bounds[index], after[index] - left, usable)] else after
    {
      var left := remaining;
      var j := 0;
      ghost var result := Absorb(heights[..], bounds, usable, order[..no], remaining);
      assert order[..no] == order[0..no];
      while j < no && left != 0.0
        invariant j <= no && Within(order[j..no], heights.Length)
        invariant Absorb(heights[..], bounds, usable, order[j..no], left) == result
      {
        var k := order[j..no][0];
        assert order[j..no][1..] == order[j + 1..no];
        ghost var before := heights[..];
        var orig := heights[k];
        var h := Clamp(bounds[k], orig - left, usable);
        var absorbed := orig - h;
        heights[k] := h;
        assert heights[..] == before[k := h];
        left := left - absorbed;
        j := j + 1;
      }
      assert result == (heights[..], left);
      if left > 0.0 {
        heights[index] := Clamp(bounds[index], heights[index] - left, usable);
        assert heights[..] == result.0[index := heights[index]];
      }
    }
  }
}
