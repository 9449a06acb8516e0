/** Horizontal resize of a column, by an edge or by keys (sway/commands/resize.c, tiled_resize_horizontal_px), with the
    scan of the columns and the sharing among them (sway/tree/viewport.c 288-343). Widths are clamped as heights are. */
module RowResize {
  import opened ColumnResize
  import opened Common

  datatype Side = LeftEdge | RightEdge

  /** What asks for a resize: an edge that is dragged, or else keys, with the focused column of the workspace or -1. */
  datatype Request = ByEdge(side: Side) | ByKeys(focusedColumn: int)

  const MAX_CANDIDATES := 32

  function Sibling(col: nat, side: Side): int {
    if side == LeftEdge then col - 1 else col + 1
  }

  /** What the columns of a row and the gaps between them take up. */
  ghost function Taken(widths: seq<real>, gap: int): real {
    Sum(widths) + if |widths| > 1 then (gap * (|widths| - 1)) as real else 0.0
  }

  lemma TakenWithGaps(widths: seq<real>, gap: int)
    requires widths != []
    ensures Taken(widths, gap) == Sum(widths) + (gap * (|widths| - 1)) as real
  {
  }

  /** The columns below n, without `col`. */
  function OtherColumns(n: nat, col: nat): (r: seq<int>)
    ensures |r| == if col < n then n - 1 else n
    ensures forall j :: 0 <= j < |r| ==> r[j] == if j < col then j else j + 1
  {
    if n == 0 then [] else OtherColumns(n - 1, col) + if n - 1 == col then [] else [n - 1]
  }

  /** The array of candidates has room for so many of them. */
  function Candidates(n: nat, col: nat): seq<int> {
    var all := OtherColumns(n, col); if |all| <= MAX_CANDIDATES then all else all[..MAX_CANDIDATES]
  }

  /** A neighbour is a candidate if it is there and not too far down the row. */
  lemma WhichCandidates(n: nat, col: nat, k: int)
    requires col < n
    ensures k in Candidates(n, col) <==> 0 <= k < n && k != col && (if k < col then k else k - 1) < 32
  {
    var c := Candidates(n, col);
    if 0 <= k < n && k != col && (if k < col then k else k - 1) < MAX_CANDIDATES {
      assert c[if k < col then k else k - 1] == k;
    }
  }

  /** viewport_scan_visible: with no scrolling, every column is in the viewport. */
  method ViewportScanVisible(widths: array<real>, gap: int, exclude: nat)
    returns (candidates: array<int>, n: nat, occupied: real)
    ensures fresh(candidates) && n <= candidates.Length && candidates[..n] == Candidates(widths.Length, exclude)
    ensures occupied == Taken(widths[..], gap)
  {
    var sum, count := 0.0, 0;
    for i := 0 to widths.Length
      invariant sum == Sum(widths[..i]) && count == i
    {
      assert widths[..i + 1][..i] == widths[..i];
      sum := sum + widths[i];
      count := count + 1;
    }
    assert widths[..widths.Length] == widths[..];
    candidates, n := CollectOthers(widths.Length, exclude);
    occupied := if count > 1 then sum + (gap * (count - 1)) as real else sum;
  }

  /** Its second loop. */
  method CollectOthers(length: nat, exclude: nat) returns (candidates: array<int>, n: nat)
    ensures fresh(candidates) && n <= candidates.Length && candidates[..n] == Candidates(length, exclude)
  {
    candidates := new int[MAX_CANDIDATES];
    n := 0;
    var i := 0;
    while i < length && n < MAX_CANDIDATES
      invariant i <= length && n <= MAX_CANDIDATES == candidates.Length
      invariant candidates[..n] == OtherColumns(i, exclude)
    {
      if i != exclude {
        ghost var before := candidates[..n];
        candidates[n] := i;
        n := n + 1;
        assert candidates[..n] == before + [i];
      }
      i := i + 1;
    }
    OthersGrow(i, length, exclude);
  }

  lemma OthersGrow(i: nat, n: nat, col: nat)
    requires i <= n
    ensures OtherColumns(i, col) <= OtherColumns(n, col)
  {
  }

  /** The one column that is asked, if it is a candidate. */
  function Asked(n: nat, col: nat, side: Side): (order: seq<int>)
    requires col < n
    ensures Within(order, n) && NoDuplicates(order) && forall k :: k in order ==> k == Sibling(col, side) && k != col
  {
    WhichCandidates(n, col, Sibling(col, side));
    if Sibling(col, side) in Candidates(n, col) then [Sibling(col, side)] else []
  }

  // ----- the columns that are asked otherwise: the farthest first, and of two the right one

  predicate Farther(focus: int, a: int, b: int) {
    Distance(focus, a) > Distance(focus, b) || (Distance(focus, a) == Distance(focus, b) && a > b)
  }

  ghost predicate IsFarthest(s: set<int>, focus: int, x: int) {
    x in s && forall y :: y in s && y != x ==> Farther(focus, x, y)
  }

  /** The columns of `s` at a distance, the right one first. */
  function AtDistance(s: set<int>, focus: int, distance: nat): seq<int> {
    var right, left := focus + distance, focus - distance;
    (if right in s then [right] else []) + if left in s && left != right then [left] else []
  }

  lemma AtDistanceHolds(s: set<int>, focus: int, distance: nat)
    ensures var r := AtDistance(s, focus, distance);
      && (forall k :: k in r <==> k in s && Distance(focus, k) == distance)
      && NoDuplicates(r) && forall i, j :: 0 <= i < j < |r| ==> Farther(focus, r[i], r[j])
  {
  }

  /** The columns of `s` at most so far from the focus, in the order in which they are asked. */
  function FarthestFirst(s: set<int>, focus: int, distance: nat): seq<int> {
    AtDistance(s, focus, distance) + if distance == 0 then [] else FarthestFirst(s, focus, distance - 1)
  }

  lemma {:induction false} FarthestFirstHolds(s: set<int>, focus: int, distance: nat)
    ensures forall k :: k in FarthestFirst(s, focus, distance) <==> k in s && Distance(focus, k) <= distance
  {
    hide AtDistance;
    AtDistanceHolds(s, focus, distance);
    if distance > 0 {
      FarthestFirstHolds(s, focus, distance - 1);
    }
  }

  ghost predicate Sorted(order: seq<int>, focus: int) {
    NoDuplicates(order) && forall i, j :: 0 <= i < j < |order| ==> Farther(focus, order[i], order[j])
  }

  lemma {:induction false} FarthestFirstIsSorted(s: set<int>, focus: int, distance: nat)
    ensures Sorted(FarthestFirst(s, focus, distance), focus)
  {
    hide AtDistance, Sorted, Farther;
    AtDistanceIsSorted(s, focus, distance);
    if distance > 0 {
      FarthestFirstIsSorted(s, focus, distance - 1);
      FrontAndRest(s, focus, distance);
      SortedConcat(AtDistance(s, focus, distance), FarthestFirst(s, focus, distance - 1), focus);
    } else {
      assert FarthestFirst(s, focus, 0) == AtDistance(s, focus, 0);
    }
  }

  lemma AtDistanceIsSorted(s: set<int>, focus: int, distance: nat)
    ensures Sorted(AtDistance(s, focus, distance), focus)
  {
    AtDistanceHolds(s, focus, distance);
  }

  lemma FrontAndRest(s: set<int>, focus: int, distance: nat)
    requires distance > 0
    ensures var front, rest := AtDistance(s, focus, distance), FarthestFirst(s, focus, distance - 1);
      forall i, j :: 0 <= i < |front| && 0 <= j < |rest| ==> Farther(focus, front[i], rest[j])
  {
    hide AtDistance, FarthestFirst;
    AtDistanceHolds(s, focus, distance);
    FarthestFirstHolds(s, focus, distance - 1);
    var front, rest := AtDistance(s, focus, distance), FarthestFirst(s, focus, distance - 1);
    forall i, j | 0 <= i < |front| && 0 <= j < |rest| ensures Farther(focus, front[i], rest[j]) {
      assert front[i] in front && rest[j] in rest;
    }
  }

  lemma SortedConcat(a: seq<int>, b: seq<int>, focus: int)
    requires Sorted(a, focus) && Sorted(b, focus)
    requires forall i, j :: 0 <= i < |a| && 0 <= j < |b| ==> Farther(focus, a[i], b[j])
    ensures Sorted(a + b, focus)
  {
    var c := a + b;
    forall i, j | 0 <= i < j < |c| ensures Farther(focus, c[i], c[j]) && c[i] != c[j] {
      if i >= |a| {
        assert c[i] == b[i - |a|] && c[j] == b[j - |a|];
      }
    }
  }

  /** The farthest one comes first, and then the others as if it were not there. */
  lemma {:induction false} FarthestIsFirst(s: set<int>, focus: int, distance: nat, x: int)
    requires IsFarthest(s, focus, x) && Distance(focus, x) <= distance
    ensures FarthestFirst(s, focus, distance) == [x] + FarthestFirst(s - {x}, focus, distance)
  {
    hide AtDistance, IsFarthest;
    FarthestHere(s, focus, distance, x);
    if distance == Distance(focus, x) {
      if distance > 0 {
        SameBelow(s, focus, distance - 1, x);
      }
      assert FarthestFirst(s, focus, distance)[1..] == FarthestFirst(s - {x}, focus, distance);
    } else {
      FarthestIsFirst(s, focus, distance - 1, x);
    }
  }

  lemma FarthestHere(s: set<int>, focus: int, distance: nat, x: int)
    requires IsFarthest(s, focus, x) && Distance(focus, x) <= distance
    ensures var here := AtDistance(s - {x}, focus, distance);
      AtDistance(s, focus, distance) == if distance == Distance(focus, x) then [x] + here else here
    ensures distance > Distance(focus, x) ==> AtDistance(s, focus, distance) == []
  {
    var right, left := focus + distance, focus - distance;
    assert right in s && right != x ==> Farther(focus, x, right);
    assert left in s && left != x ==> Farther(focus, x, left);
  }

  lemma {:induction false} SameBelow(s: set<int>, focus: int, distance: nat, x: int)
    requires distance < Distance(focus, x)
    ensures FarthestFirst(s, focus, distance) == FarthestFirst(s - {x}, focus, distance)
  {
    if distance > 0 {
      SameBelow(s, focus, distance - 1, x);
    }
  }

  lemma {:induction false} NoneLeft(focus: int, distance: nat)
    ensures FarthestFirst({}, focus, distance) == []
  {
    if distance > 0 {
      NoneLeft(focus, distance - 1);
    }
  }

  /** The candidates that are not marked as used, and how they stand in the array. */
  ghost function Unused(c: seq<int>): set<int> {
    set i | 0 <= i < |c| && c[i] >= 0 :: c[i]
  }

  ghost predicate Ascending(c: seq<int>) {
    && (forall i :: 0 <= i < |c| && c[i] >= 0 ==> i <= c[i])
    && forall i, j :: 0 <= i < j < |c| && c[i] >= 0 && c[j] >= 0 ==> c[i] < c[j]
  }

  lemma Marked(c: seq<int>, i: nat)
    requires i < |c| && c[i] >= 0 && Ascending(c)
    ensures Ascending(c[i := -1]) && Unused(c[i := -1]) == Unused(c) - {c[i]} && c[i] in Unused(c)
  {
    var d := c[i := -1];
    forall x ensures x in Unused(d) <==> x in Unused(c) - {c[i]} {
      if x in Unused(c) - {c[i]} {
        var j :| 0 <= j < |c| && c[j] >= 0 && c[j] == x;
        assert d[j] == x;
      }
    }
  }

  lemma AllUnused(c: seq<int>)
    requires Ascending(c) && forall i :: 0 <= i < |c| ==> c[i] >= 0
    ensures Unused(c) == Elements(c) && |Unused(c)| == |c|
  {
    assert forall x :: x in Unused(c) <==> x in c;
  }

  /** The inner loop of viewport_absorb_farthest. */
  method FindFarthest(candidates: array<int>, n: nat, focus: int) returns (farthest: int)
    requires n <= candidates.Length && Ascending(candidates[..n])
    ensures -1 <= farthest < n && (farthest < 0 ==> Unused(candidates[..n]) == {})
    ensures farthest >= 0 ==>
      candidates[farthest] >= 0 && IsFarthest(Unused(candidates[..n]), focus, candidates[farthest])
  {
    farthest := -1;
    var farthestDist: int := -1;
    ghost var c := candidates[..n];
    for ci := 0 to n
      invariant -1 <= farthest < ci && (farthest >= 0 ==> c[farthest] >= 0)
      invariant farthestDist == if farthest < 0 then -1 else Distance(focus, c[farthest])
      invariant forall i :: 0 <= i < ci && c[i] >= 0 && i != farthest ==>
                  farthest >= 0 && Farther(focus, c[farthest], c[i])
    {
      if candidates[ci] < 0 {
        continue;
      }
      assert c[ci] == candidates[ci];
      var dist := Distance(focus, candidates[ci]);
      if dist > farthestDist || (dist == farthestDist && candidates[ci] > farthest) {
        farthestDist := dist;
        farthest := ci;
      }
    }
  }

  /** viewport_absorb_farthest */
  method AbsorbFarthest(widths: array<real>, bounds: seq<Bounds>, available: real, candidates: array<int>, n: nat,
                        focus: int, needed: real)
    returns (remaining: real)
    requires widths.Length == |bounds| && n <= candidates.Length && Ascending(candidates[..n])
    requires forall i :: 0 <= i < n ==> 0 <= candidates[i] < widths.Length
    modifies widths, candidates
    ensures var order := FarthestFirst(Elements(old(candidates[..n])), focus, Reach(focus, widths.Length));
      && Within(order, widths.Length)
      && (widths[..], remaining) == Absorb(old(widths[..]), bounds, available, order, needed)
  {
    hide Absorb, Clamp, FarthestFirst, IsFarthest, Ascending, Unused, Within;
    remaining := needed;
    ghost var w := widths[..];
    AllUnused(candidates[..n]);
    ghost var s := Unused(candidates[..n]);
    FirstWithin(s, focus, widths.Length);
    ghost var reach := Reach(focus, widths.Length);
    ghost var goal := Absorb(w, bounds, available, FarthestFirst(s, focus, reach), needed);
    var k := 0;
    while k < n && remaining != 0.0
      invariant k <= n && Ascending(candidates[..n]) && s == Unused(candidates[..n]) && |s| == n - k
      invariant (forall x :: x in s ==> 0 <= x < widths.Length) && Within(FarthestFirst(s, focus, reach), widths.Length)
      invariant Absorb(widths[..], bounds, available, FarthestFirst(s, focus, reach), remaining) == goal
    {
      var farthest := FindFarthest(candidates, n, focus);
      if farthest < 0 {
        break;
      }
      var idx := candidates[farthest];
      Marked(candidates[..n], farthest);
      FarthestIsFirst(s, focus, reach, idx);
      s := s - {idx};
      FirstWithin(s, focus, widths.Length);
      MarkUsed(candidates, n, farthest);
      remaining := AbsorbOne(widths, bounds, available, idx, remaining, FarthestFirst(s, focus, reach));
      k := k + 1;
    }
    if remaining != 0.0 {
      assert s == {};
      NoneLeft(focus, reach);
    }
    AbsorbDone(widths[..], bounds, available, FarthestFirst(s, focus, reach), remaining);
  }

  method MarkUsed(candidates: array<int>, n: nat, i: nat)
    requires i < n <= candidates.Length
    modifies candidates
    ensures candidates[..n] == old(candidates[..n])[i := -1]
  {
    candidates[i] := -1;
  }

  /** What one column absorbs. */
  method AbsorbOne(widths: array<real>, bounds: seq<Bounds>, available: real, k: nat, needed: real,
                   ghost rest: seq<int>)
    returns (remaining: real)
    requires widths.Length == |bounds| && k < widths.Length && Within(rest, widths.Length) && needed != 0.0
    modifies widths
    ensures Within([k] + rest, widths.Length)
    ensures Absorb(widths[..], bounds, available, rest, remaining) ==
      Absorb(old(widths[..]), bounds, available, [k] + rest, needed)
  {
    hide Clamp;
    var orig := widths[k];
    widths[k] := Clamp(bounds[k], orig - needed, available);
    remaining := needed - (orig - widths[k]);
    assert widths[..] == old(widths[..])[k := widths[k]];
    assert ([k] + rest)[1..] == rest;
  }

  lemma AbsorbDone(widths: seq<real>, bounds: seq<Bounds>, available: real, order: seq<int>, remaining: real)
    requires |widths| == |bounds| && Within(order, |widths|) && (order == [] || remaining == 0.0)
    ensures Absorb(widths, bounds, available, order, remaining) == (widths, remaining)
  {
  }

  /** No column of a row of n is farther than this. */
  function Reach(focus: int, n: nat): nat {
    Distance(focus, 0) + n
  }

  lemma FirstWithin(s: set<int>, focus: int, n: nat)
    requires forall x :: x in s ==> 0 <= x < n
    ensures var order := FarthestFirst(s, focus, Reach(focus, n));
      Within(order, n) && forall k :: k in order <==> k in s
  {
    hide FarthestFirst;
    var order := FarthestFirst(s, focus, Reach(focus, n));
    FarthestFirstHolds(s, focus, Reach(focus, n));
    assert forall j :: 0 <= j < |order| ==> order[j] in order;
  }

  // ----- the whole row

  ghost function Order(n: nat, col: nat, request: Request): (order: seq<int>)
    requires col < n
    ensures Within(order, n) && NoDuplicates(order) && col !in order
  {
    match request
    case ByEdge(side) => Asked(n, col, side)
    case ByKeys(focused) =>
      KeysOrder(n, col, focused);
      KeysAsked(n, col, focused)
  }

  ghost function KeysAsked(n: nat, col: nat, focused: int): seq<int> {
    var focus := FocusOf(col, focused); FarthestFirst(Elements(Candidates(n, col)), focus, Reach(focus, n))
  }

  function FocusOf(col: nat, focusedColumn: int): int {
    if focusedColumn >= 0 then focusedColumn else col
  }

  /** Keys ask every candidate, once. */
  lemma KeysOrder(n: nat, col: nat, focused: int)
    requires col < n
    ensures var order := KeysAsked(n, col, focused);
      Within(order, n) && NoDuplicates(order) && forall k :: k in order <==> k in Candidates(n, col) && k != col
  {
    hide Candidates, FarthestFirst;
    var s := Elements(Candidates(n, col));
    forall k | k in s ensures 0 <= k < n && k != col {
      WhichCandidates(n, col, k);
    }
    FarthestFirstIsSorted(s, FocusOf(col, focused), Reach(FocusOf(col, focused), n));
    FirstWithin(s, FocusOf(col, focused), n);
  }

  /** A growth takes up free space first, then that of the columns that are asked, and what these cannot give is taken
      back: the row ends at just as much as fits, unless it does not fit even with all of them at their floors. No other
      column changes. */
  lemma ResizeGrows(widths: seq<real>, bounds: seq<Bounds>, available: real, gap: int, col: nat, request: Request,
                    delta: real)
    requires InBounds(widths, bounds, available) && col < |widths|
    requires delta > 0.0 && widths[col] + delta <= Cap(bounds[col], available)
    ensures var order, taken := Order(|widths|, col, request), Taken(widths, gap);
      var least := taken - (widths[col] - bounds[col].lo) - RoomDown(widths, bounds, order);
      var r := Resized(widths, bounds, available, order, col, delta, taken);
      && Taken(r, gap) == FMin(taken + delta, FMax(available, least))
      && InBounds(r, bounds, available) && r[col] <= widths[col] + delta
      && (taken <= available ==> widths[col] <= r[col])
      && forall k :: 0 <= k < |widths| && k != col ==> if k in order then r[k] <= widths[k] else r[k] == widths[k]
  {
    hide Absorb, InBounds, Clamp, Sum, Order, FMin, FMax, RoomDown;
    var order, taken := Order(|widths|, col, request), Taken(widths, gap);
    StaysInBounds(widths, bounds, available, col, widths[col] + delta);
    GrownAbsorbed(widths, bounds, available, order, col, delta, taken + delta - available);
    var grown := widths[col := widths[col] + delta];
    var (after, left) := Absorb(grown, bounds, available, order, FMax(0.0, taken + delta - available));
    PulledBack(bounds[col], available, widths[col], delta, left);
    var w := Clamp(bounds[col], after[col] - left, available);
    SumUpdate(after, col, w);
    StaysInBounds(after, bounds, available, col, w);
    EdgeArithmetic(taken, delta, available, RoomDown(widths, bounds, order), bounds[col].lo, widths[col], left);
  }

  /** The part of those that are asked. */
  lemma GrownAbsorbed(widths: seq<real>, bounds: seq<Bounds>, available: real, order: seq<int>, col: nat, delta: real,
                      excess: real)
    requires InBounds(widths, bounds, available) && col < |widths|
    requires delta > 0.0 && widths[col] + delta <= Cap(bounds[col], available)
    requires Within(order, |widths|) && NoDuplicates(order) && col !in order
    ensures var needed := FMax(0.0, excess);
      var (after, left) := Absorb(widths[col := widths[col] + delta], bounds, available, order, needed);
      && left == FMax(0.0, needed - RoomDown(widths, bounds, order)) && left >= 0.0
      && RoomDown(widths, bounds, order) >= 0.0 && bounds[col].lo <= widths[col]
      && Sum(after) == Sum(widths) + delta - needed + left
      && InBounds(after, bounds, available) && after[col] == widths[col] + delta
      && forall k :: 0 <= k < |widths| && k != col ==>
           if k in order then after[k] <= widths[k] else after[k] == widths[k]
  {
    hide Absorb, InBounds, Clamp, Sum, RoomDown;
    var needed := FMax(0.0, excess);
    var grown := widths[col := widths[col] + delta];
    SumUpdate(widths, col, widths[col] + delta);
    StaysInBounds(widths, bounds, available, col, widths[col] + delta);
    RoomIsPositive(widths, bounds, available, order);
    RoomElsewhere(widths, bounds, available, order, col, widths[col] + delta);
    AbsorbTakes(grown, bounds, available, order, needed);
    AbsorbConserves(grown, bounds, available, order, needed);
    assert FMax(0.0, needed - RoomDown(grown, bounds, order)) >= 0.0;
  }

  lemma EdgeArithmetic(taken: real, delta: real, available: real, room: real, lo: real, w: real, left: real)
    requires delta > 0.0 && lo <= w && room >= 0.0
    requires left == FMax(0.0, FMax(0.0, taken + delta - available) - room)
    ensures var needed := FMax(0.0, taken + delta - available);
      var goal := FMin(taken + delta, FMax(available, taken - (w - lo) - room));
      && (left == 0.0 ==> taken + delta - needed == goal)
      && (left > 0.0 ==> taken + delta - needed + left - (w + delta) + FMax(lo, w + delta - left) == goal)
      && (taken <= available ==> left <= delta)
  {
  }

  /** A shrink gives those that are asked all that their caps let them take; the rest stays free. */
  lemma ResizeShrinks(widths: seq<real>, bounds: seq<Bounds>, available: real, gap: int, col: nat, request: Request,
                      delta: real)
    requires InBounds(widths, bounds, available) && col < |widths|
    requires delta < 0.0 && widths[col] + delta >= bounds[col].lo
    ensures var order, taken := Order(|widths|, col, request), Taken(widths, gap);
      var r := Resized(widths, bounds, available, order, col, delta, taken);
      && Taken(r, gap) == FMin(taken, taken + delta + RoomUp(widths, bounds, available, order))
      && InBounds(r, bounds, available) && r[col] == widths[col] + delta
      && forall k :: 0 <= k < |widths| && k != col ==> if k in order then r[k] >= widths[k] else r[k] == widths[k]
  {
    hide Absorb, InBounds, Clamp, Sum, Order, RoomUp;
    var order := Order(|widths|, col, request);
    var grown := widths[col := widths[col] + delta];
    SumUpdate(widths, col, widths[col] + delta);
    StaysInBounds(widths, bounds, available, col, widths[col] + delta);
    RoomElsewhere(widths, bounds, available, order, col, widths[col] + delta);
    AbsorbGives(grown, bounds, available, order, delta);
    AbsorbConserves(grown, bounds, available, order, delta);
  }

  /** With keys, and at most as many columns as there are candidates and one more, the floors of all columns decide. */
  lemma KeysFill(widths: seq<real>, bounds: seq<Bounds>, available: real, gap: int, col: nat, focused: int, delta: real)
    requires InBounds(widths, bounds, available) && col < |widths| <= 33
    requires delta > 0.0 && widths[col] + delta <= Cap(bounds[col], available)
    ensures var order, taken := Order(|widths|, col, ByKeys(focused)), Taken(widths, gap);
      Taken(Resized(widths, bounds, available, order, col, delta, taken), gap) ==
      FMin(taken + delta, FMax(available, Taken(Floors(bounds), gap)))
  {
    hide Absorb, InBounds, Clamp, Sum, Floors, FMin, FMax, Resized, Order, RoomDown, RoomUp, Taken;
    StaysInBounds(widths, bounds, available, col, widths[col]);
    ResizeGrows(widths, bounds, available, gap, col, ByKeys(focused), delta);
    KeysAskAll(|widths|, col, focused);
    RoomOfOthers(widths, bounds, available, Order(|widths|, col, ByKeys(focused)), col);
    TakenApart(widths, Floors(bounds), gap);
  }

  lemma KeysAskAll(n: nat, col: nat, focused: int)
    requires col < n <= MAX_CANDIDATES + 1
    ensures forall k :: k in Order(n, col, ByKeys(focused)) <==> 0 <= k < n && k != col
  {
    hide Candidates;
    KeysOrder(n, col, focused);
    forall k ensures k in Order(n, col, ByKeys(focused)) <==> 0 <= k < n && k != col {
      WhichCandidates(n, col, k);
    }
  }

  lemma TakenApart(a: seq<real>, b: seq<real>, gap: int)
    requires |a| == |b|
    ensures Taken(a, gap) - Taken(b, gap) == Sum(a) - Sum(b)
  {
  }

  /** Columns behind the first candidates are never asked, and keep their width. */
  lemma LateColumnsKeepTheirWidth(widths: seq<real>, bounds: seq<Bounds>, available: real, gap: int, col: nat,
                                  request: Request, delta: real, k: nat)
    requires |widths| == |bounds| && col < |widths|
    requires k < |widths| && k != col && (if k < col then k else k - 1) >= 32
    ensures var order, taken := Order(|widths|, col, request), Taken(widths, gap);
      Resized(widths, bounds, available, order, col, delta, taken)[k] == widths[k]
  {
    hide Absorb, Taken, Candidates, FarthestFirst, Clamp;
    var order, taken := Order(|widths|, col, request), Taken(widths, gap);
    WhichCandidates(|widths|, col, k);
    if request.ByKeys? {
      KeysOrder(|widths|, col, request.focusedColumn);
    }
    assert k !in order;
    AbsorbConserves(widths[col := widths[col] + delta], bounds, available, order,
      if delta < 0.0 then delta else FMax(0.0, taken + delta - available));
  }

  /** And a column gives way only when every candidate farther from the focus is at its floor. */
  lemma FartherFirst(widths: seq<real>, bounds: seq<Bounds>, available: real, gap: int, col: nat, focused: int,
                     delta: real, near: nat, far: nat)
    requires InBounds(widths, bounds, available) && col < |widths|
    requires delta > 0.0 && widths[col] + delta <= Cap(bounds[col], available)
    requires near < |widths| && near != col
    requires far < |widths| && far != col && (if far < col then far else far - 1) < 32
    requires var focus := if focused >= 0 then focused else col;
      var a := if far < focus then focus - far else far - focus;
      var b := if near < focus then focus - near else near - focus;
      a > b || (a == b && far > near)
    ensures var r := Resized(widths, bounds, available, Order(|widths|, col, ByKeys(focused)), col, delta,
        Taken(widths, gap));
      r[near] < widths[near] ==> r[far] == bounds[far].lo
  {
    hide Absorb, InBounds, Clamp, FMax, Candidates, FarthestFirst, Taken;
    assert Farther(FocusOf(col, focused), far, near);
    var s, focus := Elements(Candidates(|widths|, col)), FocusOf(col, focused);
    WhichCandidates(|widths|, col, far);
    KeysOrder(|widths|, col, focused);
    var order := FarthestFirst(s, focus, Reach(focus, |widths|));
    FarthestFirstIsSorted(s, focus, Reach(focus, |widths|));
    FirstWithin(s, focus, |widths|);
    Positions(order, focus, far, near);
    InOrder(widths, bounds, available, order, col, delta, Taken(widths, gap), far, near);
  }

  lemma Positions(order: seq<int>, focus: int, far: int, near: int)
    requires far in order && Farther(focus, far, near)
    requires Sorted(order, focus)
    ensures near in order ==> exists i, j :: 0 <= i < j < |order| && order[i] == far && order[j] == near
  {
    if near in order {
      var i :| 0 <= i < |order| && order[i] == far;
      var j :| 0 <= j < |order| && order[j] == near;
      assert i < j;
    }
  }

  lemma InOrder(widths: seq<real>, bounds: seq<Bounds>, available: real, order: seq<int>, col: nat, delta: real,
                taken: real, far: nat, near: nat)
    requires InBounds(widths, bounds, available) && col < |widths| && Within(order, |widths|) && NoDuplicates(order)
    requires delta > 0.0 && widths[col] + delta <= Cap(bounds[col], available)
    requires near < |widths| && near != col && far < |widths| && far != col
    requires near in order ==> exists i, j :: 0 <= i < j < |order| && order[i] == far && order[j] == near
    ensures |widths| == |bounds|
    ensures var r := Resized(widths, bounds, available, order, col, delta, taken);
      r[near] < widths[near] ==> r[far] == bounds[far].lo
  {
    hide Absorb, InBounds, Clamp;
    StaysInBounds(widths, bounds, available, col, widths[col] + delta);
    var grown, needed := widths[col := widths[col] + delta], FMax(0.0, taken + delta - available);
    var (after, left) := Absorb(grown, bounds, available, order, needed);
    AbsorbConserves(grown, bounds, available, order, needed);
    if after[near] < widths[near] {
      var i, j :| 0 <= i < j < |order| && order[i] == far && order[j] == near;
      AbsorbTakesInOrder(grown, bounds, available, order, needed, i, j);
    }
  }

  // ----- over any run of resizes

  datatype RowResize = RowResize(col: int, request: Request, deltaPx: real)

  /** The row after one call; `col` is -1 for a column that is not in it. */
  ghost function RowAfter(widths: seq<real>, bounds: seq<Bounds>, available: real, gap: int, r: RowResize)
    : (after: seq<real>)
    requires |widths| == |bounds| && r.col < |widths|
    ensures |after| == |widths|
  {
    if r.col < 0 then widths else
      var delta := Clamp(bounds[r.col], widths[r.col] + r.deltaPx, available) - widths[r.col];
      if delta == 0.0 then widths
      else
        var order := Order(|widths|, r.col, r.request);
        Resized(widths, bounds, available, order, r.col, delta, Taken(widths, gap))
  }

  /** One resize leaves every column between its bounds, and the row no longer than it was or than fits. */
  lemma RowKeeps(widths: seq<real>, bounds: seq<Bounds>, available: real, gap: int, r: RowResize)
    requires |widths| == |bounds| && InBounds(widths, bounds, available) && r.col < |widths|
    ensures var after := RowAfter(widths, bounds, available, gap, r);
      InBounds(after, bounds, available) && Taken(after, gap) <= FMax(Taken(widths, gap), available)
  {
    hide Absorb, InBounds, Clamp, Order, Taken, Resized, RoomDown, RoomUp, FMin, FMax, Cap;
    MaxIsEither(Taken(widths, gap), available);
    if r.col >= 0 {
      var w, b := widths[r.col], bounds[r.col];
      var delta := Clamp(b, w + r.deltaPx, available) - w;
      var order := Order(|widths|, r.col, r.request);
      ClampWithin(b, w + r.deltaPx, available);
      StaysInBounds(widths, bounds, available, r.col, w);
      RoomIsPositive(widths, bounds, available, order);
      if delta > 0.0 {
        ResizeGrows(widths, bounds, available, gap, r.col, r.request, delta);
        var least := Taken(widths, gap) - (w - b.lo) - RoomDown(widths, bounds, order);
        GrownTotal(Taken(widths, gap), delta, available, least);
      } else if delta < 0.0 {
        ResizeShrinks(widths, bounds, available, gap, r.col, r.request, delta);
        MinIsEither(Taken(widths, gap), Taken(widths, gap) + delta + RoomUp(widths, bounds, available, order));
      }
    }
  }

  ghost function RowRun(widths: seq<real>, bounds: seq<Bounds>, available: real, gap: int, resizes: seq<RowResize>)
    : (after: seq<real>)
    requires |widths| == |bounds| && forall i :: 0 <= i < |resizes| ==> resizes[i].col < |widths|
    ensures |after| == |widths|
  {
    if resizes == [] then widths else
      var n := |resizes| - 1;
      RowAfter(RowRun(widths, bounds, available, gap, resizes[..n]), bounds, available, gap, resizes[n])
  }

  /** Over every run of resizes, by edges and keys in any mixture: each column stays between its bounds, and a row that
      fits goes on fitting. */
  lemma {:induction false} RowRunFits(widths: seq<real>, bounds: seq<Bounds>, available: real, gap: int,
                                      resizes: seq<RowResize>)
    requires |widths| == |bounds| && InBounds(widths, bounds, available)
    requires forall i :: 0 <= i < |resizes| ==> resizes[i].col < |widths|
    ensures var after := RowRun(widths, bounds, available, gap, resizes);
      InBounds(after, bounds, available) && Taken(after, gap) <= FMax(Taken(widths, gap), available)
  {
    hide InBounds, Taken, RowAfter;
    if resizes != [] {
      var n := |resizes| - 1;
      RowRunFits(widths, bounds, available, gap, resizes[..n]);
      RowKeeps(RowRun(widths, bounds, available, gap, resizes[..n]), bounds, available, gap, resizes[n]);
    }
  }

  /** In terms of widths and gaps, for both kinds of request: what fits goes on fitting. An edge drag changes only its
      column and the neighbour on that side. With keys and up to 33 columns a growth ends at exactly what it asks for,
      or the available width, or the floors of all. */
  lemma RowTotal(before: seq<real>, bounds: seq<Bounds>, available: real, gap: int, r: RowResize)
    requires |before| == |bounds| && InBounds(before, bounds, available) && 0 <= r.col < |before|
    ensures var after, gaps := RowAfter(before, bounds, available, gap, r), (gap * (|before| - 1)) as real;
      && (Sum(before) + gaps <= available ==> Sum(after) + gaps <= available)
      && (r.request == ByEdge(LeftEdge) ==>
            forall k :: 0 <= k < |before| && k != r.col && k != r.col - 1 ==> after[k] == before[k])
      && (r.request == ByEdge(RightEdge) ==>
            forall k :: 0 <= k < |before| && k != r.col && k != r.col + 1 ==> after[k] == before[k])
      && var wanted := FMin(before[r.col] + r.deltaPx, Cap(bounds[r.col], available));
         (r.request.ByKeys? && |before| <= 33 && wanted > before[r.col] ==>
            Sum(after) + gaps ==
            FMin(Sum(before) + (wanted - before[r.col]) + gaps, FMax(available, Sum(Floors(bounds)) + gaps)))
  {
    hide Absorb, InBounds, Clamp, Order, Taken, Resized, Floors, Sum, FMin, FMax, Cap;
    var after, col := RowAfter(before, bounds, available, gap, r), r.col;
    TakenWithGaps(before, gap);
    TakenWithGaps(after, gap);
    TakenWithGaps(Floors(bounds), gap);
    RowKeeps(before, bounds, available, gap, r);
    MaxOfLess(Taken(before, gap), available);
    OthersKeep(before, bounds, available, gap, r);
    StaysInBounds(before, bounds, available, col, before[col]);
    ClampIsWanted(bounds[col], before[col], before[col] + r.deltaPx, available);
    ClampWithin(bounds[col], before[col] + r.deltaPx, available);
    var wanted := FMin(before[col] + r.deltaPx, Cap(bounds[col], available));
    if r.request.ByKeys? && |before| <= 33 && wanted > before[col] {
      KeysFill(before, bounds, available, gap, col, r.request.focusedColumn, wanted - before[col]);
    }
  }

  /** And an edge drag takes what does not fit from that neighbour, if it is there and among the first 32 others, down
      to its floor; with none, or when it is at its floor, the column itself gives back what does not fit. */
  lemma EdgeDragTotal(before: seq<real>, bounds: seq<Bounds>, available: real, gap: int, col: nat, side: Side,
                      deltaPx: real)
    requires |before| == |bounds| && InBounds(before, bounds, available) && col < |before|
    requires var cap := FMax(bounds[col].lo, FMin(available, bounds[col].hi));
      FMin(before[col] + deltaPx, cap) > before[col]
    ensures var after, gaps := RowAfter(before, bounds, available, gap, RowResize(col, ByEdge(side), deltaPx)),
        (gap * (|before| - 1)) as real;
      var cap := FMax(bounds[col].lo, FMin(available, bounds[col].hi));
      var wanted := FMin(before[col] + deltaPx, cap);
      var nb := if side == LeftEdge then col - 1 else col + 1;
      var asked := 0 <= nb < |before| && (if nb < col then nb else nb - 1) < 32;
      var room := if asked then before[nb] - bounds[nb].lo else 0.0;
      Sum(after) + gaps ==
      FMin(Sum(before) + (wanted - before[col]) + gaps,
           FMax(available, Sum(before) + gaps - (before[col] - bounds[col].lo) - room))
  {
    hide Absorb, InBounds, Clamp, Taken, Resized, Sum, FMin, FMax, RoomDown;
    var request := ByEdge(side);
    TakenWithGaps(before, gap);
    TakenWithGaps(RowAfter(before, bounds, available, gap, RowResize(col, request, deltaPx)), gap);
    StaysInBounds(before, bounds, available, col, before[col]);
    ClampIsWanted(bounds[col], before[col], before[col] + deltaPx, available);
    ClampWithin(bounds[col], before[col] + deltaPx, available);
    var wanted := FMin(before[col] + deltaPx, Cap(bounds[col], available));
    ResizeGrows(before, bounds, available, gap, col, request, wanted - before[col]);
    RoomOfNeighbour(before, bounds, col, side);
  }

  lemma RoomOfNeighbour(before: seq<real>, bounds: seq<Bounds>, col: nat, side: Side)
    requires |before| == |bounds| && col < |before|
    ensures var nb := if side == LeftEdge then col - 1 else col + 1;
      RoomDown(before, bounds, Order(|before|, col, ByEdge(side))) ==
      if 0 <= nb < |before| && (if nb < col then nb else nb - 1) < 32 then before[nb] - bounds[nb].lo else 0.0
  {
    hide Candidates;
    var nb := if side == LeftEdge then col - 1 else col + 1;
    WhichCandidates(|before|, col, nb);
    assert [nb][1..] == [];
    assert RoomDown(before, bounds, []) == 0.0;
  }

  lemma OthersKeep(before: seq<real>, bounds: seq<Bounds>, available: real, gap: int, r: RowResize)
    requires |before| == |bounds| && InBounds(before, bounds, available) && 0 <= r.col < |before|
    ensures var after := RowAfter(before, bounds, available, gap, r);
      && (r.request == ByEdge(LeftEdge) ==>
            forall k :: 0 <= k < |before| && k != r.col && k != r.col - 1 ==> after[k] == before[k])
      && (r.request == ByEdge(RightEdge) ==>
            forall k :: 0 <= k < |before| && k != r.col && k != r.col + 1 ==> after[k] == before[k])
  {
    hide Absorb, InBounds, Clamp, Taken, Resized, FMin, FMax, Cap;
    var w, b := before[r.col], bounds[r.col];
    var delta := Clamp(b, w + r.deltaPx, available) - w;
    ClampWithin(b, w + r.deltaPx, available);
    StaysInBounds(before, bounds, available, r.col, w);
    if delta > 0.0 {
      ResizeGrows(before, bounds, available, gap, r.col, r.request, delta);
    } else if delta < 0.0 {
      ResizeShrinks(before, bounds, available, gap, r.col, r.request, delta);
    }
  }

  /** tiled_resize_horizontal_px; `col` is -1 if the column is not in the tiling, and then nothing changes. */
  method TiledResizeHorizontal(widths: array<real>, bounds: seq<Bounds>, available: real, gap: int, col: int,
                               request: Request, deltaPx: real)
    requires widths.Length == |bounds| && col < widths.Length
    modifies widths
    ensures widths[..] == RowAfter(old(widths[..]), bounds, available, gap, RowResize(col, request, deltaPx))
    ensures var before, gaps := old(widths[..]), (gap * (widths.Length - 1)) as real;
      0 <= col && InBounds(before, bounds, available) ==>
        && InBounds(widths[..], bounds, available)
        && (Sum(before) + gaps <= available ==> Sum(widths[..]) + gaps <= available)
  {
    hide Clamp, Sum, RowAfter, InBounds;
    ghost var before := widths[..];
    ResizeInRow(widths, bounds, available, gap, col, request, deltaPx);
    if 0 <= col && InBounds(before, bounds, available) {
      RowKeeps(before, bounds, available, gap, RowResize(col, request, deltaPx));
      RowTotal(before, bounds, available, gap, RowResize(col, request, deltaPx));
    }
  }

  /** All of it, with its early returns. */
  method ResizeInRow(widths: array<real>, bounds: seq<Bounds>, available: real, gap: int, col: int, request: Request,
                     deltaPx: real)
    requires widths.Length == |bounds| && col < widths.Length
    modifies widths
    ensures widths[..] == RowAfter(old(widths[..]), bounds, available, gap, RowResize(col, request, deltaPx))
  {
    hide Clamp, Candidates, Sum, Taken, Order, Absorb, FMax;
    ghost var before := widths[..];
    if col < 0 {
      return;
    }
    var newW := Clamp(bounds[col], widths[col] + deltaPx, available);
    var realDelta := newW - widths[col];
    if realDelta == 0.0 {
      return;
    }
    var candidates, n, occupied := ViewportScanVisible(widths, gap, col);
    widths[col] := newW;
    var remaining := if realDelta < 0.0 then realDelta else FMax(0.0, occupied + realDelta - available);
    assert widths[..] == before[col := before[col] + realDelta];
    remaining := Share(widths, bounds, available, candidates, n, col, request, remaining);
    if remaining > 0.0 {
      ghost var after := widths[..];
      widths[col] := Clamp(bounds[col], widths[col] - remaining, available);
      assert widths[..] == after[col := widths[col]];
    }
  }

  /** Which of the candidates are asked. */
  method Share(widths: array<real>, bounds: seq<Bounds>, available: real, candidates: array<int>, n: nat, col: nat,
               request: Request, needed: real)
    returns (remaining: real)
    requires widths.Length == |bounds| && col < widths.Length
    requires n <= candidates.Length && candidates[..n] == Candidates(widths.Length, col)
    modifies widths, candidates
    ensures (widths[..], remaining) ==
      Absorb(old(widths[..]), bounds, available, Order(widths.Length, col, request), needed)
  {
    hide Clamp, Candidates, Absorb, FarthestFirst, Asked, Elements;
    if request.ByEdge? {
      remaining := AskNeighbour(widths, bounds, available, candidates[..n], col, request.side, needed);
    } else {
      CandidatesAscend(widths.Length, col);
      var focus := if request.focusedColumn >= 0 then request.focusedColumn else col;
      assert forall i :: 0 <= i < n ==> candidates[i] == candidates[..n][i];
      remaining := AbsorbFarthest(widths, bounds, available, candidates, n, focus, needed);
    }
  }

  lemma CandidatesAscend(n: nat, col: nat)
    requires col < n
    ensures var c := Candidates(n, col); Ascending(c) && forall i :: 0 <= i < |c| ==> 0 <= c[i] < n
  {
  }

  /** The search for the neighbour among the candidates, and what it takes. */
  method AskNeighbour(widths: array<real>, bounds: seq<Bounds>, available: real, candidates: seq<int>, col: nat,
                      side: Side, needed: real)
    returns (remaining: real)
    requires widths.Length == |bounds| && col < widths.Length && candidates == Candidates(widths.Length, col)
    modifies widths
    ensures (widths[..], remaining) ==
      Absorb(old(widths[..]), bounds, available, Asked(widths.Length, col, side), needed)
  {
    hide Clamp, Candidates;
    remaining := needed;
    var sib := Sibling(col, side);
    WhichCandidates(widths.Length, col, sib);
    if remaining != 0.0 {
      var ci := 0;
      while ci < |candidates| && candidates[ci] != sib
        invariant ci <= |candidates| && sib !in candidates[..ci]
      {
        ci := ci + 1;
      }
      if ci < |candidates| {
        assert [sib] + [] == [sib];
        remaining := AbsorbOne(widths, bounds, available, sib, remaining, []);
      } else {
        assert candidates[..ci] == candidates;
      }
    }
  }
}
