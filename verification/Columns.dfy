/** Splitting, joining and moving the columns of a workspace (sway/commands/release.c, sway/commands/take.c,
    sway/commands/move.c 313-360). */
module Columns {
  import opened Common

  type Window = nat

  /** What ws->tiling holds: a column with its windows, or a window that is in no column. */
  datatype Node = Column(children: seq<Window>) | View(window: Window)

  function Windows(n: Node): seq<Window> {
    match n case Column(children) => children case View(window) => [window]
  }

  /** All windows, left to right and top to bottom. */
  function Flatten(tiling: seq<Node>): seq<Window> {
    if tiling == [] then [] else Windows(tiling[0]) + Flatten(tiling[1..])
  }

  lemma {:induction false} FlattenConcat(a: seq<Node>, b: seq<Node>)
    ensures Flatten(a + b) == Flatten(a) + Flatten(b)
  {
    hide Windows;
    if a == [] {
      assert a + b == b;
    } else {
      var ab := a + b;
      FlattenConcat(a[1..], b);
      assert ab[1..] == a[1..] + b && ab[0] == a[0];
      assert Flatten(ab) == Windows(a[0]) + (Flatten(a[1..]) + Flatten(b));
    }
  }

  lemma FlattenAround(a: seq<Node>, b: seq<Node>, c: seq<Node>)
    ensures Flatten(a + b + c) == Flatten(a) + Flatten(b) + Flatten(c)
  {
    FlattenConcat(a + b, c);
    FlattenConcat(a, b);
  }

  lemma FlattenOne(n: Node)
    ensures Flatten([n]) == Windows(n)
  {
    assert [n][1..] == [];
  }

  lemma FlattenTwo(a: Node, b: Node)
    ensures Flatten([a, b]) == Windows(a) + Windows(b)
  {
    FlattenConcat([a], [b]);
    FlattenOne(a);
    FlattenOne(b);
    assert [a] + [b] == [a, b];
  }

  lemma Around<T>(s: seq<T>, i: nat, j: nat)
    requires i <= j <= |s|
    ensures s == s[..i] + s[i..j] + s[j..]
  {
  }

  function Find(s: seq<Window>, w: Window): (i: nat)
    ensures i <= |s| && (i < |s| ==> s[i] == w)
    ensures forall j :: 0 <= j < i ==> s[j] != w
  {
    if s == [] then 0 else if s[0] == w then 0 else 1 + Find(s[1..], w)
  }

  // ----- release and take

  predicate Splits(tiling: seq<Node>, c: nat, focus: Window) {
    && c < |tiling| && tiling[c].Column? && |tiling[c].children| >= 2
    && Find(tiling[c].children, focus) < |tiling[c].children| - 1
  }

  /** The column ends at the focused window; the windows below it form a new column to its right. */
  function Released(tiling: seq<Node>, c: nat, focus: Window): seq<Node> {
    if !Splits(tiling, c, focus) then tiling else
      var children := tiling[c].children; var start := Find(children, focus) + 1;
      tiling[..c] + [Column(children[..start]), Column(children[start..])] + tiling[c + 1..]
  }

  predicate Joins(tiling: seq<Node>, c: nat) {
    c + 1 < |tiling| && tiling[c].Column?
  }

  /** The column takes in everything of its right neighbour. */
  function Taken(tiling: seq<Node>, c: nat): seq<Node> {
    if !Joins(tiling, c) then tiling
    else tiling[..c] + [Column(tiling[c].children + Windows(tiling[c + 1]))] + tiling[c + 2..]
  }

  lemma ReleaseKeepsOrder(tiling: seq<Node>, c: nat, focus: Window)
    ensures Flatten(Released(tiling, c, focus)) == Flatten(tiling)
  {
    hide Flatten;
    if Splits(tiling, c, focus) {
      var children, start := tiling[c].children, Find(tiling[c].children, focus) + 1;
      FlattenAround(tiling[..c], [Column(children[..start]), Column(children[start..])], tiling[c + 1..]);
      FlattenTwo(Column(children[..start]), Column(children[start..]));
      Around(tiling, c, c + 1);
      assert tiling[c..c + 1] == [tiling[c]];
      FlattenAround(tiling[..c], [tiling[c]], tiling[c + 1..]);
      FlattenOne(tiling[c]);
      assert children == children[..start] + children[start..];
    }
  }

  lemma TakeKeepsOrder(tiling: seq<Node>, c: nat)
    ensures Flatten(Taken(tiling, c)) == Flatten(tiling)
  {
    hide Flatten, Windows;
    if Joins(tiling, c) {
      var joined := Column(tiling[c].children + Windows(tiling[c + 1]));
      FlattenAround(tiling[..c], [joined], tiling[c + 2..]);
      FlattenOne(joined);
      Around(tiling, c, c + 2);
      assert tiling[c..c + 2] == [tiling[c], tiling[c + 1]];
      FlattenAround(tiling[..c], [tiling[c], tiling[c + 1]], tiling[c + 2..]);
      FlattenTwo(tiling[c], tiling[c + 1]);
      ColumnWindows(joined.children);
      ColumnWindows(tiling[c].children);
    }
  }

  lemma ColumnWindows(children: seq<Window>)
    ensures Windows(Column(children)) == children
  {
  }

  /** Taking back what was just released restores the workspace. */
  lemma TakeUndoesRelease(tiling: seq<Node>, c: nat, focus: Window)
    requires Splits(tiling, c, focus)
    ensures Taken(Released(tiling, c, focus), c) == tiling
  {
    var r, children := Released(tiling, c, focus), tiling[c].children;
    var start := Find(children, focus) + 1;
    assert r[..c] == tiling[..c] && r[c + 2..] == tiling[c + 1..];
    assert children[..start] + children[start..] == children;
    assert tiling == tiling[..c] + [tiling[c]] + tiling[c + 1..];
  }

  lemma FindLastOf(a: seq<Window>, b: seq<Window>)
    requires a != [] && forall j :: 0 <= j < |a| - 1 ==> a[j] != a[|a| - 1]
    ensures Find(a + b, a[|a| - 1]) == |a| - 1
  {
    assert forall j :: 0 <= j < |a| ==> (a + b)[j] == a[j];
  }

  /** Releasing after the window that was last in the column restores what a take has joined, if and only if the
      neighbour was a column that had windows. */
  lemma ReleaseUndoesTake(tiling: seq<Node>, c: nat)
    requires Joins(tiling, c) && tiling[c].children != []
    requires var s := tiling[c].children; forall j :: 0 <= j < |s| - 1 ==> s[j] != s[|s| - 1]
    ensures var s := tiling[c].children;
      Released(Taken(tiling, c), c, s[|s| - 1]) == tiling <==> tiling[c + 1].Column? && tiling[c + 1].children != []
  {
    var s, right := tiling[c].children, Windows(tiling[c + 1]);
    var t := Taken(tiling, c);
    FindLastOf(s, right);
    assert t[c] == Column(s + right) && t[..c] == tiling[..c] && t[c + 1..] == tiling[c + 2..];
    assert (s + right)[..|s|] == s && (s + right)[|s|..] == right;
    assert tiling == tiling[..c] + [tiling[c], tiling[c + 1]] + tiling[c + 2..];
    if right == [] {
      assert |Released(t, c, s[|s| - 1])| == |tiling| - 1;
    } else {
      assert Released(t, c, s[|s| - 1]) == tiling[..c] + [Column(s), Column(right)] + tiling[c + 2..];
      assert Released(t, c, s[|s| - 1])[c + 1] == Column(right);
    }
  }

  // ----- moves

  datatype Direction = Up | Down | Left | Right

  function Offset(d: Direction): int {
    if d == Left || d == Up then -1 else 1
  }

  function Swapped<T>(s: seq<T>, i: int, j: int): (r: seq<T>)
    requires 0 <= i < |s| && 0 <= j < |s|
    ensures |r| == |s| && r[i] == s[j] && r[j] == s[i]
    ensures forall k :: 0 <= k < |s| && k != i && k != j ==> r[k] == s[k]
  {
    s[i := s[j]][j := s[i]]
  }

  predicate Moves(tiling: seq<Node>, c: nat, w: nat, d: Direction) {
    c < |tiling| &&
    if d == Left || d == Right then 0 <= c + Offset(d) < |tiling|
    else tiling[c].Column? && w < |tiling[c].children| && 0 <= w + Offset(d) < |tiling[c].children|
  }

  /** Window w of node c moves: within its column, or with its whole column. */
  function Moved(tiling: seq<Node>, c: nat, w: nat, d: Direction): seq<Node> {
    if !Moves(tiling, c, w, d) then tiling
    else if d == Left || d == Right then Swapped(tiling, c, c + Offset(d))
    else tiling[c := Column(Swapped(tiling[c].children, w, w + Offset(d)))]
  }

  /** Sideways, two neighbouring columns change places as wholes; up and down, two neighbouring windows do. All
      other windows keep their places in the order. */
  lemma MoveSwapsNeighbours(tiling: seq<Node>, c: nat, w: nat, d: Direction)
    returns (a: seq<Window>, x: seq<Window>, y: seq<Window>, b: seq<Window>)
    requires Moves(tiling, c, w, d)
    ensures Flatten(tiling) == a + x + y + b && Flatten(Moved(tiling, c, w, d)) == a + y + x + b
    ensures var sideways := d == Left || d == Right;
      var first := if d == Left then c - 1 else if d == Right then c else if d == Up then w - 1 else w;
      if sideways then x == Windows(tiling[first]) && y == Windows(tiling[first + 1])
      else x == [tiling[c].children[first]] && y == [tiling[c].children[first + 1]]
  {
    if d == Left || d == Right {
      var first := if d == Left then c - 1 else c;
      a, x, y, b := SwapColumns(tiling, first);
      assert Swapped(tiling, first, first + 1) == Moved(tiling, c, w, d);
    } else {
      var first := if d == Up then w - 1 else w;
      a, x, y, b := SwapWindows(tiling, c, first);
      assert Swapped(tiling[c].children, first, first + 1) == Swapped(tiling[c].children, w, w + Offset(d));
    }
  }

  lemma SwapColumns(tiling: seq<Node>, first: nat)
    returns (a: seq<Window>, x: seq<Window>, y: seq<Window>, b: seq<Window>)
    requires first + 1 < |tiling|
    ensures x == Windows(tiling[first]) && y == Windows(tiling[first + 1])
    ensures Flatten(tiling) == a + x + y + b && Flatten(Swapped(tiling, first, first + 1)) == a + y + x + b
  {
    hide Flatten, Windows;
    var before, after, l, r := tiling[..first], tiling[first + 2..], tiling[first], tiling[first + 1];
    assert tiling == before + [l, r] + after;
    assert Swapped(tiling, first, first + 1) == before + [r, l] + after;
    FlattenAround(before, [l, r], after);
    FlattenAround(before, [r, l], after);
    FlattenTwo(l, r);
    FlattenTwo(r, l);
    a, x, y, b := Flatten(before), Windows(l), Windows(r), Flatten(after);
    assert a + (x + y) + b == a + x + y + b && a + (y + x) + b == a + y + x + b;
  }

  lemma SwapWindows(tiling: seq<Node>, c: nat, first: nat)
    returns (a: seq<Window>, x: seq<Window>, y: seq<Window>, b: seq<Window>)
    requires c < |tiling| && tiling[c].Column? && first + 1 < |tiling[c].children|
    ensures x == [tiling[c].children[first]] && y == [tiling[c].children[first + 1]]
    ensures Flatten(tiling) == a + x + y + b
    ensures Flatten(tiling[c := Column(Swapped(tiling[c].children, first, first + 1))]) == a + y + x + b
  {
    hide Flatten;
    var before, after, s := tiling[..c], tiling[c + 1..], tiling[c].children;
    var t := Swapped(s, first, first + 1);
    assert tiling == before + [Column(s)] + after;
    assert tiling[c := Column(t)] == before + [Column(t)] + after;
    FlattenAround(before, [Column(s)], after);
    FlattenAround(before, [Column(t)], after);
    FlattenOne(Column(s));
    FlattenOne(Column(t));
    var p, q := s[..first], s[first + 2..];
    x, y := [s[first]], [s[first + 1]];
    assert s == p + x + y + q && t == p + y + x + q;
    a, b := Flatten(before) + p, q + Flatten(after);
    Regroup(Flatten(before), p, x, y, q, Flatten(after));
    Regroup(Flatten(before), p, y, x, q, Flatten(after));
  }

  lemma Regroup(f: seq<Window>, p: seq<Window>, x: seq<Window>, y: seq<Window>, q: seq<Window>, g: seq<Window>)
    ensures f + (p + x + y + q) + g == (f + p) + x + y + (q + g)
  {
  }

  function Back(d: Direction): Direction {
    match d case Up => Down case Down => Up case Left => Right case Right => Left
  }

  lemma MoveBack(tiling: seq<Node>, c: nat, w: nat, d: Direction)
    requires Moves(tiling, c, w, d)
    ensures var sideways := d == Left || d == Right;
      var to, at := if sideways then c + Offset(d) else c, if sideways then w else w + Offset(d);
      Moved(Moved(tiling, c, w, d), to, at, Back(d)) == tiling
  {
    var m := Moved(tiling, c, w, d);
    if d == Left || d == Right {
      assert Swapped(m, c + Offset(d), c) == tiling;
    } else {
      assert Swapped(m[c].children, w + Offset(d), w) == tiling[c].children;
    }
  }

  // ----- runs

  datatype Command = Release(c: nat, focus: Window) | Take(c: nat) | Move(c: nat, w: nat, d: Direction)

  function After(tiling: seq<Node>, command: Command): seq<Node> {
    match command
    case Release(c, focus) => Released(tiling, c, focus)
    case Take(c) => Taken(tiling, c)
    case Move(c, w, d) => Moved(tiling, c, w, d)
  }

  function Run(tiling: seq<Node>, commands: seq<Command>): seq<Node> {
    if commands == [] then tiling else After(Run(tiling, commands[..|commands| - 1]), commands[|commands| - 1])
  }

  predicate NoMoves(commands: seq<Command>) {
    forall i :: 0 <= i < |commands| ==> !commands[i].Move?
  }

  /** Over every run, no window is lost or made; and without moves their order does not change either. */
  lemma {:induction false} RunConserves(tiling: seq<Node>, commands: seq<Command>)
    ensures multiset(Flatten(Run(tiling, commands))) == multiset(Flatten(tiling))
    ensures NoMoves(commands) ==> Flatten(Run(tiling, commands)) == Flatten(tiling)
  {
    if commands != [] {
      var n := |commands| - 1;
      RunConserves(tiling, commands[..n]);
      var before := Run(tiling, commands[..n]);
      match commands[n]
      case Release(c, focus) => ReleaseKeepsOrder(before, c, focus);
      case Take(c) => TakeKeepsOrder(before, c);
      case Move(c, w, d) =>
        if Moves(before, c, w, d) {
          var a, x, y, b := MoveSwapsNeighbours(before, c, w, d);
          SwapConserves(a, x, y, b);
        }
    }
  }

  lemma SwapConserves(a: seq<Window>, x: seq<Window>, y: seq<Window>, b: seq<Window>)
    ensures multiset(a + x + y + b) == multiset(a + y + x + b)
  {
  }

  // ----- the commands

  lemma KeptWhole(tiling: seq<Node>, c: nat, focus: Window)
    ensures !Splits(tiling, c, focus) ==> Released(tiling, c, focus) == tiling
  {
  }

  lemma ReleasedAt(tiling: seq<Node>, c: nat, focus: Window)
    requires c < |tiling| && tiling[c].Column?
    ensures var s := tiling[c].children;
      && ((forall f :: 0 <= f < |s| - 1 ==> s[f] != focus) ==> Released(tiling, c, focus) == tiling)
      && forall f :: 0 <= f < |s| - 1 && s[f] == focus && focus !in s[..f] ==>
           Released(tiling, c, focus) == tiling[..c] + [Column(s[..f + 1]), Column(s[f + 1..])] + tiling[c + 1..]
  {
    hide Find;
    var s := tiling[c].children;
    forall f | 0 <= f < |s| - 1 && s[f] == focus && focus !in s[..f] ensures Find(s, focus) == f {
      FirstPlace(s, focus, f);
    }
  }

  lemma FirstPlace(s: seq<Window>, w: Window, f: nat)
    requires f < |s| && s[f] == w && w !in s[..f]
    ensures Find(s, w) == f
  {
    assert forall k :: 0 <= k < f ==> s[k] in s[..f];
  }

  lemma ReleasedInPlace(tiling: seq<Node>, c: nat, focus: Window)
    requires Splits(tiling, c, focus)
    ensures var s, start := tiling[c].children, Find(tiling[c].children, focus) + 1;
      var t := tiling[c := Column(s[..start])];
      Released(tiling, c, focus) == t[..c + 1] + [Column(s[start..])] + t[c + 1..]
  {
  }

  datatype Fullscreen = NotFullscreen | OnWorkspace | Global

  /** Whether a command applies to the container at all. */
  datatype Context = Context(floating: bool, fullscreen: Fullscreen)
  {
    predicate Tiled() {
      !floating && fullscreen == NotFullscreen
    }
  }

  /** What a move does: nothing, an exchange in the tiling, or a hand-over to the workspace of another output. */
  datatype Outcome = Stays | Swaps | GoesToOutput(workspace: nat)

  class Workspace {
    var tiling: seq<Node>

    constructor (tiling: seq<Node>)
      ensures this.tiling == tiling
    {
      this.tiling := tiling;
    }

    /** cmd_release on node c. */
    method Release(context: Context, c: nat, focus: Window)
      requires c < |tiling|
      modifies this
      ensures tiling ==
        if context.Tiled() then Released(old(tiling), c, focus) else old(tiling)
      ensures var t := old(tiling);
        if context.floating || context.fullscreen != NotFullscreen || t[c].View? then tiling == t
        else
          var s := t[c].children;
          && ((forall f :: 0 <= f < |s| - 1 ==> s[f] != focus) ==> tiling == t)
          && forall f :: 0 <= f < |s| - 1 && s[f] == focus && focus !in s[..f] ==>
               tiling == t[..c] + [Column(s[..f + 1]), Column(s[f + 1..])] + t[c + 1..]
    {
      if tiling[c].Column? {
        ReleasedAt(tiling, c, focus);
      }
      hide Released, Find;
      KeptWhole(tiling, c, focus);
      if context.floating || context.fullscreen != NotFullscreen || tiling[c].View? || |tiling[c].children| < 2 {
        return;
      }
      var splitIdx := ListFind(tiling[c].children, focus);
      if splitIdx >= |tiling[c].children| - 1 {
        return;
      }
      var start := splitIdx + 1;
      ReleasedInPlace(tiling, c, focus);
      var newcol := MoveDown(c, start);
      tiling := tiling[..c + 1] + [Column(newcol)] + tiling[c + 1..];
    }

    /** The loop of cmd_release: from the last window up, each goes to the front of the new column. */
    method MoveDown(c: nat, start: nat) returns (newcol: seq<Window>)
      requires c < |tiling| && tiling[c].Column? && start <= |tiling[c].children|
      modifies this
      ensures var s := old(tiling)[c].children;
        newcol == s[start..] && tiling == old(tiling)[c := Column(s[..start])]
    {
      newcol := [];
      ghost var before, s := tiling, tiling[c].children;
      var i := |tiling[c].children| - 1;
      assert s[..i + 1] == s && before[c := Column(s)] == before;
      while i >= start
        invariant start - 1 <= i < |s|
        invariant tiling == before[c := Column(s[..i + 1])] && newcol == s[i + 1..]
      {
        var children := tiling[c].children;
        var child := children[i];
        tiling := tiling[c := Column(children[..i] + children[i + 1..])];
        newcol := [child] + newcol;
        assert children[..i] + children[i + 1..] == s[..i] && newcol == s[i..];
        i := i - 1;
      }
    }

    /** cmd_take on node c; a window outside any column has no list that could take its neighbour in. */
    method Take(context: Context, c: nat)
      requires c < |tiling| && tiling[c].Column?
      modifies this
      ensures tiling == if context.Tiled() then Taken(old(tiling), c) else old(tiling)
      ensures if context.floating || context.fullscreen != NotFullscreen || c + 1 >= |old(tiling)|
        then tiling == old(tiling)
        else
          var right := match old(tiling)[c + 1] case Column(windows) => windows case View(window) => [window];
          tiling == old(tiling)[..c] + [Column(old(tiling)[c].children + right)] + old(tiling)[c + 2..]
    {
      if context.floating || context.fullscreen != NotFullscreen || c + 1 >= |tiling| {
        return;
      }
      ghost var before, s, right := tiling, tiling[c].children, Windows(tiling[c + 1]);
      if tiling[c + 1].Column? {
        ghost var k := 0;
        assert s + right[..0] == s && right[0..] == right;
        assert before[c := Column(s)][c + 1 := Column(right)] == before;
        while tiling[c + 1].children != []
          invariant k <= |right| && |tiling| == |before|
          invariant tiling == before[c := Column(s + right[..k])][c + 1 := Column(right[k..])]
          decreases |right| - k
        {
          var child := tiling[c + 1].children[0];
          tiling := tiling[c + 1 := Column(tiling[c + 1].children[1..])];
          tiling := tiling[c := Column(tiling[c].children + [child])];
          k := k + 1;
          assert tiling[c].children == s + right[..k] && tiling[c + 1].children == right[k..];
        }
        // the empty column is reaped
        tiling := tiling[..c + 1] + tiling[c + 2..];
        assert right[..k] == right;
      } else {
        var window := tiling[c + 1].window;
        tiling := tiling[..c + 1] + tiling[c + 2..];
        tiling := tiling[c := Column(tiling[c].children + [window])];
      }
      assert tiling == before[..c] + [Column(s + right)] + before[c + 2..];
    }

    /** container_move_in_direction, for the window w of node c; `next` is the workspace shown on the output that lies
        in that direction, if there is one. A container that goes there is taken out of the tiling by the hand-over. */
    method Move(context: Context, next: Option<nat>, c: nat, w: nat, d: Direction) returns (outcome: Outcome)
      requires c < |tiling|
      requires tiling[c].Column? ==> w < |tiling[c].children|
      modifies this
      ensures var t := old(tiling);
        var neighbour :=
          match d
          case Left => c > 0
          case Right => c + 1 < |t|
          case Up => t[c].Column? && w > 0
          case Down => t[c].Column? && w + 1 < |t[c].children|;
        outcome == Swaps <==> !context.floating && context.fullscreen == NotFullscreen && neighbour
      ensures outcome == Swaps ==>
        var t := old(tiling);
        match d
        case Left => tiling == t[c - 1 := t[c]][c := t[c - 1]]
        case Right => tiling == t[c + 1 := t[c]][c := t[c + 1]]
        case Up => var s := t[c].children; tiling == t[c := Column(s[w - 1 := s[w]][w := s[w - 1]])]
        case Down => var s := t[c].children; tiling == t[c := Column(s[w + 1 := s[w]][w := s[w + 1]])]
      ensures outcome != Swaps ==> tiling == old(tiling)
      ensures outcome.GoesToOutput? <==> context.fullscreen == OnWorkspace && next.Some?
      ensures outcome.GoesToOutput? ==> next == Some(outcome.workspace)
      ensures tiling == if context.Tiled() then Moved(old(tiling), c, w, d) else old(tiling)
    {
      if context.fullscreen == OnWorkspace {
        return if next.Some? then GoesToOutput(next.value) else Stays;
      }
      if context.fullscreen == Global || context.floating {
        return Stays;
      }
      var offs := if d == Left || d == Up then -1 else 1;
      if d == Up || d == Down {
        if tiling[c].Column? {
          var target := w + offs;
          if target >= 0 && target < |tiling[c].children| {
            var children := tiling[c].children;
            assert Swapped(children, w, target) == children[target := children[w]][w := children[target]];
            tiling := tiling[c := Column(Swapped(children, w, target))];
            return Swaps;
          }
        }
        return Stays;
      }
      var target := c + offs;
      if target >= 0 && target < |tiling| {
        tiling := Swapped(tiling, c, target);
        return Swaps;
      }
      return Stays;
    }
  }

  /** list_find, with the length for -1. */
  method ListFind(s: seq<Window>, w: Window) returns (i: nat)
    ensures i == Find(s, w)
  {
    i := 0;
    while i < |s| && s[i] != w
      invariant i <= |s| && forall j :: 0 <= j < i ==> s[j] != w
    {
      i := i + 1;
    }
  }
}
