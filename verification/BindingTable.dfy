/** Bindings as values: what identifies one, how a table of them changes, and how keysyms become keycodes
    (sway/commands/bind.c, sway/config.c 987-1039). */
module BindingTable {
  import opened Common

  datatype Kind = Keycode | Keysym | Mousecode | Mousesym

  datatype Flags = Flags(release: bool, locked: bool, border: bool, contents: bool, titlebar: bool, code: bool,
                         inhibited: bool, noRepeat: bool)

  /** `syms` holds the original keysyms of a binding whose keys are translated keycodes. */
  datatype Entry = Entry(input: string, kind: Kind, flags: Flags, group: int, modifiers: int, keys: seq<nat>,
                         syms: Option<seq<nat>>, order: int, command: string)

  /** The flags under which two bindings of the same keys can live side by side. */
  datatype Region = Region(release: bool, border: bool, contents: bool, titlebar: bool, locked: bool, inhibited: bool)

  function RegionOf(f: Flags): Region {
    Region(f.release, f.border, f.contents, f.titlebar, f.locked, f.inhibited)
  }

  datatype Combo = Combo(input: string, kind: Kind, region: Region, group: int, modifiers: int, keys: seq<nat>)

  function ComboOf(e: Entry): Combo {
    Combo(e.input, e.kind, RegionOf(e.flags), e.group, e.modifiers, e.keys)
  }

  // ----- keys are kept sorted

  predicate Ascending(keys: seq<nat>) {
    forall i, j :: 0 <= i < j < |keys| ==> keys[i] <= keys[j]
  }

  /** list_qsort with key_qsort_cmp; SortIsForced shows that any sorting gives the same list. */
  function SortKeys(keys: seq<nat>): (r: seq<nat>)
    ensures Ascending(r) && multiset(r) == multiset(keys)
  {
    if keys == [] then [] else
      assert keys == [keys[0]] + keys[1..];
      Insert(SortKeys(keys[1..]), keys[0])
  }

  function Insert(sorted: seq<nat>, key: nat): (r: seq<nat>)
    requires Ascending(sorted)
    ensures Ascending(r) && multiset(r) == multiset(sorted) + multiset{key}
  {
    var i := Place(sorted, key);
    InsertAscends(sorted, key, i);
    InsertKeeps(sorted, key, i);
    sorted[..i] + [key] + sorted[i..]
  }

  lemma InsertAscends(sorted: seq<nat>, key: nat, i: nat)
    requires Ascending(sorted) && i <= |sorted| && (i < |sorted| ==> key <= sorted[i])
    requires forall j :: 0 <= j < i ==> sorted[j] < key
    ensures Ascending(sorted[..i] + [key] + sorted[i..])
  {
    var r := sorted[..i] + [key] + sorted[i..];
    assert forall k :: 0 <= k < |r| ==> r[k] == if k < i then sorted[k] else if k == i then key else sorted[k - 1];
  }

  lemma InsertKeeps(sorted: seq<nat>, key: nat, i: nat)
    requires i <= |sorted|
    ensures multiset(sorted[..i] + [key] + sorted[i..]) == multiset(sorted) + multiset{key}
  {
    assert sorted == sorted[..i] + sorted[i..];
  }

  function Place(sorted: seq<nat>, key: nat): (i: nat)
    ensures i <= |sorted| && (i < |sorted| ==> key <= sorted[i])
    ensures forall j :: 0 <= j < i ==> sorted[j] < key
  {
    if sorted == [] || key <= sorted[0] then 0 else 1 + Place(sorted[1..], key)
  }

  lemma {:induction false} SortIsForced(a: seq<nat>, b: seq<nat>)
    requires Ascending(a) && Ascending(b) && multiset(a) == multiset(b)
    ensures a == b
  {
    if a == [] || b == [] {
      assert |a| == |multiset(a)| == |multiset(b)| == |b|;
    } else {
      LeastFirst(a, b);
      LeastFirst(b, a);
      SplitFirst(a);
      SplitFirst(b);
      SortIsForced(a[1..], b[1..]);
    }
  }

  lemma SplitFirst(a: seq<nat>)
    requires a != []
    ensures a == [a[0]] + a[1..] && multiset(a[1..]) == multiset(a) - multiset{a[0]}
  {
    assert a == [a[0]] + a[1..];
  }

  lemma LeastFirst(a: seq<nat>, b: seq<nat>)
    requires Ascending(a) && a != [] && b != [] && multiset(a) == multiset(b)
    ensures a[0] <= b[0]
  {
    assert b[0] in multiset(b);
    assert b[0] in a;
  }

  /** Two key combinations are the same binding whatever order their keys are typed in, and only then. */
  lemma KeyOrderIsForgotten(a: seq<nat>, b: seq<nat>)
    ensures SortKeys(a) == SortKeys(b) <==> multiset(a) == multiset(b)
  {
    if multiset(a) == multiset(b) {
      SortIsForced(SortKeys(a), SortKeys(b));
    }
  }

  // ----- tables

  ghost predicate Distinct(t: seq<Entry>) {
    forall i, j :: 0 <= i < j < |t| ==> ComboOf(t[i]) != ComboOf(t[j])
  }

  function Find(t: seq<Entry>, c: Combo): (i: nat)
    ensures i <= |t| && (i < |t| ==> ComboOf(t[i]) == c)
    ensures forall j :: 0 <= j < i ==> ComboOf(t[j]) != c
  {
    if t == [] then 0 else if ComboOf(t[0]) == c then 0 else 1 + Find(t[1..], c)
  }

  /** The first binding with the same combination is replaced in its place. */
  function Upsert(t: seq<Entry>, e: Entry): seq<Entry> {
    var i := Find(t, ComboOf(e));
    if i < |t| then t[i := e] else t + [e]
  }

  function Remove(t: seq<Entry>, c: Combo): seq<Entry> {
    var i := Find(t, c);
    if i < |t| then t[..i] + t[i + 1..] else t
  }

  /** The table as a map from combinations to bindings. */
  function Lookup(t: seq<Entry>, c: Combo): Option<Entry> {
    var i := Find(t, c);
    if i < |t| then Some(t[i]) else None
  }

  /** Binding is map update, on the combination. */
  lemma UpsertUpdatesMap(t: seq<Entry>, e: Entry, c: Combo)
    requires Distinct(t)
    ensures Distinct(Upsert(t, e))
    ensures Lookup(Upsert(t, e), c) == if c == ComboOf(e) then Some(e) else Lookup(t, c)
  {
    hide ComboOf;
    var u, i := Upsert(t, e), Find(t, ComboOf(e));
    assert forall j :: 0 <= j < |u| ==> u[j] == if j == i then e else t[j];
    FoundAt(u, c, if c == ComboOf(e) then i else if Find(t, c) == |t| then |u| else Find(t, c));
  }

  /** Two bindings of the same keys live side by side if they differ in any of the six flags, or in their input, kind,
      group or modifiers; the code and repeat flags do not keep them apart. */
  lemma SideBySide(t: seq<Entry>, a: Entry, b: Entry)
    requires Distinct(t)
    ensures var u := Upsert(Upsert(t, a), b);
      var apart :=
        || a.input != b.input || a.kind != b.kind || a.group != b.group || a.modifiers != b.modifiers
        || a.keys != b.keys
        || a.flags.release != b.flags.release || a.flags.border != b.flags.border
        || a.flags.contents != b.flags.contents || a.flags.titlebar != b.flags.titlebar
        || a.flags.locked != b.flags.locked || a.flags.inhibited != b.flags.inhibited;
      && b in u && (apart ==> a in u) && (!apart && a != b ==> a !in u)
  {
    hide Find, Upsert, Distinct;
    UpsertUpdatesMap(t, a, ComboOf(a));
    UpsertUpdatesMap(Upsert(t, a), b, ComboOf(a));
    UpsertUpdatesMap(Upsert(t, a), b, ComboOf(b));
    var u := Upsert(Upsert(t, a), b);
    LookedUp(u, ComboOf(b), b);
    LookedUp(u, ComboOf(a), a);
  }

  lemma LookedUp(t: seq<Entry>, c: Combo, e: Entry)
    requires Distinct(t) && ComboOf(e) == c
    ensures Lookup(t, c) == Some(e) <==> e in t
  {
  }

  lemma FoundAt(t: seq<Entry>, c: Combo, i: nat)
    requires Distinct(t) && i <= |t|
    requires if i < |t| then ComboOf(t[i]) == c else forall j :: 0 <= j < |t| ==> ComboOf(t[j]) != c
    ensures Find(t, c) == i
  {
  }

  /** Unbinding is removal from the map. */
  lemma RemoveShrinksMap(t: seq<Entry>, gone: Combo, c: Combo)
    requires Distinct(t)
    ensures Distinct(Remove(t, gone))
    ensures Lookup(Remove(t, gone), c) == if c == gone then None else Lookup(t, c)
  {
    hide ComboOf;
    var u, i, j := Remove(t, gone), Find(t, gone), Find(t, c);
    if i < |t| {
      assert forall k :: 0 <= k < |u| ==> u[k] == if k < i then t[k] else t[k + 1];
      FoundAt(u, c, if c == gone || j == |t| then |u| else if j < i then j else j - 1);
    }
  }
}
