/** Translating `--to-code` bindings for a keyboard layout, and the tables of a mode when the layout changes
    (sway/commands/bind.c 668-764, sway/config.c 987-1039). */
module Translation {
  import opened BindingTable
  import opened Common

  /** What one keycode gives on the layout; 0 is NoSymbol. */
  datatype Key = Key(code: nat, sym: nat)

  type Layout = seq<Key>

  const KEYCODE_INVALID := 0xffff_ffff

  function CodesFor(layout: Layout, sym: nat): seq<nat> {
    if layout == [] then [] else
      var n := |layout| - 1;
      var before := CodesFor(layout[..n], sym);
      if layout[n].sym != 0 && layout[n].sym == sym then before + [layout[n].code] else before
  }

  /** A keysym translates only if a single key gives it. */
  function CodeFor(layout: Layout, sym: nat): Option<nat> {
    var codes := CodesFor(layout, sym);
    if |codes| == 1 then Some(codes[0]) else None
  }

  function CodesOf(layout: Layout, syms: seq<nat>): (r: Option<seq<nat>>)
    ensures r.Some? ==> |r.value| == |syms|
  {
    if syms == [] then Some([]) else
      var n := |syms| - 1;
      match CodesOf(layout, syms[..n])
      case None => None
      case Some(codes) => match CodeFor(layout, syms[n]) case None => None case Some(code) => Some(codes + [code])
  }

  /** The code flag is for keyboard bindings; once translated, the keysyms are kept. */
  predicate Sound(e: Entry) {
    e.flags.code && e.kind == Keycode ==> e.syms.Some?
  }

  predicate Translatable(e: Entry) {
    e.flags.code && (e.kind == Keycode || e.kind == Keysym)
  }

  /** The keys that the user wrote. */
  function Origin(e: Entry): seq<nat>
    requires Sound(e)
  {
    if e.flags.code && e.kind == Keycode then e.syms.value else e.keys
  }

  /** The binding as it was before any translation. */
  function Untranslated(e: Entry): Entry
    requires Sound(e)
  {
    if Translatable(e) then e.(kind := Keysym, keys := Origin(e), syms := None) else e
  }

  function Translate(layout: Layout, e: Entry): Entry
    requires Sound(e)
  {
    if !Translatable(e) then e
    else match CodesOf(layout, Origin(e))
      case Some(codes) => e.(kind := Keycode, keys := SortKeys(codes), syms := Some(Origin(e)))
      case None => Untranslated(e)
  }

  predicate TranslateOk(layout: Layout, e: Entry)
    requires Sound(e)
  {
    Translatable(e) ==> CodesOf(layout, Origin(e)).Some?
  }

  /** The original keysyms are never lost, and everything else of the binding stays as it was. */
  lemma TranslateKeepsOrigin(layout: Layout, e: Entry)
    requires Sound(e)
    ensures var t := Translate(layout, e);
      && Sound(t) && Untranslated(t) == Untranslated(e) && Translatable(t) == Translatable(e)
      && Origin(t) == Origin(e) && t.order == e.order && t.command == e.command && t.flags == e.flags
      && t.input == e.input && t.group == e.group && t.modifiers == e.modifiers
      && (!TranslateOk(layout, e) ==> t == Untranslated(e))
      && (t.kind == Keycode || t.kind == Keysym <==> e.kind == Keycode || e.kind == Keysym)
  {
  }

  /** What a layout makes of a binding does not depend on the layouts before it. */
  lemma OnlyTheLastLayoutCounts(first: Layout, second: Layout, e: Entry)
    requires Sound(e)
    ensures Sound(Translate(first, e)) && Translate(second, Translate(first, e)) == Translate(second, e)
  {
    TranslateKeepsOrigin(first, e);
  }

  /** The one key of the layout that gives the keysym. */
  ghost predicate OnlyAt(layout: Layout, sym: nat, p: nat) {
    && p < |layout| && sym != 0 && layout[p].sym == sym
    && forall q :: 0 <= q < |layout| && q != p ==> layout[q].sym != sym
  }

  ghost predicate OnOneKey(layout: Layout, sym: nat) {
    exists p :: OnlyAt(layout, sym, p)
  }

  ghost function CodesThere(layout: Layout, places: seq<nat>): (codes: seq<nat>)
    requires forall i :: 0 <= i < |places| ==> places[i] < |layout|
    ensures |codes| == |places| && forall i :: 0 <= i < |places| ==> codes[i] == layout[places[i]].code
  {
    seq(|places|, i requires 0 <= i < |places| => layout[places[i]].code)
  }

  /** A `--to-code` keysym binding is bound to the codes of its keys, sorted, if each keysym is on one key only. */
  lemma KeysymsBecomeCodes(layout: Layout, e: Entry, places: seq<nat>)
    requires e.kind == Keysym && e.flags.code && |places| == |e.keys|
    requires forall i :: 0 <= i < |places| ==> places[i] < |layout| && OnlyAt(layout, e.keys[i], places[i])
    ensures var t := Translate(layout, e);
      && t == e.(kind := Keycode, syms := Some(e.keys), keys := t.keys)
      && (forall i, j :: 0 <= i < j < |t.keys| ==> t.keys[i] <= t.keys[j])
      && multiset(t.keys) == multiset(CodesThere(layout, places))
  {
    CodesAt(layout, e.keys, places);
  }

  lemma {:induction false} CodesAt(layout: Layout, syms: seq<nat>, places: seq<nat>)
    requires |places| == |syms|
    requires forall i :: 0 <= i < |places| ==> places[i] < |layout| && OnlyAt(layout, syms[i], places[i])
    ensures CodesOf(layout, syms) == Some(CodesThere(layout, places))
  {
    if syms != [] {
      var n := |syms| - 1;
      CodesAt(layout, syms[..n], places[..n]);
      OneCode(layout, syms[n], places[n]);
      assert CodesThere(layout, places) == CodesThere(layout, places[..n]) + [layout[places[n]].code];
    }
  }

  lemma {:induction false} OneCode(layout: Layout, sym: nat, p: nat)
    requires OnlyAt(layout, sym, p)
    ensures CodesFor(layout, sym) == [layout[p].code]
  {
    var n := |layout| - 1;
    if p == n {
      NoCode(layout[..n], sym);
    } else {
      assert forall q :: 0 <= q < n ==> layout[..n][q] == layout[q];
      OneCode(layout[..n], sym, p);
    }
  }

  lemma {:induction false} NoCode(layout: Layout, sym: nat)
    requires sym == 0 || forall q :: 0 <= q < |layout| ==> layout[q].sym != sym
    ensures CodesFor(layout, sym) == []
  {
    if layout != [] {
      NoCode(layout[..|layout| - 1], sym);
    }
  }

  lemma {:induction false} OneCodeOnly(layout: Layout, sym: nat)
    ensures |CodesFor(layout, sym)| == 1 ==> OnOneKey(layout, sym)
  {
    if layout != [] {
      var n := |layout| - 1;
      OneCodeOnly(layout[..n], sym);
      assert forall q :: 0 <= q < n ==> layout[..n][q] == layout[q];
      if layout[n].sym == sym && sym != 0 {
        if CodesFor(layout[..n], sym) == [] {
          forall q | 0 <= q < n ensures layout[q].sym != sym {
            NoneWithoutCode(layout[..n], sym, q);
          }
          assert OnlyAt(layout, sym, n);
        }
      } else if p :| OnlyAt(layout[..n], sym, p) {
        assert OnlyAt(layout, sym, p);
      }
    }
  }

  lemma {:induction false} NoneWithoutCode(layout: Layout, sym: nat, q: nat)
    requires CodesFor(layout, sym) == [] && sym != 0 && q < |layout|
    ensures layout[q].sym != sym
  {
    if q < |layout| - 1 {
      NoneWithoutCode(layout[..|layout| - 1], sym, q);
    }
  }

  /** It is left as it was if one of its keysyms is on no key, or on several; and so is a binding without the flag, or
      of a button. */
  lemma OthersStay(layout: Layout, e: Entry)
    requires e.syms == None
    requires !e.flags.code || e.kind == Mousecode || e.kind == Mousesym ||
      (e.kind == Keysym && exists i :: 0 <= i < |e.keys| && !OnOneKey(layout, e.keys[i]))
    ensures Translate(layout, e) == e
  {
    if e.flags.code && e.kind == Keysym {
      var i :| 0 <= i < |e.keys| && !OnOneKey(layout, e.keys[i]);
      OneCodeOnly(layout, e.keys[i]);
      NoCodesOf(layout, e.keys, i);
    }
  }

  lemma {:induction false} NoCodesOf(layout: Layout, syms: seq<nat>, i: nat)
    requires i < |syms| && CodeFor(layout, syms[i]) == None
    ensures CodesOf(layout, syms) == None
    decreases |syms|
  {
    if i < |syms| - 1 {
      NoCodesOf(layout, syms[..|syms| - 1], i);
    }
  }

  /** Any number of layout changes, each translating the binding or failing to. */
  function AfterLayouts(layouts: seq<Layout>, e: Entry): (r: Entry)
    requires Sound(e)
    ensures Sound(r)
  {
    if layouts == [] then e else
      var before := AfterLayouts(layouts[..|layouts| - 1], e);
      TranslateKeepsOrigin(layouts[|layouts| - 1], before);
      Translate(layouts[|layouts| - 1], before)
  }

  /** Over every run of layout changes: the binding is the last layout's translation of what the user wrote, and
      exactly what the user wrote again if that translation fails. */
  lemma {:induction false} LayoutRun(layouts: seq<Layout>, e: Entry)
    requires Sound(e)
    ensures var r := AfterLayouts(layouts, e);
      && Untranslated(r) == Untranslated(e) && Origin(r) == Origin(e) && Translatable(r) == Translatable(e)
      && (layouts != [] ==> r == Translate(layouts[|layouts| - 1], Untranslated(e)))
      && (layouts != [] && !TranslateOk(layouts[|layouts| - 1], e) ==> r == Untranslated(e))
  {
    hide CodesOf;
    if layouts != [] {
      var before, last := AfterLayouts(layouts[..|layouts| - 1], e), layouts[|layouts| - 1];
      LayoutRun(layouts[..|layouts| - 1], e);
      TranslateKeepsOrigin(last, before);
    }
  }

  // ----- the tables of a mode

  datatype Tables = Tables(syms: seq<Entry>, codes: seq<Entry>)

  ghost predicate OfKind(t: seq<Entry>, kind: Kind) {
    forall i :: 0 <= i < |t| ==> t[i].kind == kind
  }

  predicate AllSound(t: seq<Entry>) {
    forall i :: 0 <= i < |t| ==> Sound(t[i])
  }

  ghost predicate Good(t: Tables) {
    && Distinct(t.syms) && Distinct(t.codes) && OfKind(t.syms, Keysym) && OfKind(t.codes, Keycode)
    && AllSound(t.syms) && AllSound(t.codes)
  }

  predicate Keyboard(e: Entry) {
    Sound(e) && (e.kind == Keysym || e.kind == Keycode)
  }

  predicate AllKeyboard(es: seq<Entry>) {
    forall i :: 0 <= i < |es| ==> Keyboard(es[i])
  }

  function File(t: Tables, e: Entry): Tables {
    if e.kind == Keysym then t.(syms := Upsert(t.syms, e)) else t.(codes := Upsert(t.codes, e))
  }

  /** translate_binding_list, with the tables that the bindings so far have gone to. */
  function TranslateList(layout: Layout, es: seq<Entry>, t: Tables): Tables
    requires AllSound(es)
  {
    if es == [] then t else TranslateList(layout, es[1..], File(t, Translate(layout, es[0])))
  }

  function Relayout(layout: Layout, t: Tables): Tables
    requires AllSound(t.syms) && AllSound(t.codes)
  {
    TranslateList(layout, t.codes, TranslateList(layout, t.syms, Tables([], [])))
  }

  function Of(t: Tables, c: Combo): Option<Entry> {
    if c.kind == Keysym then Lookup(t.syms, c) else if c.kind == Keycode then Lookup(t.codes, c) else None
  }

  /** The last translated binding with this combination. */
  function Last(layout: Layout, es: seq<Entry>, c: Combo): Option<Entry>
    requires AllSound(es)
  {
    if es == [] then None else
      var n := |es| - 1;
      var e := Translate(layout, es[n]);
      if ComboOf(e) == c then Some(e) else Last(layout, es[..n], c)
  }

  lemma {:induction false} TranslateListUnfold(layout: Layout, es: seq<Entry>, t: Tables)
    requires AllSound(es) && es != []
    ensures var n := |es| - 1;
      TranslateList(layout, es, t) == File(TranslateList(layout, es[..n], t), Translate(layout, es[n]))
    decreases |es|
  {
    hide Translate, File, Sound;
    var n := |es| - 1;
    if n > 0 {
      TranslateListUnfold(layout, es[1..], File(t, Translate(layout, es[0])));
      assert es[1..][..n - 1] == es[..n][1..];
    } else {
      assert es[..0] == [] && es[1..] == [];
    }
  }

  lemma {:induction false} TranslateListConcat(layout: Layout, a: seq<Entry>, b: seq<Entry>, t: Tables)
    requires AllSound(a) && AllSound(b)
    ensures AllSound(a + b)
    ensures TranslateList(layout, a + b, t) == TranslateList(layout, b, TranslateList(layout, a, t))
    decreases |a|
  {
    hide Translate, File, Sound;
    if a == [] {
      assert a + b == b;
    } else {
      assert (a + b)[1..] == a[1..] + b;
      TranslateListConcat(layout, a[1..], b, File(t, Translate(layout, a[0])));
    }
  }

  lemma FileIs(t: Tables, e: Entry, c: Combo)
    requires Good(t) && Keyboard(e)
    ensures Good(File(t, e))
    ensures Of(File(t, e), c) == if c == ComboOf(e) then Some(e) else Of(t, c)
  {
    hide Sound, Find, Lookup, Upsert;
    UpsertUpdatesMap(t.syms, e, c);
    UpsertUpdatesMap(t.codes, e, c);
    UpsertMembers(t.syms, e);
    UpsertMembers(t.codes, e);
  }

  lemma UpsertMembers(t: seq<Entry>, e: Entry)
    ensures forall i :: 0 <= i < |Upsert(t, e)| ==> Upsert(t, e)[i] == e || Upsert(t, e)[i] in t
  {
  }

  /** After a layout change the tables hold, for each combination that some binding now has, the last such binding
      in the order keysym table, keycode table; no combination twice, and each binding in the table of its kind. */
  lemma {:induction false} LastWins(layout: Layout, es: seq<Entry>, c: Combo)
    requires AllKeyboard(es)
    ensures Good(TranslateList(layout, es, Tables([], [])))
    ensures Of(TranslateList(layout, es, Tables([], [])), c) == Last(layout, es, c)
  {
    hide Sound, Find, Lookup, Upsert, Translate, File;
    if es == [] {
      NothingThere(c);
    } else {
      var n := |es| - 1;
      TranslateListUnfold(layout, es, Tables([], []));
      LastWins(layout, es[..n], c);
      TranslateKeepsOrigin(layout, es[n]);
      FileIs(TranslateList(layout, es[..n], Tables([], [])), Translate(layout, es[n]), c);
    }
  }

  lemma NothingThere(c: Combo)
    ensures Of(Tables([], []), c) == None
  {
  }

  lemma RelayoutIsLast(layout: Layout, t: Tables, c: Combo)
    requires Good(t)
    ensures AllKeyboard(t.syms + t.codes) && Good(Relayout(layout, t))
    ensures Of(Relayout(layout, t), c) == Last(layout, t.syms + t.codes, c)
  {
    hide Find, Lookup, Upsert, Translate, File;
    TranslateListConcat(layout, t.syms, t.codes, Tables([], []));
    LastWins(layout, t.syms + t.codes, c);
  }

  // ----- when a layout change loses a binding

  ghost predicate NoClash(layout: Layout, es: seq<Entry>)
    requires AllSound(es)
  {
    forall i, j :: 0 <= i < j < |es| ==> ComboOf(Translate(layout, es[i])) != ComboOf(Translate(layout, es[j]))
  }

  function Count(t: Tables): nat {
    |t.syms| + |t.codes|
  }

  lemma FileCounts(t: Tables, e: Entry)
    requires Keyboard(e)
    ensures Count(File(t, e)) == Count(t) + if Of(t, ComboOf(e)).None? then 1 else 0
  {
    hide ComboOf, Sound;
    assert ComboOf(e).kind == e.kind by { KindOfCombo(e); }
  }

  lemma KindOfCombo(e: Entry)
    ensures ComboOf(e).kind == e.kind
  {
  }

  lemma {:induction false} LastIsNone(layout: Layout, es: seq<Entry>, c: Combo)
    requires AllSound(es)
    ensures Last(layout, es, c).None? <==> forall i :: 0 <= i < |es| ==> ComboOf(Translate(layout, es[i])) != c
  {
    hide ComboOf, Translate, Sound;
    if es != [] {
      var n := |es| - 1;
      LastIsNone(layout, es[..n], c);
      assert forall i :: 0 <= i < n ==> es[..n][i] == es[i];
    }
  }

  /** A binding is lost exactly when the layout brings two of them to the same combination. */
  lemma {:induction false} NothingLost(layout: Layout, es: seq<Entry>)
    requires AllKeyboard(es)
    ensures Count(TranslateList(layout, es, Tables([], []))) <= |es|
    ensures Count(TranslateList(layout, es, Tables([], []))) == |es| <==> NoClash(layout, es)
  {
    hide ComboOf, Translate, File, Sound, Of, Last, Good, Count;
    if es == [] {
      assert Count(Tables([], [])) == 0 by { CountNothing(); }
    } else {
      var n := |es| - 1;
      var e, before := Translate(layout, es[n]), TranslateList(layout, es[..n], Tables([], []));
      TranslateListUnfold(layout, es, Tables([], []));
      NothingLost(layout, es[..n]);
      TranslateKeepsOrigin(layout, es[n]);
      FileCounts(before, e);
      LastWins(layout, es[..n], ComboOf(e));
      LastIsNone(layout, es[..n], ComboOf(e));
      assert forall i :: 0 <= i < n ==> es[..n][i] == es[i];
    }
  }

  lemma CountNothing()
    ensures Count(Tables([], [])) == 0
  {
  }

  lemma RelayoutLoses(layout: Layout, t: Tables)
    requires Good(t)
    ensures AllSound(t.syms + t.codes)
    ensures Count(Relayout(layout, t)) <= Count(t)
    ensures Count(Relayout(layout, t)) == Count(t) <==> NoClash(layout, t.syms + t.codes)
  {
    hide Translate, File, NoClash;
    TranslateListConcat(layout, t.syms, t.codes, Tables([], []));
    NothingLost(layout, t.syms + t.codes);
  }

  /** A plain keysym binding and a `--to-code` one for the same keys live side by side on every layout that can
      translate the keys, and clash on every layout that cannot: then the plain one is lost. */
  lemma UntranslatableBindingsClash(there: Layout, here: Layout, plain: Entry, coded: Entry)
    requires plain.kind == Keysym && !plain.flags.code && coded.flags.code && coded.syms == None
    requires ComboOf(plain) == ComboOf(coded)
    requires CodesOf(there, coded.keys).Some? && CodesOf(here, coded.keys).None?
    ensures var tables := File(File(Tables([], []), plain), Translate(there, coded));
      && tables == Tables([plain], [Translate(there, coded)]) && Good(tables)
      && Relayout(here, tables) == Tables([coded], [])
  {
    hide CodesOf, SortKeys;
    var moved := Translate(there, coded);
    var tables := Tables([plain], [moved]);
    TranslateKeepsOrigin(there, coded);
    OnlyTheLastLayoutCounts(there, here, coded);
    assert Translate(here, moved) == coded && Translate(here, plain) == plain;
    TranslateOne(here, plain, Tables([], []));
    TranslateOne(here, moved, Tables([plain], []));
  }

  lemma TranslateOne(layout: Layout, e: Entry, t: Tables)
    requires Sound(e)
    ensures TranslateList(layout, [e], t) == File(t, Translate(layout, e))
  {
    assert [e][1..] == [];
  }

  // ----- the same layout again changes nothing

  ghost predicate UpToDate(layout: Layout, t: seq<Entry>) {
    forall i :: 0 <= i < |t| ==> Sound(t[i]) && Translate(layout, t[i]) == t[i]
  }

  lemma {:induction false} TranslatedIsUpToDate(layout: Layout, es: seq<Entry>)
    requires AllSound(es)
    ensures var r := TranslateList(layout, es, Tables([], []));
      UpToDate(layout, r.syms) && UpToDate(layout, r.codes)
  {
    hide Translate, File, Sound;
    if es != [] {
      var n := |es| - 1;
      TranslateListUnfold(layout, es, Tables([], []));
      TranslatedIsUpToDate(layout, es[..n]);
      OnlyTheLastLayoutCounts(layout, layout, es[n]);
      FiledUpToDate(layout, TranslateList(layout, es[..n], Tables([], [])), Translate(layout, es[n]));
    }
  }

  lemma FiledUpToDate(layout: Layout, t: Tables, e: Entry)
    requires UpToDate(layout, t.syms) && UpToDate(layout, t.codes) && Sound(e) && Translate(layout, e) == e
    ensures UpToDate(layout, File(t, e).syms) && UpToDate(layout, File(t, e).codes)
  {
    hide Translate, Upsert, Sound;
    UpsertMembers(t.syms, e);
    UpsertMembers(t.codes, e);
  }

  lemma {:induction false} RefileSyms(layout: Layout, es: seq<Entry>)
    requires UpToDate(layout, es) && OfKind(es, Keysym) && Distinct(es)
    ensures TranslateList(layout, es, Tables([], [])) == Tables(es, [])
  {
    hide Translate, Sound, ComboOf;
    if es != [] {
      var n := |es| - 1;
      TranslateListUnfold(layout, es, Tables([], []));
      assert forall i :: 0 <= i < n ==> es[..n][i] == es[i];
      RefileSyms(layout, es[..n]);
      assert es == es[..n] + [es[n]];
    }
  }

  lemma {:induction false} RefileCodes(layout: Layout, syms: seq<Entry>, es: seq<Entry>)
    requires UpToDate(layout, es) && OfKind(es, Keycode) && Distinct(es)
    ensures TranslateList(layout, es, Tables(syms, [])) == Tables(syms, es)
  {
    hide Translate, Sound, ComboOf;
    if es != [] {
      var n := |es| - 1;
      TranslateListUnfold(layout, es, Tables(syms, []));
      assert forall i :: 0 <= i < n ==> es[..n][i] == es[i];
      RefileCodes(layout, syms, es[..n]);
      assert es == es[..n] + [es[n]];
    }
  }

  lemma RelayoutAgain(layout: Layout, t: Tables)
    requires Good(t)
    ensures var r := Relayout(layout, t);
      Good(r) && UpToDate(layout, r.syms) && UpToDate(layout, r.codes) && Relayout(layout, r) == r
  {
    hide Translate, File, NoClash, ComboOf;
    var r := Relayout(layout, t);
    var any: Combo := *;
    RelayoutIsLast(layout, t, any);
    TranslateListConcat(layout, t.syms, t.codes, Tables([], []));
    TranslatedIsUpToDate(layout, t.syms + t.codes);
    RefileSyms(layout, r.syms);
    RefileCodes(layout, r.syms, r.codes);
  }

  // ----- a mode, over any run of commands and layout changes

  /** The bindings of a mode, and the layout that keysyms are translated with. */
  datatype Mode = Mode(layout: Layout, tables: Tables, buttons: seq<Entry>)

  /** A binding as the command line gives it, its keys in the order they were typed. */
  predicate Typed(e: Entry) {
    e.syms == None && (e.flags.code ==> e.kind != Keycode)
  }

  function Parsed(layout: Layout, e: Entry): Entry
    requires Typed(e)
  {
    Translate(layout, e.(keys := SortKeys(e.keys)))
  }

  function Bound(m: Mode, e: Entry): Mode
    requires Typed(e)
  {
    var b := Parsed(m.layout, e);
    if b.kind == Keysym || b.kind == Keycode then m.(tables := File(m.tables, b))
    else m.(buttons := Upsert(m.buttons, b))
  }

  function Unbound(m: Mode, e: Entry): Mode
    requires Typed(e)
  {
    var b := Parsed(m.layout, e);
    if b.kind == Keysym then m.(tables := m.tables.(syms := Remove(m.tables.syms, ComboOf(b))))
    else if b.kind == Keycode then m.(tables := m.tables.(codes := Remove(m.tables.codes, ComboOf(b))))
    else m.(buttons := Remove(m.buttons, ComboOf(b)))
  }

  ghost predicate WellFormed(m: Mode) {
    && Good(m.tables) && UpToDate(m.layout, m.tables.syms) && UpToDate(m.layout, m.tables.codes)
    && Distinct(m.buttons) && forall i :: 0 <= i < |m.buttons| ==> !Keyboard(m.buttons[i]) && Sound(m.buttons[i])
  }

  function In(m: Mode, c: Combo): Option<Entry> {
    if c.kind == Keysym || c.kind == Keycode then Of(m.tables, c) else Lookup(m.buttons, c)
  }

  /** On every combination: binding is map update. */
  lemma BindUpdates(m: Mode, e: Entry, c: Combo)
    requires WellFormed(m) && Typed(e)
    ensures WellFormed(Bound(m, e))
    ensures var b := Parsed(m.layout, e); In(Bound(m, e), c) == if c == ComboOf(b) then Some(b) else In(m, c)
  {
    hide Translate, Find, Lookup, Upsert, Good, UpToDate;
    var b, sorted := Parsed(m.layout, e), e.(keys := SortKeys(e.keys));
    OnlyTheLastLayoutCounts(m.layout, m.layout, sorted);
    if Keyboard(b) {
      FileIs(m.tables, b, c);
      FiledUpToDate(m.layout, m.tables, b);
    } else {
      UpsertUpdatesMap(m.buttons, b, c);
      UpsertMembers(m.buttons, b);
    }
  }

  /** The order in which the keys are typed does not matter: a second binding replaces the first. */
  lemma KeysInAnyOrder(m: Mode, e: Entry, f: Entry, c: Combo)
    requires WellFormed(m) && Typed(e) && multiset(e.keys) == multiset(f.keys)
    requires f == e.(keys := f.keys, order := f.order, command := f.command)
    ensures WellFormed(Bound(m, e)) && In(Bound(Bound(m, e), f), c) == In(Bound(m, f), c)
  {
    hide Bound, In, WellFormed, CodesOf, SortKeys;
    BindUpdates(m, e, c);
    BindUpdates(Bound(m, e), f, c);
    BindUpdates(m, f, c);
    KeyOrderIsForgotten(e.keys, f.keys);
    BoundKeepsLayout(m, e);
  }

  lemma BoundKeepsLayout(m: Mode, e: Entry)
    requires Typed(e)
    ensures Bound(m, e).layout == m.layout
  {
  }

  /** The same binding with its keys in ascending order. */
  predicate InOrder(b: Entry, e: Entry) {
    && b == e.(keys := b.keys) && multiset(b.keys) == multiset(e.keys)
    && forall i, j :: 0 <= i < j < |b.keys| ==> b.keys[i] <= b.keys[j]
  }

  /** A binding without the code flag is found as it was typed, its keys sorted. */
  lemma BoundIsFound(m: Mode, e: Entry)
    requires Typed(e) && !e.flags.code
    ensures var n := Bound(m, e);
      && (e.kind == Keysym ==> exists b :: b in n.tables.syms && InOrder(b, e))
      && (e.kind == Keycode ==> exists b :: b in n.tables.codes && InOrder(b, e))
      && (e.kind == Mousecode || e.kind == Mousesym ==> exists b :: b in n.buttons && InOrder(b, e))
  {
    hide SortKeys;
    var b := e.(keys := SortKeys(e.keys));
    assert Parsed(m.layout, e) == b;
    UpsertHolds(m.tables.syms, b);
    UpsertHolds(m.tables.codes, b);
    UpsertHolds(m.buttons, b);
    assert InOrder(b, e);
  }

  lemma UpsertHolds(t: seq<Entry>, e: Entry)
    ensures e in Upsert(t, e)
  {
    assert Upsert(t, e)[Find(t, ComboOf(e))] == e;
  }

  lemma RemoveMembers(t: seq<Entry>, c: Combo)
    ensures forall i :: 0 <= i < |Remove(t, c)| ==> Remove(t, c)[i] in t
  {
  }

  /** On every combination: unbinding is removal. */
  lemma UnbindRemoves(m: Mode, e: Entry, c: Combo)
    requires WellFormed(m) && Typed(e)
    ensures WellFormed(Unbound(m, e))
    ensures In(Unbound(m, e), c) == if c == ComboOf(Parsed(m.layout, e)) then None else In(m, c)
  {
    hide Translate, Find, Lookup, Remove, Sound;
    var b := Parsed(m.layout, e);
    if b.kind == Keysym {
      RemoveShrinksMap(m.tables.syms, ComboOf(b), c);
      RemoveMembers(m.tables.syms, ComboOf(b));
    } else if b.kind == Keycode {
      RemoveShrinksMap(m.tables.codes, ComboOf(b), c);
      RemoveMembers(m.tables.codes, ComboOf(b));
    } else {
      RemoveShrinksMap(m.buttons, ComboOf(b), c);
      RemoveMembers(m.buttons, ComboOf(b));
    }
  }

  datatype Command = Bind(e: Entry) | Unbind(e: Entry) | Switch(layout: Layout)

  function Switched(m: Mode, layout: Layout): Mode
    requires AllSound(m.tables.syms) && AllSound(m.tables.codes)
  {
    m.(layout := layout, tables := Relayout(layout, m.tables))
  }

  predicate AllTyped(commands: seq<Command>) {
    forall i :: 0 <= i < |commands| ==> commands[i].Switch? || Typed(commands[i].e)
  }

  ghost function Run(m: Mode, commands: seq<Command>): (r: Mode)
    requires WellFormed(m) && AllTyped(commands)
    ensures WellFormed(r)
  {
    if commands == [] then m else
      var n := |commands| - 1;
      After(Run(m, commands[..n]), commands[n])
  }

  ghost function After(m: Mode, command: Command): (r: Mode)
    requires WellFormed(m) && (command.Switch? || Typed(command.e))
    ensures WellFormed(r)
  {
    AfterIsWellFormed(m, command);
    match command
    case Bind(e) => Bound(m, e)
    case Unbind(e) => Unbound(m, e)
    case Switch(layout) => Switched(m, layout)
  }

  lemma AfterIsWellFormed(m: Mode, command: Command)
    requires WellFormed(m) && (command.Switch? || Typed(command.e))
    ensures match command
      case Bind(e) => WellFormed(Bound(m, e))
      case Unbind(e) => WellFormed(Unbound(m, e))
      case Switch(layout) => WellFormed(Switched(m, layout))
  {
    var any: Combo := *;
    match command
    case Bind(e) => BindUpdates(m, e, any);
    case Unbind(e) => UnbindRemoves(m, e, any);
    case Switch(layout) => RelayoutAgain(layout, m.tables);
  }

  /** The binding is what some bind command typed, its keys sorted, if any translation is undone. */
  ghost predicate ComesFrom(e: Entry, commands: seq<Command>) {
    Sound(e) && exists k :: 0 <= k < |commands| && TypedBy(Untranslated(e), commands[k])
  }

  predicate TypedBy(e: Entry, command: Command) {
    command.Bind? && e == command.e.(keys := SortKeys(command.e.keys))
  }

  ghost predicate AllComeFrom(es: seq<Entry>, commands: seq<Command>) {
    forall i :: 0 <= i < |es| ==> ComesFrom(es[i], commands)
  }

  ghost predicate ModeComesFrom(m: Mode, commands: seq<Command>) {
    AllComeFrom(m.tables.syms, commands) && AllComeFrom(m.tables.codes, commands) && AllComeFrom(m.buttons, commands)
  }

  /** Over every run: nothing that a user typed is ever damaged. */
  lemma {:induction false} RunKeepsOrigins(layout: Layout, commands: seq<Command>)
    requires AllTyped(commands)
    ensures WellFormed(Mode(layout, Tables([], []), []))
    ensures ModeComesFrom(Run(Mode(layout, Tables([], []), []), commands), commands)
  {
    hide WellFormed, Translate, Sound, ComesFrom, After;
    var start := Mode(layout, Tables([], []), []);
    assert WellFormed(start) by { EmptyMode(layout); }
    if commands != [] {
      var n := |commands| - 1;
      RunKeepsOrigins(layout, commands[..n]);
      var before := Run(start, commands[..n]);
      MoreCommands(before.tables.syms, commands);
      MoreCommands(before.tables.codes, commands);
      MoreCommands(before.buttons, commands);
      AfterComesFrom(before, commands);
    }
  }

  lemma EmptyMode(layout: Layout)
    ensures WellFormed(Mode(layout, Tables([], []), []))
  {
  }

  lemma MoreCommands(es: seq<Entry>, commands: seq<Command>)
    requires commands != [] && AllComeFrom(es, commands[..|commands| - 1])
    ensures AllComeFrom(es, commands)
  {
    forall i | 0 <= i < |es| ensures ComesFrom(es[i], commands) {
      assert ComesFrom(es[i], commands[..|commands| - 1]);
      var k :| 0 <= k < |commands| - 1 && TypedBy(Untranslated(es[i]), commands[..|commands| - 1][k]);
      assert TypedBy(Untranslated(es[i]), commands[k]);
    }
  }

  lemma AfterComesFrom(m: Mode, commands: seq<Command>)
    requires commands != [] && WellFormed(m) && ModeComesFrom(m, commands)
    requires commands[|commands| - 1].Switch? || Typed(commands[|commands| - 1].e)
    ensures ModeComesFrom(After(m, commands[|commands| - 1]), commands)
  {
    hide WellFormed, Translate, Sound, ComesFrom, Upsert, Remove, Good, SortKeys;
    var k := |commands| - 1;
    match commands[k]
    case Bind(e) =>
      var b := Parsed(m.layout, e);
      ParsedComesFrom(m.layout, commands, k);
      UpsertMembers(m.tables.syms, b);
      UpsertMembers(m.tables.codes, b);
      UpsertMembers(m.buttons, b);
    case Unbind(e) =>
      var c := ComboOf(Parsed(m.layout, e));
      RemoveMembers(m.tables.syms, c);
      RemoveMembers(m.tables.codes, c);
      RemoveMembers(m.buttons, c);
    case Switch(layout) =>
      assert Good(m.tables) && AllSound(m.tables.syms) && AllSound(m.tables.codes) by { FormOf(m); }
      TranslatedComeFrom(layout, m.tables.syms, Tables([], []), commands);
      TranslatedComeFrom(layout, m.tables.codes, TranslateList(layout, m.tables.syms, Tables([], [])), commands);
  }

  lemma FormOf(m: Mode)
    requires WellFormed(m)
    ensures Good(m.tables) && AllSound(m.tables.syms) && AllSound(m.tables.codes)
  {
  }

  lemma ParsedComesFrom(layout: Layout, commands: seq<Command>, k: nat)
    requires k < |commands| && commands[k].Bind? && Typed(commands[k].e)
    ensures ComesFrom(Parsed(layout, commands[k].e), commands)
  {
    hide SortKeys;
    var sorted := commands[k].e.(keys := SortKeys(commands[k].e.keys));
    TranslateKeepsOrigin(layout, sorted);
    assert TypedBy(Untranslated(sorted), commands[k]);
  }

  lemma {:induction false} TranslatedComeFrom(layout: Layout, es: seq<Entry>, t: Tables, commands: seq<Command>)
    requires AllSound(es) && AllComeFrom(es, commands)
    requires AllComeFrom(t.syms, commands) && AllComeFrom(t.codes, commands)
    ensures var r := TranslateList(layout, es, t); AllComeFrom(r.syms, commands) && AllComeFrom(r.codes, commands)
    decreases |es|
  {
    hide Translate, Sound, ComesFrom, Upsert;
    if es != [] {
      var e := Translate(layout, es[0]);
      assert ComesFrom(e, commands) by { StillComesFrom(layout, es[0], commands); }
      UpsertMembers(t.syms, e);
      UpsertMembers(t.codes, e);
      TranslatedComeFrom(layout, es[1..], File(t, e), commands);
    }
  }

  lemma StillComesFrom(layout: Layout, e: Entry, commands: seq<Command>)
    requires Sound(e) && ComesFrom(e, commands)
    ensures ComesFrom(Translate(layout, e), commands)
  {
    TranslateKeepsOrigin(layout, e);
  }
}
