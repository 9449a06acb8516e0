/** The bindings of a mode, as lists of heap objects that are overwritten, removed and retranslated in place
    (sway/commands/bind.c, sway/config.c 987-1039). `alive` is ghost: freeing a binding ends it, and no method may
    be given a binding that has been freed. */
module Bindings {
  import opened BindingTable
  import opened Common
  import opened Translation

  class Binding {
    const input: string
    const flags: Flags
    const group: int
    const modifiers: int
    const order: int
    const command: string
    var kind: Kind
    var keys: seq<nat>
    var syms: Option<seq<nat>>
    ghost var alive: bool

    constructor (e: Entry)
      ensures View() == e && alive
    {
      input, flags, group, modifiers, order, command := e.input, e.flags, e.group, e.modifiers, e.order, e.command;
      kind, keys, syms := e.kind, e.keys, e.syms;
      alive := true;
    }

    ghost function View(): Entry
      reads this
    {
      Entry(input, kind, flags, group, modifiers, keys, syms, order, command)
    }
  }

  method FreeSwayBinding(binding: Binding)
    requires binding.alive
    modifies binding
    ensures !binding.alive
  {
    binding.alive := false;
  }

  /** binding_key_compare */
  method BindingKeyCompare(a: Binding, b: Binding) returns (same: bool)
    requires a.alive && b.alive
    ensures same <==>
      && a.input == b.input && a.kind == b.kind && a.group == b.group && a.modifiers == b.modifiers && a.keys == b.keys
      && a.flags.release == b.flags.release && a.flags.border == b.flags.border
      && a.flags.contents == b.flags.contents && a.flags.titlebar == b.flags.titlebar
      && a.flags.locked == b.flags.locked && a.flags.inhibited == b.flags.inhibited
    ensures same <==> ComboOf(a.View()) == ComboOf(b.View())
  {
    if a.input != b.input || a.kind != b.kind || RegionOf(a.flags) != RegionOf(b.flags)
      || a.group != b.group || a.modifiers != b.modifiers || |a.keys| != |b.keys|
    {
      return false;
    }
    for i := 0 to |a.keys|
      invariant a.keys[..i] == b.keys[..i]
    {
      if a.keys[i] != b.keys[i] {
        return false;
      }
    }
    assert a.keys[..|a.keys|] == a.keys && b.keys[..|b.keys|] == b.keys;
    return true;
  }

  // ----- translation

  /** find_keycode over the whole keymap: the last keycode that gives the keysym, and how many do. */
  method GetKeycodeForKeysym(layout: Layout, sym: nat) returns (code: nat, count: nat)
    ensures var codes := CodesFor(layout, sym);
      count == |codes| && code == if codes == [] then KEYCODE_INVALID else codes[|codes| - 1]
  {
    code, count := KEYCODE_INVALID, 0;
    for i := 0 to |layout|
      invariant var codes := CodesFor(layout[..i], sym);
        count == |codes| && code == if codes == [] then KEYCODE_INVALID else codes[|codes| - 1]
    {
      assert layout[..i + 1][..i] == layout[..i];
      if layout[i].sym != 0 && layout[i].sym == sym {
        code := layout[i].code;
        count := count + 1;
      }
    }
    assert layout[..|layout|] == layout;
  }

  method TranslateBinding(layout: Layout, binding: Binding) returns (ok: bool)
    requires binding.alive && Sound(binding.View())
    modifies binding
    ensures binding.View() == Translate(layout, old(binding.View())) && binding.alive
    ensures ok == TranslateOk(layout, old(binding.View()))
  {
    hide CodesOf, SortKeys;
    if !binding.flags.code {
      return true;
    }
    if binding.kind == Keysym {
      binding.syms := Some(binding.keys);
      binding.keys := [];
    } else if binding.kind == Keycode {
      binding.keys := [];
    } else {
      return true;
    }
    var syms := binding.syms.value;
    var codes := KeycodesFor(layout, syms);
    match codes
    case None =>
      binding.kind := Keysym;
      binding.keys := syms;
      binding.syms := None;
      return false;
    case Some(keys) =>
      binding.keys := SortKeys(keys);
      binding.kind := Keycode;
      return true;
  }

  /** The loop of translate_binding: it gives up at the first keysym without a single keycode. */
  method KeycodesFor(layout: Layout, syms: seq<nat>) returns (codes: Option<seq<nat>>)
    ensures codes == CodesOf(layout, syms)
  {
    var keys := [];
    for i := 0 to |syms|
      invariant CodesOf(layout, syms[..i]) == Some(keys)
    {
      assert syms[..i + 1][..i] == syms[..i];
      var code, count := GetKeycodeForKeysym(layout, syms[i]);
      if count != 1 {
        NoCodes(layout, syms, i + 1);
        return None;
      }
      keys := keys + [code];
    }
    assert syms[..|syms|] == syms;
    return Some(keys);
  }

  lemma {:induction false} NoCodes(layout: Layout, syms: seq<nat>, i: nat)
    requires i <= |syms| && CodesOf(layout, syms[..i]) == None
    ensures CodesOf(layout, syms) == None
    decreases |syms|
  {
    if i == |syms| {
      assert syms[..i] == syms;
    } else {
      var n := |syms| - 1;
      assert syms[..n][..i] == syms[..i];
      NoCodes(layout, syms[..n], i);
    }
  }

  // ----- lists of bindings

  class BindingList {
    var items: seq<Binding>

    constructor ()
      ensures items == []
    {
      items := [];
    }
  }

  /** Every object once, and none of them freed. */
  ghost predicate Live(items: seq<Binding>)
    reads items
  {
    && (forall i, j :: 0 <= i < j < |items| ==> items[i] != items[j])
    && forall i :: 0 <= i < |items| ==> items[i].alive
  }

  ghost predicate Shows(items: seq<Binding>, es: seq<Entry>)
    reads items
  {
    |items| == |es| && forall i :: 0 <= i < |items| ==> items[i].View() == es[i]
  }

  /** No object of the one is in the other. */
  predicate Apart(a: seq<Binding>, b: seq<Binding>) {
    forall i, j :: 0 <= i < |a| && 0 <= j < |b| ==> a[i] != b[j]
  }

  method BindingUpsert(binding: Binding, list: BindingList, ghost es: seq<Entry>) returns (replaced: Binding?)
    requires Live(list.items) && Shows(list.items, es) && binding.alive
    modifies list
    ensures var i := Find(es, ComboOf(binding.View()));
      if i < |es| then list.items == old(list.items)[i := binding] && replaced == old(list.items)[i]
      else list.items == old(list.items) + [binding] && replaced == null
  {
    hide ComboOf, Find;
    var i := FindBinding(binding, list, es);
    if i < |list.items| {
      replaced := list.items[i];
      list.items := list.items[i := binding];
    } else {
      list.items := list.items + [binding];
      replaced := null;
    }
  }

  lemma FindFirst(es: seq<Entry>, c: Combo, i: nat)
    requires i <= |es| && (i < |es| ==> ComboOf(es[i]) == c)
    requires forall j :: 0 <= j < i ==> ComboOf(es[j]) != c
    ensures Find(es, c) == i
  {
  }

  /** binding_add and binding_add_translated: the binding that is overwritten is freed. */
  method BindingAdd(binding: Binding, list: BindingList, ghost es: seq<Entry>)
    requires Live(list.items + [binding]) && Shows(list.items, es)
    modifies list, list.items
    ensures Live(list.items) && Shows(list.items, Upsert(es, old(binding.View())))
    ensures forall b :: b in list.items ==> b == binding || b in old(list.items)
  {
    hide ComboOf, Live, Shows;
    Exchanged(list.items, es, binding, Find(es, ComboOf(binding.View())));
    var replaced := BindingUpsert(binding, list, es);
    if replaced != null {
      FreeSwayBinding(replaced);
    }
  }

  lemma Exchanged(items: seq<Binding>, es: seq<Entry>, binding: Binding, i: nat)
    requires Live(items + [binding]) && Shows(items, es) && i <= |es|
    ensures Live(items) && binding.alive && binding !in items && |es| == |items|
    ensures i < |items| ==> Live(items[i := binding]) && items[i] !in items[i := binding] && items[i].alive
    ensures if i < |items| then Shows(items[i := binding], es[i := binding.View()])
      else Shows(items + [binding], es + [binding.View()])
  {
    var more := items + [binding];
    assert more[|items|] == binding && forall j :: 0 <= j < |items| ==> more[j] == items[j];
  }

  /** binding_remove: the list entry and the binding it was looked up with are both freed. */
  method BindingRemove(binding: Binding, list: BindingList, ghost es: seq<Entry>) returns (found: bool)
    requires Live(list.items + [binding]) && Shows(list.items, es)
    modifies list, list.items, binding
    ensures found <==> Lookup(es, ComboOf(old(binding.View()))).Some?
    ensures Live(list.items) && Shows(list.items, Remove(es, ComboOf(old(binding.View()))))
    ensures forall b :: b in list.items ==> b in old(list.items)
  {
    hide ComboOf, Find, Live, Shows;
    Exchanged(list.items, es, binding, |es|);
    var i := FindBinding(binding, list, es);
    found := i < |list.items|;
    if found {
      TakenOut(list.items, es, binding, i);
      FreeSwayBinding(list.items[i]);
      list.items := list.items[..i] + list.items[i + 1..];
    }
    FreeSwayBinding(binding);
  }

  lemma TakenOut(items: seq<Binding>, es: seq<Entry>, binding: Binding, i: nat)
    requires Live(items + [binding]) && Shows(items, es) && i < |items|
    ensures |es| == |items| && items[i].alive && items[i] != binding
    ensures var less := items[..i] + items[i + 1..];
      && Live(less) && Shows(less, es[..i] + es[i + 1..]) && items[i] !in less && binding !in less
      && forall b :: b in less ==> b in items
  {
    var more, less := items + [binding], items[..i] + items[i + 1..];
    assert more[|items|] == binding && forall j :: 0 <= j < |items| ==> more[j] == items[j];
    assert forall j :: 0 <= j < |less| ==> less[j] == if j < i then items[j] else items[j + 1];
  }

  method FindBinding(binding: Binding, list: BindingList, ghost es: seq<Entry>) returns (i: nat)
    requires Live(list.items) && Shows(list.items, es) && binding.alive
    ensures i == Find(es, ComboOf(binding.View())) && i <= |list.items|
  {
    hide ComboOf, Find;
    i := 0;
    while i < |list.items|
      invariant i <= |list.items|
      invariant forall j :: 0 <= j < i ==> ComboOf(es[j]) != ComboOf(binding.View())
    {
      var same := BindingKeyCompare(binding, list.items[i]);
      if same {
        break;
      }
      i := i + 1;
    }
    FindFirst(es, ComboOf(binding.View()), i);
  }

  // ----- a layout change

  ghost predicate Owned(items: seq<Binding>, all: set<Binding>) {
    forall i :: 0 <= i < |items| ==> items[i] in all
  }

  /** The bindings still to be translated, and the two lists that they are going to. */
  ghost predicate Moving(rest: seq<Binding>, es: seq<Entry>, syms: BindingList, codes: BindingList, t: Tables,
                         all: set<Binding>)
    reads *
  {
    && Live(rest) && Live(syms.items) && Live(codes.items)
    && Apart(rest, syms.items) && Apart(rest, codes.items) && Apart(syms.items, codes.items)
    && Shows(rest, es) && Shows(syms.items, t.syms) && Shows(codes.items, t.codes)
    && Owned(rest, all) && Owned(syms.items, all) && Owned(codes.items, all)
  }

  /** translate_binding_list: no binding is freed before it has been translated, and no freed one is met again. */
  method TranslateBindingList(layout: Layout, bindings: seq<Binding>, bindsyms: BindingList, bindcodes: BindingList,
                              ghost es: seq<Entry>, ghost t: Tables, ghost all: set<Binding>)
    requires bindsyms != bindcodes && AllKeyboard(es) && Moving(bindings, es, bindsyms, bindcodes, t, all)
    modifies bindsyms, bindcodes, all
    ensures Moving([], [], bindsyms, bindcodes, TranslateList(layout, es, t), all)
  {
    hide Moving, Translate, Sound, File;
    ghost var now := t;
    assert bindings[0..] == bindings && es[0..] == es;
    MovingLength(bindings, es, bindsyms, bindcodes, t, all);
    for i := 0 to |bindings|
      invariant |es| == |bindings| && AllSound(es[i..])
      invariant Moving(bindings[i..], es[i..], bindsyms, bindcodes, now, all)
      invariant TranslateList(layout, es[i..], now) == TranslateList(layout, es, t)
    {
      assert bindings[i..][0] == bindings[i] && es[i..][0] == es[i] && es[i..][1..] == es[i + 1..];
      assert bindings[i..][1..] == bindings[i + 1..] && Keyboard(es[i]);
      now := TranslateOne(layout, bindings[i], bindsyms, bindcodes, bindings[i..], es[i..], now, all);
    }
  }

  lemma MovingLength(rest: seq<Binding>, es: seq<Entry>, syms: BindingList, codes: BindingList, t: Tables,
                     all: set<Binding>)
    requires Moving(rest, es, syms, codes, t, all)
    ensures |rest| == |es|
  {
  }

  lemma LiveWith(items: seq<Binding>, binding: Binding)
    requires Live(items) && binding.alive && binding !in items
    ensures Live(items + [binding])
  {
  }

  lemma Tail(rest: seq<Binding>, es: seq<Entry>, syms: BindingList, codes: BindingList, t: Tables, all: set<Binding>)
    requires rest != [] && Moving(rest, es, syms, codes, t, all)
    ensures es != [] && rest[0].View() == es[0] && rest[0].alive && rest[0] in all
    ensures rest[0] !in rest[1..] && rest[0] !in syms.items && rest[0] !in codes.items
    ensures Moving(rest[1..], es[1..], syms, codes, t, all)
  {
    assert forall i :: 0 <= i < |rest[1..]| ==> rest[1..][i] == rest[i + 1];
  }

  /** A list that has taken in one binding, and perhaps dropped one. */
  lemma Grown(before: seq<Binding>, after: seq<Binding>, binding: Binding, a: seq<Binding>, b: seq<Binding>,
              all: set<Binding>)
    requires forall x :: x in after ==> x == binding || x in before
    requires Apart(a, before) && Apart(b, before) && binding !in a && binding !in b
    requires Owned(before, all) && binding in all
    ensures Apart(a, after) && Apart(after, a) && Apart(after, b) && Apart(b, after) && Owned(after, all)
  {
    assert forall i :: 0 <= i < |after| ==> after[i] in after;
  }

  lemma ApartIsMutual(a: seq<Binding>, b: seq<Binding>)
    requires Apart(a, b)
    ensures Apart(b, a)
  {
  }

  /** One turn of the loop. */
  method TranslateOne(layout: Layout, binding: Binding, bindsyms: BindingList, bindcodes: BindingList,
                      ghost rest: seq<Binding>, ghost es: seq<Entry>, ghost t: Tables, ghost all: set<Binding>)
    returns (ghost next: Tables)
    requires bindsyms != bindcodes && rest != [] && Moving(rest, es, bindsyms, bindcodes, t, all)
    requires binding == rest[0] && es != [] && Keyboard(es[0])
    modifies bindsyms, bindcodes, all
    ensures next == File(t, Translate(layout, es[0]))
    ensures Moving(rest[1..], es[1..], bindsyms, bindcodes, next, all)
  {
    hide Translate, Upsert, Sound;
    Tail(rest, es, bindsyms, bindcodes, t, all);
    TranslateKeepsOrigin(layout, es[0]);
    ghost var more := rest[1..];
    var ok := TranslateBinding(layout, binding);
    next := File(t, binding.View());
    ApartIsMutual(bindsyms.items, bindcodes.items);
    if binding.kind == Keysym {
      AddAmong(binding, bindsyms, t.syms, more, es[1..], bindcodes.items, t.codes, all);
    } else {
      AddAmong(binding, bindcodes, t.codes, more, es[1..], bindsyms.items, t.syms, all);
    }
    ApartIsMutual(bindcodes.items, bindsyms.items);
  }

  /** binding_add_translated, and what it leaves alone. */
  method AddAmong(binding: Binding, list: BindingList, ghost es: seq<Entry>, ghost rest: seq<Binding>,
                  ghost restEs: seq<Entry>, ghost other: seq<Binding>, ghost otherEs: seq<Entry>,
                  ghost all: set<Binding>)
    requires Live(list.items) && binding.alive && binding !in list.items && Shows(list.items, es)
    requires Live(rest) && Shows(rest, restEs) && binding !in rest && Apart(rest, list.items)
    requires Live(other) && Shows(other, otherEs) && binding !in other && Apart(other, list.items)
    requires Owned(list.items, all) && binding in all
    modifies list, list.items
    ensures Live(list.items) && Shows(list.items, Upsert(es, old(binding.View()))) && Owned(list.items, all)
    ensures Live(rest) && Shows(rest, restEs) && Apart(rest, list.items) && Apart(list.items, rest)
    ensures Live(other) && Shows(other, otherEs) && Apart(other, list.items) && Apart(list.items, other)
  {
    hide Upsert;
    LiveWith(list.items, binding);
    BindingAdd(binding, list, es);
    Grown(old(list.items), list.items, binding, rest, other, all);
  }

  // ----- a mode

  ghost function Members(items: seq<Binding>): set<Binding> {
    set b | b in items
  }

  ghost predicate Holds(syms: BindingList, codes: BindingList, buttons: BindingList, m: Mode)
    reads syms, codes, buttons, syms.items, codes.items, buttons.items
  {
    && syms != codes && syms != buttons && codes != buttons
    && Live(syms.items) && Live(codes.items) && Live(buttons.items)
    && Apart(syms.items, codes.items) && Apart(syms.items, buttons.items) && Apart(codes.items, buttons.items)
    && Apart(codes.items, syms.items) && Apart(buttons.items, syms.items) && Apart(buttons.items, codes.items)
    && Shows(syms.items, m.tables.syms) && Shows(codes.items, m.tables.codes) && Shows(buttons.items, m.buttons)
  }

  /** struct sway_mode, with the layout that config->keysym_translation_state stands for. */
  class SwayMode {
    var layout: Layout
    var keysymBindings: BindingList
    var keycodeBindings: BindingList
    var mouseBindings: BindingList
    ghost var state: Mode

    constructor (layout: Layout)
      ensures Valid() && state == Mode(layout, Tables([], []), [])
    {
      this.layout := layout;
      keysymBindings := new BindingList();
      keycodeBindings := new BindingList();
      mouseBindings := new BindingList();
      state := Mode(layout, Tables([], []), []);
    }

    ghost predicate Valid()
      reads this, keysymBindings, keycodeBindings, mouseBindings
      reads keysymBindings.items, keycodeBindings.items, mouseBindings.items
    {
      Holds(keysymBindings, keycodeBindings, mouseBindings, state) && state.layout == layout && WellFormed(state)
    }

    ghost function Objects(): set<Binding>
      reads this, keysymBindings, keycodeBindings, mouseBindings
    {
      Members(keysymBindings.items) + Members(keycodeBindings.items) + Members(mouseBindings.items)
    }

    /** A new binding object, translated for the layout, and the list that it belongs to. */
    method Parse(typed: Entry) returns (binding: Binding, list: BindingList)
      requires Typed(typed)
      ensures fresh(binding) && binding.alive && binding.View() == Parsed(layout, typed)
      ensures list == if binding.kind == Keycode then keycodeBindings
        else if binding.kind == Keysym then keysymBindings else mouseBindings
    {
      hide SortKeys, CodesOf;
      binding := new Binding(typed);
      binding.keys := SortKeys(binding.keys);
      var ok := TranslateBinding(layout, binding);
      if binding.kind == Keycode {
        list := keycodeBindings;
      } else if binding.kind == Keysym {
        list := keysymBindings;
      } else {
        list := mouseBindings;
      }
    }

    /** bindsym and bindcode */
    method Bind(typed: Entry)
      requires Valid() && Typed(typed)
      modifies this, keysymBindings, keycodeBindings, mouseBindings, Objects()
      ensures Valid() && state == Bound(old(state), typed)
    {
      hide Translate, WellFormed, Upsert, Live, Shows, Apart;
      var binding, list := Parse(typed);
      ghost var t, buttons, all := state.tables, state.buttons, Objects() + {binding};
      ghost var ks, kc, ms := keysymBindings.items, keycodeBindings.items, mouseBindings.items;
      AfterIsWellFormed(state, Command.Bind(typed));
      state := Bound(state, typed);
      MembersOwned(ks, kc, ms, all);
      if binding.kind == Keysym {
        AddAmong(binding, list, t.syms, kc, t.codes, ms, buttons, all);
      } else if binding.kind == Keycode {
        AddAmong(binding, list, t.codes, ks, t.syms, ms, buttons, all);
      } else {
        AddAmong(binding, list, buttons, ks, t.syms, kc, t.codes, all);
      }
    }

    /** unbindsym and unbindcode */
    method Unbind(typed: Entry) returns (found: bool)
      requires Valid() && Typed(typed)
      modifies this, keysymBindings, keycodeBindings, mouseBindings, Objects()
      ensures Valid() && state == Unbound(old(state), typed)
      ensures found <==> In(old(state), ComboOf(Parsed(layout, typed))).Some?
    {
      hide Translate, WellFormed, Remove, Lookup, Live, Shows, Apart;
      var binding, list := Parse(typed);
      ghost var t, buttons := state.tables, state.buttons;
      ghost var ks, kc, ms := keysymBindings.items, keycodeBindings.items, mouseBindings.items;
      AfterIsWellFormed(state, Command.Unbind(typed));
      state := Unbound(state, typed);
      if binding.kind == Keysym {
        found := RemoveAmong(binding, list, t.syms, kc, t.codes, ms, buttons);
      } else if binding.kind == Keycode {
        found := RemoveAmong(binding, list, t.codes, ks, t.syms, ms, buttons);
      } else {
        found := RemoveAmong(binding, list, buttons, ks, t.syms, kc, t.codes);
      }
    }

    ghost function Lists(): set<BindingList>
      reads this
    {
      {keysymBindings, keycodeBindings, mouseBindings}
    }

    /** The turn of a mode in translate_keysyms. */
    method Retranslate(layout: Layout)
      requires Valid()
      modifies this, Objects()
      ensures Valid() && state == Switched(old(state), layout) && this.layout == layout
      ensures Objects() <= old(Objects()) && fresh(Lists() - {old(mouseBindings)})
    {
      hide Translate, WellFormed, File, Live, Shows, Relayout;
      AfterIsWellFormed(state, Command.Switch(layout));
      FormOf(state);
      this.layout := layout;
      var bindsyms, bindcodes := TranslateBoth(layout, keysymBindings, keycodeBindings, mouseBindings, state.tables);
      keysymBindings := bindsyms;
      keycodeBindings := bindcodes;
      state := Switched(state, layout);
    }
  }

  method TranslateBoth(layout: Layout, keysyms: BindingList, keycodes: BindingList, ghost buttons: BindingList,
                       ghost t: Tables)
    returns (bindsyms: BindingList, bindcodes: BindingList)
    requires Good(t)
    requires Live(keysyms.items) && Live(keycodes.items) && Apart(keysyms.items, keycodes.items)
    requires Shows(keysyms.items, t.syms) && Shows(keycodes.items, t.codes)
    requires Apart(keysyms.items, buttons.items) && Apart(keycodes.items, buttons.items)
    modifies Members(keysyms.items) + Members(keycodes.items)
    ensures fresh(bindsyms) && fresh(bindcodes) && bindsyms != bindcodes
    ensures Live(bindsyms.items) && Live(bindcodes.items) && Apart(bindsyms.items, bindcodes.items)
    ensures Apart(bindcodes.items, bindsyms.items)
    ensures Shows(bindsyms.items, Relayout(layout, t).syms) && Shows(bindcodes.items, Relayout(layout, t).codes)
    ensures Apart(bindsyms.items, buttons.items) && Apart(buttons.items, bindsyms.items)
    ensures Apart(bindcodes.items, buttons.items) && Apart(buttons.items, bindcodes.items)
    ensures Members(bindsyms.items) + Members(bindcodes.items) <= Members(keysyms.items) + Members(keycodes.items)
  {
    hide Translate, File, Moving, Live, Shows, AllKeyboard, Good;
    ghost var ks, kc := keysyms.items, keycodes.items;
    bindsyms := new BindingList();
    bindcodes := new BindingList();
    KeyboardTables(t);
    StartMoving(ks, t.syms, bindsyms, bindcodes);
    TranslateBindingList(layout, keysyms.items, bindsyms, bindcodes, t.syms, Tables([], []), Members(ks));
    ghost var between := TranslateList(layout, t.syms, Tables([], []));
    GoOnMoving(kc, t.codes, bindsyms, bindcodes, between, Members(ks));
    TranslateBindingList(layout, keycodes.items, bindsyms, bindcodes, t.codes, between, Members(ks) + Members(kc));
    EndMoving(bindsyms, bindcodes, Relayout(layout, t), Members(ks) + Members(kc), buttons);
  }

  lemma MembersOwned(a: seq<Binding>, b: seq<Binding>, c: seq<Binding>, all: set<Binding>)
    requires Members(a) + Members(b) + Members(c) <= all
    ensures Owned(a, all) && Owned(b, all) && Owned(c, all)
  {
    forall i | 0 <= i < |a| ensures a[i] in all { assert a[i] in Members(a); }
    forall i | 0 <= i < |b| ensures b[i] in all { assert b[i] in Members(b); }
    forall i | 0 <= i < |c| ensures c[i] in all { assert c[i] in Members(c); }
  }

  /** binding_remove, and what it leaves alone. */
  method RemoveAmong(binding: Binding, list: BindingList, ghost es: seq<Entry>, ghost a: seq<Binding>,
                     ghost aEs: seq<Entry>, ghost b: seq<Binding>, ghost bEs: seq<Entry>) returns (found: bool)
    requires Live(list.items) && binding.alive && binding !in list.items && Shows(list.items, es)
    requires Live(a) && Shows(a, aEs) && binding !in a && Apart(a, list.items)
    requires Live(b) && Shows(b, bEs) && binding !in b && Apart(b, list.items)
    modifies list, list.items, binding
    ensures found <==> Lookup(es, ComboOf(old(binding.View()))).Some?
    ensures Live(list.items) && Shows(list.items, Remove(es, ComboOf(old(binding.View()))))
    ensures Live(a) && Shows(a, aEs) && Apart(a, list.items) && Apart(list.items, a)
    ensures Live(b) && Shows(b, bEs) && Apart(b, list.items) && Apart(list.items, b)
  {
    hide Remove, Lookup, ComboOf;
    LiveWith(list.items, binding);
    found := BindingRemove(binding, list, es);
    Shrunk(old(list.items), list.items, a);
    Shrunk(old(list.items), list.items, b);
  }

  lemma Shrunk(before: seq<Binding>, after: seq<Binding>, a: seq<Binding>)
    requires forall x :: x in after ==> x in before
    requires Apart(a, before)
    ensures Apart(a, after) && Apart(after, a)
  {
    assert forall i :: 0 <= i < |after| ==> after[i] in after;
  }

  lemma KeyboardTables(t: Tables)
    requires Good(t)
    ensures AllKeyboard(t.syms) && AllKeyboard(t.codes) && AllSound(t.syms) && AllSound(t.codes)
  {
  }

  lemma StartMoving(items: seq<Binding>, es: seq<Entry>, syms: BindingList, codes: BindingList)
    requires Live(items) && Shows(items, es) && syms.items == [] && codes.items == []
    ensures Moving(items, es, syms, codes, Tables([], []), Members(items))
  {
    MembersOwned(items, [], [], Members(items));
  }

  lemma GoOnMoving(items: seq<Binding>, es: seq<Entry>, syms: BindingList, codes: BindingList, t: Tables,
                   all: set<Binding>)
    requires Moving([], [], syms, codes, t, all) && Live(items) && Shows(items, es)
    requires forall i :: 0 <= i < |items| ==> items[i] !in all
    ensures Moving(items, es, syms, codes, t, all + Members(items))
  {
    MembersOwned(items, [], [], all + Members(items));
  }

  lemma EndMoving(syms: BindingList, codes: BindingList, t: Tables, all: set<Binding>, buttons: BindingList)
    requires Moving([], [], syms, codes, t, all)
    requires forall i :: 0 <= i < |buttons.items| ==> buttons.items[i] !in all
    ensures Live(syms.items) && Live(codes.items) && Shows(syms.items, t.syms) && Shows(codes.items, t.codes)
    ensures Apart(syms.items, codes.items) && Apart(codes.items, syms.items)
    ensures Apart(syms.items, buttons.items) && Apart(buttons.items, syms.items)
    ensures Apart(codes.items, buttons.items) && Apart(buttons.items, codes.items)
    ensures Members(syms.items) + Members(codes.items) <= all
  {
  }

  // ----- all modes

  /** No two modes share a list or a binding. */
  ghost predicate Separate(modes: seq<SwayMode>)
    reads *
  {
    forall i, j :: 0 <= i < j < |modes| ==>
      modes[i] != modes[j] && modes[i].Lists() !! modes[j].Lists() && modes[i].Objects() !! modes[j].Objects()
  }

  ghost predicate AllValid(modes: seq<SwayMode>)
    reads *
  {
    forall i :: 0 <= i < |modes| ==> modes[i].Valid()
  }

  ghost function AllObjects(modes: seq<SwayMode>): set<Binding>
    reads *
  {
    set i, b | 0 <= i < |modes| && b in modes[i].Objects() :: b
  }

  /** translate_keysyms: without a translation state, for which there may be no keymap, every mode is left as it is. */
  method TranslateKeysyms(modes: seq<SwayMode>, created: Option<Layout>)
    requires AllValid(modes) && Separate(modes)
    modifies modes, AllObjects(modes)
    ensures AllValid(modes) && Separate(modes)
    ensures forall i :: 0 <= i < |modes| ==>
      modes[i].state == if created.None? then old(modes[i].state) else Switched(old(modes[i].state), created.value)
  {
    hide Relayout, AllValid, Separate;
    if created.None? {
      return;
    }
    TablesAreSound(modes);
    for k := 0 to |modes|
      invariant AllValid(modes) && Separate(modes)
      invariant forall i :: 0 <= i < |modes| ==> modes[i].Objects() <= old(modes[i].Objects())
      invariant forall i :: 0 <= i < |modes| ==>
        modes[i].state == if i < k then Switched(old(modes[i].state), created.value) else old(modes[i].state)
    {
      RetranslateOne(modes, k, created.value);
    }
  }

  lemma TablesAreSound(modes: seq<SwayMode>)
    requires AllValid(modes)
    ensures forall i :: 0 <= i < |modes| ==>
      AllSound(modes[i].state.tables.syms) && AllSound(modes[i].state.tables.codes)
  {
  }

  /** The modes do not get into each other's way. */
  method RetranslateOne(modes: seq<SwayMode>, k: nat, layout: Layout)
    requires AllValid(modes) && Separate(modes) && k < |modes|
    modifies modes[k], modes[k].Objects()
    ensures AllValid(modes) && Separate(modes)
    ensures forall i :: 0 <= i < |modes| ==> modes[i].Objects() <= old(modes[i].Objects())
    ensures modes[k].state == Switched(old(modes[k].state), layout)
    ensures forall i :: 0 <= i < |modes| && i != k ==> modes[i].state == old(modes[i].state)
  {
    hide AllValid, SwayMode.Valid;
    RetranslateAmong(modes, k, layout);
    SeparateFrom(modes, k);
  }

  method RetranslateAmong(modes: seq<SwayMode>, k: nat, layout: Layout)
    requires AllValid(modes) && Separate(modes) && k < |modes|
    modifies modes[k], modes[k].Objects()
    ensures AllValid(modes)
    ensures modes[k].Objects() <= old(modes[k].Objects())
    ensures modes[k].state == Switched(old(modes[k].state), layout)
    ensures forall i :: 0 <= i < |modes| && i != k ==>
      && modes[i].state == old(modes[i].state) && modes[i].Objects() == old(modes[i].Objects())
      && modes[i].Lists() == old(modes[i].Lists()) && modes[i].Lists() !! modes[k].Lists()
  {
    hide Relayout, Holds, WellFormed;
    modes[k].Retranslate(layout);
  }

  lemma SeparateFrom(modes: seq<SwayMode>, k: nat)
    requires k < |modes| && forall i :: 0 <= i < |modes| && i != k ==>
      && modes[i] != modes[k] && modes[i].Lists() !! modes[k].Lists() && modes[i].Objects() !! modes[k].Objects()
      && forall j :: i < j < |modes| && j != k ==>
           modes[i] != modes[j] && modes[i].Lists() !! modes[j].Lists() && modes[i].Objects() !! modes[j].Objects()
    ensures Separate(modes)
  {
  }
}
