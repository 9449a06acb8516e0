/** Config variables: substitution (sway/config.c), and the symbol table that `set` keeps sorted
    (sway/commands/set.c). */
module Variables {
  import opened Common
  import opened StringOps

  datatype Variable = Variable(name: string, value: string)

  predicate HasPrefix(s: string, prefix: string) {
    |prefix| <= |s| && s[..|prefix|] == prefix
  }

  ghost predicate Names(symbols: seq<Variable>) {
    forall v :: v in symbols ==> v.name != "" && v.name[0] == '$'
  }

  ghost predicate LongestFirst(symbols: seq<Variable>) {
    forall i, j :: 0 <= i < j < |symbols| ==> |symbols[i].name| >= |symbols[j].name|
  }

  ghost predicate UniqueNames(symbols: seq<Variable>) {
    forall i, j :: 0 <= i < j < |symbols| ==> symbols[i].name != symbols[j].name
  }

  ghost predicate Table(symbols: seq<Variable>) {
    Names(symbols) && LongestFirst(symbols) && UniqueNames(symbols)
  }

  /** The index of the first variable whose name `s` starts with, or the number of variables. */
  function FirstMatch(symbols: seq<Variable>, s: string): (i: nat)
    ensures i <= |symbols|
    ensures i < |symbols| ==> |symbols[i].name| <= |s| && HasPrefix(s, symbols[i].name)
    ensures forall j :: 0 <= j < i ==> !HasPrefix(s, symbols[j].name)
  {
    if symbols == [] || HasPrefix(s, symbols[0].name) then 0 else 1 + FirstMatch(symbols[1..], s)
  }

  /** A dollar behind this text is protected: one backslash in front of it, but not two. */
  predicate Protects(done: string) {
    |done| >= 1 && done[|done| - 1] == '\\' && !(|done| >= 2 && done[|done| - 2] == '\\')
  }

  /** Substitution as one pass from left to right: `done` is finished, `rest` is still to be read. */
  function Expand(symbols: seq<Variable>, done: string, rest: string): string
    requires Names(symbols)
    decreases |rest|
  {
    if rest == "" then done
    else if rest[0] != '$' then Expand(symbols, done + [rest[0]], rest[1..])
    else if Protects(done) then Expand(symbols, done + "$", rest[1..])
    else if |rest| > 1 && rest[1] == '$' then Expand(symbols, done + "$", rest[2..])
    else
      var i := FirstMatch(symbols, rest);
      if i == |symbols| then Expand(symbols, done + "$", rest[1..])
      else Expand(symbols, done + symbols[i].value, rest[|symbols[i].name|..])
  }

  /** What is finished is never read again, but for the two characters that can protect the next dollar. */
  lemma {:induction false} ExpandForgets(symbols: seq<Variable>, a: string, b: string, rest: string)
    requires Names(symbols) && (|b| >= 2 || a == "" || a[|a| - 1] != '\\')
    ensures Expand(symbols, a + b, rest) == a + Expand(symbols, b, rest)
    decreases |rest|
  {
    hide HasPrefix, FirstMatch;
    if rest != "" {
      assert Protects(a + b) == Protects(b);
      var i := FirstMatch(symbols, rest);
      ExpandForgets(symbols, a, b + [rest[0]], rest[1..]);
      assert a + (b + [rest[0]]) == a + b + [rest[0]];
      if rest[0] == '$' && !Protects(b) {
        if |rest| > 1 && rest[1] == '$' {
          ExpandForgets(symbols, a, b + "$", rest[2..]);
          assert a + (b + "$") == a + b + "$";
        } else if i < |symbols| {
          ExpandForgets(symbols, a, b + symbols[i].value, rest[|symbols[i].name|..]);
          assert a + (b + symbols[i].value) == a + b + symbols[i].value;
        }
      }
    }
  }

  /** What is finished stays in front of the result. */
  lemma {:induction false} ExpandKeeps(symbols: seq<Variable>, done: string, rest: string)
    requires Names(symbols)
    ensures done <= Expand(symbols, done, rest)
    decreases |rest|
  {
    hide HasPrefix, FirstMatch, Protects;
    if rest != "" {
      var i := FirstMatch(symbols, rest);
      ExpandKeeps(symbols, done + [rest[0]], rest[1..]);
      if rest[0] == '$' && !Protects(done) {
        if |rest| > 1 && rest[1] == '$' {
          ExpandKeeps(symbols, done + "$", rest[2..]);
        } else if i < |symbols| {
          ExpandKeeps(symbols, done + symbols[i].value, rest[|symbols[i].name|..]);
        }
      }
    }
  }

  /** A text without dollars is passed over. */
  lemma {:induction false} ExpandPlain(symbols: seq<Variable>, done: string, plain: string, rest: string)
    requires Names(symbols) && '$' !in plain
    ensures Expand(symbols, done, plain + rest) == Expand(symbols, done + plain, rest)
    decreases |plain|
  {
    if plain == "" {
      assert plain + rest == rest && done + plain == done;
    } else {
      assert plain[0] in plain && (plain + rest)[1..] == plain[1..] + rest;
      ExpandPlain(symbols, done + [plain[0]], plain[1..], rest);
      assert done + [plain[0]] + plain[1..] == done + plain;
    }
  }

  /** A doubled dollar comes out single and is not looked at again. */
  lemma ExpandDouble(symbols: seq<Variable>, done: string, rest: string)
    requires Names(symbols) && !Protects(done)
    ensures Expand(symbols, done, "$$" + rest) == Expand(symbols, done + "$", rest)
  {
    assert ("$$" + rest)[2..] == rest;
  }

  /** A defined name comes out as its value, which is not looked at again. */
  lemma ExpandVariable(symbols: seq<Variable>, done: string, i: nat, rest: string)
    requires Names(symbols) && !Protects(done) && i < |symbols|
    requires FirstMatch(symbols, symbols[i].name + rest) == i
    requires var s := symbols[i].name + rest; |s| > 1 ==> s[1] != '$'
    ensures Expand(symbols, done, symbols[i].name + rest) == Expand(symbols, done + symbols[i].value, rest)
  {
    var v := symbols[i];
    var s := v.name + rest;
    assert v in symbols && s[0] == '$';
    assert s[|v.name|..] == rest;
  }

  lemma ExpandNothing(symbols: seq<Variable>, done: string)
    requires Names(symbols)
    ensures Expand(symbols, done, "") == done
  {
  }

  // ----- texts that pass unchanged

  /** No dollar of `name` that counts is doubled or starts a defined name; `tail` is the text behind it. */
  ghost predicate Untouched(symbols: seq<Variable>, done: string, name: string, tail: string)
    requires Names(symbols)
    decreases |name|
  {
    name == "" ||
    ((name[0] == '$' && !Protects(done) ==> Ineffective(symbols, name + tail)) &&
    Untouched(symbols, done + [name[0]], name[1..], tail))
  }

  predicate Ineffective(symbols: seq<Variable>, rest: string) {
    !(|rest| > 1 && rest[1] == '$') && FirstMatch(symbols, rest) == |symbols|
  }

  /** Such a text comes out as it went in, whatever the values are. */
  lemma {:induction false} UntouchedPasses(symbols: seq<Variable>, done: string, name: string, tail: string)
    requires Names(symbols) && Untouched(symbols, done, name, tail)
    ensures Expand(symbols, done, name + tail) == Expand(symbols, done + name, tail)
    decreases |name|
  {
    if name == "" {
      assert name + tail == tail && done + name == done;
    } else {
      assert (name + tail)[1..] == name[1..] + tail;
      UntouchedPasses(symbols, done + [name[0]], name[1..], tail);
      assert done + [name[0]] + name[1..] == done + name;
    }
  }

  /** Values that leave a trace where a dollar stood. */
  ghost predicate PlainValues(symbols: seq<Variable>) {
    forall v :: v in symbols ==> v.value != "" && v.value[0] != '$'
  }

  /** `more` is `name` with at least one more dollar in front. */
  predicate MoreDollars(more: string, name: string) {
    |more| > |name| && more[|more| - |name|..] == name && forall i :: 0 <= i < |more| - |name| ==> more[i] == '$'
  }

  /** `rest` starts with as many dollars as `name`, and no more. */
  ghost predicate SameDollars(rest: string, name: string) {
    if name != "" && name[0] == '$' then rest != "" && rest[0] == '$' && SameDollars(rest[1..], name[1..])
    else rest != "" ==> rest[0] != '$'
  }

  /** Dollars that a doubled dollar has cost are never made up for by what follows. */
  lemma {:induction false} DollarsStayLost(symbols: seq<Variable>, done: string, rest: string, name: string,
                                          more: string)
    requires Names(symbols) && PlainValues(symbols) && !Protects(done)
    requires SameDollars(rest, name) && MoreDollars(more, name)
    ensures !(done + more <= Expand(symbols, done, rest))
    decreases |rest|
  {
    hide FirstMatch, MoreDollars;
    FirstDollar(more, name);
    assert (done + more)[|done|] == '$' && done + "$" + more[1..] == done + more;
    if rest != "" {
      if rest[0] != '$' {
        ExpandKeeps(symbols, done + [rest[0]], rest[1..]);
      } else if |rest| > 1 && rest[1] == '$' {
        FirstDollar(more[1..], name[1..]);
        assert rest[1..][1..] == rest[2..] && name[1..][1..] == name[2..];
        LongerDollars(more[1..], name[1..]);
        DollarsStayLost(symbols, done + "$", rest[2..], name[2..], more[1..]);
      } else if FirstMatch(symbols, rest) < |symbols| {
        var v := symbols[FirstMatch(symbols, rest)];
        assert v in symbols;
        ExpandKeeps(symbols, done + v.value, rest[|v.name|..]);
      } else {
        DollarsStayLost(symbols, done + "$", rest[1..], name[1..], more[1..]);
      }
    }
  }

  lemma FirstDollar(more: string, name: string)
    requires MoreDollars(more, name)
    ensures more != "" && more[0] == '$'
    ensures name != "" && name[0] == '$' ==> MoreDollars(more[1..], name[1..])
  {
    var m := |more| - |name|;
    assert name != "" ==> more[m] == more[m..][0];
    assert name != "" ==> more[1..][m..] == more[m..][1..];
  }

  lemma LongerDollars(more: string, name: string)
    requires MoreDollars(more, name) && name != "" && name[0] == '$'
    ensures MoreDollars(more, name[1..])
  {
    var m := |more| - |name|;
    assert more[m] == more[m..][0] && more[m + 1..] == more[m..][1..];
  }

  /** And any other text does not, if the values leave a trace. */
  lemma {:induction false} TouchedChanges(symbols: seq<Variable>, done: string, name: string, tail: string)
    requires Names(symbols) && PlainValues(symbols) && (tail != "" ==> tail[0] != '$')
    requires !Untouched(symbols, done, name, tail)
    ensures !(done + name <= Expand(symbols, done, name + tail))
    decreases |name|
  {
    hide FirstMatch, SameDollars;
    var rest := name + tail;
    if name[0] == '$' && !Protects(done) && !Ineffective(symbols, rest) {
      if |rest| > 1 && rest[1] == '$' {
        assert |name| > 1 && rest[2..] == name[2..] + tail && name[1..][1..] == name[2..];
        SameDollarsWithTail(name[2..], tail);
        DollarsStayLost(symbols, done + "$", rest[2..], name[2..], name[1..]);
        assert done + "$" + name[1..] == done + name;
      } else {
        var v := symbols[FirstMatch(symbols, rest)];
        assert v in symbols;
        ExpandKeeps(symbols, done + v.value, rest[|v.name|..]);
        assert (done + name)[|done|] == '$';
      }
    } else {
      assert rest[1..] == name[1..] + tail;
      TouchedChanges(symbols, done + [name[0]], name[1..], tail);
      assert done + [name[0]] + name[1..] == done + name;
    }
  }

  lemma {:induction false} SameDollarsWithTail(name: string, tail: string)
    requires tail != "" ==> tail[0] != '$'
    ensures SameDollars(name + tail, name)
  {
    if name == "" {
      assert name + tail == tail;
    } else if name[0] == '$' {
      SameDollarsWithTail(name[1..], tail);
      assert (name + tail)[1..] == name[1..] + tail;
    }
  }

  /** A doubled dollar anywhere in a text: it comes out single, what is in front of it stays, and what is behind it
      is expanded as if it stood alone. */
  lemma DoubledDollar(symbols: seq<Variable>, a: string, b: string)
    requires Names(symbols) && !Protects(a) && Untouched(symbols, "", a, "$$" + b)
    ensures Expand(symbols, "", a + "$$" + b) == a + "$" + Expand(symbols, "", b)
  {
    UntouchedPasses(symbols, "", a, "$$" + b);
    assert a + ("$$" + b) == a + "$$" + b && "" + a == a;
    ExpandDouble(symbols, a, b);
    ExpandForgets(symbols, a + "$", "", b);
    assert a + "$" + "" == a + "$";
  }

  /** A defined name anywhere in a text: its value takes its place, and what is behind it is expanded alone, so that
      the value itself is never expanded. */
  lemma VariableInText(symbols: seq<Variable>, a: string, i: nat, b: string)
    requires Names(symbols) && !Protects(a) && i < |symbols| && Untouched(symbols, "", a, symbols[i].name + b)
    requires var s := symbols[i].name + b; FirstMatch(symbols, s) == i && (|s| > 1 ==> s[1] != '$')
    requires var v := a + symbols[i].value; v != "" ==> v[|v| - 1] != '\\'
    ensures Expand(symbols, "", a + symbols[i].name + b) == a + symbols[i].value + Expand(symbols, "", b)
  {
    var v := symbols[i];
    UntouchedPasses(symbols, "", a, v.name + b);
    assert a + (v.name + b) == a + v.name + b && "" + a == a;
    ExpandVariable(symbols, a, i, b);
    ExpandForgets(symbols, a + v.value, "", b);
    assert a + v.value + "" == a + v.value;
  }

  // ----- what becomes of the first dollar of a text; what follows it is expanded as if it stood alone

  /** Just one backslash. */
  predicate EndsInBackslash(a: string) {
    a == "\\" || (|a| >= 2 && a[|a| - 1] == '\\' && a[|a| - 2] != '\\')
  }

  /** A single backslash in front of it leaves it alone. */
  lemma EscapedDollar(symbols: seq<Variable>, a: string, b: string)
    requires Names(symbols) && '$' !in a && EndsInBackslash(a)
    ensures Expand(symbols, "", a + "$" + b) == a + "$" + Expand(symbols, "", b)
  {
    ToDollar(symbols, a, b);
    Forgotten(symbols, a + "$", b);
  }

  /** But two do not, nor does a text without any. A dollar that is doubled then comes out single. */
  lemma FirstDoubledDollar(symbols: seq<Variable>, a: string, b: string)
    requires Names(symbols) && '$' !in a && !EndsInBackslash(a)
    ensures Expand(symbols, "", a + "$" + ("$" + b)) == a + "$" + Expand(symbols, "", b)
  {
    ToDollar(symbols, a, "$" + b);
    ExpandDouble(symbols, a, b);
    assert "$" + ("$" + b) == "$$" + b;
    Forgotten(symbols, a + "$", b);
  }

  /** The longest of the defined names that the text goes on with. */
  ghost predicate LongestName(symbols: seq<Variable>, v: Variable, s: string) {
    v in symbols && v.name <= s && forall w :: w in symbols && w.name <= s ==> |w.name| <= |v.name|
  }

  /** And one that starts a defined name gives way, with the longest such name, to its value. */
  lemma NamedDollar(symbols: seq<Variable>, a: string, b: string, v: Variable)
    requires Table(symbols) && '$' !in a && !EndsInBackslash(a) && !(b != "" && b[0] == '$')
    requires LongestName(symbols, v, "$" + b) && v.value != "" && v.value[|v.value| - 1] != '\\'
    ensures Expand(symbols, "", a + "$" + b) == a + v.value + Expand(symbols, "", ("$" + b)[|v.name|..])
  {
    hide FirstMatch, HasPrefix;
    var rest := "$" + b;
    ToDollar(symbols, a, b);
    MatchedName(symbols, rest, v);
    var more := rest[|v.name|..];
    assert rest == v.name + more;
    ExpandVariable(symbols, a, FirstMatch(symbols, rest), more);
    Forgotten(symbols, a + v.value, more);
  }

  /** And any other stays. */
  lemma UnnamedDollar(symbols: seq<Variable>, a: string, b: string)
    requires Names(symbols) && '$' !in a && !EndsInBackslash(a) && !(b != "" && b[0] == '$')
    requires forall v :: v in symbols ==> !(v.name <= "$" + b)
    ensures Expand(symbols, "", a + "$" + b) == a + "$" + Expand(symbols, "", b)
  {
    var rest := "$" + b;
    ToDollar(symbols, a, b);
    forall k | 0 <= k < |symbols| ensures !HasPrefix(rest, symbols[k].name) {
      assert symbols[k] in symbols && !(symbols[k].name <= rest);
    }
    assert rest[1..] == b;
    Forgotten(symbols, a + "$", b);
  }

  lemma ToDollar(symbols: seq<Variable>, a: string, b: string)
    requires Names(symbols) && '$' !in a
    ensures Expand(symbols, "", a + "$" + b) == Expand(symbols, a, "$" + b)
    ensures EndsInBackslash(a) ==> Expand(symbols, a, "$" + b) == Expand(symbols, a + "$", b)
    ensures EndsInBackslash(a) <==> Protects(a)
  {
    ExpandPlain(symbols, "", a, "$" + b);
    assert a + ("$" + b) == a + "$" + b && "" + a == a && ("$" + b)[1..] == b;
  }

  lemma Forgotten(symbols: seq<Variable>, done: string, rest: string)
    requires Names(symbols) && done != "" && done[|done| - 1] != '\\'
    ensures Expand(symbols, done, rest) == done + Expand(symbols, "", rest)
  {
    ExpandForgets(symbols, done, "", rest);
    assert done + "" == done;
  }

  lemma MatchedName(symbols: seq<Variable>, s: string, v: Variable)
    requires Table(symbols) && LongestName(symbols, v, s)
    ensures FirstMatch(symbols, s) < |symbols| && symbols[FirstMatch(symbols, s)] == v
  {
    var i := FirstMatch(symbols, s);
    var j :| 0 <= j < |symbols| && symbols[j] == v;
    assert HasPrefix(s, symbols[j].name);
    assert symbols[i] in symbols && symbols[i].name <= s;
    assert |symbols[i].name| == |v.name| && symbols[i].name == s[..|v.name|] == v.name;
  }

  // ----- do_var_replacement

  /** Where the loop stands: what the pass makes of the string from `find` on. */
  ghost function ExpandAt(symbols: seq<Variable>, str: string, find: nat): string
    requires Names(symbols) && find <= |str|
  {
    Expand(symbols, str[..find], str[find..])
  }

  lemma SkipOne(symbols: seq<Variable>, str: string, find: nat)
    requires Names(symbols) && find < |str|
    requires
      || str[find] != '$'
      || Protects(str[..find])
      || (!(find + 1 < |str| && str[find + 1] == '$') && FirstMatch(symbols, str[find..]) == |symbols|)
    ensures ExpandAt(symbols, str, find) == ExpandAt(symbols, str, find + 1)
  {
    assert str[..find + 1] == str[..find] + [str[find]];
    assert str[find..][1..] == str[find + 1..];
  }

  lemma DropOne(symbols: seq<Variable>, str: string, find: nat)
    requires Names(symbols) && find + 1 < |str| && str[find] == '$' && str[find + 1] == '$'
    requires !Protects(str[..find])
    ensures ExpandAt(symbols, str, find) == ExpandAt(symbols, str[..find] + str[find + 1..], find + 1)
  {
    var t := str[..find] + str[find + 1..];
    assert t[..find + 1] == str[..find] + "$";
    assert t[find + 1..] == str[find..][2..];
  }

  lemma ReplaceOne(symbols: seq<Variable>, str: string, find: nat, i: nat)
    requires Names(symbols) && find < |str| && str[find] == '$' && !Protects(str[..find])
    requires !(find + 1 < |str| && str[find + 1] == '$')
    requires i == FirstMatch(symbols, str[find..]) < |symbols|
    ensures find + |symbols[i].name| <= |str|
    ensures var next := str[..find] + symbols[i].value + str[find + |symbols[i].name|..];
      ExpandAt(symbols, str, find) == ExpandAt(symbols, next, find + |symbols[i].value|)
  {
    var v := symbols[i];
    var t := str[..find] + v.value + str[find + |v.name|..];
    assert t[..find + |v.value|] == str[..find] + v.value;
    assert t[find + |v.value|..] == str[find..][|v.name|..];
  }

  lemma NothingLeft(symbols: seq<Variable>, str: string)
    requires Names(symbols)
    ensures ExpandAt(symbols, str, |str|) == str
    ensures ExpandAt(symbols, str, 0) == Expand(symbols, "", str)
  {
    assert str[..|str|] == str && str[|str|..] == "" && str[0..] == str && str[..0] == "";
  }

  /** strchr(find, '$'), or the end. */
  method FindDollar(ghost symbols: seq<Variable>, str: string, find: nat) returns (next: nat)
    requires Names(symbols) && find <= |str|
    ensures find <= next <= |str| && (next < |str| ==> str[next] == '$')
    ensures ExpandAt(symbols, str, next) == ExpandAt(symbols, str, find)
  {
    hide ExpandAt;
    next := find;
    while next < |str| && str[next] != '$'
      invariant find <= next <= |str| && ExpandAt(symbols, str, next) == ExpandAt(symbols, str, find)
    {
      SkipOne(symbols, str, next);
      next := next + 1;
    }
  }

  /** The loop over the symbol table: the first variable whose name stands at `find`. */
  method FindVariable(symbols: seq<Variable>, str: string, find: nat) returns (i: nat)
    requires find <= |str|
    ensures i == FirstMatch(symbols, str[find..])
  {
    i := 0;
    while i < |symbols| && !HasPrefix(str[find..], symbols[i].name)
      invariant i <= |symbols|
      invariant forall j :: 0 <= j < i ==> !HasPrefix(str[find..], symbols[j].name)
    {
      i := i + 1;
    }
  }

  /** The string is rebuilt in place while `find` moves over it. */
  method DoVarReplacement(symbols: seq<Variable>, s: string) returns (str: string)
    requires Names(symbols)
    ensures str == Expand(symbols, "", s)
  {
    hide ExpandAt, Expand, FirstMatch, HasPrefix;
    str := s;
    NothingLeft(symbols, s);
    var find: nat := FindDollar(symbols, str, 0);
    while find < |str|
      invariant find <= |str| && (find < |str| ==> str[find] == '$')
      invariant ExpandAt(symbols, str, find) == Expand(symbols, "", s)
      decreases |str| - find
    {
      ghost var left := |str| - find;
      if find > 0 && str[find - 1] == '\\' && (find == 1 || !(find > 1 && str[find - 2] == '\\')) {
        SkipOne(symbols, str, find);
        find := find + 1;
      } else if find + 1 < |str| && str[find + 1] == '$' {
        DropOne(symbols, str, find);
        str := str[..find] + str[find + 1..];
        find := find + 1;
      } else {
        var i := FindVariable(symbols, str, find);
        if i < |symbols| {
          ReplaceOne(symbols, str, find, i);
          var v := symbols[i];
          assert v in symbols;
          str := str[..find] + v.value + str[find + |v.name|..];
          find := find + |v.value|;
        } else {
          SkipOne(symbols, str, find);
          find := find + 1;
        }
      }
      assert find <= |str| && |str| - find < left;
      find := FindDollar(symbols, str, find);
    }
    NothingLeft(symbols, str);
  }

  // ----- the symbol table

  /** The table lists exactly the definitions in `m`. */
  ghost predicate Lists(symbols: seq<Variable>, m: map<string, string>) {
    && (forall v :: v in symbols ==> v.name in m && m[v.name] == v.value)
    && (forall n :: n in m ==> Variable(n, m[n]) in symbols)
  }

  lemma MatchIsLongest(symbols: seq<Variable>, s: string, v: Variable)
    requires LongestFirst(symbols) && v in symbols && HasPrefix(s, v.name)
    ensures var i := FirstMatch(symbols, s);
      i < |symbols| && |v.name| <= |symbols[i].name| && (|v.name| == |symbols[i].name| ==> v.name == symbols[i].name)
  {
    var j :| 0 <= j < |symbols| && symbols[j] == v;
    assert FirstMatch(symbols, s) <= j;
  }

  /** Each dollar takes the longest defined name that stands there. */
  lemma LongestMatch(symbols: seq<Variable>, m: map<string, string>, s: string)
    requires Table(symbols) && Lists(symbols, m)
    ensures var i := FirstMatch(symbols, s);
      && (i == |symbols| <==> !exists n :: n in m && HasPrefix(s, n))
      && (i < |symbols| ==> symbols[i].name in m && m[symbols[i].name] == symbols[i].value)
      && (i < |symbols| ==> forall n :: n in m && HasPrefix(s, n) && n != symbols[i].name ==> |n| < |symbols[i].name|)
  {
    hide HasPrefix, FirstMatch;
    var i := FirstMatch(symbols, s);
    forall n | n in m && HasPrefix(s, n)
      ensures i < |symbols| && (n != symbols[i].name ==> |n| < |symbols[i].name|)
    {
      MatchIsLongest(symbols, s, Variable(n, m[n]));
    }
    if i < |symbols| {
      assert symbols[i] in symbols;
      assert HasPrefix(s, symbols[i].name);
    }
  }

  lemma SameMatch(a: seq<Variable>, b: seq<Variable>, m: map<string, string>, s: string)
    requires Table(a) && Lists(a, m) && Table(b) && Lists(b, m)
    ensures FirstMatch(a, s) == |a| <==> FirstMatch(b, s) == |b|
    ensures FirstMatch(a, s) < |a| && FirstMatch(b, s) < |b| ==> a[FirstMatch(a, s)] == b[FirstMatch(b, s)]
  {
    hide Table, Lists, HasPrefix, FirstMatch;
    LongestMatch(a, m, s);
    LongestMatch(b, m, s);
  }

  /** Substitution depends on the definitions alone: qsort may leave names of equal length in any order. */
  lemma {:induction false} OrderDoesNotMatter(a: seq<Variable>, b: seq<Variable>, m: map<string, string>,
                                              done: string, rest: string)
    requires Table(a) && Lists(a, m) && Table(b) && Lists(b, m)
    ensures Expand(a, done, rest) == Expand(b, done, rest)
    decreases |rest|
  {
    hide LongestFirst, UniqueNames, Lists, HasPrefix, FirstMatch, Protects;
    if rest != "" {
      OrderDoesNotMatter(a, b, m, done + [rest[0]], rest[1..]);
      if rest[0] == '$' && !Protects(done) {
        if |rest| > 1 && rest[1] == '$' {
          OrderDoesNotMatter(a, b, m, done + "$", rest[2..]);
        } else {
          SameMatch(a, b, m, rest);
          var i := FirstMatch(a, rest);
          if i < |a| {
            OrderDoesNotMatter(a, b, m, done + a[i].value, rest[|a[i].name|..]);
          }
        }
      }
    }
  }

  // ----- set

  datatype SetResult = Defined | TooFewArguments | NoDollar

  /** What qsort may turn the list into. */
  ghost predicate SortingOf(t: seq<Variable>, s: seq<Variable>) {
    multiset(t) == multiset(s) && LongestFirst(t)
  }

  lemma {:induction false} Occurrence(s: seq<Variable>, x: Variable)
    requires multiset(s)[x] >= 1
    ensures exists i :: 0 <= i < |s| && s[i] == x
    ensures multiset(s)[x] >= 2 ==> exists i, j :: 0 <= i < j < |s| && s[i] == x && s[j] == x
  {
    assert x in multiset(s) && x in s;
    var i :| 0 <= i < |s| && s[i] == x;
    if multiset(s)[x] >= 2 {
      var t := s[..i] + s[i + 1..];
      assert s == s[..i] + [x] + s[i + 1..];
      assert multiset(t)[x] >= 1;
      assert x in t;
      var j :| 0 <= j < |t| && t[j] == x;
      assert if j < i then s[j] == x else s[j + 1] == x;
    }
  }

  /** A sorting of a table's definitions is a table with the same definitions. */
  lemma SortingIsTable(t: seq<Variable>, s: seq<Variable>, m: map<string, string>)
    requires SortingOf(t, s) && Names(s) && UniqueNames(s) && Lists(s, m)
    ensures Table(t) && Lists(t, m)
  {
    forall v ensures v in t <==> v in s {
      assert v in t <==> v in multiset(t);
      assert v in s <==> v in multiset(s);
    }
    forall i, j | 0 <= i < j < |t|
      ensures t[i].name != t[j].name
    {
      if t[i].name == t[j].name {
        SameNameTwice(t, s, i, j);
      }
    }
  }

  lemma SameNameTwice(t: seq<Variable>, s: seq<Variable>, i: nat, j: nat)
    requires multiset(t) == multiset(s) && i < j < |t| && t[i].name == t[j].name
    ensures exists k, l :: 0 <= k < l < |s| && s[k].name == s[l].name
  {
    assert t[i] in multiset(t) && t[j] in multiset(t);
    if t[i] == t[j] {
      assert t == t[..i] + [t[i]] + t[i + 1..j] + [t[j]] + t[j + 1..];
      assert multiset(t)[t[i]] >= 2;
      Occurrence(s, t[i]);
    } else {
      Occurrence(s, t[i]);
      Occurrence(s, t[j]);
      var k :| 0 <= k < |s| && s[k] == t[i];
      var l :| 0 <= l < |s| && s[l] == t[j];
      assert k != l;
      assert s[Min(k, l)].name == s[Max(k, l)].name;
    }
  }

  class Config {
    var symbols: seq<Variable>
    ghost var definitions: map<string, string>

    ghost predicate Valid()
      reads this
    {
      Table(symbols) && Lists(symbols, definitions)
    }

    constructor ()
      ensures Valid() && definitions == map[]
    {
      symbols, definitions := [], map[];
    }

    /** `set $name value...` */
    method CmdSet(argv: seq<string>) returns (r: SetResult)
      requires Valid()
      modifies this
      ensures Valid()
      ensures r == if |argv| < 2 then TooFewArguments
                   else if argv[0] == "" || argv[0][0] != '$' then NoDollar else Defined
      ensures definitions ==
        if r == Defined then old(definitions)[argv[0] := Join(argv[1..])] else old(definitions)
    {
      if |argv| < 2 {
        return TooFewArguments;
      }
      if argv[0] == "" || argv[0][0] != '$' {
        return NoDollar;
      }
      var i := 0;
      while i < |symbols| && symbols[i].name != argv[0]
        invariant i <= |symbols|
        invariant forall j :: 0 <= j < i ==> symbols[j].name != argv[0]
      {
        i := i + 1;
      }
      var value := Join(argv[1..]);
      definitions := definitions[argv[0] := value];
      if i < |symbols| {
        symbols := symbols[i := Variable(symbols[i].name, value)];
        Overwritten(old(symbols), old(definitions), i, value);
      } else {
        var v := Variable(argv[0], value);
        Appended(symbols, old(definitions), v);
        symbols := Qsort(symbols, v);
        SortingIsTable(symbols, old(symbols) + [v], definitions);
      }
      return Defined;
    }
  }

  /** list_qsort with the length comparator, on a sorted list with one more variable at its end. Its
      contract promises some sorting and no more, as qsort does: equal lengths may come in any order. */
  method Qsort(s: seq<Variable>, v: Variable) returns (t: seq<Variable>)
    requires LongestFirst(s)
    ensures SortingOf(t, s + [v])
  {
    var p := 0;
    while p < |s| && |s[p].name| >= |v.name|
      invariant p <= |s|
      invariant forall j :: 0 <= j < p ==> |s[j].name| >= |v.name|
    {
      p := p + 1;
    }
    t := s[..p] + [v] + s[p..];
    assert s == s[..p] + s[p..];
    Inserted(s, v, p);
  }

  lemma Inserted(s: seq<Variable>, v: Variable, p: nat)
    requires LongestFirst(s) && p <= |s|
    requires forall j :: 0 <= j < p ==> |s[j].name| >= |v.name|
    requires p < |s| ==> |s[p].name| < |v.name|
    ensures LongestFirst(s[..p] + [v] + s[p..])
  {
    var t := s[..p] + [v] + s[p..];
    assert forall i :: 0 <= i < |t| ==> t[i] == if i < p then s[i] else if i == p then v else s[i - 1];
    assert forall j :: p <= j < |s| ==> |s[j].name| < |v.name|;
  }

  lemma Overwritten(s: seq<Variable>, m: map<string, string>, i: nat, value: string)
    requires Table(s) && Lists(s, m) && i < |s|
    ensures var v := Variable(s[i].name, value);
      Table(s[i := v]) && Lists(s[i := v], m[v.name := value])
  {
    hide LongestFirst;
    var v := Variable(s[i].name, value);
    var t, m' := s[i := v], m[v.name := value];
    OverwrittenTable(s, i, value);
    forall w | w in t ensures w.name in m' && m'[w.name] == w.value {
      var j :| 0 <= j < |t| && t[j] == w;
      assert j < i ==> s[j].name != s[i].name;
      assert i < j ==> s[i].name != s[j].name;
    }
    forall n | n in m' ensures Variable(n, m'[n]) in t {
      if n == v.name {
        assert t[i] == v;
      } else {
        var j :| 0 <= j < |s| && s[j] == Variable(n, m[n]);
        assert t[j] == s[j];
      }
    }
  }

  lemma OverwrittenTable(s: seq<Variable>, i: nat, value: string)
    requires Table(s) && i < |s|
    ensures Table(s[i := Variable(s[i].name, value)])
  {
    var t := s[i := Variable(s[i].name, value)];
    assert forall j :: 0 <= j < |s| ==> t[j].name == s[j].name;
    forall w | w in t ensures w.name != "" && w.name[0] == '$' {
      var j :| 0 <= j < |t| && t[j] == w;
      assert s[j] in s;
    }
  }

  lemma Appended(s: seq<Variable>, m: map<string, string>, v: Variable)
    requires Table(s) && Lists(s, m) && v.name != "" && v.name[0] == '$'
    requires forall j :: 0 <= j < |s| ==> s[j].name != v.name
    ensures var t := s + [v]; Names(t) && UniqueNames(t) && Lists(t, m[v.name := v.value])
  {
  }
}
