/** How a config line becomes a command's arguments (sway/commands.c, config_command). */
module ConfigLine {
  import opened StringOps
  import opened CStrings
  import opened Variables

  /** What the handler of a command asks of the pipeline. */
  datatype Handler = Unknown | Set | KeepsQuotes | Ordinary

  /** ReadsOn: unescaping an argument reads behind its terminator, and nothing is promised from there on. */
  datatype Outcome =
    | Ignored
    | Block(name: string)
    | BlockEnd
    | Invalid
    | ReadsOn
    | Call(handler: Handler, argv: seq<string>)

  /** The arguments after substitution and before quotes are stripped. */
  function Substituted(symbols: seq<Variable>, handler: Handler, argv: seq<string>): seq<string>
    requires Names(symbols) && argv != []
  {
    var escaped :=
      if handler.Set? && |argv| > 1 && argv[1] != "" && argv[1][0] == '$' then argv[1 := "$" + argv[1]] else argv;
    Tokens(Expand(symbols, "", Join(escaped)))
  }

  /** strip_quotes where the handler wants it. */
  function Bare(handler: Handler, arg: string): string {
    if handler.Ordinary? && StartsWithQuote(arg) then StripQuotesOf(arg) else arg
  }

  function Cleaned(handler: Handler, arg: string): string {
    Unescaped(Bare(handler, arg))
  }

  /** Some argument from index `first` on ends in a backslash that escapes nothing. */
  predicate Overruns(handler: Handler, argv: seq<string>, first: nat) {
    exists i :: first <= i < |argv| && Dangling(Bare(handler, argv[i]))
  }

  /** Arguments from index `first` on are cleaned. */
  function CleanedFrom(handler: Handler, argv: seq<string>, first: nat): (r: seq<string>)
    ensures |r| == |argv|
  {
    seq(|argv|, i requires 0 <= i < |argv| => if i < first then argv[i] else Cleaned(handler, argv[i]))
  }

  /** The arguments once a command kept in a variable has been put in. */
  function Resolved(symbols: seq<Variable>, argv: seq<string>): seq<string>
    requires Names(symbols)
  {
    if argv != [] && argv[0] != "" && argv[0][0] == '$'
    then Tokens(Join(argv[0 := Expand(symbols, "", argv[0])])) else argv
  }

  /** What a line comes to. */
  function OutcomeOf(symbols: seq<Variable>, exec: string, find: string -> Handler): Outcome
    requires Names(symbols)
  {
    var argv := Tokens(exec);
    if argv == [] then Ignored
    else if |argv| > 1 && argv[|argv| - 1] == "{" then Block(Join(argv[..|argv| - 1]))
    else if argv[|argv| - 1] == "}" then BlockEnd
    else
      var first := Resolved(symbols, argv);
      if first == [] then Ignored
      else if find(first[0]).Unknown? then Invalid
      else
        var handler := find(first[0]);
        var args, from := Substituted(symbols, handler, first), if handler.Set? then 2 else 1;
        if Overruns(handler, args, from) then ReadsOn else Call(handler, CleanedFrom(handler, args, from))
  }

  /** config_command up to the call of the handler; `find` is the table of handlers. */
  method ConfigCommand(symbols: seq<Variable>, exec: string, find: string -> Handler) returns (r: Outcome)
    requires Names(symbols)
    ensures r == OutcomeOf(symbols, exec, find)
  {
    hide Expand, Tokens, Unescaped, Dangling;
    var argv := SplitArgs(exec);
    if |argv| == 0 {
      return Ignored;
    }
    if |argv| > 1 && argv[|argv| - 1] == "{" {
      return Block(Join(argv[..|argv| - 1]));
    }
    if argv[|argv| - 1] == "}" {
      return BlockEnd;
    }
    if argv[0] != "" && argv[0][0] == '$' {
      var head := DoVarReplacement(symbols, argv[0]);
      argv := argv[0 := head];
      argv := SplitArgs(Join(argv));
      if |argv| == 0 {
        return Ignored;
      }
    }
    assert argv == Resolved(symbols, Tokens(exec));
    var handler := find(argv[0]);
    if handler.Unknown? {
      return Invalid;
    }
    if handler.Set? && |argv| > 1 && argv[1] != "" && argv[1][0] == '$' {
      argv := argv[1 := "$" + argv[1]];
    }
    var command := DoVarReplacement(symbols, Join(argv));
    argv := SplitArgs(command);
    ghost var split := argv;
    var first := if handler.Set? then 2 else 1;
    var i := first;
    while i < |argv|
      invariant first <= i && |argv| == |split|
      invariant forall k :: 0 <= k < |argv| ==>
        argv[k] == if first <= k < i then Cleaned(handler, split[k]) else split[k]
      invariant forall k :: first <= k < i && k < |split| ==> !Dangling(Bare(handler, split[k]))
    {
      var arg := argv[i];
      if handler.Ordinary? && StartsWithQuote(arg) {
        arg := StripQuotesOf(arg);
      }
      if Dangling(arg) {
        return ReadsOn;
      }
      argv := argv[i := Unescaped(arg)];
      i := i + 1;
    }
    assert argv == CleanedFrom(handler, split, first);
    return Call(handler, argv);
  }

  /** The join, substitute, split detour changes nothing on a line without dollars. */
  lemma PlainLine(symbols: seq<Variable>, handler: Handler, exec: string)
    requires Names(symbols) && '$' !in exec && Tokens(exec) != []
    ensures Resolved(symbols, Tokens(exec)) == Tokens(exec)
    ensures Substituted(symbols, handler, Tokens(exec)) == Tokens(exec)
  {
    var argv := Tokens(exec);
    TokensHoldTheText(exec);
    JoinHoldsTheText(argv);
    var line := Join(argv);
    ExpandPlain(symbols, "", line, "");
    assert line + "" == line && "" + line == line;
    SplitJoinSplit(exec);
  }

  /** Such a line in full: blocks, unknown commands, and the arguments of the others without quotes and escapes. */
  lemma LineWithoutDollars(symbols: seq<Variable>, exec: string, find: string -> Handler)
    requires Names(symbols) && '$' !in exec
    ensures var t, r := Tokens(exec), OutcomeOf(symbols, exec, find);
      if t == [] then r == Ignored
      else if |t| > 1 && t[|t| - 1] == "{" then r == Block(Join(t[..|t| - 1]))
      else if t[|t| - 1] == "}" then r == BlockEnd
      else if find(t[0]) == Unknown then r == Invalid
      else if r.ReadsOn? then exists i :: 0 < i < |t| && Dangling(BareText(find(t[0]), t[i]))
      else
        && r.Call? && r.handler == find(t[0]) && |r.argv| == |t| && r.argv[0] == t[0]
        && (find(t[0]) == Set && |t| > 1 ==> r.argv[1] == t[1])
        && forall i :: (if find(t[0]) == Set then 2 else 1) <= i < |t| ==>
             !Dangling(BareText(find(t[0]), t[i])) && r.argv[i] == Unescaped(BareText(find(t[0]), t[i]))
  {
    hide Expand, Tokens, Unescaped, Dangling, StripQuotesOf;
    if Tokens(exec) != [] {
      PlainLine(symbols, find(Tokens(exec)[0]), exec);
    }
  }

  /** Only an ordinary handler has the quotes taken off, of an argument that starts with one of either kind. */
  function BareText(handler: Handler, t: string): string {
    if handler == Ordinary && t != "" && (t[0] == '"' || t[0] == '\'') then StripQuotesOf(t) else t
  }

  /** A command kept in a variable: its value and the other arguments are split again. */
  lemma CommandInVariable(symbols: seq<Variable>, v: Variable, args: seq<string>)
    requires Table(symbols) && v in symbols && v.value != "" && v.value[|v.value| - 1] != '\\'
    requires !(|v.name| > 1 && v.name[1] == '$')
    ensures Resolved(symbols, [v.name] + args) == Tokens(Join([v.value] + args))
  {
    hide Expand, Tokens, Join;
    assert v.name[0] == '$';
    WholeName(symbols, v);
    assert ([v.name] + args)[0 := v.value] == [v.value] + args;
  }

  lemma WholeName(symbols: seq<Variable>, v: Variable)
    requires Table(symbols) && v in symbols && v.value != "" && v.value[|v.value| - 1] != '\\'
    requires !(|v.name| > 1 && v.name[1] == '$')
    ensures Expand(symbols, "", v.name) == v.value
  {
    hide Expand;
    var b := v.name[1..];
    assert v.name[0] == '$' && "$" + b == v.name && "" + "$" + b == v.name;
    assert v.name[|v.name|..] == "" && "" + v.value + "" == v.value;
    NamedDollar(symbols, "", b, v);
    ExpandNothing(symbols, "");
  }

  lemma {:induction false} TokensHoldTheText(s: string)
    ensures forall t, c :: t in Tokens(s) && c in t ==> c in s
    ensures forall t :: t in Tokens(s) ==> t != ""
    decreases |s|
  {
    if SkipSpace(s) != "" {
      var lead, t, rest := FirstToken(s);
      TokensHoldTheText(rest);
      assert forall c :: c in t || c in rest ==> c in s;
    } else {
      TokensUnfold(s);
    }
  }

  lemma {:induction false} JoinHoldsTheText(argv: seq<string>)
    ensures forall c :: c in Join(argv) && c != ' ' ==> exists t :: t in argv && c in t
  {
    if |argv| > 1 {
      JoinHoldsTheText(argv[1..]);
      forall c | c in Join(argv) && c != ' ' ensures exists t :: t in argv && c in t {
        if c in Join(argv[1..]) {
          var t :| t in argv[1..] && c in t;
          assert t in argv;
        } else {
          assert c in argv[0] && argv[0] in argv;
        }
      }
    } else if |argv| == 1 {
      assert argv[0] in argv;
    }
  }

  function Tail(argv: seq<string>): (tail: string)
    ensures tail != "" ==> tail[0] == ' '
  {
    if |argv| <= 2 then "" else " " + Join(argv[2..])
  }

  lemma JoinTwoAndMore(a: string, b: string, more: seq<string>)
    ensures Join([a, b] + more) == a + (" " + (b + if more == [] then "" else " " + Join(more)))
  {
    assert ([a, b] + more)[1..] == [b] + more;
    assert ([b] + more)[1..] == more;
    if more == [] {
      assert [b] + more == [b] && b + "" == b;
    } else {
      assert b + " " + Join(more) == b + (" " + Join(more));
    }
    assert a + " " + Join([b] + more) == a + (" " + Join([b] + more));
  }

  lemma JoinSet(argv: seq<string>)
    requires |argv| > 1
    ensures Join(argv) == argv[0] + (" " + (argv[1] + Tail(argv)))
  {
    hide Join;
    JoinTwoAndMore(argv[0], argv[1], argv[2..]);
    assert argv == [argv[0], argv[1]] + argv[2..];
  }

  /** The doubled dollar in front of the name comes out single, and the name is read behind it. */
  lemma SetExpands(symbols: seq<Variable>, head: string, name: string, tail: string)
    requires Names(symbols) && '$' !in head
    ensures Expand(symbols, "", head + (" " + ("$" + ("$" + name) + tail))) == Expand(symbols, head + " $", name + tail)
  {
    hide Expand;
    var done := head + " ";
    var rest := "$$" + (name + tail);
    assert head + (" " + ("$" + ("$" + name) + tail)) == done + rest && "" + done == done;
    ExpandPlain(symbols, "", done, rest);
    ExpandDouble(symbols, done, name + tail);
    assert done + "$" == head + " $";
  }

  /** Behind a name that passed unchanged comes nothing, or a space. */
  lemma AfterName(symbols: seq<Variable>, kept: string, tail: string) returns (after: string)
    requires Names(symbols) && (tail != "" ==> tail[0] == ' ')
    ensures Expand(symbols, kept, tail) == kept + after
    ensures after != "" ==> after[0] == ' ' && tail != ""
  {
    hide Expand;
    if tail == "" {
      ExpandNothing(symbols, kept);
      after := "";
    } else {
      ExpandPlain(symbols, kept, " ", tail[1..]);
      assert tail == " " + tail[1..];
      ExpandKeeps(symbols, kept + " ", tail[1..]);
      after := Expand(symbols, kept, tail)[|kept|..];
    }
  }

  lemma TokensOfSet(head: string, name: string, after: string)
    requires IsToken(head) && Closed(head) && IsToken(name)
    requires after != "" ==> Closed(name) && after[0] == ' '
    ensures Tokens(head + (" " + (name + after))) == [head, name] + Tokens(after)
  {
    hide Tokens, IsToken, Closed;
    TokensAfter(" ", name, after);
    var rest := " " + (name + after);
    TokensAfter("", head, rest);
    assert "" + (head + rest) == head + rest;
  }

  /** Two tokens: the head, and the one that a dollar opens. */
  lemma SecondToken(head: string, u: string) returns (t: string, more: string)
    requires IsToken(head) && Closed(head) && u != "" && u[0] == '$'
    ensures u == t + more && Tokens(head + (" " + u)) == [head, t] + Tokens(more)
  {
    hide Tokens, IsToken, Closed;
    var rest := " " + u;
    TokensAfter("", head, rest);
    assert "" + (head + rest) == head + rest;
    var lead;
    assert SkipSpace(rest) != "" by { assert rest[1..] == u; }
    lead, t, more := FirstToken(rest);
    assert lead == " " by { LeadIsOne(lead, t, more, u); }
    assert u == (" " + u)[1..] && t + more == (lead + (t + more))[1..];
  }

  lemma LeadIsOne(lead: string, t: string, more: string, u: string)
    requires " " + u == lead + (t + more) && u != "" && u[0] == '$' && AllSpace(lead) && IsToken(t)
    ensures lead == " "
  {
    var s := lead + (t + more);
    assert s[0] == ' ' && s[1] == '$' && s[|lead|] == t[0];
    assert forall k :: 0 <= k < |lead| ==> lead[k] == s[k];
  }

  /** The name that `set` defines survives substitution if no dollar of it but the first is doubled or starts a
      defined name; and if no defined value is empty or starts with a dollar, only then. */
  lemma SetKeepsItsName(symbols: seq<Variable>, argv: seq<string>, name: string)
    requires Names(symbols) && |argv| > 1 && Line(argv)
    requires '$' !in argv[0] && argv[1] == "$" + name
    ensures var args := Substituted(symbols, Set, argv);
      var untouched := Untouched(symbols, argv[0] + " $", name, Tail(argv));
      && |args| >= 2 && args[0] == argv[0]
      && (untouched ==> args[1] == argv[1])
      && (PlainValues(symbols) ==> (args[1] == argv[1] <==> untouched))
  {
    hide Expand, Tokens, IsToken, Closed, Join, Untouched, PlainValues;
    var head, tail := argv[0], Tail(argv);
    var done := head + " $";
    var escaped := argv[1 := "$" + argv[1]];
    JoinSet(escaped);
    assert escaped[2..] == argv[2..];
    SetExpands(symbols, head, name, tail);
    var e := Expand(symbols, done, name + tail);
    ExpandKeeps(symbols, done, name + tail);
    assert argv[0] in argv && argv[1] in argv;
    var u := e[|head| + 1..];
    assert e == head + (" " + u);
    var t, more := SecondToken(head, u);
    if Untouched(symbols, done, name, tail) {
      UntouchedPasses(symbols, done, name, tail);
      var after := AfterName(symbols, done + name, tail);
      assert e == head + (" " + (argv[1] + after));
      TokensOfSet(head, argv[1], after);
    } else if PlainValues(symbols) {
      TouchedChanges(symbols, done, name, tail);
      assert t == "$" + name ==> e == done + name + more;
    }
  }

  /** So a `set` line is handed to `set` with the name that it was written with under the same condition. */
  lemma SetLine(symbols: seq<Variable>, exec: string, find: string -> Handler, name: string)
    requires Names(symbols) && var argv := Tokens(exec);
      && |argv| > 1 && argv[|argv| - 1] != "{" && argv[|argv| - 1] != "}"
      && '$' !in argv[0] && argv[1] == "$" + name && find(argv[0]).Set?
    ensures var argv, r := Tokens(exec), OutcomeOf(symbols, exec, find);
      var untouched := Untouched(symbols, argv[0] + " $", name, Tail(argv));
      && (r.ReadsOn? <==> Overruns(Set, Substituted(symbols, Set, argv), 2))
      && (!r.ReadsOn? ==>
            && r.Call? && r.handler.Set? && |r.argv| >= 2
            && (untouched ==> r.argv[1] == argv[1])
            && (PlainValues(symbols) ==> (r.argv[1] == argv[1] <==> untouched)))
  {
    hide Expand, Tokens, Unescaped, Dangling, Untouched, PlainValues;
    var argv := Tokens(exec);
    var gaps := TokensRebuild(exec);
    SetKeepsItsName(symbols, argv, name);
    assert Resolved(symbols, argv) == argv by {
      assert argv[0] != "" ==> argv[0][0] in argv[0];
    }
  }

  /** Where it fails: once $b is defined, `set $a$b x` defines another variable. */
  lemma InnerDollarIsReplaced(find: string -> Handler)
    requires find("set").Set?
    ensures var symbols := [Variable("$b", "v")];
      && Names(symbols) && PlainValues(symbols)
      && OutcomeOf(symbols, "set $a$b x", find) == Call(Set, ["set", "$av", Unescaped("x")])
  {
    hide Expand, Tokens, Unescaped, IsToken, Closed;
    var symbols := [Variable("$b", "v")];
    SetTokens("$a$b");
    SetTokens("$av");
    var argv := ["set", "$a$b", "x"];
    assert "set " + "$a$b" + " x" == "set $a$b x" && "set " + "$av" + " x" == "set $av x";
    assert "$" + "$a$b" == "$$a$b" && "set" + " " + "$$a$b" + " " + "x" == "set $$a$b x";
    assert Resolved(symbols, argv) == argv;
    JoinThree("set", "$$a$b", "x");
    assert argv[1 := "$" + argv[1]] == ["set", "$$a$b", "x"];
    ExpandSetLine();
    assert Substituted(symbols, Set, argv) == ["set", "$av", "x"];
    assert CleanedFrom(Set, ["set", "$av", "x"], 2) == ["set", "$av", Unescaped("x")];
  }

  lemma JoinThree(a: string, b: string, c: string)
    ensures Join([a, b, c]) == a + " " + b + " " + c
  {
    assert [a, b, c][1..] == [b, c] && [b, c][1..] == [c];
    assert Join([c]) == c && Join([b, c]) == b + " " + c;
    assert a + " " + (b + " " + c) == a + " " + b + " " + c;
  }

  lemma SetTokens(name: string)
    requires name == "$a$b" || name == "$av"
    ensures Tokens("set " + name + " x") == ["set", name, "x"]
  {
    hide Tokens;
    assert name[..] == if name == "$a$b" then ['$', 'a', '$', 'b'] else ['$', 'a', 'v'];
    PlainIsToken("set");
    PlainIsToken(name);
    PlainIsToken("x");
    SplitOfJoin(["set", name, "x"]);
    JoinThree("set", name, "x");
    assert "set" + " " + name + " " + "x" == "set " + name + " x";
  }

  lemma {:induction false} PlainIsToken(t: string)
    requires t != "" && forall i :: 0 <= i < |t| ==> 'a' <= t[i] <= 'z' || t[i] == '$'
    ensures IsToken(t) && Closed(t)
  {
    assert Step(CLEAN, t[0]) == CLEAN;
    if |t| == 1 {
      assert t[1..] == "";
    } else {
      PlainIsToken(t[1..]);
    }
  }

  lemma ExpandSetLine()
    ensures var symbols := [Variable("$b", "v")];
      Names(symbols) && Expand(symbols, "", "set $$a$b x") == "set $av x"
  {
    hide Expand;
    var symbols := [Variable("$b", "v")];
    ExpandPlain(symbols, "", "set ", "$$a$b x");
    assert "" + "set " == "set " && "set " + "$$a$b x" == "set $$a$b x" && "$$" + "a$b x" == "$$a$b x";
    ExpandDouble(symbols, "set ", "a$b x");
    ExpandPlain(symbols, "set $", "a", "$b x");
    assert "a" + "$b x" == "a$b x" && "$b" + " x" == "$b x";
    ExpandVariable(symbols, "set $a", 0, " x");
    ExpandPlain(symbols, "set $av", " x", "");
    ExpandNothing(symbols, "set $av x");
    assert " x" + "" == " x" && "set " + "$" == "set $" && "set $" + "a" == "set $a";
    assert "set $a" + "v" == "set $av" && "set $av" + " x" == "set $av x";
  }

  /** And why the values matter: a variable whose value is its own name is put in without a trace. */
  lemma OwnValueLeavesNoTrace(argv: seq<string>)
    requires argv == ["set", "$a$b", "x"]
    ensures var symbols := [Variable("$b", "$b")];
      && Names(symbols) && !Untouched(symbols, "set $", "a$b", Tail(argv))
      && Expand(symbols, "set $", "a$b" + Tail(argv)) == "set $a$b x"
  {
    hide Expand;
    var symbols := [Variable("$b", "$b")];
    assert argv[2..] == ["x"] && Tail(argv) == " x";
    assert "a$b" + " x" == "a" + "$b x" && "$b" + " x" == "$b x";
    assert "a$b"[1..] == "$b" && FirstMatch(symbols, "$b x") == 0;
    ExpandPlain(symbols, "set $", "a", "$b x");
    assert "set $" + "a" == "set $a";
    ExpandVariable(symbols, "set $a", 0, " x");
    assert "set $a" + "$b" == "set $a$b" && " x" + "" == " x";
    ExpandPlain(symbols, "set $a$b", " x", "");
    ExpandNothing(symbols, "set $a$b x");
    assert "set $a$b" + " x" == "set $a$b x";
  }
}
