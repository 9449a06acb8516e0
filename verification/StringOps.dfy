/** The text engine of common/stringop.c: splitting into arguments, and joining them again. */
module StringOps {
  import opened Common

  predicate IsSpace(c: char) {
    c == ' ' || c == '\U{0C}' || c == '\n' || c == '\r' || c == '\t' || c == '\U{0B}'
  }

  predicate AllSpace(s: string) {
    forall i :: 0 <= i < |s| ==> IsSpace(s[i])
  }

  function SkipSpace(s: string): (r: string)
    ensures |r| <= |s|
    ensures r != "" ==> !IsSpace(r[0])
  {
    if s != "" && IsSpace(s[0]) then SkipSpace(s[1..]) else s
  }

  lemma {:induction false} LeadingSpace(s: string) returns (lead: string)
    ensures s == lead + SkipSpace(s) && AllSpace(lead)
    ensures lead == "" && s != "" ==> !IsSpace(s[0])
  {
    if s != "" && IsSpace(s[0]) {
      var inner := LeadingSpace(s[1..]);
      assert [s[0]] + inner + SkipSpace(s) == [s[0]] + (inner + SkipSpace(s));
      lead := [s[0]] + inner;
    } else {
      lead := "";
    }
  }

  // ----- split_args and join_args

  /** The flags split_args carries from character to character. */
  datatype Flags = Flags(inString: bool, inChar: bool, inBrackets: bool, escaped: bool)

  const CLEAN := Flags(false, false, false, false)

  function Step(q: Flags, c: char): Flags {
    var next :=
      if c == '"' && !q.inChar && !q.escaped then q.(inString := !q.inString)
      else if c == '\'' && !q.inString && !q.escaped then q.(inChar := !q.inChar)
      else if c == '[' && !q.inString && !q.inChar && !q.inBrackets && !q.escaped then q.(inBrackets := true)
      else if c == ']' && !q.inString && !q.inChar && q.inBrackets && !q.escaped then q.(inBrackets := false)
      else if c == '\\' then q.(escaped := !q.escaped)
      else q;
    if c != '\\' then next.(escaped := false) else next
  }

  function Run(q: Flags, s: string): Flags
    decreases |s|
  {
    if s == "" then q else Run(Step(q, s[0]), s[1..])
  }

  /** True when `c` ends the token that is being read. */
  predicate Splits(q: Flags, c: char) {
    q == CLEAN && IsSpace(c)
  }

  function TokenEnd(q: Flags, s: string): (n: nat)
    ensures n <= |s|
    decreases |s|
  {
    if s == "" || Splits(q, s[0]) then 0 else 1 + TokenEnd(Step(q, s[0]), s[1..])
  }

  function Tokens(s: string): seq<string>
    decreases |s|
  {
    var r := SkipSpace(s);
    if r == "" then [] else
      var n := TokenEnd(CLEAN, r);
      [r[..n]] + Tokens(r[n..])
  }

  /** A text that is one token: not empty, and whitespace occurs in it only where it is protected. */
  predicate IsToken(t: string) {
    t != "" && TokenEnd(CLEAN, t) == |t|
  }

  /** A token that ends with every quote, bracket and escape finished, so that whitespace can follow it. */
  predicate Closed(t: string) {
    Run(CLEAN, t) == CLEAN
  }

  /** Tokens that can stand in one line: only the last may be left open. */
  ghost predicate Line(tokens: seq<string>) {
    && (forall t :: t in tokens ==> IsToken(t))
    && (forall i :: 0 <= i < |tokens| - 1 ==> Closed(tokens[i]))
  }

  /** gaps[0] tokens[0] gaps[1] ... tokens[n-1] gaps[n] */
  ghost function Weave(gaps: seq<string>, tokens: seq<string>): string
    requires |gaps| == |tokens| + 1
  {
    if tokens == [] then gaps[0] else gaps[0] + (tokens[0] + Weave(gaps[1..], tokens[1..]))
  }

  /** Whitespace around and between tokens; a gap stands after every token but an unfinished last one. */
  ghost predicate Separates(gaps: seq<string>, tokens: seq<string>) {
    && |gaps| == |tokens| + 1
    && (forall i :: 0 <= i < |gaps| ==> AllSpace(gaps[i]))
    && (forall i :: 0 < i < |tokens| ==> gaps[i] != "")
    && (tokens != [] && gaps[|tokens|] != "" ==> Closed(tokens[|tokens| - 1]))
  }

  lemma {:induction false} RunConcat(q: Flags, s: string, t: string)
    ensures Run(q, s + t) == Run(Run(q, s), t)
    decreases |s|
  {
    if s == "" {
      assert s + t == t;
    } else {
      assert (s + t)[1..] == s[1..] + t;
      RunConcat(Step(q, s[0]), s[1..], t);
    }
  }

  /** Reading on after a text without a split point. */
  lemma {:induction false} TokenEndConcat(q: Flags, s: string, t: string)
    requires TokenEnd(q, s) == |s|
    ensures TokenEnd(q, s + t) == |s| + TokenEnd(Run(q, s), t)
    decreases |s|
  {
    if s == "" {
      assert s + t == t;
    } else {
      assert (s + t)[1..] == s[1..] + t;
      TokenEndConcat(Step(q, s[0]), s[1..], t);
    }
  }

  lemma {:induction false} TokenEndPrefix(q: Flags, s: string)
    ensures var n := TokenEnd(q, s);
      && TokenEnd(q, s[..n]) == n
      && (n < |s| ==> Splits(Run(q, s[..n]), s[n]))
    decreases |s|
  {
    if s != "" && !Splits(q, s[0]) {
      var n := TokenEnd(q, s);
      TokenEndPrefix(Step(q, s[0]), s[1..]);
      assert s[..n][1..] == s[1..][..n - 1];
    }
  }

  lemma FirstToken(s: string) returns (lead: string, t: string, rest: string)
    requires SkipSpace(s) != ""
    ensures s == lead + (t + rest) && |rest| < |s|
    ensures AllSpace(lead) && (lead == "" ==> !IsSpace(s[0]))
    ensures IsToken(t) && Tokens(s) == [t] + Tokens(rest)
    ensures rest != "" ==> Closed(t) && IsSpace(rest[0])
  {
    var r := SkipSpace(s);
    var n := TokenEnd(CLEAN, r);
    TokenEndPrefix(CLEAN, r);
    lead := LeadingSpace(s);
    t, rest := r[..n], r[n..];
    assert r == t + rest;
  }

  /** One more token, and the whitespace before it, in front of a line. */
  lemma WeaveCons(lead: string, t: string, gaps: seq<string>, tokens: seq<string>)
    requires Separates(gaps, tokens) && Line(tokens)
    requires AllSpace(lead) && IsToken(t)
    requires tokens != [] ==> gaps[0] != ""
    requires gaps[0] != "" ==> Closed(t)
    ensures Separates([lead] + gaps, [t] + tokens) && Line([t] + tokens)
    ensures Weave([lead] + gaps, [t] + tokens) == lead + (t + Weave(gaps, tokens))
  {
    hide IsToken, Closed, AllSpace;
    assert ([lead] + gaps)[1..] == gaps && ([t] + tokens)[1..] == tokens;
  }

  /** The tokens of any text, with the whitespace between them, rebuild the text. */
  lemma {:induction false} TokensRebuild(s: string) returns (gaps: seq<string>)
    ensures Separates(gaps, Tokens(s)) && Weave(gaps, Tokens(s)) == s
    ensures Line(Tokens(s))
    ensures s != "" && IsSpace(s[0]) ==> gaps[0] != ""
    decreases |s|
  {
    hide IsToken, Closed, IsSpace, AllSpace, Tokens, SkipSpace;
    TokensUnfold(s);
    if SkipSpace(s) == "" {
      var lead := LeadingSpace(s);
      assert lead + "" == lead;
      gaps := [s];
    } else {
      var lead, t, rest := FirstToken(s);
      var more := TokensRebuild(rest);
      TokensUnfold(rest);
      WeaveCons(lead, t, more, Tokens(rest));
      gaps := [lead] + more;
    }
  }

  lemma TokensUnfold(s: string)
    ensures SkipSpace(s) == "" ==> Tokens(s) == []
    ensures s == "" ==> SkipSpace(s) == ""
  {
  }

  lemma SkipSpaceOf(gap: string, t: string)
    requires AllSpace(gap) && (t != "" ==> !IsSpace(t[0]))
    ensures SkipSpace(gap + t) == t
  {
    if gap == "" {
      assert gap + t == t;
    } else {
      assert (gap + t)[1..] == gap[1..] + t;
      SkipSpaceOf(gap[1..], t);
    }
  }

  lemma TokensAfter(gap: string, t: string, more: string)
    requires AllSpace(gap) && IsToken(t)
    requires more != "" ==> Closed(t) && IsSpace(more[0])
    ensures Tokens(gap + (t + more)) == [t] + Tokens(more)
  {
    assert (t + more)[0] == t[0];
    SkipSpaceOf(gap, t + more);
    TokenEndConcat(CLEAN, t, more);
    assert (t + more)[..|t|] == t && (t + more)[|t|..] == more;
  }

  /** Conversely, a text that can be read as tokens with whitespace between them is split into just these
      tokens: the reading is unique. */
  lemma {:induction false} TokensOfWeave(gaps: seq<string>, tokens: seq<string>)
    requires Separates(gaps, tokens) && Line(tokens)
    ensures Tokens(Weave(gaps, tokens)) == tokens
    decreases |tokens|
  {
    hide Tokens, IsToken, Closed, AllSpace;
    if tokens == [] {
      SkipSpaceOf(gaps[0], "");
      assert gaps[0] + "" == gaps[0];
      TokensUnfold(gaps[0]);
    } else {
      var t, more := tokens[0], Weave(gaps[1..], tokens[1..]);
      TokensOfWeave(gaps[1..], tokens[1..]);
      if more != "" {
        WeaveStart(gaps[1..], tokens[1..]);
      }
      assert t in tokens;
      TokensAfter(gaps[0], t, more);
    }
  }

  lemma WeaveStart(gaps: seq<string>, tokens: seq<string>)
    requires |gaps| == |tokens| + 1 && AllSpace(gaps[0])
    requires gaps[0] != "" || tokens == []
    requires Weave(gaps, tokens) != ""
    ensures IsSpace(Weave(gaps, tokens)[0])
  {
  }

  function Join(argv: seq<string>): string {
    if argv == [] then "" else if |argv| == 1 then argv[0] else argv[0] + " " + Join(argv[1..])
  }

  /** Joined lists are joined by one space. */
  lemma {:induction false} JoinConcat(a: seq<string>, b: seq<string>)
    requires a != [] && b != []
    ensures Join(a + b) == Join(a) + " " + Join(b) && Join([a[0]]) == a[0]
  {
    if |a| == 1 {
      assert a + b == [a[0]] + b && (a + b)[1..] == b;
    } else {
      JoinConcat(a[1..], b);
      assert (a + b)[1..] == a[1..] + b;
      assert a[0] + " " + (Join(a[1..]) + " " + Join(b)) == a[0] + " " + Join(a[1..]) + " " + Join(b);
    }
  }

  ghost function SpaceGaps(n: nat): (gaps: seq<string>)
    ensures |gaps| == n + 1
    ensures forall i :: 0 <= i <= n ==> gaps[i] == if 0 < i < n then " " else ""
  {
    seq(n + 1, i => if 0 < i < n then " " else "")
  }

  lemma {:induction false} JoinIsWeave(argv: seq<string>, gaps: seq<string>)
    requires argv != [] && |gaps| == |argv| + 1
    requires forall i :: 0 < i < |argv| ==> gaps[i] == " "
    requires gaps[|argv|] == ""
    ensures Weave(gaps, argv) == gaps[0] + Join(argv)
  {
    if |argv| > 1 {
      JoinIsWeave(argv[1..], gaps[1..]);
      assert argv[0] + (" " + Join(argv[1..])) == argv[0] + " " + Join(argv[1..]);
    } else {
      assert argv[1..] == [] && Weave(gaps[1..], argv[1..]) == "";
      assert argv[0] + "" == argv[0];
    }
  }

  /** Joining tokens with single spaces and splitting again gives back the tokens. */
  lemma SplitOfJoin(tokens: seq<string>)
    requires tokens != [] && Line(tokens)
    ensures Tokens(Join(tokens)) == tokens
  {
    hide Tokens, Weave, Join, SpaceGaps, IsToken, Closed;
    var gaps := SpaceGaps(|tokens|);
    assert forall i :: 0 <= i < |gaps| ==> AllSpace(gaps[i]);
    JoinIsWeave(tokens, gaps);
    assert "" + Join(tokens) == Join(tokens);
    TokensOfWeave(gaps, tokens);
  }

  /** split_args(join_args(split_args(s))) == split_args(s) whenever s holds a token. */
  lemma SplitJoinSplit(s: string)
    requires Tokens(s) != []
    ensures Tokens(Join(Tokens(s))) == Tokens(s)
  {
    var _ := TokensRebuild(s);
    SplitOfJoin(Tokens(s));
  }

  // ----- what is protected, read off the text

  lemma WhatIsSpace(c: char)
    ensures IsSpace(c) <==> c as int == 32 || 9 <= c as int <= 13
  {
  }

  /** The index behind the quote that closes a quotation; `s` is what follows the opening quote. */
  function BehindQuote(s: string, quote: char): Option<nat>
    decreases |s|
  {
    if s == "" then None
    else if s[0] == quote then Some(1)
    else var n := if s[0] == '\\' then 2 else 1;
      if n > |s| then None else Behind(n, BehindQuote(s[n..], quote))
  }

  function Behind(n: nat, rest: Option<nat>): Option<nat> {
    match rest case None => None case Some(k) => Some(n + k)
  }

  /** The index behind the bracket that closes a criterion, in which quotations may stand. */
  function BehindBracket(s: string): Option<nat>
    decreases |s|
  {
    if s == "" then None
    else if s[0] == ']' then Some(1)
    else match UnitIn(s)
      case None => None
      case Some(n) => if 0 < n <= |s| then Behind(n, BehindBracket(s[n..])) else None
  }

  /** The length of a character with its backslash, or of a quotation. */
  function UnitIn(s: string): Option<nat>
    requires s != ""
  {
    if s[0] == '\\' then (if |s| >= 2 then Some(2) else None)
    else if s[0] == '"' || s[0] == '\'' then Behind(1, BehindQuote(s[1..], s[0]))
    else Some(1)
  }

  /** The same, or of a criterion. */
  function Unit(s: string): Option<nat>
    requires s != ""
  {
    if s[0] == '[' then Behind(1, BehindBracket(s[1..])) else UnitIn(s)
  }

  /** The length of the first word: units up to whitespace, or to the end if one is not finished. */
  function WordLength(s: string): (n: nat)
    ensures n <= |s|
    decreases |s|
  {
    if s == "" || IsSpace(s[0]) then 0
    else match Unit(s)
      case None => |s|
      case Some(n) => if 0 < n <= |s| then n + WordLength(s[n..]) else |s|
  }

  predicate Finished(s: string)
    decreases |s|
  {
    s == "" || match Unit(s) case None => false case Some(n) => 0 < n <= |s| && Finished(s[n..])
  }

  function Quoting(quote: char, brackets: bool): Flags {
    Flags(quote == '"', quote == '\'', brackets, false)
  }

  lemma {:induction false} QuoteIsRead(s: string, quote: char, brackets: bool)
    requires quote == '"' || quote == '\''
    ensures var q, after := Quoting(quote, brackets), Flags(false, false, brackets, false);
      match BehindQuote(s, quote)
      case None => TokenEnd(q, s) == |s| && Run(q, s) != CLEAN && Run(q, s).inBrackets == brackets
      case Some(n) => 0 < n <= |s| && TokenEnd(q, s) == n + TokenEnd(after, s[n..]) && Run(q, s) == Run(after, s[n..])
    decreases |s|
  {
    if s == "" || s[0] == quote || s == "\\" {
      QuoteEnds(s, quote, brackets);
    } else {
      hide TokenEnd, Run, Step;
      var n := if s[0] == '\\' then 2 else 1;
      QuoteIsRead(s[n..], quote, brackets);
      QuoteGoesOn(s, quote, brackets, n);
      assert forall k :: 0 <= k <= |s| - n ==> s[n..][k..] == s[n + k..];
    }
  }

  lemma QuoteEnds(s: string, quote: char, brackets: bool)
    requires (quote == '"' || quote == '\'') && (s == "" || s[0] == quote || s == "\\")
    ensures var q, after := Quoting(quote, brackets), Flags(false, false, brackets, false);
      if s != "" && s[0] == quote then TokenEnd(q, s) == 1 + TokenEnd(after, s[1..]) && Run(q, s) == Run(after, s[1..])
      else TokenEnd(q, s) == |s| && Run(q, s) != CLEAN && Run(q, s).inBrackets == brackets
  {
    if s == "\\" {
      assert s[1..] == "";
    }
  }

  lemma QuoteGoesOn(s: string, quote: char, brackets: bool, n: nat)
    requires (quote == '"' || quote == '\'') && s != "" && s[0] != quote
    requires n <= |s| && n == if s[0] == '\\' then 2 else 1
    ensures var q := Quoting(quote, brackets);
      TokenEnd(q, s) == n + TokenEnd(q, s[n..]) && Run(q, s) == Run(q, s[n..])
  {
    if n == 2 {
      assert s[1..][1..] == s[2..];
    }
  }

  lemma UnitInIsRead(s: string, brackets: bool)
    requires s != "" && if brackets then s[0] != ']' else s[0] != '['
    ensures var q := Flags(false, false, brackets, false);
      match UnitIn(s)
      case None => TokenEnd(q, s) == |s| && Run(q, s) != CLEAN && Run(q, s).inBrackets == brackets
      case Some(n) =>
        && 0 < n <= |s| && Run(q, s) == Run(q, s[n..])
        && (Splits(q, s[0]) || TokenEnd(q, s) == n + TokenEnd(q, s[n..]))
  {
    if s[0] == '"' || s[0] == '\'' {
      hide TokenEnd, Run, Step;
      QuoteOpens(s, brackets);
      QuoteIsRead(s[1..], s[0], brackets);
      assert forall n :: 0 <= n < |s| ==> s[1..][n..] == s[n + 1..];
    } else if s[0] == '\\' {
      BackslashIsRead(s, brackets);
    }
  }

  lemma QuoteOpens(s: string, brackets: bool)
    requires s != "" && (s[0] == '"' || s[0] == '\'')
    ensures var q, inside := Flags(false, false, brackets, false), Quoting(s[0], brackets);
      TokenEnd(q, s) == 1 + TokenEnd(inside, s[1..]) && Run(q, s) == Run(inside, s[1..]) && !Splits(q, s[0])
  {
  }

  lemma BackslashIsRead(s: string, brackets: bool)
    requires s != "" && s[0] == '\\'
    ensures var q := Flags(false, false, brackets, false);
      && (|s| == 1 ==> TokenEnd(q, s) == 1 && Run(q, s) == q.(escaped := true))
      && (|s| > 1 ==> TokenEnd(q, s) == 2 + TokenEnd(q, s[2..]) && Run(q, s) == Run(q, s[2..]))
  {
    assert |s| > 1 ==> s[1..][1..] == s[2..];
  }

  lemma {:induction false} BracketIsRead(s: string)
    ensures var q := Flags(false, false, true, false);
      match BehindBracket(s)
      case None => TokenEnd(q, s) == |s| && Run(q, s) != CLEAN
      case Some(n) =>
        0 < n <= |s| && TokenEnd(q, s) == n + TokenEnd(CLEAN, s[n..]) && Run(q, s) == Run(CLEAN, s[n..])
    decreases |s|
  {
    hide UnitIn;
    if s != "" && s[0] != ']' {
      UnitInIsRead(s, true);
      if UnitIn(s).Some? {
        var n := UnitIn(s).value;
        BracketIsRead(s[n..]);
        assert forall k :: 0 <= k <= |s| - n ==> s[n..][k..] == s[n + k..];
      }
    }
  }

  lemma UnitIsRead(s: string)
    requires s != ""
    ensures match Unit(s)
      case None => TokenEnd(CLEAN, s) == |s| && Run(CLEAN, s) != CLEAN
      case Some(n) =>
        && 0 < n <= |s| && Run(CLEAN, s) == Run(CLEAN, s[n..])
        && (IsSpace(s[0]) || TokenEnd(CLEAN, s) == n + TokenEnd(CLEAN, s[n..]))
  {
    if s[0] == '[' {
      BracketIsRead(s[1..]);
      assert forall n :: 0 <= n < |s| ==> s[1..][n..] == s[n + 1..];
    } else {
      UnitInIsRead(s, false);
    }
  }

  /** Words end at the first whitespace that is not in a quotation, in a criterion or behind a backslash. */
  lemma {:induction false} WordIsRead(s: string)
    ensures TokenEnd(CLEAN, s) == WordLength(s)
    decreases |s|
  {
    hide Unit;
    if s != "" && !IsSpace(s[0]) {
      UnitIsRead(s);
      if Unit(s).Some? {
        WordIsRead(s[Unit(s).value..]);
      }
    }
  }

  /** And another word can follow just behind a text in which all of these are finished. */
  lemma {:induction false} FinishedIsClosed(s: string)
    ensures Closed(s) <==> Finished(s)
    decreases |s|
  {
    hide Unit;
    if s != "" {
      UnitIsRead(s);
      if Unit(s).Some? {
        FinishedIsClosed(s[Unit(s).value..]);
      }
    }
  }

  /** The tokens of a text, without the flags. */
  lemma TokensByUnits(s: string)
    ensures var r := SkipSpace(s);
      Tokens(s) == if r == "" then [] else [r[..WordLength(r)]] + Tokens(r[WordLength(r)..])
  {
    WordIsRead(SkipSpace(s));
  }

  predicate Plain(t: string) {
    forall i :: 0 <= i < |t| ==> t[i] != '"' && t[i] != '\'' && t[i] != '[' && t[i] != ']' && t[i] != '\\'
  }

  /** So whatever blanks a text holds, in brackets or quotes of either kind it is one token. */
  lemma WrappedIsToken(t: string)
    requires Plain(t)
    ensures IsToken("[" + t + "]") && Closed("[" + t + "]")
    ensures IsToken("\"" + t + "\"") && Closed("\"" + t + "\"")
    ensures IsToken("'" + t + "'") && Closed("'" + t + "'")
  {
    hide *;
    WrappedBy('[', t, ']');
    WrappedBy('"', t, '"');
    WrappedBy('\'', t, '\'');
    assert "[" + t + "]" == ['['] + t + [']'];
    assert "\"" + t + "\"" == ['"'] + t + ['"'] && "'" + t + "'" == ['\''] + t + ['\''];
  }

  lemma WrappedBy(open: char, t: string, close: char)
    requires Plain(t) && ((open == '[' && close == ']') || (open == close && (open == '"' || open == '\'')))
    ensures IsToken([open] + t + [close]) && Closed([open] + t + [close])
  {
    var s := [open] + t + [close];
    assert s[1..] == t + [close];
    if open == '[' {
      PlainInBrackets(t);
    } else {
      PlainInQuotes(t, open);
    }
    assert Unit(s) == Some(|s|) && s[|s|..] == "";
    WordIsRead(s);
    FinishedIsClosed(s);
  }

  lemma {:induction false} PlainInBrackets(t: string)
    requires Plain(t)
    ensures BehindBracket(t + [']']) == Some(|t| + 1)
  {
    if t != "" {
      PlainInBrackets(t[1..]);
      assert (t + [']'])[1..] == t[1..] + [']'];
    }
  }

  lemma {:induction false} PlainInQuotes(t: string, quote: char)
    requires Plain(t) && (quote == '"' || quote == '\'')
    ensures BehindQuote(t + [quote], quote) == Some(|t| + 1)
  {
    if t != "" {
      PlainInQuotes(t[1..], quote);
      assert (t + [quote])[1..] == t[1..] + [quote];
    }
  }

  /** And so is a blank behind a backslash. */
  lemma EscapedIsToken(c: char)
    ensures IsToken(['\\', c]) && Closed(['\\', c])
  {
    var s := ['\\', c];
    assert Unit(s) == Some(2) && s[2..] == "";
    WordIsRead(s);
    FinishedIsClosed(s);
  }

  /** The text from index i on. */
  ghost function From(s: string, i: nat): string
    requires i <= |s|
  {
    s[i..]
  }

  /** s[start..end] is the start of a token, read with no split point in it up to flags q. */
  ghost predicate Reading(s: string, start: nat, end: nat, q: Flags) {
    start <= end <= |s| && TokenEnd(CLEAN, s[start..end]) == end - start && Run(CLEAN, s[start..end]) == q
  }

  lemma ReadingStarts(s: string, start: nat)
    requires start <= |s|
    ensures Reading(s, start, start, CLEAN)
  {
    assert s[start..start] == "";
  }

  lemma ReadingOn(s: string, start: nat, end: nat, q: Flags)
    requires Reading(s, start, end, q) && end < |s| && !Splits(q, s[end])
    ensures Reading(s, start, end + 1, Step(q, s[end]))
  {
    var read := s[start..end];
    assert s[start..end + 1] == read + [s[end]];
    RunConcat(CLEAN, read, [s[end]]);
    TokenEndConcat(CLEAN, read, [s[end]]);
  }

  lemma ReadingDone(s: string, start: nat, end: nat, q: Flags)
    requires Reading(s, start, end, q) && start < end && !IsSpace(s[start])
    requires end == |s| || Splits(q, s[end])
    ensures Tokens(From(s, start)) == [s[start..end]] + Tokens(From(s, end))
  {
    assert s[start..] == s[start..end] + s[end..];
    TokenEndConcat(CLEAN, s[start..end], s[end..]);
    assert s[start..][..end - start] == s[start..end] && s[start..][end - start..] == s[end..];
  }

  lemma TokensOfNothing(s: string)
    ensures Tokens(From(s, |s|)) == []
  {
  }

  /** The source's single loop, one character or one finished token per turn. */
  method SplitArgs(s: string) returns (argv: seq<string>)
    ensures argv == Tokens(s)
  {
    hide Reading, From, Tokens;
    argv := [];
    var start, end: nat := 0, 0;
    var inToken := false;
    var inString, inChar, inBrackets, escaped := false, false, false, false;
    FromStart(s);
    while start < |s|
      invariant start <= end <= |s|
      invariant Tokens(s) == argv + Tokens(From(s, if inToken then start else end))
      invariant !inToken ==> !escaped && (end < |s| ==> !inString && !inChar && !inBrackets)
      invariant inToken ==> start < end && !IsSpace(s[start])
      invariant inToken ==> Reading(s, start, end, Flags(inString, inChar, inBrackets, escaped))
      decreases |s| - end, inToken, |s| - start
    {
      if !inToken {
        end := Span(s, end);
        start := end;
        inToken := true;
        ReadingStarts(s, start);
      }
      ghost var q := Flags(inString, inChar, inBrackets, escaped);
      var addToken := false;
      if end < |s| && s[end] == '"' && !inChar && !escaped {
        inString := !inString;
      } else if end < |s| && s[end] == '\'' && !inString && !escaped {
        inChar := !inChar;
      } else if end < |s| && s[end] == '[' && !inString && !inChar && !inBrackets && !escaped {
        inBrackets := true;
      } else if end < |s| && s[end] == ']' && !inString && !inChar && inBrackets && !escaped {
        inBrackets := false;
      } else if end < |s| && s[end] == '\\' {
        escaped := !escaped;
      } else if end == |s| || (!inString && !inChar && !inBrackets && !escaped && IsSpace(s[end])) {
        addToken := true;
      }
      if addToken {
        if end - start > 0 {
          ReadingDone(s, start, end, q);
          argv := argv + [s[start..end]];
        }
        inToken := false;
        escaped := false;
      } else {
        if s[end] != '\\' {
          escaped := false;
        }
        ReadingOn(s, start, end, q);
        end := end + 1;
      }
    }
    TokensOfNothing(s);
  }

  lemma FromStart(s: string)
    ensures From(s, 0) == s
  {
  }

  /** The index after strspn(s + i, whitespace). */
  method Span(s: string, i: nat) returns (n: nat)
    requires i <= |s|
    ensures i <= n <= |s| && (n < |s| ==> !IsSpace(s[n]))
    ensures Tokens(From(s, n)) == Tokens(From(s, i))
  {
    n := i;
    while n < |s| && IsSpace(s[n])
      invariant i <= n <= |s| && Tokens(From(s, n)) == Tokens(From(s, i))
    {
      assert s[n..][1..] == s[n + 1..];
      n := n + 1;
    }
  }
}
