/** The `workspace "<name>"` command that swaybar sends (swaybar/ipc.c), and what the text engine makes of it. */
module WorkspaceCommand {
  import opened CStrings
  import opened CommandLine
  import opened Common
  import opened StringOps
  import opened Variables

  const PREFIX := "workspace \""

  predicate NeedsEscape(c: char) {
    c == '"' || c == '\\'
  }

  function EscapeChar(c: char): (e: string)
    ensures 1 <= |e| <= 2
  {
    if NeedsEscape(c) then ['\\', c] else [c]
  }

  function Escape(w: string): (e: string)
    ensures |e| >= |w|
  {
    if w == "" then "" else EscapeChar(w[0]) + Escape(w[1..])
  }

  function Quoted(w: string): string {
    "\"" + Escape(w) + "\""
  }

  function Command(w: string): string {
    PREFIX + Escape(w) + "\""
  }

  lemma {:induction false} EscapeConcat(a: string, b: string)
    ensures Escape(a + b) == Escape(a) + Escape(b)
  {
    if a == "" {
      assert a + b == b;
    } else {
      assert (a + b)[1..] == a[1..] + b;
      EscapeConcat(a[1..], b);
    }
  }

  lemma EscapeNext(w: string, i: nat)
    requires i < |w|
    ensures Escape(w[..i + 1]) == Escape(w[..i]) + EscapeChar(w[i])
    ensures |Escape(w[..i + 1])| <= |Escape(w)|
  {
    assert w[..i + 1] == w[..i] + [w[i]];
    EscapeConcat(w[..i], [w[i]]);
    assert Escape([w[i]]) == EscapeChar(w[i]) + Escape([w[i]][1..]);
    assert w == w[..i + 1] + w[i + 1..];
    EscapeConcat(w[..i + 1], w[i + 1..]);
  }

  /** Computes the size in a first pass and fills a buffer of that size in a second one. */
  method BuildCommand(ws: string) returns (command: array<char>)
    ensures command[..] == Command(ws) + [NUL]
  {
    hide Escape;
    EscapeNothing();
    var size := |PREFIX| + 1 + |ws|;
    for i := 0 to |ws|
      invariant size == |PREFIX| + 1 + |ws| - i + |Escape(ws[..i])|
    {
      EscapeNext(ws, i);
      if ws[i] == '"' || ws[i] == '\\' {
        size := size + 1;
      }
    }
    assert ws[..|ws|] == ws;
    assert size == |Command(ws)|;
    command := new char[size + 1];
    forall k | 0 <= k < |PREFIX| {
      command[k] := PREFIX[k];
    }
    command[size - 1] := '"';
    command[size] := NUL;
    FillName(command, ws, size);
    assert command[..] == command[..size - 1] + ['"'] + [NUL];
  }

  method FillName(command: array<char>, ws: string, size: nat)
    requires size == |Command(ws)| && size + 1 == command.Length
    requires command[..|PREFIX|] == PREFIX
    modifies command
    ensures command[..size - 1] == PREFIX + Escape(ws)
    ensures command[size - 1] == old(command[size - 1]) && command[size] == old(command[size])
  {
    hide Escape;
    EscapeNothing();
    var d := |PREFIX|;
    for i := 0 to |ws|
      invariant d == |PREFIX| + |Escape(ws[..i])| <= size - 1
      invariant command[..d] == PREFIX + Escape(ws[..i])
      invariant command[size - 1] == old(command[size - 1]) && command[size] == old(command[size])
    {
      EscapeNext(ws, i);
      ghost var before := command[..d];
      if ws[i] == '"' || ws[i] == '\\' {
        command[d] := '\\';
        d := d + 1;
      }
      command[d] := ws[i];
      d := d + 1;
      assert command[..d] == before + EscapeChar(ws[i]);
      assert command[..d] == PREFIX + (Escape(ws[..i]) + EscapeChar(ws[i]));
    }
    assert ws[..|ws|] == ws;
  }

  lemma EscapeNothing()
    ensures Escape("") == ""
  {
  }

  // ----- the tokenizer

  const IN_STRING := Flags(true, false, false, false)

  lemma EscapedCharInString(c: char)
    ensures TokenEnd(IN_STRING, EscapeChar(c)) == |EscapeChar(c)| && Run(IN_STRING, EscapeChar(c)) == IN_STRING
  {
    assert ['\\', c][1..] == [c] && [c][1..] == "";
    var escaped := IN_STRING.(escaped := true);
    assert Step(IN_STRING, '\\') == escaped;
    if NeedsEscape(c) {
      assert Step(escaped, c) == IN_STRING;
      assert Run(escaped, [c]) == IN_STRING && TokenEnd(escaped, [c]) == 1;
    } else {
      assert Step(IN_STRING, c) == IN_STRING;
    }
  }

  /** Inside double quotes an escaped name has no split point and leaves the quotes open. */
  lemma {:induction false} EscapedInString(w: string)
    ensures TokenEnd(IN_STRING, Escape(w)) == |Escape(w)| && Run(IN_STRING, Escape(w)) == IN_STRING
  {
    if w != "" {
      EscapedInString(w[1..]);
      EscapedCharInString(w[0]);
      RunConcat(IN_STRING, EscapeChar(w[0]), Escape(w[1..]));
      TokenEndConcat(IN_STRING, EscapeChar(w[0]), Escape(w[1..]));
    }
  }

  lemma QuotedIsToken(w: string)
    ensures IsToken(Quoted(w)) && Closed(Quoted(w))
  {
    EscapedInString(w);
    var e := Escape(w);
    assert Quoted(w)[1..] == e + "\"";
    RunConcat(IN_STRING, e, "\"");
    TokenEndConcat(IN_STRING, e, "\"");
    assert Step(IN_STRING, '"') == CLEAN && Step(CLEAN, '"') == IN_STRING;
    assert "\""[1..] == "";
    assert Run(IN_STRING, "\"") == CLEAN && TokenEnd(IN_STRING, "\"") == 1;
  }

  lemma {:induction false} PlainWordIsToken(t: string)
    requires t != "" && forall i :: 0 <= i < |t| ==> 'a' <= t[i] <= 'z'
    ensures IsToken(t) && Closed(t)
  {
    assert Step(CLEAN, t[0]) == CLEAN;
    if |t| > 1 {
      PlainWordIsToken(t[1..]);
    }
  }

  lemma JoinTwo(a: string, b: string)
    ensures Join([a, b]) == a + " " + b
  {
    assert [a, b][1..] == [b];
  }

  lemma CommandIsJoin(w: string)
    ensures Command(w) == Join(["workspace", Quoted(w)])
  {
    JoinTwo("workspace", Quoted(w));
    assert PREFIX == "workspace" + " " + "\"";
  }

  /** split_args makes two tokens of the command, whatever the name holds. */
  lemma CommandTokens(w: string)
    ensures Tokens(Command(w)) == ["workspace", Quoted(w)]
  {
    hide Tokens, IsToken, Closed, Quoted, Command, Join;
    PlainWordIsToken("workspace");
    QuotedIsToken(w);
    SplitOfJoin(["workspace", Quoted(w)]);
    CommandIsJoin(w);
  }

  lemma StripChar(c: char, rest: string)
    ensures Stripped(EscapeChar(c) + rest, true, false, false) == EscapeChar(c) + Stripped(rest, true, false, false)
  {
    var s := EscapeChar(c) + rest;
    if NeedsEscape(c) {
      assert s[1..] == [c] + rest && s[1..][1..] == rest;
    } else {
      assert s[1..] == rest;
    }
  }

  lemma {:induction false} StripEscaped(w: string, tail: string)
    ensures Stripped(Escape(w) + tail, true, false, false) == Escape(w) + Stripped(tail, true, false, false)
  {
    hide Stripped, EscapeChar;
    if w == "" {
      assert "" + tail == tail;
      assert "" + Stripped(tail, true, false, false) == Stripped(tail, true, false, false);
    } else {
      StripEscaped(w[1..], tail);
      StripChar(w[0], Escape(w[1..]) + tail);
      assert EscapeChar(w[0]) + (Escape(w[1..]) + tail) == Escape(w) + tail;
      assert EscapeChar(w[0]) + (Escape(w[1..]) + Stripped(tail, true, false, false))
          == Escape(w) + Stripped(tail, true, false, false);
    }
  }

  /** strip_quotes takes off just the two outer quotes. */
  lemma StripQuoted(w: string)
    ensures StripQuotesOf(Quoted(w)) == Escape(w)
  {
    StripEscaped(w, "\"");
    assert Quoted(w)[1..] == Escape(w) + "\"";
    assert "\""[1..] == "";
    assert Stripped("\"", true, false, false) == "";
  }

  lemma MarkChar(c: char, rest: string)
    ensures Mark(EscapeChar(c) + rest) == Prepend(if NeedsEscape(c) then [c, NUL] else [c], Mark(rest))
  {
    hide HexDigits, HexValue, Nuls, Prepend;
    var s := EscapeChar(c) + rest;
    if NeedsEscape(c) {
      assert s[0] == '\\' && s[1] == c && s[2..] == rest;
      assert SimpleEscape(c) + [NUL] == [c, NUL];
    } else {
      assert s[1..] == rest;
    }
  }

  lemma CompactChar(c: char)
    requires c != NUL
    ensures Compact(if NeedsEscape(c) then [c, NUL] else [c]) == [c]
  {
    assert [c, NUL][1..] == [NUL] && [NUL][1..] == "" && [c][1..] == "";
  }

  /** unescape_string undoes the escaping of every name a C string can hold. */
  lemma {:induction false} UnescapeEscaped(w: string)
    requires NulFree(w)
    ensures Mark(Escape(w)).stop == End && Compact(Mark(Escape(w)).text) == w
  {
    if w == "" {
    } else {
      hide Mark, Compact, EscapeChar, NeedsEscape;
      var rest := Escape(w[1..]);
      UnescapeEscaped(w[1..]);
      MarkChar(w[0], rest);
      CompactConcat(if NeedsEscape(w[0]) then [w[0], NUL] else [w[0]], Mark(rest).text);
      CompactChar(w[0]);
      assert w == [w[0]] + w[1..];
    }
  }

  /** The name survives building, splitting, stripping and unescaping. */
  lemma NameRoundTrip(w: string)
    requires NulFree(w)
    ensures var tokens := Tokens(Command(w));
      && |tokens| == 2 && tokens[0] == "workspace"
      && StripQuotesOf(tokens[1]) == Escape(w)
      && !Dangling(Escape(w)) && Unescaped(Escape(w)) == w
  {
    CommandTokens(w);
    StripQuoted(w);
    UnescapeEscaped(w);
  }

  // ----- what arrives in the compositor

  /** The name with newlines rejoined, as they are in the command. */
  function Rejoining(w: string): string {
    RejoinedFrom('"', w)
  }

  /** No character that is escaped, and no newline. */
  predicate Simple(w: string) {
    forall i :: 0 <= i < |w| ==> !NeedsEscape(w[i]) && w[i] != '\n'
  }

  /** How many double quotes stand in a name behind the last of its characters that argsep does not look for. */
  function QuotesInRun(v: string): nat {
    if v == "" then 0 else
      var last := v[|v| - 1];
      if Interesting(last) then QuotesInRun(v[..|v| - 1]) + if last == '"' then 1 else 0 else 0
  }

  predicate Even(v: string) {
    QuotesInRun(v) % 2 == 0
  }

  /** The second, fourth and so on double quote of a run ends the string that the bar has opened, or opens it again. */
  predicate InString(v: string) {
    v == "" ||
    var before, last := v[..|v| - 1], v[|v| - 1];
    InString(before) != (last == '"' && Even(v) && !InChar(before))
  }

  predicate InChar(v: string) {
    v != "" &&
    var before, last := v[..|v| - 1], v[|v| - 1];
    InChar(before) != (last == '\'' && Even(v) && !InString(before))
  }

  /** Each semicolon, comma and rejoined newline of the name is in a string, or its run has an odd number of double
      quotes in front of it. */
  predicate Shielded(v: string) {
    forall p :: 0 <= p < |v| && IsDelim(v[p]) ==> InString(v[..p]) || InChar(v[..p]) || !Even(v[..p])
  }

  predicate Uncut(w: string) {
    Shielded(Rejoining(w))
  }

  predicate LeftWhole(w: string) {
    CutAt(NONE, Command(Rejoining(w))) == |Command(Rejoining(w))|
  }

  /** These are the names that argsep leaves whole. */
  lemma LeftWholeIfUncut(w: string)
    ensures LeftWhole(w) <==> Uncut(w)
  {
    hide CutAt, Through, Escape, InString, InChar, Even, RejoinedFrom;
    var v := Rejoining(w);
    PrefixOpensQuotes();
    assert Command(v) == PREFIX + (Escape(v) + ['"']);
    CutConcat(NONE, PREFIX, Escape(v) + ['"']);
    WalkOfName(v);
    if CutAt(INSIDE, Escape(v)) == |Escape(v)| {
      CutConcat(INSIDE, Escape(v), ['"']);
      NoDelimiter(Through(INSIDE, Escape(v)), ['"']);
    } else {
      CutStays(INSIDE, Escape(v), ['"']);
    }
  }

  lemma {:induction false} CutStays(q: Quotes, a: string, b: string)
    requires CutAt(q, a) < |a|
    ensures CutAt(q, a + b) == CutAt(q, a)
    decreases |a|
  {
    assert (a + b)[1..] == a[1..] + b;
    if !(IsDelim(a[0]) && q == NONE) {
      CutStays(Past(q, a[0]), a[1..], b);
    }
  }

  /** argsep's flags inside the quotes can be read off the name, and it cuts where a delimiter is not shielded. */
  lemma {:induction false} WalkOfName(v: string)
    ensures Through(INSIDE, Escape(v)) == Quotes(InString(v), InChar(v), !Even(v)) || !Shielded(v)
    ensures CutAt(INSIDE, Escape(v)) == |Escape(v)| <==> Shielded(v)
  {
    if v == "" {
      WalkOfNothing();
    } else {
      hide CutAt, Through, Escape, InString, InChar, Even;
      var n := |v| - 1;
      var before, last := v[..n], v[n];
      WalkOfName(before);
      assert v == before + [last];
      EscapeConcat(before, [last]);
      EscapeOne(last);
      ShieldedNext(v);
      var q := Through(INSIDE, Escape(before));
      if Shielded(before) {
        ThroughConcat(INSIDE, Escape(before), EscapeChar(last));
        CutConcat(INSIDE, Escape(before), EscapeChar(last));
        WalkOfChar(v, q);
      } else {
        CutStays(INSIDE, Escape(before), EscapeChar(last));
      }
    }
  }

  lemma WalkOfNothing()
    ensures Escape("") == "" && Through(INSIDE, "") == INSIDE == Quotes(InString(""), InChar(""), !Even(""))
    ensures CutAt(INSIDE, "") == 0
  {
  }

  lemma EscapeOne(c: char)
    ensures Escape([c]) == EscapeChar(c)
  {
    assert Escape([c][1..]) == "";
  }

  lemma ShieldedNext(v: string)
    requires v != ""
    ensures var before, last := v[..|v| - 1], v[|v| - 1];
      Shielded(v) <==> Shielded(before) && (IsDelim(last) ==> InString(before) || InChar(before) || !Even(before))
  {
    hide InString, InChar, Even;
    var n := |v| - 1;
    assert forall p :: 0 <= p < n ==> v[..n][p] == v[p] && v[..n][..p] == v[..p];
  }

  lemma WalkOfChar(v: string, q: Quotes)
    requires v != "" && var before := v[..|v| - 1]; q == Quotes(InString(before), InChar(before), !Even(before))
    ensures var e := EscapeChar(v[|v| - 1]);
      && (CutAt(q, e) == |e| <==> IsDelim(v[|v| - 1]) ==> q != NONE)
      && Through(q, e) == Quotes(InString(v), InChar(v), !Even(v))
  {
    var c := v[|v| - 1];
    if NeedsEscape(c) {
      NoDelimiter(q, ['\\', c]);
      ThroughOne(q, '\\');
      ThroughOne(Past(q, '\\'), c);
      ThroughConcat(q, ['\\'], [c]);
      assert ['\\', c] == ['\\'] + [c];
    } else {
      ThroughOne(q, c);
    }
  }

  lemma ThroughOne(q: Quotes, c: char)
    ensures Through(q, [c]) == Past(q, c)
    ensures CutAt(q, [c]) == 1 <==> (IsDelim(c) ==> q != NONE)
  {
    assert [c][1..] == "";
  }

  /** Rejoining newlines and escaping do not meet. */
  lemma {:induction false} RejoinedEscape(last: char, w: string)
    ensures RejoinedFrom(last, Escape(w) + "\"") == Escape(RejoinedFrom(last, w)) + "\""
    decreases |w|
  {
    if w == "" {
      assert Escape(w) + "\"" == "\"" && "\""[1..] == "";
      RejoinedPlain(last, "\"");
    } else {
      var rest := Escape(w[1..]) + "\"";
      RejoinedEscape(w[0], w[1..]);
      assert Escape(w) + "\"" == EscapeChar(w[0]) + rest;
      RejoinedConcat(last, EscapeChar(w[0]), rest);
      RejoinedChar(last, w[0]);
      var v := RejoinedFrom(last, w);
      assert v[1..] == RejoinedFrom(w[0], w[1..]);
      assert EscapeChar(v[0]) + (Escape(v[1..]) + "\"") == Escape(v) + "\"";
    }
  }

  lemma RejoinedChar(last: char, c: char)
    ensures RejoinedFrom(last, EscapeChar(c)) == EscapeChar(if c == '\n' && last != '\n' then ';' else c)
  {
    assert ['\\', c][1..] == [c] && [c][1..] == "";
    assert RejoinedFrom('\\', [c]) == [if c == '\n' then ';' else c] + RejoinedFrom(c, "");
    assert RejoinedFrom(last, [c]) == [if c == '\n' && last != '\n' then ';' else c] + RejoinedFrom(c, "");
  }

  lemma RejoinedCommand(w: string)
    ensures Rejoined(Command(w)) == Command(Rejoining(w))
  {
    hide Escape, RejoinedFrom;
    assert Command(w) == PREFIX + (Escape(w) + "\"") && PREFIX[|PREFIX| - 1] == '"';
    RejoinedConcat('\n', PREFIX, Escape(w) + "\"");
    RejoinedPlain('\n', PREFIX);
    RejoinedEscape('"', w);
    assert PREFIX + (Escape(Rejoining(w)) + "\"") == Command(Rejoining(w));
  }

  /** Inside the quotes nothing is cut as long as the name has no quote and no backslash. */
  const INSIDE := Quotes(true, false, false)

  lemma {:induction false} InsideQuotes(v: string)
    requires forall i :: 0 <= i < |v| ==> !NeedsEscape(v[i])
    ensures CutAt(INSIDE, v) == |v| && Through(INSIDE, v) == INSIDE && Escape(v) == v
  {
    if v != "" {
      InsideQuotes(v[1..]);
      assert Past(INSIDE, v[0]) == INSIDE && v == [v[0]] + v[1..];
    }
  }

  lemma PrefixOpensQuotes()
    ensures CutAt(NONE, PREFIX) == |PREFIX| && Through(NONE, PREFIX) == INSIDE
  {
    hide CutAt, Through;
    NoDelimiter(NONE, PREFIX);
    var word := PREFIX[..|PREFIX| - 1];
    assert PREFIX == word + ['"'];
    ThroughWord(word);
    ThroughConcat(NONE, word, ['"']);
    OneQuote();
  }

  lemma OneQuote()
    ensures Through(NONE, ['"']) == INSIDE && CutAt(INSIDE, ['"']) == 1
  {
    assert ['"'][1..] == "";
    assert Past(NONE, '"') == INSIDE && Through(INSIDE, "") == INSIDE;
  }

  lemma {:induction false} ThroughWord(s: string)
    requires forall i :: 0 <= i < |s| ==> !Interesting(s[i])
    ensures Through(NONE, s) == NONE
  {
    if s != "" {
      ThroughWord(s[1..]);
    }
  }

  lemma ClosingQuote(v: string)
    requires CutAt(INSIDE, v) == |v| && Through(INSIDE, v) == INSIDE
    ensures CutAt(INSIDE, v + "\"") == |v| + 1
  {
    hide CutAt, Through;
    CutConcat(INSIDE, v, ['"']);
    OneQuote();
    assert v + "\"" == v + ['"'];
  }

  /** A name without quote and backslash is not cut, whatever delimiters it holds. */
  lemma SimpleIsUncut(w: string)
    requires forall i :: 0 <= i < |w| ==> !NeedsEscape(w[i])
    ensures Uncut(w)
  {
    LeftWholeIfUncut(w);
    hide CutAt, Through, RejoinedFrom, Escape;
    var v := Rejoining(w);
    forall i | 0 <= i < |v| ensures !NeedsEscape(v[i]) {
      RejoinedAt('"', w, i);
    }
    InsideQuotes(v);
    ClosingQuote(v);
    PrefixOpensQuotes();
    CutConcat(NONE, PREFIX, v + "\"");
    assert Command(v) == PREFIX + (v + "\"");
  }

  /** Nor is one without newline, semicolon and comma, whatever quotes it holds. */
  lemma NoDelimiterIsUncut(w: string)
    requires forall i :: 0 <= i < |w| ==> w[i] != '\n' && !IsDelim(w[i])
    ensures Uncut(w)
  {
    LeftWholeIfUncut(w);
    RejoinedPlain('"', w);
    EscapeHolds(w);
    NoDelimiter(NONE, Command(w));
  }

  lemma {:induction false} EscapeHolds(w: string)
    requires forall i :: 0 <= i < |w| ==> !IsDelim(w[i])
    ensures ';' !in Escape(w) && ',' !in Escape(w)
  {
    if w != "" {
      EscapeHolds(w[1..]);
      assert !IsDelim(w[0]);
    }
  }

  /** Two quotes in a row end argsep's string, because the escape in front of the first is still on at the second: at
      the next delimiter the name is cut, and the compositor runs more than one command. */
  lemma TwoQuotesThenDelimiter(a: string, d: char, b: string)
    requires (forall i :: 0 <= i < |a| ==> !NeedsEscape(a[i])) && (IsDelim(d) || d == '\n')
    ensures var w := a + "\"\"" + [d] + b; !Uncut(w)
  {
    LeftWholeIfUncut(a + "\"\"" + [d] + b);
    hide CutAt, Through, Escape;
    var w := a + "\"\"" + [d] + b;
    var v, va := Rejoining(w), RejoinedFrom('"', a);
    var vb := RejoinedFrom(d, b);
    RejoinTwoQuotes(a, d, b);
    var cut := if d == '\n' then ';' else d;
    forall i | 0 <= i < |va| ensures !NeedsEscape(va[i]) {
      RejoinedAt('"', a, i);
    }
    InsideQuotes(va);
    EscapeConcat(va, "\"\"" + [cut] + vb);
    EscapeTwoQuotes(cut, vb);
    var more := [cut] + Escape(vb) + "\"";
    assert v == va + ("\"\"" + [cut] + vb);
    assert Command(v) == PREFIX + (va + ("\\\"\\\"" + more));
    PrefixOpensQuotes();
    CutConcat(NONE, PREFIX, va + ("\\\"\\\"" + more));
    CutConcat(INSIDE, va, "\\\"\\\"" + more);
    CutAfterTwoQuotes(more);
  }

  lemma RejoinTwoQuotes(a: string, d: char, b: string)
    requires IsDelim(d) || d == '\n'
    ensures Rejoining(a + "\"\"" + [d] + b) ==
      RejoinedFrom('"', a) + ("\"\"" + [if d == '\n' then ';' else d] + RejoinedFrom(d, b))
  {
    hide RejoinedFrom;
    var last := if a == "" then '"' else a[|a| - 1];
    assert a + "\"\"" + [d] + b == a + (['"', '"', d] + b);
    RejoinedConcat('"', a, ['"', '"', d] + b);
    RejoinedThree(last, d, b);
    assert "\"\"" + [if d == '\n' then ';' else d] == ['"', '"', if d == '\n' then ';' else d];
  }

  lemma RejoinedThree(last: char, d: char, b: string)
    requires IsDelim(d) || d == '\n'
    ensures RejoinedFrom(last, ['"', '"', d] + b) == ['"', '"', if d == '\n' then ';' else d] + RejoinedFrom(d, b)
  {
    hide RejoinedFrom;
    assert ['"', '"', d] + b == ['"'] + (['"', d] + b) && ['"', d] + b == ['"'] + ([d] + b);
    RejoinedCons(last, '"', ['"', d] + b);
    RejoinedCons('"', '"', [d] + b);
    RejoinedCons('"', d, b);
  }

  lemma RejoinedCons(last: char, c: char, s: string)
    ensures RejoinedFrom(last, [c] + s) == [if c == '\n' && last != '\n' then ';' else c] + RejoinedFrom(c, s)
  {
    assert ([c] + s)[1..] == s;
  }

  lemma EscapeTwoQuotes(cut: char, vb: string)
    requires IsDelim(cut)
    ensures Escape("\"\"" + [cut] + vb) == "\\\"\\\"" + ([cut] + Escape(vb))
  {
    var t := "\"\"" + [cut] + vb;
    assert t[1..] == "\"" + [cut] + vb && t[1..][1..] == [cut] + vb && ([cut] + vb)[1..] == vb;
    assert Escape([cut] + vb) == [cut] + Escape(vb);
    assert Escape(t) == "\\\"" + ("\\\"" + ([cut] + Escape(vb)));
  }

  lemma CutAfterTwoQuotes(more: string)
    requires more != "" && IsDelim(more[0])
    ensures CutAt(INSIDE, "\\\"\\\"" + more) == 4
  {
    var s := "\\\"\\\"" + more;
    var on := INSIDE.(escaped := true);
    assert s[1..] == "\"\\\"" + more && s[1..][1..] == "\\\"" + more;
    assert ("\\\"" + more)[1..] == "\"" + more && ("\"" + more)[1..] == more;
    assert Past(INSIDE, '\\') == on && Past(on, '"') == on && Past(on, '\\') == INSIDE && Past(INSIDE, '"') == NONE;
    assert CutAt(NONE, more) == 0;
    assert CutAt(INSIDE, "\"" + more) == 1;
    assert CutAt(on, "\\\"" + more) == 2;
    assert CutAt(on, "\"\\\"" + more) == 3;
  }

  /** What execute_command hands to the workspace command, if argsep has left the command whole. */
  lemma ArgsOfName(symbols: seq<Variable>, isSet: string -> bool, w: string)
    requires Names(symbols) && !isSet("workspace")
    ensures CommandArgs(symbols, isSet, Command(w)) == ["workspace", Expand(symbols, "", Escape(w))]
  {
    hide Tokens, StripQuotesOf, Command, Escape, Expand;
    CommandTokens(w);
    StripQuoted(w);
    assert Quoted(w)[0] == '"';
  }

  lemma PieceOfCommand(v: string)
    ensures var piece := ArgSep(SkipSpace(Command(v)));
      && (piece.rest == None <==> CutAt(NONE, Command(v)) == |Command(v)|)
      && (piece.rest == None ==> SkipSpace(piece.cmd) == Command(v))
  {
    hide CutAt;
    var c := Command(v);
    assert c[0] == 'w' && SkipSpace(c) == c;
    assert CutAt(NONE, c) > 0 by { NotCutAtOnce(c); }
  }

  lemma NotCutAtOnce(s: string)
    requires s != "" && !IsDelim(s[0])
    ensures CutAt(NONE, s) > 0
  {
  }

  /** The name that reaches the workspace command. It is whole exactly if argsep does not cut it; then it is the escaped
      name, newlines rejoined, after substitution. So it is the intended name if that has no quote, backslash or
      newline and no dollar that is doubled or starts a defined name; and if no defined value is empty or starts with a
      dollar, only then. */
  lemma NameSeenByCompositor(symbols: seq<Variable>, isSet: string -> bool, w: string)
    requires Names(symbols) && !isSet("workspace")
    ensures var (args, rest) := FirstCommand(symbols, isSet, Command(w));
      && (rest == None <==> Uncut(w))
      && (Uncut(w) ==> args == ["workspace", Expand(symbols, "", Escape(Rejoining(w)))])
      && (Simple(w) && Untouched(symbols, "", w, "") ==> rest == None && args == ["workspace", w])
      && (PlainValues(symbols) && rest == None && args == ["workspace", w] ==>
           Simple(w) && Untouched(symbols, "", w, ""))
  {
    hide Tokens, Command, Escape, Expand, ArgSep, CutAt, Untouched, CommandArgs, RejoinedFrom, PlainValues;
    var v := Rejoining(w);
    RejoinedCommand(w);
    LeftWholeIfUncut(w);
    PieceOfCommand(v);
    ArgsOfName(symbols, isSet, v);
    if Simple(w) {
      SimpleIsUncut(w);
      SimpleStays(w);
      if Untouched(symbols, "", w, "") {
        UntouchedPasses(symbols, "", w, "");
        ExpandNothing(symbols, "" + w);
      } else if PlainValues(symbols) {
        TouchedChanges(symbols, "", w, "");
      }
      assert w + "" == w && "" + w == w;
    } else if PlainValues(symbols) {
      OthersChange(symbols, w);
    }
  }

  lemma SimpleStays(w: string)
    requires Simple(w)
    ensures Escape(Rejoining(w)) == w
  {
    RejoinedPlain('"', w);
    EscapeFixed(w);
  }

  /** What comes out never makes up for a backslash that was put in. */
  lemma {:induction false} BackslashesStay(symbols: seq<Variable>, done: string, more: string, b: string, v: string)
    requires Names(symbols) && |b| == |v| && more != "" && forall i :: 0 <= i < |more| ==> more[i] == '\\'
    requires forall i :: 0 <= i < |b| && b[i] == '\\' ==> v[i] == '\\'
    ensures Expand(symbols, done + more, Escape(v)) != done + b
    decreases |b|
  {
    ExpandKeeps(symbols, done + more, Escape(v));
    if b != "" && b[0] == '\\' {
      var rest := Escape(v[1..]);
      assert Escape(v) == "\\\\" + rest && '$' !in "\\\\";
      ExpandPlain(symbols, done + more, "\\\\", rest);
      BackslashesStay(symbols, done + "\\", more + "\\", b[1..], v[1..]);
      assert done + more + "\\\\" == done + "\\" + (more + "\\") by { OneFromTwo(done, more); }
      assert done + b == done + "\\" + b[1..];
    } else {
      assert (done + more)[|done|] == '\\';
      assert b != "" ==> (done + b)[|done|] == b[0];
    }
  }

  lemma OneFromTwo(done: string, more: string)
    requires forall i :: 0 <= i < |more| ==> more[i] == '\\'
    ensures done + more + "\\\\" == done + "\\" + (more + "\\")
  {
    var l, r := done + more + "\\\\", done + "\\" + (more + "\\");
    assert forall i :: |done| <= i < |l| ==> l[i] == '\\' && r[i] == '\\';
    assert l == r;
  }

  /** A name with a quote, a backslash or a newline does not come out as it was. */
  lemma OthersChange(symbols: seq<Variable>, w: string)
    requires Names(symbols) && PlainValues(symbols) && !Simple(w)
    ensures Expand(symbols, "", Escape(Rejoining(w))) != w
  {
    hide Expand, Untouched, Escape, RejoinedFrom, PlainValues;
    var p := FirstSpecial(w);
    var a, b := w[..p], w[p + 1..];
    var v := Rejoining(w);
    forall i | 0 <= i < |v| ensures v[i] == w[i] || (w[i] == '\n' && v[i] == ';') {
      RejoinedAt('"', w, i);
    }
    assert v[p] == if w[p] == '\n' then ';' else w[p] by { RejoinedAt('"', w, p); }
    assert v[..p] == a && v == v[..p] + v[p..] && v[p..] == [v[p]] + v[p + 1..];
    EscapeConcat(a, v[p..]);
    EscapeFixed(a);
    EscapeCons(v[p], v[p + 1..]);
    var t := EscapeChar(v[p]) + Escape(v[p + 1..]);
    if Untouched(symbols, "", a, t) {
      UntouchedPasses(symbols, "", a, t);
      assert "" + a == a;
      assert '$' !in EscapeChar(v[p]);
      ExpandPlain(symbols, a, EscapeChar(v[p]), Escape(v[p + 1..]));
      ExpandKeeps(symbols, a + EscapeChar(v[p]), Escape(v[p + 1..]));
      assert w == a + [w[p]] + b;
      if w[p] == '\\' {
        assert a + "\\\\" == a + "\\" + "\\" && EscapeChar('\\') == "\\\\" && [w[p]] == "\\";
        BackslashesStay(symbols, a + "\\", "\\", b, v[p + 1..]);
      } else {
        assert (a + EscapeChar(v[p]))[p] != w[p];
      }
    } else {
      TouchedChanges(symbols, "", a, t);
      assert "" + a == a && a <= w;
    }
  }

  lemma EscapeCons(c: char, s: string)
    ensures Escape([c] + s) == EscapeChar(c) + Escape(s)
  {
    assert ([c] + s)[1..] == s;
  }

  lemma FirstSpecial(w: string) returns (p: nat)
    requires !Simple(w)
    ensures p < |w| && Simple(w[..p]) && (NeedsEscape(w[p]) || w[p] == '\n')
  {
    p := 0;
    while !NeedsEscape(w[p]) && w[p] != '\n'
      invariant p < |w| && forall i :: 0 <= i < p ==> !NeedsEscape(w[i]) && w[i] != '\n'
      decreases |w| - p
    {
      p := p + 1;
    }
  }

  /** So a doubled dollar in a name arrives single. */
  lemma DoubledDollarArrivesSingle(symbols: seq<Variable>, isSet: string -> bool, a: string, b: string)
    requires Names(symbols) && !isSet("workspace") && Simple(a + "$$" + b)
    requires Untouched(symbols, "", a, "$$" + b)
    ensures FirstCommand(symbols, isSet, Command(a + "$$" + b)) ==
      (["workspace", a + "$" + Expand(symbols, "", b)], None)
  {
    hide Tokens, Command, Escape, Expand, ArgSep, CutAt, Untouched, CommandArgs, RejoinedFrom;
    var w := a + "$$" + b;
    NameSeenByCompositor(symbols, isSet, w);
    SimpleIsUncut(w);
    SimpleStays(w);
    assert !Protects(a) by { assert a != "" ==> w[|a| - 1] == a[|a| - 1]; }
    DoubledDollar(symbols, a, b);
  }

  lemma {:induction false} EscapeFixed(w: string)
    ensures Escape(w) == w <==> !exists i :: 0 <= i < |w| && NeedsEscape(w[i])
  {
    if w != "" {
      EscapeFixed(w[1..]);
      assert w == [w[0]] + w[1..];
      assert forall i :: 0 < i < |w| ==> w[i] == w[1..][i - 1];
      if NeedsEscape(w[0]) {
        assert |Escape(w)| == 2 + |Escape(w[1..])|;
      } else {
        assert Escape(w)[1..] == Escape(w[1..]);
        if exists i :: 0 <= i < |w[1..]| && NeedsEscape(w[1..][i]) {
          var i :| 0 <= i < |w[1..]| && NeedsEscape(w[1..][i]);
          assert NeedsEscape(w[i + 1]);
        }
      }
    }
  }
}
