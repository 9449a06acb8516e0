/** From the payload of an IPC command to the arguments of its first command: newlines (sway/ipc-server.c 698-708),
    argsep (common/stringop.c 255-312) and execute_command (sway/commands.c 246-301). Criteria in brackets in front
    of a command are not part of this model. */
module CommandLine {
  import opened CStrings
  import opened Common
  import opened StringOps
  import opened Variables

  // ----- newlines

  /** The first newline of each run becomes a semicolon, but not at the very start; `last` is the character in front. */
  function RejoinedFrom(last: char, s: string): (r: string)
    ensures |r| == |s|
    decreases |s|
  {
    if s == "" then "" else
      [if s[0] == '\n' && last != '\n' then ';' else s[0]] + RejoinedFrom(s[0], s[1..])
  }

  function Rejoined(s: string): string {
    RejoinedFrom('\n', s)
  }

  lemma {:induction false} RejoinedAt(last: char, s: string, i: nat)
    requires i < |s|
    ensures RejoinedFrom(last, s)[i] ==
      if s[i] == '\n' && (if i == 0 then last else s[i - 1]) != '\n' then ';' else s[i]
    decreases |s|
  {
    if i > 0 {
      RejoinedAt(s[0], s[1..], i - 1);
    }
  }

  lemma {:induction false} RejoinedConcat(last: char, a: string, b: string)
    ensures RejoinedFrom(last, a + b) == RejoinedFrom(last, a) + RejoinedFrom(if a == "" then last else a[|a| - 1], b)
    decreases |a|
  {
    if a == "" {
      assert a + b == b;
    } else {
      RejoinedConcat(a[0], a[1..], b);
      assert (a + b)[1..] == a[1..] + b;
    }
  }

  lemma {:induction false} RejoinedPlain(last: char, s: string)
    requires '\n' !in s
    ensures RejoinedFrom(last, s) == s
    decreases |s|
  {
    if s != "" {
      assert s[0] in s && s == [s[0]] + s[1..];
      RejoinedPlain(s[0], s[1..]);
    }
  }

  /** The loop over strtok, which writes a semicolon over each terminator that strtok has put in. */
  method JoinLines(buf: array<char>, len: nat)
    requires len < buf.Length && buf[len] == NUL && NulFree(buf[..len])
    modifies buf
    ensures buf[..len] == Rejoined(old(buf[..len])) && buf[len] == NUL
    ensures forall i :: 0 <= i < len ==>
      buf[i] == if old(buf[i]) == '\n' && i > 0 && old(buf[i - 1]) != '\n' then ';' else old(buf[i])
  {
    ghost var s := buf[..len];
    var pos := 0;
    while true
      invariant pos <= len && (pos == 0 || s[pos - 1] == '\n') && buf[len] == NUL
      invariant forall k :: 0 <= k < len ==> buf[k] == if k < pos then Rejoined(s)[k] else s[k]
      decreases len - pos
    {
      pos := SkipNewlines(buf, pos, len, s);
      if pos == len {
        break;
      }
      pos := SkipLine(buf, pos, len, s);
      if pos == len {
        break;
      }
      RejoinedAt('\n', s, pos);
      buf[pos] := ';';
      pos := pos + 1;
    }
    assert buf[..len] == Rejoined(s);
    forall i | 0 <= i < len
      ensures buf[i] == if old(buf[i]) == '\n' && i > 0 && old(buf[i - 1]) != '\n' then ';' else old(buf[i])
    {
      RejoinedAt('\n', s, i);
      assert buf[i] == buf[..len][i] && s[i] == old(buf[i]) && (i > 0 ==> s[i - 1] == old(buf[i - 1]));
    }
  }

  /** strtok skips the delimiters in front of a token. */
  method SkipNewlines(buf: array<char>, at: nat, len: nat, ghost s: string) returns (pos: nat)
    requires at <= len < buf.Length && |s| == len && (at == 0 || s[at - 1] == '\n')
    requires forall k :: 0 <= k < len ==> buf[k] == if k < at then Rejoined(s)[k] else s[k]
    ensures at <= pos <= len && (pos < len ==> s[pos] != '\n') && (pos == 0 || s[pos - 1] == '\n')
    ensures forall k :: 0 <= k < len ==> buf[k] == if k < pos then Rejoined(s)[k] else s[k]
  {
    pos := at;
    while pos < len && buf[pos] == '\n'
      invariant at <= pos <= len && (pos == 0 || s[pos - 1] == '\n')
      invariant forall k :: 0 <= k < len ==> buf[k] == if k < pos then Rejoined(s)[k] else s[k]
    {
      RejoinedAt('\n', s, pos);
      pos := pos + 1;
    }
  }

  /** And then goes to the end of the token. */
  method SkipLine(buf: array<char>, at: nat, len: nat, ghost s: string) returns (pos: nat)
    requires at < len < buf.Length && |s| == len && s[at] != '\n'
    requires forall k :: 0 <= k < len ==> buf[k] == if k < at then Rejoined(s)[k] else s[k]
    ensures at < pos <= len && s[pos - 1] != '\n' && (pos < len ==> s[pos] == '\n')
    ensures forall k :: 0 <= k < len ==> buf[k] == if k < pos then Rejoined(s)[k] else s[k]
  {
    pos := at;
    while pos < len && buf[pos] != '\n'
      invariant at <= pos <= len && (at < pos ==> s[pos - 1] != '\n')
      invariant forall k :: 0 <= k < len ==> buf[k] == if k < pos then Rejoined(s)[k] else s[k]
    {
      RejoinedAt('\n', s, pos);
      pos := pos + 1;
    }
  }

  // ----- argsep

  datatype Quotes = Quotes(inString: bool, inChar: bool, escaped: bool)

  const NONE := Quotes(false, false, false)

  predicate IsDelim(c: char) {
    c == ';' || c == ','
  }

  predicate Interesting(c: char) {
    c == '"' || c == '\'' || c == '\\' || IsDelim(c)
  }

  /** The flags behind a character. The escape is not over with the character behind the backslash: only a character
      that is none of those looked for ends it. */
  function Past(q: Quotes, c: char): Quotes {
    if c == '"' && !q.inChar && !q.escaped then q.(inString := !q.inString)
    else if c == '\'' && !q.inString && !q.escaped then q.(inChar := !q.inChar)
    else if c == '\\' then q.(escaped := !q.escaped)
    else if Interesting(c) then q
    else q.(escaped := false)
  }

  /** Where the text is cut: at the first delimiter outside of quotes and escapes. */
  function CutAt(q: Quotes, s: string): (n: nat)
    ensures n <= |s| && (n < |s| ==> IsDelim(s[n]))
    decreases |s|
  {
    if s == "" || (IsDelim(s[0]) && q == NONE) then 0 else 1 + CutAt(Past(q, s[0]), s[1..])
  }

  function Through(q: Quotes, s: string): Quotes
    decreases |s|
  {
    if s == "" then q else Through(Past(q, s[0]), s[1..])
  }

  /** A command, what is left of the line, and the delimiter between them. */
  datatype Piece = Piece(cmd: string, rest: Option<string>, matched: char)

  /** Delimiters in front of a command are skipped. */
  function ArgSep(s: string): Piece {
    var n := CutAt(NONE, s);
    if n == |s| then Piece(s, None, NUL)
    else if n == 0 then ArgSep(s[1..])
    else Piece(s[..n], Some(s[n + 1..]), s[n])
  }

  lemma {:induction false} CutConcat(q: Quotes, a: string, b: string)
    requires CutAt(q, a) == |a|
    ensures CutAt(q, a + b) == |a| + CutAt(Through(q, a), b)
    decreases |a|
  {
    if a == "" {
      assert a + b == b;
    } else {
      assert (a + b)[1..] == a[1..] + b;
      CutConcat(Past(q, a[0]), a[1..], b);
    }
  }

  lemma {:induction false} ThroughConcat(q: Quotes, a: string, b: string)
    ensures Through(q, a + b) == Through(Through(q, a), b)
    decreases |a|
  {
    if a == "" {
      assert a + b == b;
    } else {
      assert (a + b)[1..] == a[1..] + b;
      ThroughConcat(Past(q, a[0]), a[1..], b);
    }
  }

  /** Without a delimiter there is no cut. */
  lemma {:induction false} NoDelimiter(q: Quotes, s: string)
    requires ';' !in s && ',' !in s
    ensures CutAt(q, s) == |s|
    decreases |s|
  {
    if s != "" {
      assert s[0] in s;
      NoDelimiter(Past(q, s[0]), s[1..]);
    }
  }

  // ----- what is cut, and what protects

  predicate Quiet(s: string) {
    forall i :: 0 <= i < |s| ==> s[i] != '"' && s[i] != '\'' && s[i] != '\\'
  }

  /** A semicolon or a comma behind text without quotes, backslashes and delimiters cuts, and one at the start is
      skipped. */
  lemma DelimiterCuts(a: string, d: char, b: string)
    requires Quiet(a) && (forall i :: 0 <= i < |a| ==> a[i] != ';' && a[i] != ',') && (d == ';' || d == ',')
    ensures ArgSep(a + [d] + b) == if a == "" then ArgSep(b) else Piece(a, Some(b), d)
  {
    var s, n := a + [d] + b, |a|;
    assert forall k :: 0 <= k < n ==> s[k] == a[k];
    SkipPlain(NONE, s, n);
    assert s[n..] == [d] + b && s[..n] == a && s[n + 1..] == b;
    assert CutAt(NONE, [d] + b) == 0;
  }

  /** In quotes of either kind nothing is cut. */
  lemma QuotesShield(quote: char, t: string, rest: string)
    requires (quote == '"' || quote == '\'') && Quiet(t)
    ensures CutAt(NONE, [quote] + t + [quote] + rest) == |t| + 2 + CutAt(NONE, rest)
  {
    var q := Past(NONE, quote);
    QuietInQuotes(quote, t);
    CutConcat(q, t, [quote] + rest);
    assert ([quote] + t + [quote] + rest)[1..] == t + ([quote] + rest) && ([quote] + rest)[1..] == rest;
  }

  lemma {:induction false} QuietInQuotes(quote: char, t: string)
    requires (quote == '"' || quote == '\'') && Quiet(t)
    ensures var q := Past(NONE, quote); CutAt(q, t) == |t| && Through(q, t) == q
    decreases |t|
  {
    if t != "" {
      QuietInQuotes(quote, t[1..]);
    }
  }

  /** A backslash shields all delimiters up to the next other character. */
  lemma BackslashShields(ds: string, c: char, b: string)
    requires (forall i :: 0 <= i < |ds| ==> ds[i] == ';' || ds[i] == ',') && Quiet([c]) && c != ';' && c != ','
    ensures CutAt(NONE, "\\" + ds + [c] + b) == |ds| + 2 + CutAt(NONE, b)
  {
    var q := Past(NONE, '\\');
    DelimitersEscaped(ds);
    CutConcat(q, ds, [c] + b);
    assert ("\\" + ds + [c] + b)[1..] == ds + ([c] + b) && ([c] + b)[1..] == b;
    assert [c][0] == c;
  }

  lemma {:induction false} DelimitersEscaped(ds: string)
    requires forall i :: 0 <= i < |ds| ==> ds[i] == ';' || ds[i] == ','
    ensures var q := Past(NONE, '\\'); CutAt(q, ds) == |ds| && Through(q, ds) == q
    decreases |ds|
  {
    if ds != "" {
      DelimitersEscaped(ds[1..]);
    }
  }

  /** The walk of the loop over characters that it does not look for. */
  lemma {:induction false} SkipPlain(q: Quotes, s: string, n: nat)
    requires n <= |s| && forall k :: 0 <= k < n ==> !Interesting(s[k])
    ensures CutAt(q, s) == n + CutAt(if n > 0 then q.(escaped := false) else q, s[n..])
    decreases n
  {
    if n == 0 {
      assert s[0..] == s;
    } else {
      SkipPlain(Past(q, s[0]), s[1..], n - 1);
      assert s[1..][n - 1..] == s[n..];
    }
  }

  /** What argsep comes to from the middle of its loop: `start` is the command's start, `end` where it looks next. */
  ghost function From(s: string, start: nat, end: nat, q: Quotes): Piece
    requires start <= end <= |s|
  {
    var n := end + CutAt(q, s[end..]);
    if n == |s| then Piece(s[start..], None, NUL)
    else if n == start then ArgSep(s[n + 1..])
    else Piece(s[start..n], Some(s[n + 1..]), s[n])
  }

  lemma FromFresh(s: string, k: nat)
    requires k <= |s|
    ensures From(s, k, k, NONE) == ArgSep(s[k..])
  {
    var t, n := s[k..], CutAt(NONE, s[k..]);
    assert n < |t| ==> t[n + 1..] == s[k + n + 1..] && t[1..] == s[k + 1..];
    assert t[..n] == s[k..k + n];
  }

  lemma FromSkips(s: string, start: nat, end: nat, q: Quotes, i: nat)
    requires start <= end <= i <= |s| && forall k :: end <= k < i ==> !Interesting(s[k])
    ensures From(s, start, end, q) == From(s, start, i, if i > end then q.(escaped := false) else q)
  {
    hide CutAt, Past;
    SkipPlain(q, s[end..], i - end);
    assert s[end..][i - end..] == s[i..];
  }

  lemma FromPast(s: string, start: nat, end: nat, q: Quotes)
    requires start <= end < |s| && !(IsDelim(s[end]) && q == NONE)
    ensures From(s, start, end, q) == From(s, start, end + 1, Past(q, s[end]))
  {
    hide Past;
    assert s[end..][1..] == s[end + 1..];
  }

  lemma FromCut(s: string, start: nat, i: nat)
    requires start <= i < |s| && IsDelim(s[i])
    ensures From(s, start, i, NONE) ==
      if i == start then ArgSep(s[i + 1..]) else Piece(s[start..i], Some(s[i + 1..]), s[i])
  {
    assert CutAt(NONE, s[i..]) == 0;
  }

  /** strpbrk over quotes, backslash and delimiters. */
  method NextInteresting(s: string, at: nat) returns (i: nat)
    requires at <= |s|
    ensures at <= i <= |s| && (i < |s| ==> Interesting(s[i])) && forall k :: at <= k < i ==> !Interesting(s[k])
  {
    i := at;
    while i < |s| && !Interesting(s[i])
      invariant at <= i <= |s| && forall k :: at <= k < i ==> !Interesting(s[k])
    {
      i := i + 1;
    }
  }

  /** argsep */
  method SplitAtDelimiter(s: string) returns (r: Piece)
    ensures r == ArgSep(s)
  {
    hide CutAt, ArgSep, From;
    var start, end, q := 0, 0, NONE;
    FromFresh(s, 0);
    assert s[0..] == s;
    while true
      invariant start <= end <= |s| && From(s, start, end, q) == ArgSep(s)
      decreases |s| - end
    {
      var i := NextInteresting(s, end);
      FromSkips(s, start, end, q, i);
      if i == |s| {
        FromEnd(s, start, if i > end then q.(escaped := false) else q);
        return Piece(s[start..], None, NUL);
      }
      ghost var before := q;
      if q.escaped && i != end {
        q := q.(escaped := false);
      }
      if s[i] == '"' && !q.inChar && !q.escaped {
        FromPast(s, start, i, q);
        q := q.(inString := !q.inString);
        end := i + 1;
      } else if s[i] == '\'' && !q.inString && !q.escaped {
        FromPast(s, start, i, q);
        q := q.(inChar := !q.inChar);
        end := i + 1;
      } else if s[i] == '\\' {
        FromPast(s, start, i, q);
        q := q.(escaped := !q.escaped);
        end := i + 1;
      } else if !q.inString && !q.inChar && !q.escaped {
        FromCut(s, start, i);
        if i > start {
          return Piece(s[start..i], Some(s[i + 1..]), s[i]);
        }
        start := start + 1;
        end := start;
        FromFresh(s, start);
      } else {
        FromPast(s, start, end, before);
        end := end + 1;
      }
    }
  }

  lemma FromEnd(s: string, start: nat, q: Quotes)
    requires start <= |s|
    ensures From(s, start, |s|, q) == Piece(s[start..], None, NUL)
  {
  }

  // ----- the arguments of a command

  predicate KeepsQuotes(name: string) {
    name == "exec" || name == "exec_always" || name == "mode"
  }

  /** execute_command strips quotes where an argument starts with one and then substitutes variables, but not in the
      name that `set` is given; it does not unescape. */
  function CommandArgs(symbols: seq<Variable>, isSet: string -> bool, cmd: string): (args: seq<string>)
    requires Names(symbols)
    ensures |args| == |Tokens(cmd)|
  {
    var argv := Tokens(cmd);
    seq(|argv|, i requires 0 <= i < |argv| => CommandArg(symbols, isSet, argv, i))
  }

  function CommandArg(symbols: seq<Variable>, isSet: string -> bool, argv: seq<string>, i: nat): string
    requires Names(symbols) && i < |argv|
  {
    var bare := if i > 0 && !KeepsQuotes(argv[0]) && StartsWithQuote(argv[i]) then StripQuotesOf(argv[i]) else argv[i];
    if i < (if isSet(argv[0]) then 2 else 1) then bare else Expand(symbols, "", bare)
  }

  method CommandArguments(symbols: seq<Variable>, isSet: string -> bool, cmd: string) returns (argv: seq<string>)
    requires Names(symbols)
    ensures argv == CommandArgs(symbols, isSet, cmd)
    ensures |argv| == |Tokens(cmd)| && (argv != [] ==> argv[0] == Tokens(cmd)[0])
    ensures forall i :: 0 < i < |argv| ==>
      var t := Tokens(cmd)[i];
      var whole := argv[0] == "exec" || argv[0] == "exec_always" || argv[0] == "mode";
      var bare := if !whole && t != "" && (t[0] == '"' || t[0] == '\'') then StripQuotesOf(t) else t;
      argv[i] == if isSet(argv[0]) && i == 1 then bare else Expand(symbols, "", bare)
  {
    hide Expand, Tokens, StripQuotesOf;
    argv := SplitArgs(cmd);
    ghost var split := argv;
    if argv == [] {
      return;
    }
    if argv[0] != "exec" && argv[0] != "exec_always" && argv[0] != "mode" {
      for i := 1 to |argv|
        invariant |argv| == |split| && argv[0] == split[0]
        invariant forall k :: 1 <= k < |argv| ==>
          argv[k] == if k < i && StartsWithQuote(split[k]) then StripQuotesOf(split[k]) else split[k]
      {
        if StartsWithQuote(argv[i]) {
          argv := argv[i := StripQuotesOf(argv[i])];
        }
      }
    }
    ghost var bare := argv;
    var from := if isSet(argv[0]) then 2 else 1;
    var i := from;
    while i < |argv|
      invariant from <= i && |argv| == |bare|
      invariant forall k :: 0 <= k < |argv| ==>
          argv[k] == if from <= k < i then Expand(symbols, "", bare[k]) else bare[k]
    {
      var arg := DoVarReplacement(symbols, argv[i]);
      argv := argv[i := arg];
      i := i + 1;
    }
  }

  /** The first command of a payload: its arguments, and the rest of the line if there is one. */
  function FirstCommand(symbols: seq<Variable>, isSet: string -> bool, payload: string): (seq<string>, Option<string>)
    requires Names(symbols)
  {
    var piece := ArgSep(SkipSpace(Rejoined(payload)));
    (CommandArgs(symbols, isSet, SkipSpace(piece.cmd)), piece.rest)
  }
}
