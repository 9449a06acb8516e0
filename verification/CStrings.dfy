/** NUL-terminated character buffers that common/stringop.c edits in place: strip_quotes and
    unescape_string, and join_args, which fills a buffer of exactly computed size. */
module CStrings {
  import opened Common
  import opened StringOps

  const NUL := '\0'

  predicate NulFree(s: string) {
    NUL !in s
  }

  /** The C string a buffer holds: everything in front of the first NUL. */
  function CString(b: seq<char>): (s: string)
    ensures NulFree(s)
  {
    if b == [] || b[0] == NUL then "" else [b[0]] + CString(b[1..])
  }

  predicate Terminated(b: seq<char>) {
    NUL in b
  }

  lemma {:induction false} CStringOf(s: string, tail: seq<char>)
    requires NulFree(s) && tail != [] && tail[0] == NUL
    ensures CString(s + tail) == s
  {
    if s == "" {
      assert s + tail == tail;
    } else {
      assert (s + tail)[1..] == s[1..] + tail;
      CStringOf(s[1..], tail);
    }
  }

  lemma {:induction false} CStringSplit(b: seq<char>)
    requires Terminated(b)
    ensures |CString(b)| < |b| && b[|CString(b)|] == NUL && b[..|CString(b)|] == CString(b)
  {
    if b[0] != NUL {
      CStringSplit(b[1..]);
      assert b[..|CString(b)|] == [b[0]] + b[1..][..|CString(b[1..])|];
    }
  }

  method Strlen(buf: array<char>) returns (n: nat)
    requires Terminated(buf[..])
    ensures n < buf.Length && buf[n] == NUL && buf[..n] == CString(buf[..]) && n == |CString(buf[..])|
  {
    CStringSplit(buf[..]);
    n := 0;
    while buf[n] != NUL
      invariant n <= |CString(buf[..])| < buf.Length
      invariant forall k :: 0 <= k < n ==> buf[k] != NUL
      decreases buf.Length - n
    {
      assert n != |CString(buf[..])|;
      n := n + 1;
    }
    assert forall k :: 0 <= k < |CString(buf[..])| ==> buf[k] == CString(buf[..])[k];
  }

  // ----- strip_quotes

  /** Drops the quotes that are not protected by a backslash or by quotes of the other kind. */
  function Stripped(s: string, inStr: bool, inChr: bool, escaped: bool): (r: string)
    ensures |r| <= |s|
    decreases |s|
  {
    if s == "" then ""
    else if s[0] == '\'' && !inStr && !escaped then Stripped(s[1..], inStr, !inChr, escaped)
    else if s[0] == '"' && !inChr && !escaped then Stripped(s[1..], !inStr, inChr, escaped)
    else [s[0]] + Stripped(s[1..], inStr, inChr, s[0] == '\\' && !escaped)
  }

  function StripQuotesOf(s: string): string {
    Stripped(s, false, false, false)
  }

  /** The characters of `s` other than quotes, in order. */
  ghost function Unquoted(s: string): string {
    if s == "" then "" else (if s[0] == '\'' || s[0] == '"' then "" else [s[0]]) + Unquoted(s[1..])
  }

  /** What callers ask before they strip. */
  predicate StartsWithQuote(s: string) {
    s != "" && (s[0] == '"' || s[0] == '\'')
  }

  /** Only quotes are dropped. */
  lemma {:induction false} StripKeepsTheRest(s: string, inStr: bool, inChr: bool, escaped: bool)
    ensures Unquoted(Stripped(s, inStr, inChr, escaped)) == Unquoted(s)
    ensures NulFree(s) ==> NulFree(Stripped(s, inStr, inChr, escaped))
    decreases |s|
  {
    if s != "" {
      if s[0] == '\'' && !inStr && !escaped {
        StripKeepsTheRest(s[1..], inStr, !inChr, escaped);
      } else if s[0] == '"' && !inChr && !escaped {
        StripKeepsTheRest(s[1..], !inStr, inChr, escaped);
      } else {
        var next := s[0] == '\\' && !escaped;
        StripKeepsTheRest(s[1..], inStr, inChr, next);
        var rest := Stripped(s[1..], inStr, inChr, next);
        assert ([s[0]] + rest)[1..] == rest;
      }
    }
  }

  /** The same by units: a character with its backslash stays, a quotation loses its quotes and nothing else, and one
      that is not finished loses the first. */
  function Unwrapped(s: string): string
    decreases |s|
  {
    if s == "" then ""
    else if s[0] == '\\' then (if |s| >= 2 then s[..2] + Unwrapped(s[2..]) else s)
    else if s[0] == '"' || s[0] == '\'' then
      match BehindQuote(s[1..], s[0])
      case None => s[1..]
      case Some(n) => if 0 < n < |s| then s[1..n] + Unwrapped(s[1 + n..]) else s
    else [s[0]] + Unwrapped(s[1..])
  }

  lemma {:induction false} StrippedIsUnwrapped(s: string)
    ensures StripQuotesOf(s) == Unwrapped(s)
    decreases |s|
  {
    if s != "" {
      if s[0] == '\\' {
        if |s| >= 2 {
          BackslashKept(s, false, false);
          StrippedIsUnwrapped(s[2..]);
        } else {
          assert s[1..] == "";
        }
      } else if s[0] == '"' || s[0] == '\'' {
        hide Stripped, BehindQuote;
        QuoteStarts(s);
        InsideIsKept(s[1..], s[0]);
        if BehindQuote(s[1..], s[0]).Some? {
          var n := BehindQuote(s[1..], s[0]).value;
          assert s[1..][n..] == s[1 + n..] && s[1..][..n - 1] == s[1..n];
          StrippedIsUnwrapped(s[1 + n..]);
        }
      } else {
        StrippedIsUnwrapped(s[1..]);
      }
    }
  }

  lemma BackslashKept(s: string, inStr: bool, inChr: bool)
    requires |s| >= 2 && s[0] == '\\'
    ensures Stripped(s, inStr, inChr, false) == s[..2] + Stripped(s[2..], inStr, inChr, false)
  {
    var rest := Stripped(s[2..], inStr, inChr, false);
    assert s[1..][1..] == s[2..];
    assert Stripped(s[1..], inStr, inChr, true) == [s[1]] + rest;
    assert [s[0]] + ([s[1]] + rest) == s[..2] + rest;
  }

  lemma QuoteStarts(s: string)
    requires s != "" && (s[0] == '"' || s[0] == '\'')
    ensures StripQuotesOf(s) == Stripped(s[1..], s[0] == '"', s[0] == '\'', false)
  {
  }

  lemma {:induction false} InsideIsKept(s: string, quote: char)
    requires quote == '"' || quote == '\''
    ensures var inside := Stripped(s, quote == '"', quote == '\'', false);
      match BehindQuote(s, quote)
      case None => inside == s
      case Some(n) => 0 < n <= |s| && inside == s[..n - 1] + StripQuotesOf(s[n..])
    decreases |s|
  {
    if s == "" || s[0] == quote || s == "\\" {
      InsideEnds(s, quote);
    } else {
      hide *;
      var k := if s[0] == '\\' then 2 else 1;
      InsideIsKept(s[k..], quote);
      InsideGoesOn(s, quote, k);
      BehindNext(s, quote, k);
      assert s == s[..k] + s[k..];
      if BehindQuote(s[k..], quote).Some? {
        var n := BehindQuote(s[k..], quote).value;
        InsideParts(s, k, n, StripQuotesOf(s[k..][n..]));
        assert Stripped(s, quote == '"', quote == '\'', false) == s[..k + n - 1] + StripQuotesOf(s[k + n..]);
      }
    }
  }

  lemma BehindNext(s: string, quote: char, k: nat)
    requires s != "" && s[0] != quote && k <= |s| && k == if s[0] == '\\' then 2 else 1
    ensures match BehindQuote(s[k..], quote)
      case None => BehindQuote(s, quote) == None
      case Some(n) => BehindQuote(s, quote) == Some(k + n)
  {
  }

  lemma InsideParts(s: string, k: nat, n: nat, rest: string)
    requires k <= |s| && 0 < n <= |s| - k
    ensures s[..k] + (s[k..][..n - 1] + rest) == s[..k + n - 1] + rest && s[k..][n..] == s[k + n..]
  {
    assert s[..k] + s[k..][..n - 1] == s[..k + n - 1];
  }

  lemma InsideEnds(s: string, quote: char)
    requires (quote == '"' || quote == '\'') && (s == "" || s[0] == quote || s == "\\")
    ensures Stripped(s, quote == '"', quote == '\'', false) ==
      if s != "" && s[0] == quote then StripQuotesOf(s[1..]) else s
  {
    if s == "\\" {
      assert s[1..] == "";
    }
  }

  lemma InsideGoesOn(s: string, quote: char, k: nat)
    requires (quote == '"' || quote == '\'') && s != "" && s[0] != quote
    requires k <= |s| && k == if s[0] == '\\' then 2 else 1
    ensures Stripped(s, quote == '"', quote == '\'', false) ==
      s[..k] + Stripped(s[k..], quote == '"', quote == '\'', false)
  {
    if k == 2 {
      BackslashKept(s, quote == '"', quote == '\'');
    }
  }

  /** The buffer while strip_quotes is at index i: stripped up to i, original from there to the NUL at end. */
  ghost predicate Stripping(b: seq<char>, i: nat, end: nat, s: string, inStr: bool, inChr: bool, escaped: bool) {
    && i <= end < |b| && b[end] == NUL && NulFree(b[..end])
    && StripQuotesOf(s) == b[..i] + Stripped(b[i..end], inStr, inChr, escaped)
  }

  lemma StrippingKeeps(b: seq<char>, i: nat, end: nat, s: string, inStr: bool, inChr: bool, escaped: bool)
    requires Stripping(b, i, end, s, inStr, inChr, escaped) && i < end
    requires b[i] == '\'' ==> inStr || escaped
    requires b[i] == '"' ==> inChr || escaped
    ensures Stripping(b, i + 1, end, s, inStr, inChr, b[i] == '\\' && !escaped)
  {
    assert b[i..end] == [b[i]] + b[i + 1..end];
    assert b[..i + 1] == b[..i] + [b[i]];
  }

  lemma StrippingDrops(b: seq<char>, i: nat, end: nat, s: string, inStr: bool, inChr: bool)
    requires Stripping(b, i, end, s, inStr, inChr, false) && i < end
    requires (b[i] == '\'' && !inStr) || (b[i] == '"' && !inChr)
    ensures Stripping(Shifted(b, i, end), i, end - 1, s,
      if b[i] == '"' then !inStr else inStr, if b[i] == '\'' then !inChr else inChr, false)
  {
    var t := Shifted(b, i, end);
    assert b[i..end] == [b[i]] + b[i + 1..end];
    assert t[..i] == b[..i] && t[i..end - 1] == b[i + 1..end];
    assert t[..end - 1] == b[..i] + b[i + 1..end];
  }

  lemma NotNul(s: string, i: nat)
    requires NulFree(s) && i < |s|
    ensures s[i] != NUL
  {
    assert s[i] in s;
  }

  lemma StrippingEnd(b: seq<char>, i: nat, end: nat, s: string, inStr: bool, inChr: bool, escaped: bool)
    requires Stripping(b, i, end, s, inStr, inChr, escaped)
    ensures b[i] == NUL <==> i == end
  {
    if i < end {
      NotNul(b[..end], i);
    }
  }

  lemma StrippingDone(b: seq<char>, end: nat, s: string, inStr: bool, inChr: bool, escaped: bool)
    requires Stripping(b, end, end, s, inStr, inChr, escaped)
    ensures Terminated(b) && CString(b) == StripQuotesOf(s)
  {
    assert b == b[..end] + b[end..] && b[end..end] == "";
    CStringOf(b[..end], b[end..]);
  }

  lemma StrippingStarts(b: seq<char>, end: nat)
    requires Terminated(b) && end == |CString(b)|
    ensures Stripping(b, 0, end, CString(b), false, false, false)
  {
    CStringSplit(b);
    assert b[0..end] == b[..end] && b[..0] == "";
  }

  method StripQuotes(buf: array<char>)
    requires Terminated(buf[..])
    modifies buf
    ensures Terminated(buf[..]) && CString(buf[..]) == StripQuotesOf(old(CString(buf[..])))
  {
    hide CString, Stripped, StripQuotesOf, Shifted;
    ghost var s := CString(buf[..]);
    var inStr, inChr, escaped := false, false, false;
    var end: nat := Strlen(buf);
    StrippingStarts(buf[..], end);
    var i: nat := 0;
    while buf[i] != NUL
      invariant i < buf.Length && Stripping(buf[..], i, end, s, inStr, inChr, escaped)
      decreases end - i
    {
      if buf[i] == '\'' && !inStr && !escaped {
        StrippingDrops(buf[..], i, end, s, inStr, inChr);
        inChr := !inChr;
        Shift(buf, i, end);
        end := end - 1;
      } else if buf[i] == '"' && !inChr && !escaped {
        StrippingDrops(buf[..], i, end, s, inStr, inChr);
        inStr := !inStr;
        Shift(buf, i, end);
        end := end - 1;
      } else {
        StrippingKeeps(buf[..], i, end, s, inStr, inChr, escaped);
        if buf[i] == '\\' {
          escaped := !escaped;
        } else {
          escaped := false;
        }
        i := i + 1;
      }
    }
    StrippingEnd(buf[..], i, end, s, inStr, inChr, escaped);
    ghost var b := buf[..];
    buf[end] := NUL;
    assert buf[..] == b;
    StrippingDone(buf[..], end, s, inStr, inChr, escaped);
  }

  /** The effect of memmove(str, str + 1, end - str) at index i. */
  ghost function Shifted(b: seq<char>, i: nat, end: nat): (r: seq<char>)
    requires i < end < |b|
    ensures |r| == |b|
    ensures forall k :: 0 <= k < |b| ==> r[k] == if i <= k < end then b[k + 1] else b[k]
  {
    b[..i] + b[i + 1..end + 1] + b[end..]
  }

  method Shift(buf: array<char>, i: nat, end: nat)
    requires i < end < buf.Length
    modifies buf
    ensures buf[..] == Shifted(old(buf[..]), i, end)
  {
    forall k | i <= k < end {
      buf[k] := buf[k + 1];
    }
  }

  // ----- unescape_string

  /** The escapes that stand for one character. */
  function SimpleEscape(c: char): (r: seq<char>)
    ensures |r| <= 1
  {
    if c == 'a' then ['\U{07}']
    else if c == 'b' then ['\U{08}']
    else if c == 'f' then ['\U{0C}']
    else if c == 'n' then ['\n']
    else if c == 'r' then ['\r']
    else if c == 't' then ['\t']
    else if c == 'v' then ['\U{0B}']
    else if c == '\\' || c == '\'' || c == '"' || c == '?' then [c]
    else []
  }

  predicate IsDigit(c: char) {
    '0' <= c <= '9'
  }

  function Digit(c: char): (n: nat)
    requires IsDigit(c)
    ensures n <= 9
  {
    (c as int) - ('0' as int)
  }

  /** How the marking pass ends: at the terminator, early at a `\\0` escape, or past the terminator. */
  datatype Stop = End | Early(at: nat) | Overrun

  /** The buffer after the marking pass, with NUL where a character is to be dropped. */
  datatype Marked = Marked(text: seq<char>, stop: Stop)

  function Prepend(cs: seq<char>, m: Marked): Marked {
    Marked(cs + m.text, if m.stop.Early? then Early(|cs| + m.stop.at) else m.stop)
  }

  function HexDigits(s: string): (k: nat)
    ensures k <= 2 && k <= |s|
    ensures forall i :: 0 <= i < k ==> IsDigit(s[i])
  {
    if s == "" || !IsDigit(s[0]) then 0 else if |s| == 1 || !IsDigit(s[1]) then 1 else 2
  }

  /** `\\x` takes at most two decimal digits, reads them in base 16, and ends the pass when there are any. */
  function HexValue(s: string): char {
    var k := HexDigits(s);
    if k == 0 then NUL
    else if k == 1 then Digit(s[0]) as char
    else (Digit(s[0]) * 0x10 + Digit(s[1])) as char
  }

  function Mark(s: string): (m: Marked)
    ensures |m.text| == |s|
    decreases |s|
  {
    if s == "" then Marked("", End)
    else if s[0] != '\\' then Prepend([s[0]], Mark(s[1..]))
    else if |s| == 1 then Marked(s, Overrun)
    else if s[1] == '0' then Marked([NUL] + s[1..], Early(0))
    else if s[1] == 'x' then
      var k := HexDigits(s[2..]);
      if k == 0 then Prepend([NUL, NUL], Mark(s[2..]))
      else Marked([HexValue(s[2..]), NUL] + Nuls(k) + s[2 + k..], End)
    else if SimpleEscape(s[1]) != [] then Prepend(SimpleEscape(s[1]) + [NUL], Mark(s[2..]))
    else Prepend(['\\', s[1]], Mark(s[2..]))
  }

  function Nuls(k: nat): (r: seq<char>)
    ensures |r| == k && forall i :: 0 <= i < k ==> r[i] == NUL
  {
    seq(k, _ => NUL)
  }

  /** The characters that are not dropped. */
  function Compact(b: seq<char>): (s: string)
    ensures |s| <= |b| && NulFree(s)
  {
    if b == [] then "" else (if b[0] == NUL then "" else [b[0]]) + Compact(b[1..])
  }

  /** What the buffer holds after unescape_string: on an early stop the markers are left in place, so the
      string ends at the first of them. */
  function Unescaped(s: string): string {
    var m := Mark(s);
    if m.stop.Early? then CString(m.text) else Compact(m.text)
  }

  // ----- what each escape stands for

  lemma {:induction false} MarkPlain(a: string, t: string)
    requires '\\' !in a
    ensures Mark(a + t) == Prepend(a, Mark(t))
  {
    hide Mark;
    if a == "" {
      assert a + t == t && [] + Mark(t).text == Mark(t).text;
    } else {
      MarkPlain(a[1..], t);
      MarkNext(a[0], a[1..] + t);
      assert a + t == [a[0]] + (a[1..] + t);
      assert a + Mark(t).text == [a[0]] + (a[1..] + Mark(t).text);
    }
  }

  lemma MarkNext(c: char, t: string)
    requires c != '\\'
    ensures Mark([c] + t) == Prepend([c], Mark(t))
  {
    assert ([c] + t)[1..] == t;
  }

  /** Text without backslashes and terminators is kept. */
  lemma UnescapedBehind(a: string, t: string)
    requires '\\' !in a && NulFree(a)
    ensures Unescaped(a + t) == a + Unescaped(t)
  {
    MarkPlain(a, t);
    CompactConcat(a, Mark(t).text);
    KeptWithoutNul(a, Mark(t).text);
  }

  lemma {:induction false} KeptWithoutNul(a: string, t: string)
    requires NulFree(a)
    ensures Compact(a) == a && CString(a + t) == a + CString(t)
  {
    if a == "" {
      assert a + t == t;
    } else {
      assert (a + t)[1..] == a[1..] + t && a == [a[0]] + a[1..] && a[0] in a;
      KeptWithoutNul(a[1..], t);
    }
  }

  lemma MarkOfPlain(b: string)
    requires '\\' !in b
    ensures Mark(b) == Marked(b, End)
  {
    MarkPlain(b, "");
    assert b + "" == b;
  }

  /** The escapes for a control character, a quote, a question mark or the backslash; any other stays as it is. */
  lemma UnescapedOne(c: char, b: string)
    requires '\\' !in b && NulFree(b) && c != NUL
    ensures var r := Unescaped(['\\', c] + b);
      && (c == 'a' ==> r == [7 as char] + b) && (c == 'b' ==> r == [8 as char] + b)
      && (c == 't' ==> r == [9 as char] + b) && (c == 'n' ==> r == [10 as char] + b)
      && (c == 'v' ==> r == [11 as char] + b) && (c == 'f' ==> r == [12 as char] + b)
      && (c == 'r' ==> r == [13 as char] + b)
      && (c == '"' || c == '\'' || c == '?' || c == '\\' ==> r == [c] + b)
      && (c == '0' ==> r == "")
      && (c !in ['a', 'b', 't', 'n', 'v', 'f', 'r', '"', '\'', '?', '\\', '0', 'x'] ==> r == ['\\', c] + b)
  {
    var s := ['\\', c] + b;
    assert s[1..] == [c] + b && s[2..] == b;
    MarkOfPlain(b);
    KeptWithoutNul(b, "");
    if c == '0' {
      assert CString([NUL] + s[1..]) == "";
    } else if c != 'x' {
      var m := if SimpleEscape(c) != [] then SimpleEscape(c) + [NUL] else ['\\', c];
      assert Mark(s) == Marked(m + b, End);
      CompactConcat(m, b);
      CompactTwo(m);
    }
  }

  lemma CompactTwo(m: string)
    requires |m| == 2 && m[0] != NUL
    ensures Compact(m) == if m[1] == NUL then [m[0]] else m
  {
    assert m[1..][1..] == "" && m[1..] == [m[1]];
  }

  /** `\x` and two decimal digits stand for the character with that number in base 16, but nothing behind it is
      unescaped any more. */
  lemma UnescapedHex(d: char, e: char, b: string)
    requires '0' <= d <= '9' && '0' <= e <= '9' && (d != '0' || e != '0') && NulFree(b)
    ensures Unescaped(['\\', 'x', d, e] + b) == [(16 * (d as int - 48) + (e as int - 48)) as char] + b
  {
    HexIsMarked(d, e, b);
    hide *;
    HexIsCompact((16 * (d as int - 48) + (e as int - 48)) as char, ['\\', 'x', d, e] + b, b);
  }

  /** With one digit the number is that digit, and with none the escape is dropped. */
  lemma UnescapedShortHex(d: char, b: string)
    requires '0' < d <= '9' && NulFree(b) && (b == "" || !('0' <= b[0] <= '9'))
    ensures Unescaped(['\\', 'x', d] + b) == [(d as int - 48) as char] + b
    ensures '\\' !in b ==> Unescaped(['\\', 'x'] + b) == b
  {
    hide Mark, Compact;
    OneDigit(d, b);
    CompactAll([(d as int - 48) as char, NUL, NUL], b);
    TwoNuls((d as int - 48) as char);
    if '\\' !in b {
      NoDigit(b);
      CompactAll([NUL, NUL], b);
    }
  }

  lemma OneDigit(d: char, b: string)
    requires '0' <= d <= '9' && (b == "" || !('0' <= b[0] <= '9'))
    ensures Mark(['\\', 'x', d] + b) == Marked([(d as int - 48) as char, NUL, NUL] + b, End)
  {
    hide *;
    var s := ['\\', 'x', d] + b;
    assert s[2..] == [d] + b && s[3..] == b;
    OneDigitRead(d, b);
    MarkHex(s);
    assert [HexValue([d] + b), NUL] + [NUL] + b == [(d as int - 48) as char, NUL, NUL] + b;
  }

  lemma MarkHex(s: string)
    requires |s| > 2 && s[0] == '\\' && s[1] == 'x' && HexDigits(s[2..]) > 0
    ensures var k := HexDigits(s[2..]); Mark(s) == Marked([HexValue(s[2..]), NUL] + Nuls(k) + s[2 + k..], End)
  {
    hide HexDigits, HexValue, Nuls;
  }

  lemma OneDigitRead(d: char, b: string)
    requires '0' <= d <= '9' && (b == "" || !('0' <= b[0] <= '9'))
    ensures HexDigits([d] + b) == 1 && HexValue([d] + b) == (d as int - 48) as char && Nuls(1) == [NUL]
  {
  }

  lemma NoDigit(b: string)
    requires '\\' !in b && (b == "" || !('0' <= b[0] <= '9'))
    ensures Mark(['\\', 'x'] + b) == Marked([NUL, NUL] + b, End)
  {
    assert (['\\', 'x'] + b)[2..] == b;
    MarkOfPlain(b);
  }

  lemma CompactAll(a: string, b: string)
    requires NulFree(b)
    ensures Compact(a + b) == Compact(a) + b
  {
    CompactConcat(a, b);
    KeptWithoutNul(b, "");
  }

  lemma TwoNuls(c: char)
    requires c != NUL
    ensures Compact([c, NUL, NUL]) == [c] && Compact([NUL, NUL]) == ""
  {
    assert [c, NUL, NUL][1..] == [NUL, NUL] && [NUL, NUL][1..] == [NUL] && [NUL][1..] == "";
    assert Compact([NUL]) == "" && Compact([NUL, NUL]) == "";
  }

  lemma HexIsCompact(c: char, s: string, b: string)
    requires c != NUL && NulFree(b) && Mark(s) == Marked([c] + [NUL, NUL, NUL] + b, End)
    ensures Unescaped(s) == [c] + b
  {
    hide Mark, Compact;
    CompactConcat([c] + [NUL, NUL, NUL], b);
    CompactConcat([c], [NUL, NUL, NUL]);
    CompactThreeNuls();
    KeptWithoutNul(b, "");
    KeptWithoutNul([c], "");
  }

  lemma HexIsMarked(d: char, e: char, b: string)
    requires IsDigit(d) && IsDigit(e)
    ensures var c := (16 * Digit(d) + Digit(e)) as char;
      Mark(['\\', 'x', d, e] + b) == Marked([c] + [NUL, NUL, NUL] + b, End)
  {
    var s := ['\\', 'x', d, e] + b;
    assert s[2..] == [d, e] + b && s[4..] == b;
    assert Nuls(2) == [NUL, NUL];
  }

  lemma CompactThreeNuls()
    ensures Compact([NUL, NUL, NUL]) == ""
  {
    assert [NUL, NUL, NUL][1..] == [NUL, NUL] && [NUL, NUL][1..] == [NUL] && [NUL][1..] == "";
    assert Compact([NUL]) == "" && Compact([NUL, NUL]) == "";
  }

  /** A text that ends in a lone backslash makes the source read on behind its terminator. */
  predicate Dangling(s: string) {
    Mark(s).stop.Overrun?
  }

  /** The buffer while the marking pass is at index i: marked up to i, original from there to the NUL at
      `end`; `m` is what the pass comes to. */
  ghost predicate Marking(b: seq<char>, i: nat, end: nat, m: Marked) {
    i <= end < |b| && b[end] == NUL && NulFree(b[i..end]) && m == Prepend(b[..i], Mark(b[i..end]))
  }

  lemma MarkingStarts(b: seq<char>, end: nat)
    requires Terminated(b) && end == |CString(b)|
    ensures Marking(b, 0, end, Mark(CString(b)))
  {
    CStringSplit(b);
    assert b[0..end] == b[..end] && b[..0] == "";
    assert "" + Mark(b[..end]).text == Mark(b[..end]).text;
  }

  lemma MarkingEnd(b: seq<char>, i: nat, end: nat, m: Marked)
    requires Marking(b, i, end, m)
    ensures i <= end && (b[i] == NUL <==> i == end)
    ensures b[i] == '\\' && !m.stop.Overrun? ==> i + 1 < end && b[i + 1] != NUL
    ensures i == end ==> m == Marked(b[..end], End)
  {
    if i < end {
      NotNul(b[i..end], 0);
    } else {
      assert b[i..end] == "" && b[..end] + "" == b[..end];
    }
    if i + 1 < end {
      NotNul(b[i..end], 1);
    }
  }

  lemma PrependTwice(a: seq<char>, cs: seq<char>, m: Marked)
    ensures Prepend(a, Prepend(cs, m)) == Prepend(a + cs, m)
  {
    assert a + (cs + m.text) == a + cs + m.text;
  }

  ghost function Overwritten(b: seq<char>, i: nat, cs: seq<char>): (t: seq<char>)
    requires i + |cs| <= |b|
    ensures |t| == |b|
    ensures forall k :: 0 <= k < |b| ==> t[k] == if i <= k < i + |cs| then cs[k - i] else b[k]
  {
    b[..i] + cs + b[i + |cs|..]
  }

  /** One turn of the loop writes `cs` over the first |cs| characters of the rest. */
  lemma MarkingStep(b: seq<char>, i: nat, end: nat, m: Marked, cs: seq<char>)
    requires Marking(b, i, end, m) && i + |cs| <= end
    requires Mark(b[i..end]) == Prepend(cs, Mark(b[i + |cs|..end]))
    ensures Marking(Overwritten(b, i, cs), i + |cs|, end, m)
  {
    hide Mark, Prepend;
    var j := i + |cs|;
    var t := Overwritten(b, i, cs);
    assert t[j..end] == b[j..end];
    assert t[..j] == b[..i] + cs;
    assert b[i..end] == b[i..j] + b[j..end];
    PrependTwice(b[..i], cs, Mark(b[j..end]));
  }

  lemma MarkUnfold(b: seq<char>, i: nat, end: nat)
    requires i < end <= |b|
    ensures b[i] != '\\' ==> Mark(b[i..end]) == Prepend([b[i]], Mark(b[i + 1..end]))
    ensures b[i] == '\\' && i + 1 < end ==>
      if b[i + 1] == '0' then Mark(b[i..end]) == Marked([NUL] + b[i + 1..end], Early(0))
      else if b[i + 1] == 'x' then
        var k := HexDigits(b[i + 2..end]);
        Mark(b[i..end]) ==
          if k == 0 then Prepend([NUL, NUL], Mark(b[i + 2..end]))
          else Marked([HexValue(b[i + 2..end]), NUL] + Nuls(k) + b[i + 2 + k..end], End)
      else if SimpleEscape(b[i + 1]) != [] then
        Mark(b[i..end]) == Prepend(SimpleEscape(b[i + 1]) + [NUL], Mark(b[i + 2..end]))
      else Mark(b[i..end]) == Prepend(['\\', b[i + 1]], Mark(b[i + 2..end]))
  {
    hide HexDigits, HexValue, SimpleEscape, Nuls;
    var s := b[i..end];
    assert s[1..] == b[i + 1..end];
    if i + 1 < end {
      assert s[2..] == b[i + 2..end];
      var k := HexDigits(b[i + 2..end]);
      assert s[2 + k..] == b[i + 2 + k..end];
    }
  }

  /** HexDigits and HexValue as the source reads them, off a buffer that is NUL at `end`. */
  lemma HexAt(b: seq<char>, i: nat, end: nat)
    requires i <= end < |b| && b[end] == NUL
    ensures IsDigit(b[i]) ==> i + 1 <= end
    ensures HexDigits(b[i..end]) == if !IsDigit(b[i]) then 0 else if !IsDigit(b[i + 1]) then 1 else 2
    ensures HexValue(b[i..end]) ==
      if !IsDigit(b[i]) then NUL else if !IsDigit(b[i + 1]) then Digit(b[i]) as char
      else (Digit(b[i]) * 0x10 + Digit(b[i + 1])) as char
  {
  }

  /** The turn that ends the pass: `\\0`, or `\\x` with digits. */
  lemma MarkingLast(b: seq<char>, i: nat, end: nat, m: Marked, cs: seq<char>)
    requires Marking(b, i, end, m) && i + |cs| <= end
    requires Mark(b[i..end]).text == cs + b[i + |cs|..end]
    ensures m.text == Overwritten(b, i, cs)[..end]
    ensures m.stop == if Mark(b[i..end]).stop.Early? then Early(i + Mark(b[i..end]).stop.at) else Mark(b[i..end]).stop
  {
    hide Mark;
    var t := Overwritten(b, i, cs);
    assert t[..end] == b[..i] + (cs + b[i + |cs|..end]);
  }

  lemma {:induction false} CompactConcat(a: seq<char>, b: seq<char>)
    ensures Compact(a + b) == Compact(a) + Compact(b)
  {
    if a == [] {
      assert a + b == b;
    } else {
      assert (a + b)[1..] == a[1..] + b;
      CompactConcat(a[1..], b);
    }
  }

  lemma CompactNext(b: seq<char>, i: nat)
    requires i < |b|
    ensures Compact(b[..i + 1]) == Compact(b[..i]) + if b[i] == NUL then "" else [b[i]]
  {
    assert b[..i + 1] == b[..i] + [b[i]];
    CompactConcat(b[..i], [b[i]]);
    assert Compact([b[i]]) == (if b[i] == NUL then "" else [b[i]]) + Compact([b[i]][1..]);
  }

  /** The second pass: shift characters over the NULs among the first `len`. */
  method ShiftOverNuls(buf: array<char>, len: nat) returns (n: nat)
    requires len < buf.Length
    modifies buf
    ensures n <= len && buf[..n] == Compact(old(buf[..len])) && buf[n] == NUL
  {
    ghost var b := buf[..];
    assert buf[..len] == b[..len];
    var shift: nat := 0;
    for i := 0 to len
      invariant shift <= i && buf[..i - shift] == Compact(b[..i])
      invariant forall k :: i <= k < buf.Length ==> buf[k] == b[k]
    {
      CompactNext(b, i);
      if buf[i] == NUL {
        shift := shift + 1;
      } else {
        buf[i - shift] := buf[i];
        assert buf[..i + 1 - shift] == buf[..i - shift] + [b[i]];
      }
    }
    n := len - shift;
    ghost var done := buf[..n];
    buf[n] := NUL;
    assert buf[..n] == done;
  }

  /** The `\\x` case, at the index of the x. */
  method WriteHex(buf: array<char>, i: nat, len: nat) returns (digits: bool)
    requires 0 < i < len < buf.Length && buf[len] == NUL
    modifies buf
    ensures var k := HexDigits(old(buf[i + 1..len]));
      && digits == (k > 0) && (digits ==> buf[i + 1] == NUL)
      && buf[..] == Overwritten(old(buf[..]), i - 1, [HexValue(old(buf[i + 1..len])), NUL] + Nuls(k))
  {
    ghost var b := buf[..];
    assert buf[i + 1..len] == b[i + 1..len];
    HexAt(b, i + 1, len);
    digits := false;
    var c := NUL;
    if IsDigit(buf[i + 1]) {
      digits := true;
      c := Digit(buf[i + 1]) as char;
      if IsDigit(buf[i + 2]) {
        c := (Digit(buf[i + 1]) * 0x10 + Digit(buf[i + 2])) as char;
        buf[i + 2] := NUL;
      }
      buf[i + 1] := NUL;
    }
    buf[i] := NUL;
    buf[i - 1] := c;
    assert buf[..] == Overwritten(b, i - 1, [HexValue(b[i + 1..len]), NUL] + Nuls(HexDigits(b[i + 1..len])));
  }

  /** The marking pass stands at index i, or at a NUL of its own that ends it. */
  ghost predicate PassAt(b: seq<char>, i: nat, len: nat, m: Marked) {
    && i <= len < |b| && b[len] == NUL
    && (Marking(b, i, len, m) || (b[i] == NUL && m == Marked(b[..len], End)))
  }

  lemma StillMarking(b: seq<char>, i: nat, len: nat, m: Marked)
    requires Marking(b, i, len, m)
    ensures i <= len < |b| && b[len] == NUL && PassAt(b, i, len, m)
  {
  }

  lemma PassEnd(b: seq<char>, i: nat, len: nat, m: Marked)
    requires PassAt(b, i, len, m)
    ensures b[i] == NUL ==> m == Marked(b[..len], End)
    ensures b[i] != NUL ==> Marking(b, i, len, m)
  {
    if Marking(b, i, len, m) {
      MarkingEnd(b, i, len, m);
    }
  }

  /** The switch on the character after a backslash; true for the early return at `\\0`. */
  method EscapeAt(buf: array<char>, at: nat, len: nat, ghost m: Marked) returns (early: bool)
    requires Marking(buf[..], at, len, m) && !m.stop.Overrun? && buf[at] == '\\'
    modifies buf
    ensures early ==> m.stop == Early(at) && Terminated(buf[..]) && CString(buf[..]) == CString(m.text)
    ensures !early ==> at + 2 <= len && PassAt(buf[..], at + 2, len, m)
  {
    hide CString, Mark, HexDigits, HexValue, Marking, Prepend, Overwritten, Nuls, PassAt;
    ghost var b := buf[..];
    StillMarking(b, at, len, m);
    MarkingEnd(b, at, len, m);
    MarkUnfold(b, at, len);
    var i := at + 1;
    early := false;
    if buf[i] == '0' {
      buf[i - 1] := NUL;
      MarkingLast(b, at, len, m, [NUL]);
      assert buf[..] == Overwritten(b, at, [NUL]);
      assert m.text == buf[..][..len] && m.text[at] == NUL;
      StopEarly(buf[..], m, len);
      early := true;
    } else if buf[i] == 'x' {
      var digits := WriteHex(buf, i, len);
      if digits {
        HexLast(b, at, len, m);
        PassStops(buf[..], at + 2, len, m);
      } else {
        NoHexDigits(b[at + 2..len]);
        MarkingStep(b, at, len, m, [NUL, NUL]);
        StillMarking(buf[..], at + 2, len, m);
      }
    } else if SimpleEscape(buf[i]) != [] {
      ghost var cs := SimpleEscape(buf[i]) + [NUL];
      buf[i - 1] := SimpleEscape(buf[i])[0];
      buf[i] := NUL;
      MarkingStep(b, at, len, m, cs);
      assert buf[..] == Overwritten(b, at, cs);
      StillMarking(buf[..], at + 2, len, m);
    } else {
      MarkingStep(b, at, len, m, ['\\', buf[i]]);
      assert buf[..] == Overwritten(b, at, ['\\', buf[i]]);
      StillMarking(buf[..], at + 2, len, m);
    }
  }

  lemma PassStops(b: seq<char>, i: nat, len: nat, m: Marked)
    requires i <= len < |b| && b[len] == NUL && b[i] == NUL && m == Marked(b[..len], End)
    ensures PassAt(b, i, len, m)
  {
  }

  lemma NoHexDigits(s: string)
    requires HexDigits(s) == 0
    ensures [HexValue(s), NUL] + Nuls(0) == [NUL, NUL]
  {
  }

  method Unescape(buf: array<char>) returns (n: int)
    requires Terminated(buf[..]) && !Dangling(CString(buf[..]))
    modifies buf
    ensures Terminated(buf[..]) && CString(buf[..]) == Unescaped(old(CString(buf[..])))
    ensures var m := Mark(old(CString(buf[..])));
      n == if m.stop.Early? then m.stop.at else |Unescaped(old(CString(buf[..])))|
  {
    hide CString, Mark, Compact, Marking, PassAt, Overwritten;
    ghost var m := Mark(CString(buf[..]));
    var len := Strlen(buf);
    MarkingStarts(buf[..], len);
    StillMarking(buf[..], 0, len, m);
    var i: nat := 0;
    while buf[i] != NUL
      invariant i <= len < buf.Length && PassAt(buf[..], i, len, m)
      decreases len - i
    {
      PassEnd(buf[..], i, len, m);
      if buf[i] == '\\' {
        var early := EscapeAt(buf, i, len, m);
        if early {
          return i;
        }
        i := i + 1;
      } else {
        ghost var b := buf[..];
        MarkingEnd(b, i, len, m);
        StillMarking(b, i, len, m);
        MarkUnfold(b, i, len);
        MarkingStep(b, i, len, m, [buf[i]]);
        assert b == Overwritten(b, i, [buf[i]]);
        StillMarking(b, i + 1, len, m);
      }
      i := i + 1;
    }
    PassEnd(buf[..], i, len, m);
    n := ShiftOverNuls(buf, len);
    assert buf[..] == buf[..n] + buf[n..];
    CStringOf(buf[..n], buf[n..]);
  }

  lemma HexLast(b: seq<char>, at: nat, end: nat, m: Marked)
    requires Marking(b, at, end, m) && at + 2 <= end && b[at] == '\\' && b[at + 1] == 'x'
    requires HexDigits(b[at + 2..end]) > 0
    ensures var cs := [HexValue(b[at + 2..end]), NUL] + Nuls(HexDigits(b[at + 2..end]));
      m == Marked(Overwritten(b, at, cs)[..end], End)
  {
    hide HexValue, Mark, Overwritten;
    MarkUnfold(b, at, end);
    var k := HexDigits(b[at + 2..end]);
    var cs := [HexValue(b[at + 2..end]), NUL] + Nuls(k);
    assert |cs| == 2 + k && at + 2 + k <= end;
    assert Mark(b[at..end]) == Marked(cs + b[at + |cs|..end], End);
    MarkingLast(b, at, end, m, cs);
  }

  lemma StopEarly(b: seq<char>, m: Marked, len: nat)
    requires m.stop.Early? && len < |b| && b[len] == NUL
    requires m.text == b[..len] && NUL in m.text
    ensures Terminated(b) && CString(b) == CString(m.text)
  {
    var t := CString(m.text);
    CStringSplit(m.text);
    assert b == t + b[|t|..] && b[|t|] == NUL;
    CStringOf(t, b[|t|..]);
  }

  // ----- join_args

  /** Every argument with a space behind it, as the source writes them. */
  ghost function Spaced(argv: seq<string>): string {
    if argv == [] then "" else Spaced(argv[..|argv| - 1]) + argv[|argv| - 1] + " "
  }

  lemma {:induction false} SpacedCons(argv: seq<string>)
    requires argv != []
    ensures Spaced(argv) == argv[0] + " " + Spaced(argv[1..])
  {
    var n := |argv| - 1;
    if n == 0 {
      assert argv[..0] == [] && argv[1..] == [];
    } else {
      SpacedCons(argv[..n]);
      assert argv[..n][1..] == argv[1..][..n - 1];
      var a, more, last := argv[0] + " ", Spaced(argv[1..][..n - 1]), argv[n] + " ";
      assert Spaced(argv) == a + more + argv[n] + " ";
      assert a + more + argv[n] + " " == a + (more + argv[n] + " ");
    }
  }

  lemma {:induction false} SpacedIsJoin(argv: seq<string>)
    requires argv != []
    ensures Spaced(argv) == Join(argv) + " "
  {
    SpacedCons(argv);
    if |argv| == 1 {
      assert Spaced(argv[1..]) == "";
    } else {
      SpacedIsJoin(argv[1..]);
      assert argv[0] + " " + (Join(argv[1..]) + " ") == argv[0] + " " + Join(argv[1..]) + " ";
    }
  }

  lemma {:induction false} SpacedGrows(argv: seq<string>, k: nat)
    requires k <= |argv|
    ensures |Spaced(argv[..k])| <= |Spaced(argv)|
    decreases |argv|
  {
    if k == |argv| {
      assert argv[..k] == argv;
    } else {
      SpacedGrows(argv[..|argv| - 1], k);
      assert argv[..|argv| - 1][..k] == argv[..k];
    }
  }

  /** join_args: the buffer is as long as the joined text and its terminator, and the space behind the last
      argument makes room for the terminator. */
  method JoinArgs(argv: seq<string>) returns (res: array<char>)
    requires argv != []
    ensures res[..] == Join(argv) + ['\0']
  {
    var len: nat := 0;
    for i := 0 to |argv|
      invariant len == |Spaced(argv[..i])|
    {
      assert argv[..i + 1][..i] == argv[..i];
      len := len + |argv[i]| + 1;
    }
    assert argv[..|argv|] == argv;
    res := new char[len];
    len := 0;
    for i := 0 to |argv|
      invariant res.Length == |Spaced(argv)| && len <= res.Length
      invariant res[..len] == Spaced(argv[..i])
    {
      assert argv[..i + 1][..i] == argv[..i];
      SpacedGrows(argv, i + 1);
      len := CopyArg(res, len, argv[i]);
    }
    SpacedIsJoin(argv);
    res[len - 1] := NUL;
    assert res[..] == res[..len - 1] + [NUL];
  }

  /** strcpy of one argument, and a space over its terminator. */
  method CopyArg(res: array<char>, at: nat, arg: string) returns (len: nat)
    requires at + |arg| + 1 <= res.Length
    modifies res
    ensures len == at + |arg| + 1 && res[..len] == old(res[..at]) + arg + " "
  {
    for j := 0 to |arg|
      invariant res[..at + j] == old(res[..at]) + arg[..j]
    {
      res[at + j] := arg[j];
    }
    res[at + |arg|] := ' ';
    len := at + |arg| + 1;
  }
}
