/** Parsing and printing gestures (common/gesture.c 14-169, split_string of common/stringop.c 79-90). */
module Gestures {
  import opened Common

  datatype Type = NoType | Hold | Pinch | Swipe

  /** `directions` holds the positions of the bits that are set in a word of 32. */
  datatype Gesture = Gesture(kind: Type, fingers: nat, directions: set<nat>)

  const BITS := 32
  const FINGERS_ANY := 0

  // ----- split_string with one delimiter

  function RunOf(s: string, d: char): (n: nat)
    ensures n <= |s| && (n < |s| ==> s[n] == d) && forall j :: 0 <= j < n ==> s[j] != d
  {
    if s == "" || s[0] == d then 0 else 1 + RunOf(s[1..], d)
  }

  /** strtok skips delimiters, and the tokens are the runs between them. */
  function Split(s: string, d: char): seq<string> {
    if s == "" then [] else if s[0] == d then Split(s[1..], d)
    else var n := RunOf(s, d); [s[..n]] + Split(s[n..], d)
  }

  predicate IsToken(t: string, d: char) {
    t != "" && d !in t
  }

  lemma RunIs(t: string, d: char, more: string)
    requires d !in t && (more == "" || more[0] == d)
    ensures RunOf(t + more, d) == |t|
  {
    var s, n := t + more, RunOf(t + more, d);
    assert forall k :: 0 <= k < |t| ==> s[k] == t[k] && t[k] in t;
    assert more != "" ==> s[|t|] == d;
  }

  lemma SplitToken(t: string, d: char, more: string)
    requires IsToken(t, d) && (more == "" || more[0] == d)
    ensures Split(t + more, d) == [t] + Split(more, d)
  {
    var s := t + more;
    RunIs(t, d, more);
    assert s[0] == t[0] && t[0] in t;
    assert s[..|t|] == t && s[|t|..] == more;
  }

  /** A delimiter separates, wherever it stands. */
  lemma {:induction false} SplitConcat(s: string, d: char, t: string)
    ensures Split(s + [d] + t, d) == Split(s, d) + Split(t, d)
    decreases |s|
  {
    hide RunOf;
    var st := s + [d] + t;
    if s == "" {
      assert st[1..] == t && st[0] == d;
    } else if s[0] == d {
      assert st[0] == d && st[1..] == s[1..] + [d] + t;
      SplitConcat(s[1..], d, t);
    } else {
      var n := RunOf(s, d);
      SplitTail(s[..n], s[n..], d, t);
      assert s == s[..n] + s[n..];
      SplitConcat(s[n..], d, t);
      assert st == s[..n] + (s[n..] + [d] + t);
    }
  }

  lemma SplitTail(token: string, rest: string, d: char, t: string)
    requires IsToken(token, d) && (rest == "" || rest[0] == d)
    ensures Split(token + (rest + [d] + t), d) == [token] + Split(rest + [d] + t, d)
    ensures Split(token + rest, d) == [token] + Split(rest, d)
  {
    hide Split;
    assert rest + [d] + t != "" && (rest + [d] + t)[0] == d;
    SplitToken(token, d, rest + [d] + t);
    SplitToken(token, d, rest);
  }

  method SplitString(s: string, d: char) returns (tokens: seq<string>)
    ensures tokens == Split(s, d)
  {
    hide Split;
    tokens := [];
    var i := 0;
    assert s[0..] == s;
    while i < |s|
      invariant i <= |s| && Split(s, d) == tokens + Split(s[i..], d)
    {
      SplitFrom(s, d, i);
      if s[i] == d {
        i := i + 1;
      } else {
        var n := i;
        while n < |s| && s[n] != d
          invariant i <= n <= |s| && n - i <= RunOf(s[i..], d)
        {
          n := n + 1;
        }
        tokens := tokens + [s[i..n]];
        i := n;
      }
    }
    SplitNothing(d);
    assert s[i..] == "";
  }

  lemma SplitNothing(d: char)
    ensures Split("", d) == []
  {
  }

  lemma SplitFrom(s: string, d: char, i: nat)
    requires i < |s|
    ensures s[i] == d ==> Split(s[i..], d) == Split(s[i + 1..], d)
    ensures s[i] != d ==> var n := i + RunOf(s[i..], d); Split(s[i..], d) == [s[i..n]] + Split(s[n..], d)
  {
    var rest, n := s[i..], RunOf(s[i..], d);
    assert rest[1..] == s[i + 1..] && rest[..n] == s[i..i + n] && rest[n..] == s[i + n..];
  }

  // ----- printing

  const NAMES := ["up", "down", "left", "right", "inward", "outward", "clockwise", "counterclockwise"]

  function DirectionString(bit: nat): string {
    if bit < |NAMES| then NAMES[bit] else "unknown"
  }

  /** The names of the bits below `bit` that are set, lowest first. */
  function SetNames(directions: set<nat>, bit: nat): seq<string> {
    if bit == 0 then []
    else SetNames(directions, bit - 1) + if bit - 1 in directions then [DirectionString(bit - 1)] else []
  }

  function JoinPlus(names: seq<string>): string {
    if names == [] then "" else
      var n := |names| - 1;
      if n == 0 then names[0] else JoinPlus(names[..n]) + ['+'] + names[n]
  }

  function DirectionsString(directions: set<nat>): string {
    var names := SetNames(directions, BITS); if names == [] then "any" else JoinPlus(names)
  }

  function TypeString(t: Type): string {
    match t case NoType => "none" case Hold => "hold" case Pinch => "pinch" case Swipe => "swipe"
  }

  function DigitChar(n: nat): char
    requires n < 10
  {
    ['0', '1', '2', '3', '4', '5', '6', '7', '8', '9'][n]
  }

  function Decimal(n: nat): (s: string)
    ensures s != ""
    ensures forall k :: 0 <= k < |s| ==> '0' <= s[k] <= '9'
    ensures |s| == 1 <==> n < 10
  {
    if n < 10 then [DigitChar(n)] else Decimal(n / 10) + [DigitChar(n % 10)]
  }

  function ToString(g: Gesture): string {
    TypeString(g.kind) + [':'] + Decimal(g.fingers) + [':'] + DirectionsString(g.directions)
  }

  // ----- what is printed

  lemma {:induction false} JoinPlusConcat(a: seq<string>, b: seq<string>)
    requires a != [] && b != []
    ensures JoinPlus(a + b) == JoinPlus(a) + "+" + JoinPlus(b) && JoinPlus([a[0]]) == a[0]
    decreases |b|
  {
    var n, c := |b| - 1, a + b;
    assert c[..|c| - 1] == a + b[..n] && c[|c| - 1] == b[n];
    if n == 0 {
      assert a + b[..0] == a;
    } else {
      JoinPlusConcat(a, b[..n]);
      var front, back := JoinPlus(a) + "+", JoinPlus(b[..n]);
      assert front + back + ['+'] + b[n] == front + (back + ['+'] + b[n]);
    }
  }

  function Value(digits: string): nat
    requires forall k :: 0 <= k < |digits| ==> '0' <= digits[k] <= '9'
  {
    if digits == "" then 0 else 10 * Value(digits[..|digits| - 1]) + (digits[|digits| - 1] as nat - 48)
  }

  /** The number of fingers is printed in base 10 and without a zero in front. */
  lemma {:induction false} DecimalIsValue(n: nat)
    ensures Value(Decimal(n)) == n && (n > 0 ==> Decimal(n)[0] != '0')
  {
    if n < 10 {
      assert Decimal(n)[..0] == "";
    } else {
      DecimalIsValue(n / 10);
      var s := Decimal(n);
      assert s[..|s| - 1] == Decimal(n / 10) && s[|s| - 1] as nat == 48 + n % 10;
    }
  }

  /** The names of those of the 32 bits that are set, lowest first; `unknown` for a bit without a name. */
  lemma {:induction false} NamesInOrder(directions: set<nat>, a: nat, b: nat)
    requires a <= b
    ensures (forall k :: a <= k < b ==> k !in directions) ==> SetNames(directions, b) == SetNames(directions, a)
    ensures b in directions && (forall k :: a <= k < b ==> k !in directions) ==>
      SetNames(directions, b + 1) == SetNames(directions, a) + [DirectionString(b)]
    ensures SetNames(directions, 0) == []
    ensures DirectionString(0) == "up" && DirectionString(1) == "down" && DirectionString(2) == "left"
    ensures DirectionString(3) == "right" && DirectionString(4) == "inward" && DirectionString(5) == "outward"
    ensures DirectionString(6) == "clockwise" && DirectionString(7) == "counterclockwise"
    ensures b >= 8 ==> DirectionString(b) == "unknown"
    decreases b
  {
    if a < b {
      NamesInOrder(directions, a, b - 1);
    }
  }

  lemma PrintedText(g: Gesture)
    ensures var kind :=
        match g.kind case NoType => "none" case Hold => "hold" case Pinch => "pinch" case Swipe => "swipe";
      var names := SetNames(g.directions, 32);
      ToString(g) == kind + ":" + Decimal(g.fingers) + ":" + if names == [] then "any" else JoinPlus(names)
  {
    hide SetNames, JoinPlus, Decimal;
  }

  method GestureDirectionsToString(directions: set<nat>) returns (result: string)
    ensures result == DirectionsString(directions)
  {
    var text: Option<string> := None;
    for bit := 0 to BITS
      invariant var names := SetNames(directions, bit); text == if names == [] then None else Some(JoinPlus(names))
    {
      if bit in directions {
        var name := DirectionString(bit);
        ghost var names := SetNames(directions, bit);
        assert SetNames(directions, bit + 1) == names + [name] && (names + [name])[..|names|] == names;
        if text.None? {
          text := Some(name);
        } else {
          text := Some(text.value + ['+'] + name);
        }
      } else {
        assert SetNames(directions, bit + 1) == SetNames(directions, bit);
      }
    }
    return if text.None? then "any" else text.value;
  }

  method GestureToString(g: Gesture) returns (s: string)
    ensures s == ToString(g)
  {
    var directions := GestureDirectionsToString(g.directions);
    return TypeString(g.kind) + [':'] + Decimal(g.fingers) + [':'] + directions;
  }

  // ----- parsing

  function ParseType(s: string): Option<Type> {
    if s == "hold" then Some(Hold) else if s == "pinch" then Some(Pinch) else if s == "swipe" then Some(Swipe) else None
  }

  function ParseDirection(item: string): Option<set<nat>> {
    if item == "any" then Some({})
    else if item == NAMES[0] then Some({0})
    else if item == NAMES[1] then Some({1})
    else if item == NAMES[2] then Some({2})
    else if item == NAMES[3] then Some({3})
    else if item == NAMES[4] then Some({4})
    else if item == NAMES[5] then Some({5})
    else if item == NAMES[6] then Some({6})
    else if item == NAMES[7] then Some({7})
    else None
  }

  /** The directions in front of the first item that is none, and that item. */
  function ParseDirections(items: seq<string>): (set<nat>, Option<string>) {
    if items == [] then ({}, None) else
      var n := |items| - 1;
      var (before, wrong) := ParseDirections(items[..n]);
      if wrong.Some? then (before, wrong)
      else match ParseDirection(items[n]) case None => (before, Some(items[n])) case Some(d) => (before + d, None)
  }

  predicate IsFingerCount(s: string) {
    |s| == 1 && '1' <= s[0] <= '9'
  }

  function DigitValue(c: char): nat
    requires '0' <= c <= '9'
  {
    c as nat - '0' as nat
  }

  /** What the message complains about, with the text that it quotes. */
  datatype Problem = NotAGesture(text: string) | NotAType(text: string) | NotFingers(text: string)
    | NotADirection(text: string)

  /** The gesture is filled in as far as the parser gets. */
  datatype Parsed = Parsed(output: Gesture, problem: Option<Problem>)

  function Wrong(item: Option<string>): Option<Problem> {
    match item case None => None case Some(text) => Some(NotADirection(text))
  }

  function WithDirections(kind: Type, fingers: nat, parsed: (set<nat>, Option<string>)): Parsed {
    Parsed(Gesture(kind, fingers, parsed.0), Wrong(parsed.1))
  }

  function Parse(input: string): Parsed {
    var split := Split(input, ':');
    if |split| < 1 || |split| > 3 then Parsed(Gesture(NoType, FINGERS_ANY, {}), Some(NotAGesture(input)))
    else match ParseType(split[0])
      case None => Parsed(Gesture(NoType, FINGERS_ANY, {}), Some(NotAType(split[0])))
      case Some(kind) =>
        if |split| == 1 then Parsed(Gesture(kind, FINGERS_ANY, {}), None)
        else if IsFingerCount(split[1]) then
          var fingers := DigitValue(split[1][0]);
          if |split| == 2 then Parsed(Gesture(kind, fingers, {}), None)
          else WithDirections(kind, fingers, ParseDirections(Split(split[2], '+')))
        else if |split| == 3 then Parsed(Gesture(kind, FINGERS_ANY, {}), Some(NotFingers(split[1])))
        else WithDirections(kind, FINGERS_ANY, ParseDirections(Split(split[1], '+')))
  }

  lemma {:induction false} FirstWrong(items: seq<string>, i: nat)
    requires i <= |items| && ParseDirections(items[..i]).1.Some?
    ensures ParseDirections(items) == ParseDirections(items[..i])
    decreases |items|
  {
    if i == |items| {
      assert items[..i] == items;
    } else {
      var n := |items| - 1;
      assert items[..n][..i] == items[..i];
      FirstWrong(items[..n], i);
    }
  }

  method GestureParse(input: string) returns (output: Gesture, problem: Option<Problem>)
    ensures Parsed(output, problem) == Parse(input)
  {
    hide Split;
    output := Gesture(NoType, FINGERS_ANY, {});
    var split := SplitString(input, ':');
    if |split| < 1 || |split| > 3 {
      return output, Some(NotAGesture(input));
    }
    var kind := ParseType(split[0]);
    if kind.None? {
      return output, Some(NotAType(split[0]));
    }
    output := output.(kind := kind.value);
    if |split| > 1 {
      var next := Some(split[1]);
      if IsFingerCount(split[1]) {
        output := output.(fingers := DigitValue(split[1][0]));
        next := if |split| == 3 then Some(split[2]) else None;
      } else if |split| == 3 {
        return output, Some(NotFingers(split[1]));
      }
      if next.Some? {
        var directions, wrong := CollectDirections(next.value);
        return output.(directions := directions), Wrong(wrong);
      }
    }
    return output, None;
  }

  /** The loop over the directions. */
  method CollectDirections(text: string) returns (directions: set<nat>, wrong: Option<string>)
    ensures (directions, wrong) == ParseDirections(Split(text, '+'))
  {
    hide Split, ParseDirection;
    directions := {};
    var items := SplitString(text, '+');
    for i := 0 to |items|
      invariant ParseDirections(items[..i]) == (directions, None)
    {
      assert items[..i + 1][..i] == items[..i];
      var d := ParseDirection(items[i]);
      if d.None? {
        FirstWrong(items, i + 1);
        return directions, Some(items[i]);
      }
      directions := directions + d.value;
    }
    assert items[..|items|] == items;
    return directions, None;
  }

  /** The names of the directions, and the bits that they stand for in the mask; `any` stands for none. */
  lemma DirectionNames(item: string)
    ensures ParseDirection("up") == Some({0}) && ParseDirection("down") == Some({1})
    ensures ParseDirection("left") == Some({2}) && ParseDirection("right") == Some({3})
    ensures ParseDirection("inward") == Some({4}) && ParseDirection("outward") == Some({5})
    ensures ParseDirection("clockwise") == Some({6}) && ParseDirection("counterclockwise") == Some({7})
    ensures ParseDirection("any") == Some({})
    ensures item !in ["any", "up", "down", "left", "right", "inward", "outward", "clockwise", "counterclockwise"] ==>
      ParseDirection(item) == None
  {
  }

  /** A list of directions that are all known is their union; else the first that is not known is the problem. */
  lemma {:induction false} DirectionsAdd(items: seq<string>, bit: nat)
    requires forall i :: 0 <= i < |items| ==> ParseDirection(items[i]).Some?
    ensures var (ds, wrong) := ParseDirections(items);
      wrong == None && (bit in ds <==> exists i :: 0 <= i < |items| && bit in ParseDirection(items[i]).value)
  {
    hide ParseDirection;
    if items != [] {
      DirectionsAdd(items[..|items| - 1], bit);
    }
  }

  lemma {:induction false} FirstUnknown(items: seq<string>, k: nat)
    requires k < |items| && ParseDirection(items[k]) == None
    requires forall i :: 0 <= i < k ==> ParseDirection(items[i]).Some?
    ensures ParseDirections(items).1 == Some(items[k])
  {
    DirectionsAdd(items[..k], 0);
    assert items[..k + 1][..k] == items[..k];
    FirstWrong(items, k + 1);
  }

  /** A gesture of one, two or three parts. The second part is a finger count if it is one digit from 1 to 9, and
      otherwise directions, if it is the last. */
  lemma PartsOfGesture(input: string)
    ensures var parts, r := Split(input, ':'), Parse(input);
      var none := Gesture(NoType, 0, {});
      if parts == [] || |parts| > 3 then r == Parsed(none, Some(NotAGesture(input)))
      else if parts[0] !in ["hold", "pinch", "swipe"] then r == Parsed(none, Some(NotAType(parts[0])))
      else
        var kind := if parts[0] == "hold" then Hold else if parts[0] == "pinch" then Pinch else Swipe;
        var counts := |parts| > 1 && |parts[1]| == 1 && 49 <= parts[1][0] as int <= 57;
        && r.output.kind == kind
        && r.output.fingers == (if counts then parts[1][0] as int - 48 else 0)
        && (|parts| == 3 && !counts ==> r.output.directions == {} && r.problem == Some(NotFingers(parts[1])))
        && (|parts| == 1 || (|parts| == 2 && counts) ==> r.output.directions == {} && r.problem == None)
        && ((|parts| == 2 && !counts) || (|parts| == 3 && counts) ==>
              var (ds, wrong) := ParseDirections(Split(parts[|parts| - 1], '+'));
              && r.output.directions == ds
              && (wrong == None ==> r.problem == None)
              && (wrong.Some? ==> r.problem == Some(NotADirection(wrong.value))))
  {
    hide Split, ParseDirections;
  }

  // ----- round trip

  lemma NamesParse(bit: nat)
    ensures bit < 8 ==> ParseDirection(DirectionString(bit)) == Some({bit})
    ensures bit >= 8 ==> ParseDirection(DirectionString(bit)) == None
    ensures IsToken(DirectionString(bit), '+') && IsToken(DirectionString(bit), ':')
  {
    var name := DirectionString(bit);
    assert bit == 0 || bit == 1 || bit == 2 || bit == 3 || bit == 4 || bit == 5 || bit == 6 || bit == 7 || bit >= 8;
    assert bit == 0 ==> name == "up";
  }

  /** The bits below `bit` that are set, and whether each of them has a name. */
  function Below(directions: set<nat>, bit: nat): set<nat> {
    set k | k in directions && k < bit
  }

  predicate Known(directions: set<nat>) {
    forall k :: k in directions ==> k < 8
  }

  lemma {:induction false} SetNamesParse(directions: set<nat>, bit: nat)
    ensures var ds := Below(directions, bit);
      var (parsed, wrong) := ParseDirections(SetNames(directions, bit));
      (wrong.None? <==> Known(ds)) && (Known(ds) ==> parsed == ds)
  {
    hide ParseDirection, DirectionString;
    var names := SetNames(directions, bit);
    if bit == 0 {
      assert Below(directions, bit) == {};
    } else {
      var before := SetNames(directions, bit - 1);
      SetNamesParse(directions, bit - 1);
      NamesParse(bit - 1);
      if bit - 1 in directions {
        assert names[..|before|] == before;
        assert Below(directions, bit) == Below(directions, bit - 1) + {bit - 1};
        assert Known(Below(directions, bit)) <==> Known(Below(directions, bit - 1)) && bit - 1 < 8;
      } else {
        assert names == before;
        assert Below(directions, bit) == Below(directions, bit - 1);
      }
    }
  }

  lemma {:induction false} SplitOfJoin(names: seq<string>)
    requires forall i :: 0 <= i < |names| ==> IsToken(names[i], '+') && ':' !in names[i]
    ensures Split(JoinPlus(names), '+') == names && ':' !in JoinPlus(names)
    ensures names != [] ==> JoinPlus(names) != ""
  {
    if names != [] {
      var n := |names| - 1;
      assert names[n] + "" == names[n];
      SplitToken(names[n], '+', "");
      if n > 0 {
        SplitOfJoin(names[..n]);
        SplitConcat(JoinPlus(names[..n]), '+', names[n]);
        assert names == names[..n] + [names[n]];
      }
    }
  }

  lemma {:induction false} SetNamesAreTokens(directions: set<nat>, bit: nat)
    ensures var names := SetNames(directions, bit);
      forall i :: 0 <= i < |names| ==> IsToken(names[i], '+') && ':' !in names[i]
    ensures (forall k :: k in directions ==> k >= bit) <==> SetNames(directions, bit) == []
  {
    hide DirectionString, ParseDirection;
    if bit > 0 {
      SetNamesAreTokens(directions, bit - 1);
      NamesParse(bit - 1);
      var before, names := SetNames(directions, bit - 1), SetNames(directions, bit);
      assert bit - 1 !in directions ==> names == before;
    }
  }

  lemma ParseAny()
    ensures ParseDirections(["any"]) == ({}, None)
  {
    var none: set<nat> := {};
    assert none + none == none;
    assert ["any"][..0] == [];
  }

  lemma DirectionsParse(directions: set<nat>)
    requires forall k :: k in directions ==> k < BITS
    ensures var s := DirectionsString(directions);
      && IsToken(s, ':')
      && var (parsed, wrong) := ParseDirections(Split(s, '+'));
         (wrong.None? <==> Known(directions)) && (Known(directions) ==> parsed == directions)
  {
    var names := SetNames(directions, BITS);
    SetNamesAreTokens(directions, BITS);
    if names == [] {
      assert directions == {};
      assert "any" + "" == "any";
      SplitToken("any", '+', "");
      assert Split("any", '+') == ["any"];
      ParseAny();
      assert IsToken("any", ':') && DirectionsString(directions) == "any";
    } else {
      SplitOfJoin(names);
      SetNamesParse(directions, BITS);
      assert Below(directions, BITS) == directions;
    }
  }

  lemma TypeParses(t: Type)
    ensures IsToken(TypeString(t), ':')
    ensures ParseType(TypeString(t)) == if t == NoType then None else Some(t)
  {
  }

  lemma SplitOfPrinted(g: Gesture)
    requires forall k :: k in g.directions ==> k < BITS
    ensures Split(ToString(g), ':') == [TypeString(g.kind), Decimal(g.fingers), DirectionsString(g.directions)]
  {
    hide *;
    TypeParses(g.kind);
    DirectionsParse(g.directions);
    DecimalIsToken(g.fingers);
    PrintedParts(g);
    ThreeTokens(TypeString(g.kind), Decimal(g.fingers), DirectionsString(g.directions));
  }

  lemma PrintedParts(g: Gesture)
    ensures ToString(g) == TypeString(g.kind) + [':'] + Decimal(g.fingers) + [':'] + DirectionsString(g.directions)
  {
  }

  lemma DecimalIsToken(n: nat)
    ensures IsToken(Decimal(n), ':')
  {
  }

  lemma ThreeTokens(a: string, b: string, c: string)
    requires IsToken(a, ':') && IsToken(b, ':') && IsToken(c, ':')
    ensures Split(a + [':'] + b + [':'] + c, ':') == [a, b, c]
  {
    assert a + "" == a && b + "" == b && c + "" == c;
    SplitToken(a, ':', "");
    SplitToken(b, ':', "");
    SplitToken(c, ':', "");
    SplitConcat(a, ':', b);
    SplitConcat(a + [':'] + b, ':', c);
  }

  /** A printed gesture parses back to itself just when it has a type, one to nine fingers, and no direction bit
      beyond the eight that have names; any other one is an error. */
  lemma PrintedParses(g: Gesture)
    requires forall k :: k in g.directions ==> k < BITS
    ensures var printable := g.kind != NoType && 1 <= g.fingers <= 9 && Known(g.directions);
      if printable then Parse(ToString(g)) == Parsed(g, None) else Parse(ToString(g)).problem.Some?
  {
    hide Split, ParseDirections, DirectionsString, ToString;
    SplitOfPrinted(g);
    TypeParses(g.kind);
    DirectionsParse(g.directions);
    assert IsFingerCount(Decimal(g.fingers)) <==> 1 <= g.fingers <= 9;
  }
}
