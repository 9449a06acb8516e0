/** Loading a configuration and the files it includes (sway/config.c 441-470 and 472-650, sway/commands/include.c). */
module Include {
  import opened Common

  type Path = string

  /** A line as reading it matters here: `include` itself always succeeds, whatever becomes of the files. */
  datatype Line = Include(pattern: string) | Plain(ok: bool)

  datatype File = Directory | Unreadable | Regular(lines: seq<Line>)

  /** `files` holds what exists, by canonical path. `expansion` gives the words that a pattern expands to in the
      directory of a configuration, each by its canonical path; no entry stands for a directory that cannot be
      entered or a pattern that cannot be expanded. */
  datatype Disk = Disk(files: map<Path, File>, expansion: map<(Path, string), seq<Path>>)

  predicate Readable(d: Disk, p: Path) {
    p in d.files && d.files[p].Regular?
  }

  predicate Clean(lines: seq<Line>) {
    forall i :: 0 <= i < |lines| ==> lines[i] != Plain(false)
  }

  function Words(d: Disk, current: Path, pattern: string): seq<Path> {
    if (current, pattern) in d.expansion then d.expansion[(current, pattern)] else []
  }

  /** What load_config answers. `keep` is `active || !validating`: errors in a file only fail it when validating. */
  predicate Loads(d: Disk, keep: bool, p: Path) {
    Readable(d, p) && (keep || Clean(d.files[p].lines))
  }

  /** The chain, and every file read so far. */
  datatype State = State(chain: seq<Path>, log: seq<Path>)

  function Without(s: seq<Path>, index: nat): seq<Path>
    requires index < |s|
  {
    s[..index] + s[index + 1..]
  }

  // ----- the chain bounds the recursion

  ghost function Unread(d: Disk, chain: seq<Path>): nat {
    |set p | p in d.files && p !in chain|
  }

  lemma UnreadShrinks(d: Disk, chain: seq<Path>, longer: seq<Path>)
    requires chain <= longer
    ensures Unread(d, longer) <= Unread(d, chain)
    ensures (exists p :: p in d.files && p !in chain && p in longer) ==> Unread(d, longer) < Unread(d, chain)
  {
    var a, b := set p | p in d.files && p !in chain, set p | p in d.files && p !in longer;
    Smaller(b, a);
    if p :| p in d.files && p !in chain && p in longer {
      assert p in a && p !in b;
    }
  }

  lemma {:induction false} Smaller<T>(b: set<T>, a: set<T>)
    requires b <= a
    ensures |b| <= |a| && (b != a ==> |b| < |a|)
  {
    assert a == b + (a - b);
    assert b != a ==> a - b != {};
  }

  // ----- what loading does

  ghost function ReadLines(d: Disk, keep: bool, current: Path, lines: seq<Line>, s: State): (r: State)
    ensures s.chain <= r.chain && s.log <= r.log
    decreases Unread(d, s.chain), 2, |lines|
  {
    if lines == [] then s
    else if lines[0].Include? then
      var next := IncludeWords(d, keep, Words(d, current, lines[0].pattern), s);
      UnreadShrinks(d, s.chain, next.chain);
      ReadLines(d, keep, current, lines[1..], next)
    else ReadLines(d, keep, current, lines[1..], s)
  }

  ghost function IncludeWords(d: Disk, keep: bool, words: seq<Path>, s: State): (r: State)
    ensures s.chain <= r.chain && s.log <= r.log
    decreases Unread(d, s.chain), 1, |words|
  {
    if words == [] then s
    else
      var next := IncludeFile(d, keep, words[0], s);
      UnreadShrinks(d, s.chain, next.chain);
      IncludeWords(d, keep, words[1..], next)
  }

  /** A file that fails leaves the chain again; the files it pulled in stay. */
  ghost function IncludeFile(d: Disk, keep: bool, word: Path, s: State): (r: State)
    ensures s.chain <= r.chain && s.log <= r.log
    decreases Unread(d, s.chain), 0
  {
    if word !in d.files || word in s.chain || !Readable(d, word) then s
    else
      var r := ReadFile(d, keep, word, s);
      if Loads(d, keep, word) then r else State(Without(r.chain, |s.chain|), r.log)
  }

  ghost function ReadFile(d: Disk, keep: bool, p: Path, s: State): (r: State)
    requires Readable(d, p) && p !in s.chain
    ensures s.chain + [p] <= r.chain && s.log + [p] <= r.log
    decreases Unread(d, s.chain), 0, 0
  {
    UnreadShrinks(d, s.chain, s.chain + [p]);
    ReadLines(d, keep, p, d.files[p].lines, State(s.chain + [p], s.log + [p]))
  }

  // ----- what holds between the states before and after

  /** Every loadable file that a line names is in the chain. */
  ghost predicate Followed(d: Disk, keep: bool, current: Path, line: Line, chain: seq<Path>) {
    line.Include? ==> AllPresent(d, keep, Words(d, current, line.pattern), chain)
  }

  ghost predicate AllPresent(d: Disk, keep: bool, words: seq<Path>, chain: seq<Path>) {
    forall i :: 0 <= i < |words| ==> Present(d, keep, words[i], chain)
  }

  predicate Present(d: Disk, keep: bool, word: Path, chain: seq<Path>) {
    Loads(d, keep, word) ==> word in chain
  }

  ghost predicate LinesFollowed(d: Disk, keep: bool, current: Path, lines: seq<Line>, chain: seq<Path>) {
    forall i :: 0 <= i < |lines| ==> Followed(d, keep, current, lines[i], chain)
  }

  /** The file was read after state s, and everything it includes is accounted for in state r. */
  ghost predicate ReadOnce(d: Disk, keep: bool, s: State, r: State, i: nat)
    requires i < |r.log|
  {
    var p := r.log[i];
    && Readable(d, p) && p !in s.chain
    && (Loads(d, keep, p) ==> p in r.chain && forall j :: |s.log| <= j < i ==> r.log[j] != p)
    && LinesFollowed(d, keep, p, d.files[p].lines, r.chain)
  }

  ghost predicate ChainGrows(d: Disk, keep: bool, s: State, r: State) {
    && s.chain <= r.chain && (NoDuplicates(s.chain) ==> NoDuplicates(r.chain))
    && (forall i :: |s.chain| <= i < |r.chain| ==> Loads(d, keep, r.chain[i]))
    && s.log <= r.log && (keep ==> r.log[|s.log|..] == r.chain[|s.chain|..])
  }

  ghost predicate Step(d: Disk, keep: bool, s: State, r: State) {
    && ChainGrows(d, keep, s, r)
    && forall i :: |s.log| <= i < |r.log| ==> ReadOnce(d, keep, s, r, i)
  }

  lemma StaysFollowed(d: Disk, keep: bool, current: Path, lines: seq<Line>, chain: seq<Path>, other: seq<Path>)
    requires LinesFollowed(d, keep, current, lines, chain)
    requires forall q :: q in chain && Loads(d, keep, q) ==> q in other
    ensures LinesFollowed(d, keep, current, lines, other)
  {
    hide Loads;
    forall i | 0 <= i < |lines| ensures Followed(d, keep, current, lines[i], other) {
      assert Followed(d, keep, current, lines[i], chain);
      if lines[i].Include? {
        var words := Words(d, current, lines[i].pattern);
        forall j | 0 <= j < |words| ensures Present(d, keep, words[j], other) {
          assert Present(d, keep, words[j], chain);
        }
      }
    }
  }

  lemma ChainGrowsThen(d: Disk, keep: bool, s: State, m: State, r: State)
    requires ChainGrows(d, keep, s, m) && ChainGrows(d, keep, m, r)
    ensures ChainGrows(d, keep, s, r)
  {
    hide Loads;
    assert r.log[|s.log|..] == m.log[|s.log|..] + r.log[|m.log|..];
    assert r.chain[|s.chain|..] == m.chain[|s.chain|..] + r.chain[|m.chain|..];
  }

  lemma StepThen(d: Disk, keep: bool, s: State, m: State, r: State)
    requires Step(d, keep, s, m) && Step(d, keep, m, r)
    ensures Step(d, keep, s, r)
  {
    hide ChainGrows, LinesFollowed, Loads;
    ChainGrowsThen(d, keep, s, m, r);
    Prefixes(d, keep, s, m);
    Prefixes(d, keep, m, r);
    forall i | |s.log| <= i < |r.log| ensures ReadOnce(d, keep, s, r, i) {
      var p := r.log[i];
      if i < |m.log| {
        assert ReadOnce(d, keep, s, m, i);
        StaysFollowed(d, keep, p, d.files[p].lines, m.chain, r.chain);
      } else {
        assert ReadOnce(d, keep, m, r, i);
        if Loads(d, keep, p) {
          forall j | |s.log| <= j < i ensures r.log[j] != p {
            if j < |m.log| {
              assert ReadOnce(d, keep, s, m, j);
            }
          }
        }
      }
    }
  }

  lemma Prefixes(d: Disk, keep: bool, s: State, r: State)
    requires ChainGrows(d, keep, s, r)
    ensures s.chain <= r.chain && s.log <= r.log
  {
  }

  /** The chain once the load of p has ended: without p if it failed. */
  ghost function Settled(d: Disk, keep: bool, p: Path, s: State, r: State): State
    requires |s.chain| < |r.chain|
  {
    State(if Loads(d, keep, p) then r.chain else Without(r.chain, |s.chain|), r.log)
  }

  lemma SettledGrows(d: Disk, keep: bool, p: Path, s: State, r: State)
    requires p !in s.chain && Readable(d, p)
    requires ChainGrows(d, keep, State(s.chain + [p], s.log + [p]), r)
    ensures s.log + [p] <= r.log && s.chain + [p] <= r.chain
    ensures ChainGrows(d, keep, s, Settled(d, keep, p, s, r))
    ensures forall q :: q in r.chain && Loads(d, keep, q) ==> q in Settled(d, keep, p, s, r).chain
    ensures Loads(d, keep, p) ==> p in r.chain
  {
    var inner, n := State(s.chain + [p], s.log + [p]), |s.chain|;
    var after := Settled(d, keep, p, s, r);
    assert r.chain[n] == p && r.log[|s.log|] == p;
    assert r.chain[n..] == [p] + r.chain[n + 1..];
    assert r.log[|s.log|..] == [p] + r.log[|s.log| + 1..];
    SettledKeeps(d, keep, p, s, r);
  }

  lemma SettledKeeps(d: Disk, keep: bool, p: Path, s: State, r: State)
    requires |s.chain| < |r.chain| && r.chain[|s.chain|] == p
    ensures forall q :: q in r.chain && Loads(d, keep, q) ==> q in Settled(d, keep, p, s, r).chain
  {
    hide Loads;
    var after, n := Settled(d, keep, p, s, r), |s.chain|;
    forall q | q in r.chain && Loads(d, keep, q) ensures q in after.chain {
      var i :| 0 <= i < |r.chain| && r.chain[i] == q;
      if !Loads(d, keep, p) {
        assert i < n ==> after.chain[i] == q;
        assert i > n ==> after.chain[i - 1] == q;
      }
    }
  }

  /** What reading a file does, seen from outside: the file itself counts, and a failed one is taken out again. */
  lemma FileStep(d: Disk, keep: bool, p: Path, s: State, r: State)
    requires p !in s.chain && Readable(d, p)
    requires Step(d, keep, State(s.chain + [p], s.log + [p]), r)
    requires LinesFollowed(d, keep, p, d.files[p].lines, r.chain)
    ensures |s.chain| < |r.chain| && Step(d, keep, s, Settled(d, keep, p, s, r))
    ensures Loads(d, keep, p) ==> p in Settled(d, keep, p, s, r).chain
  {
    hide LinesFollowed, ChainGrows, Loads, Settled;
    SettledGrows(d, keep, p, s, r);
    var inner, after := State(s.chain + [p], s.log + [p]), Settled(d, keep, p, s, r);
    SettledLog(d, keep, p, s, r);
    StaysFollowed(d, keep, p, d.files[p].lines, r.chain, after.chain);
    assert r.log[|s.log|] == p;
    forall i | |s.log| <= i < |r.log| ensures ReadOnce(d, keep, s, after, i) {
      if i > |s.log| {
        assert ReadOnce(d, keep, inner, r, i);
        StaysFollowed(d, keep, r.log[i], d.files[r.log[i]].lines, r.chain, after.chain);
      }
    }
  }

  lemma SettledLog(d: Disk, keep: bool, p: Path, s: State, r: State)
    requires |s.chain| < |r.chain|
    ensures Settled(d, keep, p, s, r).log == r.log
  {
  }

  // ----- reading keeps to it

  lemma {:induction false} ReadLinesSteps(d: Disk, keep: bool, current: Path, lines: seq<Line>, s: State)
    ensures var r := ReadLines(d, keep, current, lines, s);
      Step(d, keep, s, r) && LinesFollowed(d, keep, current, lines, r.chain)
    decreases Unread(d, s.chain), 2, |lines|
  {
    hide Loads, Step, LinesFollowed;
    if lines == [] {
      NoStep(d, keep, s);
      assert LinesFollowed(d, keep, current, lines, s.chain) by { NothingToFollow(d, keep, current, s.chain); }
    } else {
      var next := s;
      NoStep(d, keep, s);
      if lines[0].Include? {
        next := IncludeWords(d, keep, Words(d, current, lines[0].pattern), s);
        IncludeWordsSteps(d, keep, Words(d, current, lines[0].pattern), s);
        UnreadShrinks(d, s.chain, next.chain);
      }
      ReadLinesSteps(d, keep, current, lines[1..], next);
      var r := ReadLines(d, keep, current, lines[1..], next);
      StepThen(d, keep, s, next, r);
      LineThenLines(d, keep, current, lines, next.chain, r.chain);
    }
  }

  lemma NoStep(d: Disk, keep: bool, s: State)
    ensures Step(d, keep, s, s)
  {
  }

  lemma NothingToFollow(d: Disk, keep: bool, current: Path, chain: seq<Path>)
    ensures LinesFollowed(d, keep, current, [], chain)
  {
  }

  lemma LineThenLines(d: Disk, keep: bool, current: Path, lines: seq<Line>, chain: seq<Path>, longer: seq<Path>)
    requires lines != [] && Followed(d, keep, current, lines[0], chain) && chain <= longer
    requires LinesFollowed(d, keep, current, lines[1..], longer)
    ensures LinesFollowed(d, keep, current, lines, longer)
  {
    hide Loads;
    assert LinesFollowed(d, keep, current, lines[..1], chain);
    StaysFollowed(d, keep, current, lines[..1], chain, longer);
    forall i | 0 <= i < |lines| ensures Followed(d, keep, current, lines[i], longer) {
      assert if i == 0 then lines[..1][i] == lines[i] else lines[1..][i - 1] == lines[i];
    }
  }

  lemma {:induction false} IncludeWordsSteps(d: Disk, keep: bool, words: seq<Path>, s: State)
    ensures var r := IncludeWords(d, keep, words, s);
      Step(d, keep, s, r) && AllPresent(d, keep, words, r.chain)
    decreases Unread(d, s.chain), 1, |words|
  {
    hide Loads, Step;
    NoStep(d, keep, s);
    if words != [] {
      var next := IncludeFile(d, keep, words[0], s);
      IncludeFileSteps(d, keep, words[0], s);
      UnreadShrinks(d, s.chain, next.chain);
      IncludeWordsSteps(d, keep, words[1..], next);
      var r := IncludeWords(d, keep, words[1..], next);
      StepThen(d, keep, s, next, r);
      forall i | 0 <= i < |words| ensures Present(d, keep, words[i], r.chain) {
        assert i > 0 ==> words[1..][i - 1] == words[i];
      }
    }
  }

  lemma {:induction false} IncludeFileSteps(d: Disk, keep: bool, word: Path, s: State)
    ensures var r := IncludeFile(d, keep, word, s);
      Step(d, keep, s, r) && Present(d, keep, word, r.chain)
    decreases Unread(d, s.chain), 0
  {
    hide Step, LinesFollowed;
    NoStep(d, keep, s);
    if !(word !in d.files || word in s.chain || !Readable(d, word)) {
      var p := word;
      UnreadShrinks(d, s.chain, s.chain + [p]);
      ReadLinesSteps(d, keep, p, d.files[p].lines, State(s.chain + [p], s.log + [p]));
      FileStep(d, keep, p, s, ReadFile(d, keep, p, s));
    }
  }

  // ----- only files that are included get read

  /** Every word of these lines that names a readable file names one of R. */
  ghost predicate Leads(d: Disk, current: Path, lines: seq<Line>, R: set<Path>) {
    forall i :: 0 <= i < |lines| && lines[i].Include? ==> WordsLead(d, Words(d, current, lines[i].pattern), R)
  }

  predicate WordsLead(d: Disk, words: seq<Path>, R: set<Path>) {
    forall i :: 0 <= i < |words| && Readable(d, words[i]) ==> words[i] in R
  }

  /** R holds whatever its own readable files include, but for the main file, which looks from elsewhere. */
  ghost predicate ClosedUnderInclude(d: Disk, main: Path, R: set<Path>) {
    forall p :: p in R && p != main && Readable(d, p) ==> Leads(d, p, d.files[p].lines, R)
  }

  ghost predicate LogWithin(s: State, r: State, R: set<Path>) {
    |s.log| <= |r.log| && forall i :: |s.log| <= i < |r.log| ==> r.log[i] in R
  }

  lemma {:induction false} ReadLinesWithin(d: Disk, keep: bool, main: Path, current: Path, lines: seq<Line>, s: State,
                                           R: set<Path>)
    requires main in s.chain && ClosedUnderInclude(d, main, R) && Leads(d, current, lines, R)
    ensures LogWithin(s, ReadLines(d, keep, current, lines, s), R)
    decreases Unread(d, s.chain), 2, |lines|
  {
    hide WordsLead;
    if lines != [] {
      var next := s;
      if lines[0].Include? {
        next := IncludeWords(d, keep, Words(d, current, lines[0].pattern), s);
        IncludeWordsWithin(d, keep, main, Words(d, current, lines[0].pattern), s, R);
        UnreadShrinks(d, s.chain, next.chain);
      }
      ReadLinesWithin(d, keep, main, current, lines[1..], next, R);
    }
  }

  lemma {:induction false} IncludeWordsWithin(d: Disk, keep: bool, main: Path, words: seq<Path>, s: State,
                                              R: set<Path>)
    requires main in s.chain && ClosedUnderInclude(d, main, R) && WordsLead(d, words, R)
    ensures LogWithin(s, IncludeWords(d, keep, words, s), R)
    decreases Unread(d, s.chain), 1, |words|
  {
    hide ClosedUnderInclude;
    if words != [] {
      var next := IncludeFile(d, keep, words[0], s);
      if words[0] !in s.chain && Readable(d, words[0]) {
        var p := words[0];
        UnreadShrinks(d, s.chain, s.chain + [p]);
        ReadFileWithin(d, keep, main, p, s, R);
      }
      UnreadShrinks(d, s.chain, next.chain);
      IncludeWordsWithin(d, keep, main, words[1..], next, R);
    }
  }

  lemma {:induction false} ReadFileWithin(d: Disk, keep: bool, main: Path, p: Path, s: State, R: set<Path>)
    requires main in s.chain && ClosedUnderInclude(d, main, R) && Readable(d, p) && p !in s.chain && p in R
    ensures LogWithin(s, ReadFile(d, keep, p, s), R)
    decreases Unread(d, s.chain), 0
  {
    UnreadShrinks(d, s.chain, s.chain + [p]);
    ReadLinesWithin(d, keep, main, p, d.files[p].lines, State(s.chain + [p], s.log + [p]), R);
  }

  // ----- the whole configuration

  /** The main file is in the chain by its real path whatever comes of it; its own includes are taken from the
      directory of the path it was given by. */
  ghost function LoadedMain(d: Disk, keep: bool, path: Path, main: Path): State {
    if Readable(d, main) then ReadLines(d, keep, path, d.files[main].lines, State([main], [main]))
    else State([main], [])
  }

  /** Over every include graph, cyclic or not: the main file is read once, a file that loads is read at most once,
      and it is read if some file that was read includes it. */
  lemma EveryIncludeOnce(d: Disk, keep: bool, path: Path, main: Path)
    ensures var r := LoadedMain(d, keep, path, main);
      && NoDuplicates(r.chain) && r.chain[..1] == [main]
      && (forall i :: 1 <= i < |r.chain| ==> Loads(d, keep, r.chain[i]))
      && (r.log != [] <==> Readable(d, main))
      && (forall i :: 0 <= i < |r.log| ==> Readable(d, r.log[i]) && (r.log[i] == main <==> i == 0))
      && (forall i, j :: 0 <= i < j < |r.log| && r.log[i] == r.log[j] ==> !Loads(d, keep, r.log[i]))
      && (forall i :: 0 <= i < |r.log| && Loads(d, keep, r.log[i]) ==> r.log[i] in r.chain)
      && (Readable(d, main) ==> LinesFollowed(d, keep, path, d.files[main].lines, r.chain))
      && (forall i :: 1 <= i < |r.log| ==> LinesFollowed(d, keep, r.log[i], d.files[r.log[i]].lines, r.chain))
  {
    hide LinesFollowed, Loads;
    if Readable(d, main) {
      var s := State([main], [main]);
      ReadLinesSteps(d, keep, path, d.files[main].lines, s);
      var r := LoadedMain(d, keep, path, main);
      assert r.log[0] == main && r.chain[0] == main;
      forall i | 1 <= i < |r.log|
        ensures Readable(d, r.log[i]) && r.log[i] != main
        ensures LinesFollowed(d, keep, r.log[i], d.files[r.log[i]].lines, r.chain)
        ensures Loads(d, keep, r.log[i]) ==> r.log[i] in r.chain && forall j :: 1 <= j < i ==> r.log[j] != r.log[i]
      {
        assert ReadOnce(d, keep, s, r, i);
      }
    }
  }

  /** Outside validation: the chain is just what was read, in that order, and nothing is read twice. */
  lemma NothingReadTwice(d: Disk, path: Path, main: Path)
    requires Readable(d, main)
    ensures var r := LoadedMain(d, true, path, main);
      r.log == r.chain && NoDuplicates(r.log)
  {
    ReadLinesSteps(d, true, path, d.files[main].lines, State([main], [main]));
    var r := LoadedMain(d, true, path, main);
    assert r.log == r.log[..1] + r.log[1..] && r.chain == r.chain[..1] + r.chain[1..];
  }

  lemma FollowedLead(d: Disk, current: Path, lines: seq<Line>, chain: seq<Path>, C: set<Path>)
    requires forall p :: p in chain ==> p in C
    ensures LinesFollowed(d, true, current, lines, chain) ==> Leads(d, current, lines, C)
  {
  }

  /** Outside validation the chain is the least set of files that holds the main file, whatever readable files this
      includes by the path it was given by, and whatever readable files its other members include. */
  lemma ChainIsReachable(d: Disk, path: Path, main: Path, R: set<Path>)
    requires Readable(d, main) && ClosedUnderInclude(d, main, R) && main in R
    requires Leads(d, path, d.files[main].lines, R)
    ensures forall p :: p in LoadedMain(d, true, path, main).chain ==> p in R
    ensures var chain := LoadedMain(d, true, path, main).chain;
      var C := set p | p in chain;
      && (forall p :: p in chain ==> Readable(d, p))
      && main in C && ClosedUnderInclude(d, main, C) && Leads(d, path, d.files[main].lines, C)
  {
    hide LinesFollowed, Leads;
    var chain := LoadedMain(d, true, path, main).chain;
    var C := set p | p in chain;
    NothingReadTwice(d, path, main);
    EveryIncludeOnce(d, true, path, main);
    FollowedLead(d, path, d.files[main].lines, chain, C);
    forall p | p in C && p != main && Readable(d, p) ensures Leads(d, p, d.files[p].lines, C) {
      FollowedLead(d, p, d.files[p].lines, chain, C);
    }
    ReadLinesWithin(d, true, main, path, d.files[main].lines, State([main], [main]), R);
  }

  /** Some line of p includes w, which is readable; the main file's patterns expand beside the path it was given by. */
  ghost predicate IncludedBy(d: Disk, path: Path, main: Path, p: Path, w: Path) {
    && p in d.files && d.files[p].Regular? && w in d.files && d.files[w].Regular?
    && exists pattern :: Include(pattern) in d.files[p].lines &&
         var at := (if p == main then path else p, pattern); at in d.expansion && w in d.expansion[at]
  }

  /** In full: whatever is included by a file of the chain is in the chain, and nothing else but the main file. */
  lemma ChainIsWhatIsIncluded(d: Disk, path: Path, main: Path)
    requires main in d.files && d.files[main].Regular?
    ensures var chain := LoadedMain(d, true, path, main).chain;
      && main in chain && (forall p, w :: p in chain && IncludedBy(d, path, main, p, w) ==> w in chain)
      && forall w :: w in chain && w != main ==> exists p :: p in chain && IncludedBy(d, path, main, p, w)
  {
    hide LoadedMain;
    var chain := LoadedMain(d, true, path, main).chain;
    var all := set p | p in d.files;
    AllIsClosed(d, path, main, all);
    ChainIsReachable(d, path, main, all);
    var C := set p | p in chain;
    forall p, w | p in chain && IncludedBy(d, path, main, p, w) ensures w in chain {
      InsideIsLed(d, path, main, C, p, w);
    }
    var R := set w | w in chain && (w == main || exists p :: p in chain && IncludedBy(d, path, main, p, w));
    LedByIncluded(d, path, main, C, R);
    ChainIsReachable(d, path, main, R);
  }

  lemma AllIsClosed(d: Disk, path: Path, main: Path, all: set<Path>)
    requires all == (set p | p in d.files) && main in d.files && d.files[main].Regular?
    ensures ClosedUnderInclude(d, main, all) && Leads(d, path, d.files[main].lines, all)
  {
  }

  lemma InsideIsLed(d: Disk, path: Path, main: Path, C: set<Path>, p: Path, w: Path)
    requires main in d.files && d.files[main].Regular? && p in C && IncludedBy(d, path, main, p, w)
    requires ClosedUnderInclude(d, main, C) && Leads(d, path, d.files[main].lines, C)
    ensures w in C
  {
    var pattern :| Include(pattern) in d.files[p].lines &&
      var at := (if p == main then path else p, pattern); at in d.expansion && w in d.expansion[at];
    var current, lines := if p == main then path else p, d.files[p].lines;
    assert Leads(d, current, lines, C);
    var i :| 0 <= i < |lines| && lines[i] == Include(pattern);
    var words := Words(d, current, pattern);
    assert WordsLead(d, words, C);
    var k :| 0 <= k < |words| && words[k] == w;
  }

  lemma LedByIncluded(d: Disk, path: Path, main: Path, C: set<Path>, R: set<Path>)
    requires main in d.files && d.files[main].Regular? && main in C && main in R && R <= C
    requires ClosedUnderInclude(d, main, C) && Leads(d, path, d.files[main].lines, C)
    requires forall p, w :: p in C && w in C && IncludedBy(d, path, main, p, w) ==> w in R
    ensures ClosedUnderInclude(d, main, R) && Leads(d, path, d.files[main].lines, R)
  {
    forall p | p in R && Readable(d, p)
      ensures Leads(d, if p == main then path else p, d.files[p].lines, R)
    {
      var current, lines := if p == main then path else p, d.files[p].lines;
      assert Leads(d, current, lines, C);
      forall i | 0 <= i < |lines| && lines[i].Include?
        ensures WordsLead(d, Words(d, current, lines[i].pattern), R)
      {
        var words := Words(d, current, lines[i].pattern);
        assert WordsLead(d, words, C);
        assert Include(lines[i].pattern) in lines;
        forall k | 0 <= k < |words| && Readable(d, words[k]) ensures words[k] in R {
          assert IncludedBy(d, path, main, p, words[k]);
        }
      }
    }
  }

  /** When validating, an include of a file with an error of its own reads it once and leaves it out of the chain, so
      that the next include reads it again; only while it is being read, and so is in the chain, is it passed over. */
  lemma FailingFileIsReadAgain(d: Disk, p: Path, s: State)
    requires Readable(d, p) && !Clean(d.files[p].lines)
    ensures p in s.chain ==> IncludeFile(d, false, p, s) == s
    ensures p !in s.chain ==> var r := IncludeFile(d, false, p, s);
      && |s.log| < |r.log| && r.log[|s.log|] == p && p !in r.chain
      && forall j :: |s.log| < j < |r.log| ==> r.log[j] != p
  {
    hide LinesFollowed;
    if p !in s.chain {
      var inner := State(s.chain + [p], s.log + [p]);
      UnreadShrinks(d, s.chain, inner.chain);
      var r := ReadFile(d, false, p, s);
      ReadLinesSteps(d, false, p, d.files[p].lines, inner);
      assert !Loads(d, false, p) && inner.log[|s.log|] == p;
      forall j | |s.log| < j < |r.log| ensures r.log[j] != p {
        assert ReadOnce(d, false, inner, r, j);
        assert p == inner.chain[|s.chain|];
      }
    }
  }

  class Config {
    const disk: Disk
    const active: bool
    const validating: bool
    var chain: seq<Path>       // config_chain
    var current: Path          // current_config_path
    ghost var log: seq<Path>   // files read, in order

    constructor (disk: Disk, active: bool, validating: bool)
      ensures this.disk == disk && this.active == active && this.validating == validating && chain == [] && log == []
    {
      this.disk, this.active, this.validating := disk, active, validating;
      chain, current, log := [], "", [];
    }

    predicate Keep() {
      active || !validating
    }

    ghost function Now(): State
      reads this
    {
      State(chain, log)
    }

    /** `main` is where `path` leads. */
    method LoadMainConfig(path: Path, main: Path) returns (success: bool)
      requires chain == [] && log == []
      modifies this
      ensures success == Loads(disk, Keep(), main)
      ensures success <==>
        && main in disk.files && disk.files[main].Regular?
        && (active || !validating || Plain(false) !in disk.files[main].lines)
      ensures main in disk.files ==> Now() == LoadedMain(disk, Keep(), path, main)
      ensures main !in disk.files ==> Now() == State([], [])
    {
      if main !in disk.files {
        return false;
      }
      current := path;
      chain := [main];
      assert log + [main] == [main];
      success := LoadConfig(main);
    }

    /** The caller has made the file the current one. */
    method LoadConfig(path: Path) returns (success: bool)
      modifies this
      ensures current == old(current) && success == Loads(disk, Keep(), path)
      ensures success <==>
        && path in disk.files && disk.files[path].Regular?
        && (active || !validating || Plain(false) !in disk.files[path].lines)
      ensures Now() == if !Readable(disk, path) then old(Now())
        else ReadLines(disk, Keep(), current, disk.files[path].lines, State(old(chain), old(log) + [path]))
      decreases Unread(disk, chain), 3
    {
      if path !in disk.files || disk.files[path].Directory? || disk.files[path].Unreadable? {
        return false;
      }
      log := log + [path];
      var clean := ReadConfig(disk.files[path].lines);
      return active || !validating || clean;
    }

    method ReadConfig(lines: seq<Line>) returns (success: bool)
      modifies this
      ensures current == old(current) && success == Clean(lines) == (Plain(false) !in lines)
      ensures Now() == ReadLines(disk, Keep(), current, lines, old(Now()))
      decreases Unread(disk, chain), 2
    {
      success := true;
      ghost var end := ReadLines(disk, Keep(), current, lines, Now());
      for i := 0 to |lines|
        invariant current == old(current) && old(chain) <= chain && success == Clean(lines[..i])
        invariant ReadLines(disk, Keep(), current, lines[i..], Now()) == end
      {
        assert lines[i..][1..] == lines[i + 1..];
        assert lines[..i + 1] == lines[..i] + [lines[i]];
        UnreadShrinks(disk, old(chain), chain);
        match lines[i]
        case Include(pattern) =>
          LoadIncludeConfigs(pattern);
        case Plain(ok) =>
          if !ok {
            success := false;
          }
      }
      assert lines[..|lines|] == lines;
    }

    method LoadIncludeConfigs(pattern: string)
      modifies this
      ensures current == old(current)
      ensures Now() == IncludeWords(disk, Keep(), Words(disk, current, pattern), old(Now()))
      decreases Unread(disk, chain), 1
    {
      var words := Words(disk, current, pattern);
      ghost var end := IncludeWords(disk, Keep(), words, Now());
      for i := 0 to |words|
        invariant current == old(current) && old(chain) <= chain
        invariant IncludeWords(disk, Keep(), words[i..], Now()) == end
      {
        assert words[i..][1..] == words[i + 1..];
        UnreadShrinks(disk, old(chain), chain);
        var ignored := LoadIncludeConfig(words[i]);
      }
    }

    method LoadIncludeConfig(path: Path) returns (success: bool)
      modifies this
      ensures current == old(current)
      ensures Now() == IncludeFile(disk, Keep(), path, old(Now()))
      ensures success <==>
        && path !in old(chain) && path in disk.files && disk.files[path].Regular?
        && (active || !validating || Plain(false) !in disk.files[path].lines)
      decreases Unread(disk, chain), 0
    {
      var parent := current;
      if path !in disk.files {
        return false;
      }
      var j := 0;
      while j < |chain|
        invariant j <= |chain| && path !in chain[..j]
      {
        if path == chain[j] {
          return false;
        }
        j := j + 1;
      }
      current := path;
      chain := chain + [path];
      var index := |chain| - 1;
      UnreadShrinks(disk, old(chain), chain);
      success := LoadConfig(path);
      if !success {
        current := parent;
        assert Readable(disk, path) ==> Now() == ReadFile(disk, Keep(), path, old(Now()));
        chain := Without(chain, index);
        return;
      }
      current := parent;
    }
  }
}
