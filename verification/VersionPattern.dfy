/** The version pattern of scripts/release.py on text: what `VERSION.finditer` finds and what `VERSION.sub` leaves.
    The pattern is a line start, spaces, `version: "`, a text without quotes, `",` and a line end. */
module VersionPattern {
  import opened Wrappers
  import opened Text

  const KEY := "version: \""

  /** A match: its leading spaces, which may hold newlines, and its version. */
  datatype Declaration = Declaration(margin: string, version: string)

  function DeclarationText(d: Declaration): string {
    d.margin + (KEY + (d.version + "\","))
  }

  predicate WellFormed(d: Declaration) {
    Spaces(d.margin) && d.version != "" && '"' !in d.version
  }

  /** The multi-line `$`. */
  predicate LineEnds(s: string) {
    s == "" || s[0] == '\n'
  }

  /** `",` and a line end. */
  predicate Closes(s: string) {
    |s| >= 2 && s[0] == '"' && s[1] == ',' && LineEnds(s[2..])
  }

  /** The first quote closes. */
  predicate RunCloses(s: string) {
    s != "" && if s[0] == '"' then Closes(s) else RunCloses(s[1..])
  }

  predicate ValueCloses(s: string) {
    s != "" && s[0] != '"' && RunCloses(s)
  }

  /** The pattern after its line start matches at the front. */
  predicate Matches(s: string) {
    if s != "" && IsSpace(s[0]) then Matches(s[1..]) else KEY <= s && ValueCloses(s[|KEY|..])
  }

  function RunOf(s: string): string {
    if s == "" || s[0] == '"' then "" else [s[0]] + RunOf(s[1..])
  }

  function MarginOf(s: string): string {
    if s != "" && IsSpace(s[0]) then [s[0]] + MarginOf(s[1..]) else ""
  }

  // ----- Taking the first character off

  lemma FirstApart(a: string, t: string)
    requires a != ""
    ensures (a + t)[0] == a[0] && (a + t)[1..] == a[1..] + t && a + t == [a[0]] + (a[1..] + t)
  {
  }

  lemma PrefixGrows(p: string, s: string)
    requires p != "" && s != "" && p[0] == s[0] && p[1..] <= s[1..]
    ensures p <= s && s[|p|..] == s[1..][|p| - 1..]
  {
    assert p == [p[0]] + p[1..] && s == [s[0]] + s[1..];
  }

  lemma PrefixShrinks(p: string, c: char, s: string)
    requires p != "" && p <= [c] + s
    ensures p[0] == c && p[1..] <= s && ([c] + s)[|p|..] == s[|p| - 1..]
  {
  }

  // ----- A match is a declaration and a line end

  lemma {:induction false} RunSplits(s: string)
    requires RunCloses(s)
    ensures '"' !in RunOf(s) && RunOf(s) + "\"," <= s && LineEnds(s[|RunOf(s)| + 2..])
  {
    if s[0] != '"' {
      RunSplits(s[1..]);
      assert s == [s[0]] + s[1..];
    }
  }

  lemma {:induction false} MarginSplits(s: string)
    requires Matches(s)
    ensures Spaces(MarginOf(s)) && MarginOf(s) + KEY <= s && ValueCloses(s[|MarginOf(s)| + |KEY|..])
  {
    if IsSpace(s[0]) {
      MarginSplits(s[1..]);
      var margin := MarginOf(s[1..]);
      FirstApart(MarginOf(s), KEY);
      assert MarginOf(s)[1..] == margin;
      PrefixGrows(MarginOf(s) + KEY, s);
    }
  }

  lemma MatchSplits(s: string)
    requires Matches(s)
    ensures
      var margin := MarginOf(s);
      |margin| + |KEY| <= |s| && Splits(s, Declaration(margin, RunOf(s[|margin| + |KEY|..])))
  {
    MarginSplits(s);
    var margin := MarginOf(s);
    var u := s[|margin| + |KEY|..];
    RunSplits(u);
    var run := RunOf(u);
    var v := u[|run| + 2..];
    assert u == run + "\"," + v;
    assert s == margin + KEY + u;
    Regroup(margin, run, v);
    assert s == DeclarationText(Declaration(margin, run)) + v;
  }

  lemma Regroup(margin: string, run: string, v: string)
    ensures margin + KEY + (run + "\"," + v) == DeclarationText(Declaration(margin, run)) + v
  {
  }

  predicate Splits(s: string, d: Declaration) {
    WellFormed(d) && DeclarationText(d) <= s && LineEnds(s[|DeclarationText(d)|..])
  }

  function Found(s: string): (d: Declaration)
    requires Matches(s)
    ensures Splits(s, d)
  {
    MatchSplits(s);
    Declaration(MarginOf(s), RunOf(s[|MarginOf(s)| + |KEY|..]))
  }

  lemma {:induction false} RunOfValue(version: string, rest: string)
    requires '"' !in version && LineEnds(rest)
    ensures RunOf(version + ("\"," + rest)) == version && RunCloses(version + ("\"," + rest))
  {
    if version == "" {
      assert version + ("\"," + rest) == "\"," + rest;
    } else {
      RunOfValue(version[1..], rest);
      assert (version + ("\"," + rest))[1..] == version[1..] + ("\"," + rest);
    }
  }

  lemma {:induction false} MarginPasses(margin: string, s: string)
    requires Spaces(margin) && KEY <= s
    ensures MarginOf(margin + s) == margin && (Matches(margin + s) <==> ValueCloses(s[|KEY|..]))
  {
    if margin == "" {
      assert margin + s == s && !IsSpace(s[0]);
    } else {
      MarginPasses(margin[1..], s);
      assert (margin + s)[1..] == margin[1..] + s;
    }
  }

  /** A declaration before a line end is matched as it is. */
  lemma DeclarationMatches(d: Declaration, rest: string)
    requires WellFormed(d) && LineEnds(rest)
    ensures Matches(DeclarationText(d) + rest) && Found(DeclarationText(d) + rest) == d
  {
    var tail := d.version + ("\"," + rest);
    RunOfValue(d.version, rest);
    assert tail[0] == d.version[0];
    KeyedMatches(d.margin, tail);
    Tailed(d, rest);
  }

  lemma Tailed(d: Declaration, rest: string)
    ensures DeclarationText(d) + rest == d.margin + (KEY + (d.version + ("\"," + rest)))
  {
    assert d.version + "\"," + rest == d.version + ("\"," + rest);
    assert KEY + (d.version + "\",") + rest == KEY + (d.version + "\"," + rest);
  }

  lemma KeyedMatches(margin: string, tail: string)
    requires Spaces(margin) && ValueCloses(tail)
    ensures Matches(margin + (KEY + tail)) && Found(margin + (KEY + tail)) == Declaration(margin, RunOf(tail))
  {
    AfterKey(margin, tail);
    MarginPasses(margin, KEY + tail);
  }

  lemma AfterKey(margin: string, tail: string)
    ensures (KEY + tail)[|KEY|..] == tail && (margin + (KEY + tail))[|margin| + |KEY|..] == tail
  {
  }

  /** Scanning from the left matches exactly where the text goes on with spaces, the key, a version without
      quotes, its end and a line end, and the declaration found is the only such one. */
  lemma MatchIsExact(s: string, d: Declaration)
    ensures Splits(s, d) <==> Matches(s) && Found(s) == d
  {
    if Splits(s, d) {
      DeclarationMatches(d, s[|DeclarationText(d)|..]);
      assert s == DeclarationText(d) + s[|DeclarationText(d)|..];
    }
  }

  // ----- finditer and sub

  /** The versions found from here on; `start` says that a line starts here. */
  function Versions(s: string, start: bool): seq<string>
    decreases |s|
  {
    if s == "" then []
    else if start && Matches(s) then
      var d := Found(s); [d.version] + Versions(s[|DeclarationText(d)|..], false)
    else Versions(s[1..], s[0] == '\n')
  }

  /** `VERSION.sub`. */
  function Substituted(s: string, start: bool, version: string): string
    decreases |s|
  {
    if s == "" then ""
    else if start && Matches(s) then
      var d := Found(s);
      DeclarationText(d.(version := version)) + Substituted(s[|DeclarationText(d)|..], false, version)
    else [s[0]] + Substituted(s[1..], s[0] == '\n', version)
  }

  /** A version that the pattern finds as it is. */
  predicate Plain(version: string) {
    version != "" && '"' !in version && version[0] != ','
  }

  predicate AllAre(versions: seq<string>, version: string) {
    forall i :: 0 <= i < |versions| ==> versions[i] == version
  }

  lemma {:induction false} SubstituteSame(s: string, start: bool, version: string)
    requires AllAre(Versions(s, start), version)
    ensures Substituted(s, start, version) == s
    decreases |s|
  {
    if s != "" {
      if start && Matches(s) {
        var d := Found(s);
        assert Versions(s, start)[0] == version;
        assert Versions(s, start)[1..] == Versions(s[|DeclarationText(d)|..], false);
        SubstituteSame(s[|DeclarationText(d)|..], false, version);
      } else {
        SubstituteSame(s[1..], s[0] == '\n', version);
        assert s == [s[0]] + s[1..];
      }
    }
  }

  // ----- Where nothing matched, nothing matches after the substitution

  lemma {:induction false} RunPasses(a: string, s: string)
    requires '"' !in a
    ensures RunCloses(a + s) == RunCloses(s)
  {
    if a == "" {
      assert a + s == s;
    } else {
      RunPasses(a[1..], s);
      assert (a + s)[1..] == a[1..] + s;
    }
  }

  lemma UnmatchedStep(s: string, start: bool, version: string)
    requires s != "" && !(start && Matches(s))
    ensures Substituted(s, start, version) == [s[0]] + Substituted(s[1..], s[0] == '\n', version)
  {
  }

  lemma LineEndsKept(s: string, version: string)
    ensures LineEnds(Substituted(s, false, version)) == LineEnds(s)
  {
  }

  lemma ClosesKept(s: string, version: string)
    ensures Closes(Substituted(s, false, version)) == Closes(s)
  {
    if |s| >= 2 && s[0] == '"' && s[1] == ',' {
      UnmatchedStep(s, false, version);
      UnmatchedStep(s[1..], false, version);
      assert s[1..][1..] == s[2..];
      LineEndsKept(s[2..], version);
      assert Substituted(s, false, version)[2..] == Substituted(s[2..], false, version);
    } else {
      FrontKept(s, version);
    }
  }

  /** The first two characters, when the first is no newline. */
  lemma FrontKept(s: string, version: string)
    ensures s == "" ==> Substituted(s, false, version) == ""
    ensures s != "" ==> Substituted(s, false, version) != "" && Substituted(s, false, version)[0] == s[0]
    ensures |s| == 1 ==> |Substituted(s, false, version)| == 1
    ensures |s| >= 2 && s[0] != '\n' ==>
      |Substituted(s, false, version)| >= 2 && Substituted(s, false, version)[1] == s[1]
  {
    if s != "" {
      UnmatchedStep(s, false, version);
    }
    if |s| >= 2 {
      UnmatchedStep(s[1..], s[0] == '\n' && false, version);
    }
  }

  lemma {:induction false} RunKept(s: string, start: bool, version: string)
    requires Plain(version) && RunCloses(Substituted(s, start, version))
    ensures RunCloses(s)
    decreases |s|
  {
    if start && Matches(s) {
      DeclarationBlocks(Found(s), s, version);
    } else {
      UnmatchedStep(s, start, version);
      if s[0] == '"' {
        UnmatchedStep(s, false, version);
        ClosesKept(s, version);
      } else {
        assert Substituted(s, start, version)[1..] == Substituted(s[1..], s[0] == '\n', version);
        RunKept(s[1..], s[0] == '\n', version);
      }
    }
  }

  /** The quote before a plain version does not close. */
  lemma DeclarationBlocks(d: Declaration, s: string, version: string)
    requires Plain(version) && WellFormed(d)
    ensures forall rest: string :: !RunCloses(DeclarationText(d.(version := version)) + rest)
  {
    forall rest: string ensures !RunCloses(DeclarationText(d.(version := version)) + rest) {
      var front := d.margin + "version: ";
      var tail := "\"" + version + "\"," + rest;
      assert DeclarationText(d.(version := version)) + rest == front + tail;
      assert tail[1] == version[0];
      RunPasses(front, tail);
    }
  }

  lemma {:induction false} PrefixKept(p: string, s: string, version: string)
    requires '\n' !in p && p <= Substituted(s, false, version)
    ensures p <= s && Substituted(s, false, version)[|p|..] == Substituted(s[|p|..], false, version)
  {
    if p != "" {
      UnmatchedStep(s, false, version);
      assert p[0] == s[0] && p[0] in p;
      PrefixShrinks(p, s[0], Substituted(s[1..], false, version));
      PrefixKept(p[1..], s[1..], version);
      PrefixGrows(p, s);
    }
  }

  lemma KeyKept(s: string, start: bool, version: string)
    requires s != "" && !(start && Matches(s)) && KEY <= Substituted(s, start, version)
    ensures KEY <= s && Substituted(s, start, version)[|KEY|..] == Substituted(s[|KEY|..], false, version)
  {
    UnmatchedStep(s, start, version);
    assert s[0] == KEY[0];
    UnmatchedStep(s, false, version);
    PrefixKept(KEY, s, version);
  }

  lemma {:induction false} MatchKept(s: string, start: bool, version: string)
    requires Plain(version) && Matches(Substituted(s, start, version))
    ensures Matches(s)
    decreases |s|
  {
    if !(start && Matches(s)) {
      UnmatchedStep(s, start, version);
      var after := Substituted(s, start, version);
      if IsSpace(s[0]) {
        assert after[1..] == Substituted(s[1..], s[0] == '\n', version);
        MatchKept(s[1..], s[0] == '\n', version);
      } else {
        KeyKept(s, start, version);
        FrontKept(s[|KEY|..], version);
        RunKept(s[|KEY|..], false, version);
      }
    }
  }

  // ----- A second scan

  /** What the substitution wrote is found again at the same places, and nothing else is: every version found is
      the new one, and another substitution falls on the same declarations. */
  lemma {:induction false} SubstitutedVersions(s: string, start: bool, version: string, next: string)
    requires Plain(version)
    ensures |Versions(Substituted(s, start, version), start)| == |Versions(s, start)|
    ensures AllAre(Versions(Substituted(s, start, version), start), version)
    ensures Substituted(Substituted(s, start, version), start, next) == Substituted(s, start, next)
    decreases |s|
  {
    if s != "" {
      var after := Substituted(s, start, version);
      if start && Matches(s) {
        var d := Found(s);
        var rest := s[|DeclarationText(d)|..];
        var head := DeclarationText(d.(version := version));
        LineEndsKept(rest, version);
        DeclarationMatches(d.(version := version), Substituted(rest, false, version));
        assert after[|head|..] == Substituted(rest, false, version);
        SubstitutedVersions(rest, false, version, next);
      } else {
        if start && Matches(after) {
          MatchKept(s, start, version);
        }
        assert after[0] == s[0] && after[1..] == Substituted(s[1..], s[0] == '\n', version);
        SubstitutedVersions(s[1..], s[0] == '\n', version, next);
      }
    }
  }

  // ----- Where the matches stand

  datatype Match = Match(at: nat, found: Declaration) {
    function End(): nat { at + |DeclarationText(found)| }
  }

  /** A line starts before the i-th character. */
  predicate LineStart(s: string, start: bool, i: nat)
    requires i <= |s|
  {
    if i == 0 then start else s[i - 1] == '\n'
  }

  /** The pattern matches this declaration at the i-th character. */
  predicate MatchesAt(s: string, start: bool, i: nat, d: Declaration) {
    i <= |s| && LineStart(s, start, i) && Splits(s[i..], d)
  }

  predicate Covers(m: Match, i: nat) {
    m.at <= i < m.End()
  }

  predicate Covered(ms: seq<Match>, i: nat) {
    exists k :: 0 <= k < |ms| && Covers(ms[k], i)
  }

  predicate AllMatch(s: string, start: bool, ms: seq<Match>) {
    forall k :: 0 <= k < |ms| ==> MatchesAt(s, start, ms[k].at, ms[k].found)
  }

  predicate InLine(ms: seq<Match>) {
    forall k, l :: 0 <= k < l < |ms| ==> ms[k].End() <= ms[l].at
  }

  /** What scanning from the left finds: matches one after the other, and every place where the pattern matches is in
      one of them. */
  ghost predicate FoundFrom(s: string, start: bool, ms: seq<Match>) {
    && AllMatch(s, start, ms) && InLine(ms)
    && forall i: nat, d :: MatchesAt(s, start, i, d) ==> Covered(ms, i)
  }

  function Shifted(ms: seq<Match>, n: nat): (r: seq<Match>)
    ensures |r| == |ms| && forall k :: 0 <= k < |r| ==> r[k] == Match(ms[k].at + n, ms[k].found)
  {
    seq(|ms|, k requires 0 <= k < |ms| => Match(ms[k].at + n, ms[k].found))
  }

  /** The text from one place on, with a version put into the matches. */
  function Spliced(s: string, ms: seq<Match>, from: nat, version: string): string
    decreases |ms|
  {
    if ms == [] then if from <= |s| then s[from..] else ""
    else
      Joined(s, ms[0].at, DeclarationText(ms[0].found.(version := version)), Spliced(s, ms[1..], ms[0].End(), version), from)
  }

  /** The text from one place up to another, and what follows it. */
  function Joined(s: string, at: nat, text: string, rest: string, from: nat): string {
    if from <= at <= |s| then s[from..at] + text + rest else ""
  }

  /** Where the rest after `n` characters matches, the whole does, and the other way round. */
  lemma MatchesAfter(s: string, start: bool, n: nat, i: nat, d: Declaration)
    requires 1 <= n <= |s|
    ensures MatchesAt(s[n..], s[n - 1] == '\n', i, d) <==> MatchesAt(s, start, n + i, d)
  {
    if n + i <= |s| {
      assert s[n..][i..] == s[n + i..];
      if i > 0 {
        assert s[n..][i - 1] == s[n + i - 1];
      }
    }
  }

  lemma SliceAfter(s: string, n: nat, a: nat, b: nat)
    requires n <= |s| && a <= b <= |s| - n
    ensures s[n..][a..b] == s[a + n..b + n] && s[n..][a..] == s[a + n..]
  {
  }

  lemma JoinedAfter(s: string, at: nat, text: string, rest: string, n: nat, from: nat)
    requires n <= |s|
    ensures Joined(s, at + n, text, rest, from + n) == Joined(s[n..], at, text, rest, from)
  {
    if from <= at && at + n <= |s| {
      SliceAfter(s, n, from, at);
    }
  }

  lemma JoinedFront(s: string, text: string, rest: string)
    ensures Joined(s, 0, text, rest, 0) == text + rest
  {
    assert s[0..0] + text == text;
  }

  lemma JoinedFirst(s: string, at: nat, text: string, rest: string)
    requires s != "" && 1 <= at <= |s|
    ensures Joined(s, at, text, rest, 0) == [s[0]] + Joined(s, at, text, rest, 1)
  {
    assert s[0..at] == [s[0]] + s[1..at];
  }

  lemma {:induction false} SplicedAfter(s: string, ms: seq<Match>, n: nat, from: nat, version: string)
    requires n <= |s|
    ensures Spliced(s, Shifted(ms, n), from + n, version) == Spliced(s[n..], ms, from, version)
    decreases |ms|
  {
    var shifted := Shifted(ms, n);
    if ms == [] {
      if from + n <= |s| {
        SliceAfter(s, n, from, from);
      }
    } else {
      assert shifted[1..] == Shifted(ms[1..], n);
      SplicedAfter(s, ms[1..], n, ms[0].End(), version);
      JoinedAfter(s, ms[0].at, DeclarationText(ms[0].found.(version := version)),
                  Spliced(s[n..], ms[1..], ms[0].End(), version), n, from);
    }
  }

  lemma NothingFound(start: bool, i: nat, d: Declaration)
    ensures !MatchesAt("", start, i, d)
  {
    assert |DeclarationText(d)| >= |KEY|;
  }

  lemma AllMatchAfter(s: string, start: bool, n: nat, later: seq<Match>)
    requires 1 <= n <= |s| && AllMatch(s[n..], s[n - 1] == '\n', later)
    ensures AllMatch(s, start, Shifted(later, n))
  {
    var ms := Shifted(later, n);
    forall k | 0 <= k < |ms| ensures MatchesAt(s, start, ms[k].at, ms[k].found) {
      MatchesAfter(s, start, n, later[k].at, later[k].found);
    }
  }

  lemma CoveredAfter(s: string, start: bool, n: nat, later: seq<Match>, i: nat, d: Declaration)
    requires 1 <= n <= |s| && FoundFrom(s[n..], s[n - 1] == '\n', later) && n <= i && MatchesAt(s, start, i, d)
    ensures Covered(Shifted(later, n), i)
  {
    MatchesAfter(s, start, n, i - n, d);
    CoveredShifts(later, n, i - n);
  }

  lemma CoveredShifts(later: seq<Match>, n: nat, i: nat)
    requires Covered(later, i)
    ensures Covered(Shifted(later, n), i + n)
  {
    var k :| 0 <= k < |later| && Covers(later[k], i);
    assert Covers(Shifted(later, n)[k], i + n);
  }

  lemma CoveredMore(first: Match, later: seq<Match>, i: nat)
    requires Covered(later, i) || Covers(first, i)
    ensures Covered([first] + later, i)
  {
    var ms := [first] + later;
    if Covered(later, i) {
      var k :| 0 <= k < |later| && Covers(later[k], i);
      assert Covers(ms[k + 1], i);
    } else {
      assert Covers(ms[0], i);
    }
  }

  lemma FirstInLine(first: Match, later: seq<Match>)
    requires first.at == 0 && InLine(later)
    ensures InLine([first] + Shifted(later, first.End()))
  {
  }

  lemma FirstMatches(s: string, start: bool, first: Match, later: seq<Match>)
    requires MatchesAt(s, start, first.at, first.found) && AllMatch(s, start, later)
    ensures AllMatch(s, start, [first] + later)
  {
  }

  lemma EndsWithComma(s: string, d: Declaration)
    requires Splits(s, d)
    ensures 1 <= |DeclarationText(d)| <= |s| && s[|DeclarationText(d)| - 1] == ','
  {
    var n := |DeclarationText(d)|;
    assert DeclarationText(d) == (d.margin + (KEY + d.version + "\"")) + ",";
    assert s[n - 1] == DeclarationText(d)[n - 1];
  }

  /** A first match, and then those of the rest. */
  lemma MatchFirst(s: string, start: bool, d: Declaration, later: seq<Match>)
    requires start && Splits(s, d) && FoundFrom(s[|DeclarationText(d)|..], false, later)
    ensures FoundFrom(s, start, [Match(0, d)] + Shifted(later, |DeclarationText(d)|))
  {
    var n := |DeclarationText(d)|;
    var first, rest := Match(0, d), Shifted(later, n);
    EndsWithComma(s, d);
    assert s[0..] == s;
    AllMatchAfter(s, start, n, later);
    FirstMatches(s, start, first, rest);
    FirstInLine(first, later);
    forall i: nat, e | MatchesAt(s, start, i, e) ensures Covered([first] + rest, i) {
      if i >= n {
        CoveredAfter(s, start, n, later, i, e);
      }
      CoveredMore(first, rest, i);
    }
  }

  lemma NoMatchHere(s: string, start: bool, d: Declaration)
    requires !(start && Matches(s))
    ensures !MatchesAt(s, start, 0, d)
  {
    assert s[0..] == s;
    MatchIsExact(s, d);
  }

  lemma NoMatchFirst(s: string, start: bool, later: seq<Match>)
    requires s != "" && !(start && Matches(s)) && FoundFrom(s[1..], s[0] == '\n', later)
    ensures FoundFrom(s, start, Shifted(later, 1))
  {
    AllMatchAfter(s, start, 1, later);
    forall i: nat, e | MatchesAt(s, start, i, e) ensures Covered(Shifted(later, 1), i) {
      NoMatchHere(s, start, e);
      if i >= 1 {
        CoveredAfter(s, start, 1, later, i, e);
      }
    }
  }

  predicate VersionsOf(versions: seq<string>, ms: seq<Match>) {
    |versions| == |ms| && forall k :: 0 <= k < |ms| ==> versions[k] == ms[k].found.version
  }

  /** `finditer` gives the versions of exactly these matches, and `sub` puts the version into them and keeps every other
      character. */
  ghost predicate Scans(s: string, start: bool, version: string, ms: seq<Match>) {
    && FoundFrom(s, start, ms) && VersionsOf(Versions(s, start), ms)
    && Substituted(s, start, version) == Spliced(s, ms, 0, version)
  }

  lemma {:induction false} ScanIsExact(s: string, start: bool, version: string) returns (ms: seq<Match>)
    ensures Scans(s, start, version, ms)
    decreases |s|
  {
    if s == "" {
      ms := [];
      forall i: nat, d ensures !MatchesAt(s, start, i, d) {
        NothingFound(start, i, d);
      }
    } else if start && Matches(s) {
      var d := Found(s);
      var later := ScanIsExact(s[|DeclarationText(d)|..], false, version);
      ms := [Match(0, d)] + Shifted(later, |DeclarationText(d)|);
      ScansMatch(s, d, later, version);
    } else {
      var later := ScanIsExact(s[1..], s[0] == '\n', version);
      ms := Shifted(later, 1);
      ScansOn(s, start, later, version);
    }
  }

  lemma ScansMatch(s: string, d: Declaration, later: seq<Match>, version: string)
    requires Matches(s) && d == Found(s) && Scans(s[|DeclarationText(d)|..], false, version, later)
    ensures Scans(s, true, version, [Match(0, d)] + Shifted(later, |DeclarationText(d)|))
  {
    MatchFirst(s, true, d, later);
    var n := |DeclarationText(d)|;
    MatchSpliced(s, Match(0, d), n, DeclarationText(d.(version := version)), later, version);
    VersionsFollow(d, Versions(s[|DeclarationText(d)|..], false), later, |DeclarationText(d)|);
  }

  lemma ScansOn(s: string, start: bool, later: seq<Match>, version: string)
    requires s != "" && !(start && Matches(s)) && Scans(s[1..], s[0] == '\n', version, later)
    ensures Scans(s, start, version, Shifted(later, 1))
  {
    NoMatchFirst(s, start, later);
    SplicedOn(s, s[0] == '\n', later, version);
    VersionsShifted(Versions(s[1..], s[0] == '\n'), later, 1);
    UnmatchedStep(s, start, version);
  }

  lemma VersionsShifted(versions: seq<string>, later: seq<Match>, n: nat)
    requires VersionsOf(versions, later)
    ensures VersionsOf(versions, Shifted(later, n))
  {
  }

  lemma SplicedOn(s: string, start: bool, later: seq<Match>, version: string)
    requires s != "" && AllMatch(s[1..], start, later)
    ensures Spliced(s, Shifted(later, 1), 0, version) == [s[0]] + Spliced(s[1..], later, 0, version)
  {
    SplicedAfter(s, later, 1, 0, version);
    if later != [] {
      assert MatchesAt(s[1..], start, later[0].at, later[0].found);
    }
    SplicedFirst(s, Shifted(later, 1), version);
  }

  lemma VersionsFollow(d: Declaration, versions: seq<string>, later: seq<Match>, n: nat)
    requires VersionsOf(versions, later)
    ensures VersionsOf([d.version] + versions, [Match(0, d)] + Shifted(later, n))
  {
  }

  lemma FirstSpliced(s: string, first: Match, text: string, rest: seq<Match>, version: string)
    requires first.at == 0 && text == DeclarationText(first.found.(version := version))
    ensures Spliced(s, [first] + rest, 0, version) == text + Spliced(s, rest, first.End(), version)
  {
    assert ([first] + rest)[1..] == rest;
    JoinedFront(s, text, Spliced(s, rest, first.End(), version));
  }

  lemma MatchSpliced(s: string, first: Match, n: nat, text: string, later: seq<Match>, version: string)
    requires first.at == 0 && n == first.End() && n <= |s| && text == DeclarationText(first.found.(version := version))
    ensures Spliced(s, [first] + Shifted(later, n), 0, version) == text + Spliced(s[n..], later, 0, version)
  {
    var rest := Shifted(later, n);
    assert Spliced(s, rest, 0 + n, version) == Spliced(s[n..], later, 0, version) by {
      SplicedAfter(s, later, n, 0, version);
    }
    FirstSpliced(s, first, text, rest, version);
  }

  lemma SplicedFirst(s: string, ms: seq<Match>, version: string)
    requires s != "" && (ms != [] ==> 1 <= ms[0].at <= |s|)
    ensures Spliced(s, ms, 0, version) == [s[0]] + Spliced(s, ms, 1, version)
  {
    if ms == [] {
      assert s[0..] == [s[0]] + s[1..];
    } else {
      JoinedFirst(s, ms[0].at, DeclarationText(ms[0].found.(version := version)),
                  Spliced(s, ms[1..], ms[0].End(), version));
    }
  }
}
