/** The edits of scripts/release.py as they fall on text: the version pattern, `str.count` and `str.replace` of the
    sibling requirement, and the rewriting of package.json. */
module ReleaseText {
  import opened Wrappers
  import opened Json
  import opened Text
  import opened VersionPattern
  import Release

  /** The text of a local requirement, which is counted and replaced. */
  function RequirementText(sibling: string, version: string): string {
    "{" + ((":" + sibling + ", ") + Quoted(sibling, version)) + "}"
  }

  function Quoted(sibling: string, version: string): string {
    "\"~> " + version + "\", path: \"../" + sibling + "\""
  }

  /** `str.count`. */
  function Occurrences(s: string, t: string): nat
    requires t != ""
  {
    if |s| < |t| then 0
    else if t <= s then 1 + Occurrences(s[|t|..], t)
    else Occurrences(s[1..], t)
  }

  /** As often as `str.replace` puts another text there, which shows in the length. */
  lemma {:induction false} OccurrencesAreReplaced(s: string, t: string, u: string)
    requires t != ""
    ensures |Replace(s, t, u)| + Occurrences(s, t) * |t| == |s| + Occurrences(s, t) * |u|
    decreases |s|
  {
    if |s| >= |t| {
      if t <= s {
        OccurrencesAreReplaced(s[|t|..], t, u);
        OneMore(Occurrences(s[|t|..], t), |t|);
        OneMore(Occurrences(s[|t|..], t), |u|);
      } else {
        OccurrencesAreReplaced(s[1..], t, u);
      }
    }
  }

  lemma OneMore(n: nat, size: nat)
    ensures (1 + n) * size == size + n * size
  {
  }

  /** One manifest of `version_changes`: as many declarations as expected, all canonical, and the sibling's
      requirement once. */
  function EditedManifest(s: string, sibling: Option<string>, expected: nat, canonical: string,
          version: string): Result<string>
  {
    if |Versions(s, true)| != expected || !AllAre(Versions(s, true), canonical) then Failure
    else
      var updated := Substituted(s, true, version);
      match sibling
      case None => Success(updated)
      case Some(name) =>
        if Occurrences(updated, RequirementText(name, canonical)) != 1 then Failure
        else Success(Replace(updated, RequirementText(name, canonical), RequirementText(name, version)))
  }

  /** Asked for the version that it is on, a manifest that is accepted keeps its text to the last character. */
  lemma SameVersionKeepsText(s: string, sibling: Option<string>, expected: nat, version: string)
    requires EditedManifest(s, sibling, expected, version, version).Success?
    ensures EditedManifest(s, sibling, expected, version, version) == Success(s)
  {
    SubstituteSame(s, true, version);
    if sibling.Some? {
      ReplaceSame(s, RequirementText(sibling.value, version));
    }
  }

  // ----- Texts between braces

  /** A text in one pair of braces on one line, whose first quote is not followed by a comma. */
  predicate Braced(t: string) {
    && |t| >= 2 && t[0] == '{' && t[|t| - 1] == '}'
    && '{' !in t[1..] && '}' !in t[..|t| - 1] && '\n' !in t
    && OpensQuote(t)
  }

  predicate OpensQuote(t: string) {
    t != "" && if t[0] == '"' then |t| >= 2 && t[1] != ',' else OpensQuote(t[1..])
  }

  /** Text that a requirement's braces, quotes and line keep: a name or a version. */
  predicate Simple(s: string) {
    '{' !in s && '}' !in s && '"' !in s && '\n' !in s
  }

  lemma {:induction false} OpensAfter(a: string, t: string)
    requires '"' !in a && OpensQuote(t)
    ensures OpensQuote(a + t)
  {
    if a == "" {
      assert a + t == t;
    } else {
      OpensAfter(a[1..], t);
      assert (a + t)[1..] == a[1..] + t;
    }
  }

  lemma BracesAround(inner: string)
    requires '{' !in inner && '}' !in inner && '\n' !in inner && OpensQuote(inner + "}")
    ensures Braced("{" + inner + "}")
  {
    var t := "{" + inner + "}";
    assert t[1..] == inner + "}" && t[..|t| - 1] == "{" + inner;
  }

  lemma QuotedIsSimple(sibling: string, version: string)
    requires Simple(sibling) && Simple(version)
    ensures var q := Quoted(sibling, version); '{' !in q && '}' !in q && '\n' !in q
    ensures OpensQuote(Quoted(sibling, version) + "}")
  {
    var q := Quoted(sibling, version);
    assert q[0] == '"' && q[1] == '~' && (q + "}")[..2] == q[..2];
  }

  lemma RequirementIsBraced(sibling: string, version: string)
    requires Simple(sibling) && Simple(version)
    ensures Braced(RequirementText(sibling, version))
  {
    var name, quoted := ":" + sibling + ", ", Quoted(sibling, version);
    QuotedIsSimple(sibling, version);
    OpensAfter(name, quoted + "}");
    assert name + (quoted + "}") == (name + quoted) + "}";
    BracesAround(name + quoted);
  }

  lemma {:induction false} OpensBlocks(t: string, rest: string)
    requires OpensQuote(t)
    ensures !RunCloses(t + rest)
  {
    if t[0] == '"' {
      assert (t + rest)[1] == t[1];
    } else {
      OpensBlocks(t[1..], rest);
      assert (t + rest)[1..] == t[1..] + rest;
    }
  }

  lemma BracedBlocks(t: string, rest: string)
    requires Braced(t)
    ensures !RunCloses(t + rest) && !Matches(t + rest)
  {
    OpensBlocks(t, rest);
    assert (t + rest)[0] == '{';
  }

  lemma ClosingIsLast(t: string, i: nat)
    requires Braced(t)
    ensures i < |t| && t[i] == '}' ==> i == |t| - 1
  {
    assert i < |t| - 1 ==> t[i] in t[..|t| - 1];
  }

  /** Neither of two different braced texts is the other's beginning. */
  lemma BracedDiffer(a: string, b: string, s: string)
    requires Braced(a) && Braced(b) && a <= s && b <= s
    ensures a == b
  {
    ClosingIsLast(a, |b| - 1);
    ClosingIsLast(b, |a| - 1);
    assert a == s[..|a|] && b == s[..|b|];
  }

  // ----- Replacing a braced text

  lemma {:induction false} ShortIsKept(s: string, before: string, after: string)
    requires before != "" && |s| < |before|
    ensures Replace(s, before, after) == s
  {
  }

  lemma StepKept(s: string, before: string, after: string)
    requires before != "" && s != "" && !(before <= s)
    ensures Replace(s, before, after) == [s[0]] + Replace(s[1..], before, after)
  {
    if |s| < |before| {
      ShortIsKept(s[1..], before, after);
      assert s == [s[0]] + s[1..];
    }
  }

  lemma FirstReplaced(t: string, before: string, after: string)
    requires before != ""
    ensures Replace(before + t, before, after) == after + Replace(t, before, after)
  {
    assert (before + t)[|before|..] == t;
  }

  lemma FirstKept(s: string, before: string, after: string)
    requires Braced(before) && Braced(after)
    ensures var r := Replace(s, before, after); (r == "" <==> s == "") && (s != "" ==> r[0] == s[0])
  {
    if s != "" && !(before <= s) {
      StepKept(s, before, after);
    }
  }

  lemma LineEndsReplaced(s: string, before: string, after: string)
    requires Braced(before) && Braced(after)
    ensures LineEnds(Replace(s, before, after)) == LineEnds(s)
  {
    FirstKept(s, before, after);
  }

  /** A text without an opening brace stays in front. */
  lemma {:induction false} PassesReplace(a: string, s: string, before: string, after: string)
    requires Braced(before) && '{' !in a
    ensures Replace(a + s, before, after) == a + Replace(s, before, after)
  {
    if a == "" {
      assert a + s == s;
    } else {
      assert (a + s)[1..] == a[1..] + s && (a + s)[0] == a[0];
      StepKept(a + s, before, after);
      PassesReplace(a[1..], s, before, after);
      assert a == [a[0]] + a[1..];
    }
  }

  /** And it is in front only where it was. */
  lemma {:induction false} PrefixReplaced(p: string, s: string, before: string, after: string)
    requires Braced(before) && Braced(after) && '{' !in p && p <= Replace(s, before, after)
    ensures p <= s && Replace(s, before, after)[|p|..] == Replace(s[|p|..], before, after)
  {
    if p != "" {
      FirstKept(s, before, after);
      assert s[0] == p[0] && p[0] in p;
      StepKept(s, before, after);
      PrefixShrinks(p, s[0], Replace(s[1..], before, after));
      PrefixReplaced(p[1..], s[1..], before, after);
      PrefixGrows(p, s);
    }
  }

  // ----- The replacement keeps what the version pattern finds

  lemma ClosesReplaced(s: string, before: string, after: string)
    requires Braced(before) && Braced(after)
    ensures Closes(Replace(s, before, after)) == Closes(s)
  {
    var r := Replace(s, before, after);
    if Closes(s) {
      assert s == "\"," + s[2..];
      PassesReplace("\",", s[2..], before, after);
      LineEndsReplaced(s[2..], before, after);
      assert r[2..] == Replace(s[2..], before, after);
    } else if Closes(r) {
      assert r == "\"," + r[2..];
      PrefixReplaced("\",", s, before, after);
      LineEndsReplaced(s[2..], before, after);
    }
  }

  lemma {:induction false} RunReplaced(s: string, before: string, after: string)
    requires Braced(before) && Braced(after)
    ensures RunCloses(Replace(s, before, after)) == RunCloses(s)
  {
    if s != "" {
      if before <= s {
        assert s == before + s[|before|..];
        BracedBlocks(before, s[|before|..]);
        BracedBlocks(after, Replace(s[|before|..], before, after));
        FirstReplaced(s[|before|..], before, after);
      } else {
        StepKept(s, before, after);
        if s[0] == '"' {
          ClosesReplaced(s, before, after);
        } else {
          RunReplaced(s[1..], before, after);
          assert Replace(s, before, after)[1..] == Replace(s[1..], before, after);
        }
      }
    }
  }

  lemma KeyReplaced(s: string, before: string, after: string)
    requires Braced(before) && Braced(after)
    ensures
      var r := Replace(s, before, after);
      (KEY <= r && ValueCloses(r[|KEY|..])) == (KEY <= s && ValueCloses(s[|KEY|..]))
  {
    var r := Replace(s, before, after);
    if KEY <= s {
      assert s == KEY + s[|KEY|..];
      PassesReplace(KEY, s[|KEY|..], before, after);
      assert r[|KEY|..] == Replace(s[|KEY|..], before, after);
    } else if KEY <= r {
      PrefixReplaced(KEY, s, before, after);
    }
    if KEY <= s {
      RunReplaced(s[|KEY|..], before, after);
      FirstKept(s[|KEY|..], before, after);
    }
  }

  lemma {:induction false} MatchReplaced(s: string, before: string, after: string)
    requires Braced(before) && Braced(after)
    ensures Matches(Replace(s, before, after)) == Matches(s)
  {
    FirstKept(s, before, after);
    if s != "" && IsSpace(s[0]) {
      StepKept(s, before, after);
      assert Replace(s, before, after)[1..] == Replace(s[1..], before, after);
      MatchReplaced(s[1..], before, after);
    } else {
      KeyReplaced(s, before, after);
    }
  }

  /** A text on one line at whose start nothing matches holds no declaration. */
  lemma {:induction false} NoneOnLine(a: string, s: string)
    requires '\n' !in a
    ensures Versions(a + s, false) == Versions(s, false)
  {
    if a == "" {
      assert a + s == s;
    } else {
      assert (a + s)[1..] == a[1..] + s;
      NoneOnLine(a[1..], s);
    }
  }

  lemma NoneInBraces(t: string, s: string, start: bool)
    requires Braced(t)
    ensures Versions(t + s, start) == Versions(s, false)
  {
    BracedBlocks(t, s);
    assert Versions(t + s, start) == Versions(t + s, false);
    NoneOnLine(t, s);
  }

  lemma {:induction false} VersionsReplaced(s: string, start: bool, before: string, after: string)
    requires Braced(before) && Braced(after)
    requires forall i :: 0 <= i < |Versions(s, start)| ==> '{' !in Versions(s, start)[i]
    ensures Versions(Replace(s, before, after), start) == Versions(s, start)
    decreases |s|
  {
    if s == "" {
      ShortIsKept(s, before, after);
    } else if start && Matches(s) {
      assert Versions(s, start)[0] == Found(s).version;
      DeclarationReplaced(s, before, after);
      var rest := s[|DeclarationText(Found(s))|..];
      assert Versions(s, start)[1..] == Versions(rest, false);
      VersionsReplaced(rest, false, before, after);
    } else if before <= s {
      var t := s[|before|..];
      assert s == before + t;
      NoneInBraces(before, t, start);
      FirstReplaced(t, before, after);
      NoneInBraces(after, Replace(t, before, after), start);
      VersionsReplaced(t, false, before, after);
    } else {
      StepKept(s, before, after);
      MatchReplaced(s, before, after);
      assert Versions(s, start) == Versions(s[1..], s[0] == '\n');
      assert Replace(s, before, after)[1..] == Replace(s[1..], before, after);
      VersionsReplaced(s[1..], s[0] == '\n', before, after);
    }
  }

  /** A declaration whose version has no brace stays the first one. */
  lemma DeclarationReplaced(s: string, before: string, after: string)
    requires Braced(before) && Braced(after) && Matches(s) && '{' !in Found(s).version
    ensures
      var r, d := Replace(s, before, after), Found(s);
      && Matches(r) && Found(r) == d
      && r[|DeclarationText(d)|..] == Replace(s[|DeclarationText(d)|..], before, after)
  {
    var d := Found(s);
    var rest := s[|DeclarationText(d)|..];
    assert s == DeclarationText(d) + rest;
    PassesReplace(DeclarationText(d), rest, before, after);
    LineEndsReplaced(rest, before, after);
    DeclarationMatches(d, Replace(rest, before, after));
  }

  // ----- The replacement adds the counts

  lemma {:induction false} NoneWithoutBrace(a: string, s: string, t: string)
    requires Braced(t) && '{' !in a
    ensures Occurrences(a + s, t) == Occurrences(s, t)
  {
    if a == "" {
      assert a + s == s;
    } else {
      assert (a + s)[1..] == a[1..] + s && (a + s)[0] == a[0];
      NoneWithoutBrace(a[1..], s, t);
      if |a + s| < |t| {
        assert Occurrences(s, t) == 0;
      }
    }
  }

  lemma StepCounted(s: string, t: string)
    requires t != "" && s != "" && !(t <= s)
    ensures Occurrences(s, t) == Occurrences(s[1..], t)
  {
  }

  lemma OtherBracedCounted(a: string, s: string, t: string)
    requires Braced(a) && Braced(t) && a != t
    ensures Occurrences(a + s, t) == Occurrences(s, t)
  {
    if t <= a + s {
      BracedDiffer(a, t, a + s);
    }
    StepCounted(a + s, t);
    assert (a + s)[1..] == a[1..] + s;
    NoneWithoutBrace(a[1..], s, t);
  }

  lemma OwnCounted(t: string, s: string)
    requires t != ""
    ensures Occurrences(t + s, t) == 1 + Occurrences(s, t)
  {
    assert (t + s)[|t|..] == s;
  }

  /** A braced text is in front only where it was. */
  lemma BracedReplaced(s: string, t: string, before: string, after: string)
    requires Braced(before) && Braced(after) && Braced(t) && s != "" && !(before <= s)
    requires t <= Replace(s, before, after)
    ensures t <= s
  {
    StepKept(s, before, after);
    PrefixShrinks(t, s[0], Replace(s[1..], before, after));
    PrefixReplaced(t[1..], s[1..], before, after);
    PrefixGrows(t, s);
  }

  lemma {:induction false} CountReplaced(s: string, before: string, after: string)
    requires Braced(before) && Braced(after) && before != after
    ensures Occurrences(Replace(s, before, after), after) == Occurrences(s, before) + Occurrences(s, after)
    decreases |s|
  {
    if s == "" {
      ShortIsKept(s, before, after);
    } else if before <= s {
      var t := s[|before|..];
      assert s == before + t;
      FirstReplaced(t, before, after);
      OwnCounted(after, Replace(t, before, after));
      OwnCounted(before, t);
      OtherBracedCounted(before, t, after);
      CountReplaced(t, before, after);
    } else if after <= s {
      var t := s[|after|..];
      assert s == after + t;
      AfterStays(t, before, after);
      OwnCounted(after, Replace(t, before, after));
      OwnCounted(after, t);
      OtherBracedCounted(after, t, before);
      CountReplaced(t, before, after);
    } else {
      StepKept(s, before, after);
      var r := Replace(s, before, after);
      if after <= r {
        BracedReplaced(s, after, before, after);
      }
      StepCounted(s, before);
      StepCounted(s, after);
      StepCounted(r, after);
      assert r[1..] == Replace(s[1..], before, after);
      CountReplaced(s[1..], before, after);
    }
  }

  lemma AfterStays(t: string, before: string, after: string)
    requires Braced(before) && Braced(after) && before != after
    ensures Replace(after + t, before, after) == after + Replace(t, before, after)
  {
    if before <= after + t {
      BracedDiffer(before, after, after + t);
    }
    StepKept(after + t, before, after);
    FirstApart(after, t);
    FirstApart(after, Replace(t, before, after));
    PassesReplace(after[1..], t, before, after);
  }

  // ----- Asking again for the version that was prepared

  predicate Digits(piece: string) {
    forall i :: 0 <= i < |piece| ==> IsDigit(piece[i])
  }

  lemma {:induction false} DigitsAndDots(s: string, i: nat)
    requires i < |s| && forall k :: 0 <= k < |Split(s, '.')| ==> Digits(Split(s, '.')[k])
    ensures IsDigit(s[i]) || s[i] == '.'
  {
    var pieces, rest := Split(s, '.'), Split(s[1..], '.');
    if s[0] != '.' {
      assert Digits(pieces[0]) && pieces[0] == [s[0]] + rest[0];
      assert IsDigit(pieces[0][0]);
      forall k | 0 <= k < |rest| ensures Digits(rest[k]) {
        assert Digits(pieces[k]) && (k == 0 ==> rest[0] == pieces[0][1..]);
      }
    } else {
      forall k | 0 <= k < |rest| ensures Digits(rest[k]) {
        assert Digits(pieces[k + 1]) && pieces[k + 1] == rest[k];
      }
    }
    if i > 0 {
      DigitsAndDots(s[1..], i - 1);
    }
  }

  lemma VersionIsSimple(version: string)
    requires Release.VersionParts(version).Success?
    ensures Simple(version) && Plain(version)
  {
    forall k | 0 <= k < |Split(version, '.')| ensures Digits(Split(version, '.')[k]) {
    }
    forall i | 0 <= i < |version| ensures IsDigit(version[i]) || version[i] == '.' {
      DigitsAndDots(version, i);
    }
    assert version != "";
  }

  /** After an accepted edit every declaration is on the new version, in every number. */
  lemma EditedVersions(s: string, sibling: Option<string>, expected: nat, canonical: string, version: string)
    requires Release.VersionParts(canonical).Success? && Release.VersionParts(version).Success?
    requires sibling.Some? ==> Simple(sibling.value)
    requires EditedManifest(s, sibling, expected, canonical, version).Success?
    ensures
      var once := EditedManifest(s, sibling, expected, canonical, version).value;
      |Versions(once, true)| == expected && AllAre(Versions(once, true), version)
  {
    VersionIsSimple(canonical);
    VersionIsSimple(version);
    SubstitutedVersions(s, true, version, version);
    if sibling.Some? {
      RequirementIsBraced(sibling.value, canonical);
      RequirementIsBraced(sibling.value, version);
      VersionsReplaced(Substituted(s, true, version), true, RequirementText(sibling.value, canonical),
                       RequirementText(sibling.value, version));
    }
  }

  lemma SiblingsAreSimple()
    ensures forall name <- Release.SAMGITA.siblings :: Simple(Release.SAMGITA.siblings[name])
  {
  }

  /** How often the sibling's requirement at the new version stands in the edited text: once for the one that was
      replaced, and as often as it stood there before. */
  lemma EditedRequirements(s: string, name: string, expected: nat, canonical: string, version: string)
    requires Release.VersionParts(canonical).Success? && Release.VersionParts(version).Success? && Simple(name)
    requires EditedManifest(s, Some(name), expected, canonical, version).Success?
    ensures
      var once := EditedManifest(s, Some(name), expected, canonical, version).value;
      Occurrences(once, RequirementText(name, version)) ==
        if canonical == version then 1 else 1 + Occurrences(Substituted(s, true, version), RequirementText(name, version))
  {
    VersionIsSimple(canonical);
    VersionIsSimple(version);
    RequirementIsBraced(name, canonical);
    RequirementIsBraced(name, version);
    var before, after := RequirementText(name, canonical), RequirementText(name, version);
    if canonical == version {
      ReplaceSame(Substituted(s, true, version), before);
    } else {
      RequirementsDiffer(name, canonical, version);
      CountReplaced(Substituted(s, true, version), before, after);
    }
  }

  lemma RequirementsDiffer(name: string, a: string, b: string)
    requires a != b
    ensures RequirementText(name, a) != RequirementText(name, b)
  {
    var head, tail := "{:" + name + ", \"~> ", "\", path: \"../" + name + "\"}";
    VersionInside(name, a);
    VersionInside(name, b);
    MiddleOf(head, a, tail);
    MiddleOf(head, b, tail);
  }

  lemma VersionInside(name: string, version: string)
    ensures RequirementText(name, version) == "{:" + name + ", \"~> " + version + ("\", path: \"../" + name + "\"}")
  {
    var tail := "\", path: \"../" + name + "\"";
    assert Quoted(name, version) == "\"~> " + (version + tail);
    Grouped(":" + name + ", ", "\"~> ", version, tail);
    assert "{" + (":" + name + ", ") + "\"~> " == "{:" + name + ", \"~> ";
  }

  lemma Grouped(name: string, mark: string, version: string, tail: string)
    ensures "{" + (name + (mark + (version + tail))) + "}" == "{" + name + mark + version + (tail + "}")
  {
  }

  lemma MiddleOf(head: string, x: string, tail: string)
    ensures var s := head + x + tail; s[|head|..|s| - |tail|] == x
  {
  }

  /** Asked for a version twice, a manifest is accepted the second time exactly when its requirement at that
      version was not there beside the one that was replaced, and then it keeps its text to the last character. */
  lemma RepeatOnText(s: string, sibling: Option<string>, expected: nat, canonical: string, version: string)
    requires Release.VersionParts(canonical).Success? && Release.VersionParts(version).Success?
    requires sibling.Some? ==> Simple(sibling.value)
    requires EditedManifest(s, sibling, expected, canonical, version).Success?
    ensures
      var once := EditedManifest(s, sibling, expected, canonical, version);
      var again := EditedManifest(once.value, sibling, expected, version, version);
      && (again == once || again == Failure)
      && (again == once <==>
            sibling.None? || canonical == version
            || Occurrences(Substituted(s, true, version), RequirementText(sibling.value, version)) == 0)
  {
    var once := EditedManifest(s, sibling, expected, canonical, version).value;
    EditedVersions(s, sibling, expected, canonical, version);
    SubstituteSame(once, true, version);
    if sibling.Some? {
      EditedRequirements(s, sibling.value, expected, canonical, version);
    }
    if EditedManifest(once, sibling, expected, version, version).Success? {
      SameVersionKeepsText(once, sibling, expected, version);
    }
  }

  // ----- Where a text stands

  /** The text stands at the i-th character. */
  predicate Stands(s: string, t: string, i: nat) {
    i <= |s| && t <= s[i..]
  }

  ghost predicate OnlyPlace(s: string, t: string, i: nat) {
    Stands(s, t, i) && forall j: nat :: Stands(s, t, j) ==> j == i
  }

  ghost predicate StandsOnce(s: string, t: string) {
    exists i: nat :: OnlyPlace(s, t, i)
  }

  ghost predicate StandsNowhere(s: string, t: string) {
    forall i: nat :: !Stands(s, t, i)
  }

  lemma StandsAfter(s: string, t: string, n: nat, i: nat)
    requires n <= |s|
    ensures Stands(s[n..], t, i) <==> Stands(s, t, n + i)
  {
    if n + i <= |s| {
      assert s[n..][i..] == s[n + i..];
    }
  }

  lemma NowhereAfter(s: string, t: string, n: nat)
    requires n <= |s| && forall j: nat :: j < n ==> !Stands(s, t, j)
    ensures StandsNowhere(s[n..], t) <==> StandsNowhere(s, t)
  {
    if i: nat :| Stands(s[n..], t, i) {
      StandsAfter(s, t, n, i);
    }
    if i: nat :| Stands(s, t, i) {
      StandsAfter(s, t, n, i - n);
    }
  }

  lemma {:induction false} NoPlace(s: string, t: string)
    requires t != ""
    ensures Occurrences(s, t) == 0 <==> StandsNowhere(s, t)
  {
    if |s| >= |t| {
      if t <= s {
        assert Stands(s, t, 0);
      } else {
        NoPlace(s[1..], t);
        NowhereAfter(s, t, 1);
      }
    }
  }

  /** A text whose first character is nowhere else in it does not overlap itself. */
  lemma NoOverlap(s: string, t: string, j: nat)
    requires t != "" && t[0] !in t[1..] && t <= s && 0 < j < |t|
    ensures !Stands(s, t, j)
  {
    assert s[j..][0] == s[j] == t[j] == t[1..][j - 1];
  }

  /** The text replaced at this place is what `str.replace` gives. */
  predicate PutAt(s: string, t: string, u: string, i: nat)
    requires t != ""
  {
    i + |t| <= |s| && Replace(s, t, u) == s[..i] + u + s[i + |t|..]
  }

  ghost predicate PutAtPlace(s: string, t: string, u: string)
    requires t != ""
  {
    forall i: nat :: OnlyPlace(s, t, i) ==> PutAt(s, t, u, i)
  }

  /** Such a text is counted once exactly when it stands at one place, and then it is replaced there. */
  lemma {:induction false} CountedOnce(s: string, t: string, u: string)
    requires t != "" && t[0] !in t[1..]
    ensures Occurrences(s, t) == 1 <==> StandsOnce(s, t)
    ensures PutAtPlace(s, t, u)
    decreases |s|
  {
    if |s| >= |t| {
      if t <= s {
        FirstPlace(s, t, u);
      } else {
        CountedOnce(s[1..], t, u);
        LaterPlace(s, t, u);
      }
    }
  }

  lemma FirstPlace(s: string, t: string, u: string)
    requires t != "" && t[0] !in t[1..] && t <= s
    ensures Occurrences(s, t) == 1 <==> StandsOnce(s, t)
    ensures PutAtPlace(s, t, u)
  {
    assert Stands(s, t, 0);
    NoPlace(s[|t|..], t);
    OnlyFirst(s, t);
    if Occurrences(s[|t|..], t) == 0 {
      NothingReplaced(s[|t|..], t, u);
      assert s[..0] + u + s[0 + |t|..] == u + s[|t|..];
      assert PutAt(s, t, u, 0);
    }
  }

  lemma OnlyFirst(s: string, t: string)
    requires t != "" && t[0] !in t[1..] && t <= s
    ensures OnlyPlace(s, t, 0) <==> StandsNowhere(s[|t|..], t)
  {
    assert Stands(s, t, 0);
    if i: nat :| Stands(s[|t|..], t, i) {
      StandsAfter(s, t, |t|, i);
    }
    if j: nat :| j > 0 && Stands(s, t, j) {
      if j < |t| {
        NoOverlap(s, t, j);
      } else {
        StandsAfter(s, t, |t|, j - |t|);
      }
    }
  }

  lemma {:induction false} NothingReplaced(s: string, t: string, u: string)
    requires t != "" && Occurrences(s, t) == 0
    ensures Replace(s, t, u) == s
  {
    if |s| >= |t| {
      NothingReplaced(s[1..], t, u);
    }
  }

  lemma LaterPlace(s: string, t: string, u: string)
    requires t != "" && |s| >= |t| && !(t <= s)
    requires Occurrences(s[1..], t) == 1 <==> StandsOnce(s[1..], t)
    requires PutAtPlace(s[1..], t, u)
    ensures Occurrences(s, t) == 1 <==> StandsOnce(s, t)
    ensures PutAtPlace(s, t, u)
  {
    if i: nat :| OnlyPlace(s[1..], t, i) {
      OnlyAfter(s, t, i);
    }
    forall i: nat | OnlyPlace(s, t, i) ensures PutAt(s, t, u, i) && StandsOnce(s[1..], t) {
      assert !Stands(s, t, 0) && Stands(s, t, i);
      OnlyAfter(s, t, i - 1);
      PutLater(s, t, u, i - 1);
    }
  }

  lemma OnlyAfter(s: string, t: string, i: nat)
    requires s != "" && !(t <= s)
    ensures OnlyPlace(s[1..], t, i) <==> OnlyPlace(s, t, 1 + i)
  {
    StandsAfter(s, t, 1, i);
    if j: nat :| j != i && Stands(s[1..], t, j) {
      StandsAfter(s, t, 1, j);
    }
    if j: nat :| j != 1 + i && Stands(s, t, j) {
      assert !Stands(s, t, 0);
      StandsAfter(s, t, 1, j - 1);
    }
  }

  lemma PutLater(s: string, t: string, u: string, i: nat)
    requires t != "" && |s| >= |t| && !(t <= s) && PutAt(s[1..], t, u, i)
    ensures PutAt(s, t, u, 1 + i)
  {
    assert s[..1 + i] == [s[0]] + s[1..][..i] && s[1 + i + |t|..] == s[1..][i + |t|..];
  }

  // ----- What is accepted and written

  /** The text has as many declarations as expected, all canonical, and after the new version is put into them the
      sibling's requirement at the old one stands at one place, where the new one is written. */
  ghost predicate EditsExactly(s: string, sibling: Option<string>, expected: nat, canonical: string, version: string,
          ms: seq<Match>, r: Result<string>)
  {
    var updated := Spliced(s, ms, 0, version);
    var fits := |ms| == expected && forall k :: 0 <= k < |ms| ==> ms[k].found.version == canonical;
    && FoundFrom(s, true, ms)
    && match sibling
      case None => r == if fits then Success(updated) else Failure
      case Some(name) =>
        var before, after := RequirementText(name, canonical), RequirementText(name, version);
        && (r.Success? <==> fits && StandsOnce(updated, before))
        && (r.Success? ==> forall i: nat :: OnlyPlace(updated, before, i) ==>
              i + |before| <= |updated| && r.value == updated[..i] + after + updated[i + |before|..])
  }

  lemma FitsAre(versions: seq<string>, ms: seq<Match>, expected: nat, canonical: string)
    requires VersionsOf(versions, ms)
    ensures |versions| == expected && AllAre(versions, canonical) <==>
            |ms| == expected && forall k :: 0 <= k < |ms| ==> ms[k].found.version == canonical
  {
  }

  lemma SiblingCountedOnce(updated: string, name: string, canonical: string, version: string)
    requires Simple(name) && Release.VersionParts(canonical).Success?
    ensures
      var before, after := RequirementText(name, canonical), RequirementText(name, version);
      && before != ""
      && (Occurrences(updated, before) == 1 <==> StandsOnce(updated, before))
      && PutAtPlace(updated, before, after)
  {
    VersionIsSimple(canonical);
    RequirementIsBraced(name, canonical);
    CountedOnce(updated, RequirementText(name, canonical), RequirementText(name, version));
  }

  /** One manifest is edited exactly so. */
  lemma EditIsExact(s: string, sibling: Option<string>, expected: nat, canonical: string, version: string)
      returns (ms: seq<Match>)
    requires sibling.Some? ==> Simple(sibling.value) && Release.VersionParts(canonical).Success?
    ensures EditsExactly(s, sibling, expected, canonical, version, ms,
                         EditedManifest(s, sibling, expected, canonical, version))
  {
    ms := ScanIsExact(s, true, version);
    FitsAre(Versions(s, true), ms, expected, canonical);
    if sibling.Some? {
      SiblingCountedOnce(Substituted(s, true, version), sibling.value, canonical, version);
    }
  }

  // ----- package.json

  lemma {:induction false} PutSame(members: seq<Member>, name: string, value: Value)
    requires Get(members, name) == Some(value)
    ensures Put(members, name, value) == members
  {
    if members[0].name != name {
      PutSame(members[1..], name, value);
    }
  }

  /** `json.dumps(metadata, indent=2) + "\n"` and `json.loads`, whose own texts are not looked into. */
  datatype Codec = Codec(dump: seq<Member> -> string, load: string -> Option<seq<Member>>)

  /** The metadata with the version in its place, or as it is when it declares none. */
  function NewMetadata(metadata: seq<Member>, version: string): seq<Member> {
    if Has(metadata, "version") then Put(metadata, "version", Str(version)) else metadata
  }

  /** A package.json after the edits: the version must be the canonical one, and a file without one is not written. */
  function EditedAsset(text: string, canonical: string, version: string, codec: Codec): Result<string> {
    match codec.load(text)
    case Some(metadata) =>
      (match Get(metadata, "version")
       case Some(declared) =>
         if declared == Str(canonical) then Success(codec.dump(NewMetadata(metadata, version))) else Failure
       case None => Success(text))
    case None => Failure
  }

  /** A package.json whose version is the canonical one gets the new version and keeps every other member in its place,
      one without a version keeps its text, and any other is rejected. */
  lemma AssetIsEdited(text: string, canonical: string, version: string, codec: Codec)
    requires codec.load(text).Some?
    requires forall members :: codec.load(codec.dump(members)) == Some(members)
    ensures
      var before, r := codec.load(text).value, EditedAsset(text, canonical, version, codec);
      match Get(before, "version")
      case None => r == Success(text)
      case Some(declared) =>
        && (r.Success? <==> declared == Str(canonical))
        && (r.Success? ==>
              var after := codec.load(r.value);
              && after.Some? && MemberNames(after.value) == MemberNames(before)
              && forall name :: Get(after.value, name) == if name == "version" then Some(Str(version)) else Get(before, name))
  {
    var before := codec.load(text).value;
    PutNames(before, "version", Str(version));
    forall name ensures Get(Put(before, "version", Str(version)), name) ==
                        if name == "version" then Some(Str(version)) else Get(before, name)
    {
      GetPut(before, "version", Str(version), name);
    }
  }

  lemma {:induction false} PutNames(members: seq<Member>, name: string, value: Value)
    ensures Has(members, name) ==> MemberNames(Put(members, name, value)) == MemberNames(members)
  {
    if Has(members, name) && members[0].name != name {
      PutNames(members[1..], name, value);
      assert MemberNames(members)[1..] == MemberNames(members[1..]);
      var put := Put(members, name, value);
      assert MemberNames(put)[1..] == MemberNames(put[1..]);
    }
  }

  /** A package.json that was rewritten for a version is accepted for it again and keeps its text, when what was
      written is read back. */
  lemma RepeatKeepsAsset(text: string, canonical: string, version: string, codec: Codec)
    requires EditedAsset(text, canonical, version, codec).Success?
    requires
      var next := NewMetadata(codec.load(text).value, version);
      codec.load(codec.dump(next)) == Some(next)
    ensures
      var once := EditedAsset(text, canonical, version, codec);
      EditedAsset(once.value, version, version, codec) == once
  {
    var metadata := codec.load(text).value;
    if Has(metadata, "version") {
      var next := NewMetadata(metadata, version);
      GetPut(metadata, "version", Str(version), "version");
      PutSame(next, "version", Str(version));
    }
  }
}
