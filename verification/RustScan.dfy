/** The hand-written scanners of scripts/codex/generate_gates.py: `body_end` finds the brace that closes a
    Rust declaration, `field_type` the comma that ends a field's type. */
module RustScan {
  import opened Wrappers
  import opened Text

  // ----- body_end

  /** Where the scan of `s` stops, counted from its first character. */
  function EndOf(s: string, depth: nat, quoted: bool, escaped: bool): (r: Result<nat>)
    ensures r.Success? ==> r.value < |s|
  {
    if s == "" then Failure
    else if quoted then
      Later(1, EndOf(s[1..], depth, escaped || s[0] != '"', !escaped && s[0] == '\\'))
    else if s[0] == '"' then Later(1, EndOf(s[1..], depth, true, false))
    else if s[0] == '{' then Later(1, EndOf(s[1..], depth + 1, false, false))
    else if s[0] == '}' then
      if depth <= 1 then Success(0) else Later(1, EndOf(s[1..], depth - 1, false, false))
    else Later(1, EndOf(s[1..], depth, false, false))
  }

  function Later(n: nat, r: Result<nat>): Result<nat> {
    match r case Success(k) => Success(n + k) case Failure => Failure
  }

  /** The loop stands at `index` having read `text` from `start`. */
  ghost predicate Scanning(text: string, start: nat, index: nat, depth: nat, quoted: bool, escaped: bool) {
    && start <= index <= |text|
    && depth >= 1
    && (escaped ==> quoted)
    && EndOf(text[start..], 1, false, false) == Later(index - start, EndOf(text[index..], depth, quoted, escaped))
  }

  lemma ScanningNext(text: string, start: nat, index: nat, depth: nat, quoted: bool, escaped: bool,
                     nextDepth: nat, nextQuoted: bool, nextEscaped: bool)
    requires Scanning(text, start, index, depth, quoted, escaped) && index < |text| && nextDepth >= 1
    requires nextEscaped ==> nextQuoted
    requires EndOf(text[index..], depth, quoted, escaped) == Later(1, EndOf(text[index + 1..], nextDepth, nextQuoted, nextEscaped))
    ensures Scanning(text, start, index + 1, nextDepth, nextQuoted, nextEscaped)
  {
  }

  method BodyEnd(text: string, start: nat) returns (r: Result<nat>)
    ensures r == if start <= |text| then Later(start, EndOf(text[start..], 1, false, false)) else Failure
  {
    var depth, quoted, escaped := 1, false, false;
    var index := start;
    while index < |text|
      invariant start <= |text| ==> Scanning(text, start, index, depth, quoted, escaped)
    {
      var c := text[index];
      ghost var d, q, e := depth, quoted, escaped;
      assert text[index..][0] == c && text[index..][1..] == text[index + 1..];
      if quoted {
        if escaped {
          escaped := false;
        } else if c == '\\' {
          escaped := true;
        } else if c == '"' {
          quoted := false;
        }
      } else if c == '"' {
        quoted := true;
      } else {
        depth := depth + if c == '{' then 1 else 0;
        depth := depth - if c == '}' then 1 else 0;
        if depth == 0 {
          return Success(index);
        }
      }
      ScanningNext(text, start, index, d, q, e, depth, quoted, escaped);
      index := index + 1;
    }
    return Failure;
  }

  // ----- Bodies

  datatype Literal = Plain(c: char) | Escape(c: char)

  /** What stands between the braces of a declaration. */
  datatype Item = Other(c: char) | Quoted(literals: seq<Literal>) | Nested(items: seq<Item>)

  predicate GoodLiterals(literals: seq<Literal>) {
    forall i :: 0 <= i < |literals| ==> literals[i].Plain? ==> literals[i].c != '"' && literals[i].c != '\\'
  }

  predicate GoodBody(items: seq<Item>) {
    forall i :: 0 <= i < |items| ==> GoodItem(items[i])
  }

  predicate GoodItem(item: Item) {
    match item
    case Other(c) => c != '"' && c != '{' && c != '}'
    case Quoted(literals) => GoodLiterals(literals)
    case Nested(items) => forall i :: 0 <= i < |items| ==> GoodItem(items[i])
  }

  function LiteralText(literals: seq<Literal>): string {
    if literals == [] then ""
    else (if literals[0].Plain? then [literals[0].c] else ['\\', literals[0].c]) + LiteralText(literals[1..])
  }

  function ItemText(item: Item): string
    decreases item, 0
  {
    match item
    case Other(c) => [c]
    case Quoted(literals) => "\"" + LiteralText(literals) + "\""
    case Nested(items) => "{" + BodyText(items) + "}"
  }

  function BodyText(items: seq<Item>): string
    decreases items, 1
  {
    if items == [] then "" else ItemText(items[0]) + BodyText(items[1..])
  }

  /** Reading one character off the front. */
  lemma ReadOne(c: char, rest: string, depth: nat, quoted: bool, escaped: bool)
    ensures EndOf([c] + rest, depth, quoted, escaped) ==
      if quoted then Later(1, EndOf(rest, depth, escaped || c != '"', !escaped && c == '\\'))
      else if c == '"' then Later(1, EndOf(rest, depth, true, false))
      else if c == '{' then Later(1, EndOf(rest, depth + 1, false, false))
      else if c != '}' then Later(1, EndOf(rest, depth, false, false))
      else if depth <= 1 then Success(0)
      else Later(1, EndOf(rest, depth - 1, false, false))
  {
    assert ([c] + rest)[1..] == rest;
  }

  lemma {:induction false} ReadLiterals(literals: seq<Literal>, rest: string, depth: nat)
    requires GoodLiterals(literals)
    ensures EndOf(LiteralText(literals) + ("\"" + rest), depth, true, false) ==
            Later(|LiteralText(literals)| + 1, EndOf(rest, depth, false, false))
  {
    if literals == [] {
      ReadOne('"', rest, depth, true, false);
      assert LiteralText(literals) + ("\"" + rest) == ['"'] + rest;
    } else {
      var c, tail := literals[0].c, LiteralText(literals[1..]) + ("\"" + rest);
      ReadLiterals(literals[1..], rest, depth);
      LiteralsText(literals, "\"" + rest);
      if literals[0].Plain? {
        ReadOne(c, tail, depth, true, false);
      } else {
        ReadEscape(c, tail, depth);
      }
    }
  }

  lemma ReadEscape(c: char, rest: string, depth: nat)
    ensures EndOf(['\\'] + ([c] + rest), depth, true, false) == Later(2, EndOf(rest, depth, true, false))
  {
    ReadOne('\\', [c] + rest, depth, true, false);
    ReadOne(c, rest, depth, true, true);
  }

  lemma LiteralsText(literals: seq<Literal>, rest: string)
    requires literals != []
    ensures
      var c, tail := literals[0].c, LiteralText(literals[1..]) + rest;
      LiteralText(literals) + rest == if literals[0].Plain? then [c] + tail else ['\\'] + ([c] + tail)
  {
  }

  /** A well-formed body is read through, whatever text and whatever depth follow. */
  lemma {:induction false} ReadBody(items: seq<Item>, rest: string, depth: nat)
    requires GoodBody(items) && depth >= 1
    ensures EndOf(BodyText(items) + rest, depth, false, false) == Later(|BodyText(items)|, EndOf(rest, depth, false, false))
    decreases items, 1
  {
    if items == [] {
      assert BodyText(items) + rest == rest;
    } else {
      var next := BodyText(items[1..]) + rest;
      ReadItem(items[0], next, depth);
      ReadBody(items[1..], rest, depth);
      assert BodyText(items) + rest == ItemText(items[0]) + next;
    }
  }

  lemma {:induction false} ReadItem(item: Item, rest: string, depth: nat)
    requires GoodItem(item) && depth >= 1
    ensures EndOf(ItemText(item) + rest, depth, false, false) == Later(|ItemText(item)|, EndOf(rest, depth, false, false))
    decreases item, 0
  {
    match item
    case Other(c) =>
      ReadOne(c, rest, depth, false, false);
    case Quoted(literals) =>
      ReadOne('"', LiteralText(literals) + ("\"" + rest), depth, false, false);
      ReadLiterals(literals, rest, depth);
      Enclosed('"', LiteralText(literals), '"', rest);
    case Nested(items) =>
      ReadBody(items, "}" + rest, depth + 1);
      ReadNested(BodyText(items), rest, depth);
  }

  /** A text that is read through inside braces is read through with them. */
  lemma ReadNested(inner: string, rest: string, depth: nat)
    requires depth >= 1
    requires EndOf(inner + ("}" + rest), depth + 1, false, false) == Later(|inner|, EndOf("}" + rest, depth + 1, false, false))
    ensures EndOf("{" + inner + "}" + rest, depth, false, false) == Later(|inner| + 2, EndOf(rest, depth, false, false))
  {
    ReadOne('{', inner + ("}" + rest), depth, false, false);
    ReadOne('}', rest, depth + 1, false, false);
    Enclosed('{', inner, '}', rest);
  }

  lemma Enclosed(opening: char, s: string, closing: char, rest: string)
    ensures [opening] + s + [closing] + rest == [opening] + (s + ([closing] + rest))
  {
  }

  lemma {:induction false} SplitLiterals(s: string, depth: nat) returns (literals: seq<Literal>, rest: string)
    requires EndOf(s, depth, true, false).Success?
    ensures GoodLiterals(literals) && s == LiteralText(literals) + ("\"" + rest)
    ensures EndOf(rest, depth, false, false).Success?
    decreases |s|
  {
    if s[0] == '"' {
      literals, rest := [], s[1..];
    } else if s[0] == '\\' {
      var more;
      more, rest := SplitLiterals(s[1..][1..], depth);
      literals := [Escape(s[1])] + more;
      assert s == ['\\'] + ([s[1]] + s[1..][1..]);
      LiteralsGrow(Escape(s[1]), more, "\"" + rest);
    } else {
      var more;
      more, rest := SplitLiterals(s[1..], depth);
      literals := [Plain(s[0])] + more;
      assert s == [s[0]] + s[1..];
      LiteralsGrow(Plain(s[0]), more, "\"" + rest);
    }
  }

  lemma LiteralsGrow(first: Literal, more: seq<Literal>, rest: string)
    ensures LiteralText([first] + more) + rest ==
      if first.Plain? then [first.c] + (LiteralText(more) + rest) else ['\\'] + ([first.c] + (LiteralText(more) + rest))
  {
    assert ([first] + more)[1..] == more;
  }

  /** What is read before an inner text, and after it. */
  lemma NestedText(s: string, inner: seq<Item>, after: string)
    requires s != "" && s[0] == '{' && s[1..] == BodyText(inner) + "}" + after
    ensures s == ItemText(Nested(inner)) + after
  {
    assert s == "{" + s[1..];
  }

  lemma QuotedText(s: string, literals: seq<Literal>, after: string)
    requires s != "" && s[0] == '"' && s[1..] == LiteralText(literals) + ("\"" + after)
    ensures s == ItemText(Quoted(literals)) + after
  {
    assert s == "\"" + s[1..];
  }

  /** Whatever is read through up to a closing brace is a well-formed body. */
  lemma {:induction false} SplitBody(s: string, depth: nat) returns (items: seq<Item>, rest: string)
    requires depth >= 1 && EndOf(s, depth, false, false).Success?
    ensures GoodBody(items) && s == BodyText(items) + "}" + rest
    ensures depth > 1 ==> EndOf(rest, depth - 1, false, false).Success?
    decreases |s|
  {
    if s[0] == '}' {
      items, rest := [], s[1..];
    } else if s[0] == '{' {
      var inner, after := SplitBody(s[1..], depth + 1);
      var more;
      more, rest := SplitBody(after, depth);
      items := [Nested(inner)] + more;
      NestedText(s, inner, after);
      BodyGrows(Nested(inner), more, rest);
    } else if s[0] == '"' {
      var literals, after := SplitLiterals(s[1..], depth);
      var more;
      more, rest := SplitBody(after, depth);
      items := [Quoted(literals)] + more;
      QuotedText(s, literals, after);
      BodyGrows(Quoted(literals), more, rest);
    } else {
      var more;
      more, rest := SplitBody(s[1..], depth);
      items := [Other(s[0])] + more;
      assert s == ItemText(Other(s[0])) + s[1..];
      BodyGrows(Other(s[0]), more, rest);
    }
  }

  lemma BodyGrows(item: Item, more: seq<Item>, rest: string)
    ensures BodyText([item] + more) + "}" + rest == ItemText(item) + (BodyText(more) + "}" + rest)
  {
    assert ([item] + more)[1..] == more;
  }

  ghost predicate HasBody(s: string, length: nat) {
    exists items, rest :: GoodBody(items) && |BodyText(items)| == length && s == BodyText(items) + "}" + rest
  }

  /** `body_end` returns exactly the end of a well-formed body: it stops after `n` characters if and only
      if they are a body followed by a closing brace, so it fails only when no body is closed. */
  lemma BodyEndIsExact(s: string, n: nat)
    ensures EndOf(s, 1, false, false) == Success(n) <==> HasBody(s, n)
  {
    if EndOf(s, 1, false, false).Success? {
      var items, rest := SplitBody(s, 1);
      BodyIsRead(items, rest);
      assert HasBody(s, EndOf(s, 1, false, false).value);
    }
    if HasBody(s, n) {
      var items, rest :| GoodBody(items) && |BodyText(items)| == n && s == BodyText(items) + "}" + rest;
      BodyIsRead(items, rest);
    }
  }

  lemma BodyIsRead(items: seq<Item>, rest: string)
    requires GoodBody(items)
    ensures EndOf(BodyText(items) + "}" + rest, 1, false, false) == Success(|BodyText(items)|)
  {
    ReadBody(items, "}" + rest, 1);
    assert BodyText(items) + "}" + rest == BodyText(items) + ("}" + rest);
  }

  // ----- field_type

  function Bracket(c: char): int {
    if c in "<([{" then 1 else if c in ">)]}" then -1 else 0
  }

  /** Opening less closing brackets of any kind. */
  function Balance(s: string): int {
    if s == "" then 0 else Balance(s[..|s| - 1]) + Bracket(s[|s| - 1])
  }

  /** A comma at bracket depth zero. */
  predicate EndsField(text: string, start: nat, i: nat)
    requires start <= i < |text|
  {
    text[i] == ',' && Balance(text[start..i]) == 0
  }

  predicate IsFieldEnd(text: string, start: nat, i: nat) {
    && start <= i < |text|
    && EndsField(text, start, i)
    && forall j :: start <= j < i ==> !EndsField(text, start, j)
  }

  /** `field_type` returns the text up to the first comma at depth zero, and fails when there is none. */
  method FieldType(text: string, start: nat) returns (r: Result<string>)
    ensures r.Success? ==> exists end: nat :: IsFieldEnd(text, start, end) && r.value == Strip(text[start..end])
    ensures r.Failure? ==> forall i :: start <= i < |text| ==> !EndsField(text, start, i)
  {
    var depth := 0;
    var index := start;
    while index < |text|
      invariant start <= |text| ==> start <= index <= |text| && depth == Balance(text[start..index])
      invariant forall j :: start <= j < index && j < |text| ==> !EndsField(text, start, j)
    {
      var c := text[index];
      assert text[start..index + 1][..index - start] == text[start..index];
      depth := depth + if c in "<([{" then 1 else 0;
      depth := depth - if c in ">)]}" then 1 else 0;
      if c == ',' && depth == 0 {
        assert IsFieldEnd(text, start, index);
        return Success(Strip(text[start..index]));
      }
      index := index + 1;
    }
    return Failure;
  }

  /** A type: brackets that nest, commas only inside them, and arrows anywhere. The scanner does not match
      bracket kinds. */
  datatype Part = Letter(c: char) | Arrow | Group(opening: char, parts: seq<Part>, closing: char)

  predicate GoodParts(parts: seq<Part>, inside: bool)
    decreases parts, 1
  {
    forall i :: 0 <= i < |parts| ==> GoodPart(parts[i], inside)
  }

  predicate GoodPart(part: Part, inside: bool)
    decreases part, 0
  {
    match part
    case Letter(c) => Bracket(c) == 0 && (c == ',' ==> inside)
    case Arrow => true
    case Group(opening, parts, closing) =>
      opening in "<([{" && closing in ">)]}" && forall i :: 0 <= i < |parts| ==> GoodPart(parts[i], true)
  }

  function PartsText(parts: seq<Part>): string
    decreases parts, 1
  {
    if parts == [] then "" else PartText(parts[0]) + PartsText(parts[1..])
  }

  function PartText(part: Part): string
    decreases part, 0
  {
    match part
    case Letter(c) => [c]
    case Arrow => "->"
    case Group(opening, parts, closing) => [opening] + PartsText(parts) + [closing]
  }

  /** The arrows at any depth. */
  function Arrows(parts: seq<Part>): nat
    decreases parts, 1
  {
    if parts == [] then 0 else ArrowsIn(parts[0]) + Arrows(parts[1..])
  }

  function ArrowsIn(part: Part): nat
    decreases part, 0
  {
    match part
    case Letter(c) => 0
    case Arrow => 1
    case Group(opening, parts, closing) => Arrows(parts)
  }

  lemma {:induction false} BalanceConcat(a: string, b: string)
    ensures Balance(a + b) == Balance(a) + Balance(b)
  {
    if b == "" {
      assert a + b == a;
    } else {
      assert (a + b)[..|a + b| - 1] == a + b[..|b| - 1];
      BalanceConcat(a, b[..|b| - 1]);
    }
  }

  /** Level brackets that never close more than they opened; without `inside`, commas only at depth. */
  predicate Level(s: string, inside: bool) {
    && Balance(s) == 0
    && (forall i :: 0 <= i <= |s| ==> Balance(s[..i]) >= 0)
    && (!inside ==> forall i :: 0 <= i < |s| && s[i] == ',' ==> Balance(s[..i]) > 0)
  }

  lemma LevelConcat(a: string, b: string, inside: bool)
    requires Level(a, inside) && Level(b, inside)
    ensures Level(a + b, inside)
  {
    var s := a + b;
    BalanceConcat(a, b);
    forall i | 0 <= i <= |s|
      ensures Balance(s[..i]) >= 0 && (!inside && i < |s| && s[i] == ',' ==> Balance(s[..i]) > 0)
    {
      if i < |a| {
        assert s[..i] == a[..i] && s[i] == a[i];
      } else {
        assert s[..i] == a + b[..i - |a|];
        BalanceConcat(a, b[..i - |a|]);
      }
    }
  }

  lemma LevelGroup(opening: char, s: string, closing: char)
    requires opening in "<([{" && closing in ">)]}" && Level(s, true)
    ensures Level([opening] + s + [closing], false)
  {
    var text := [opening] + s + [closing];
    BalanceOne(opening);
    BalanceOne(closing);
    forall i | 0 < i < |text| ensures Balance(text[..i]) == 1 + Balance(s[..i - 1]) {
      assert text[..i] == [opening] + s[..i - 1];
      BalanceConcat([opening], s[..i - 1]);
    }
    assert Balance(text[..0]) == 0 && opening != ',' && closing != ',';
    BalanceConcat([opening] + s, [closing]);
    BalanceConcat([opening], s);
    assert text[..|text|] == text;
  }

  lemma BalanceOne(c: char)
    ensures Balance([c]) == Bracket(c)
  {
    assert [c][..0] == "";
  }

  /** Each arrow counts as one closing bracket. */
  lemma {:induction false} ArrowsUnbalance(parts: seq<Part>, inside: bool)
    requires GoodParts(parts, inside)
    ensures Balance(PartsText(parts)) + Arrows(parts) == 0
    decreases parts, 1
  {
    if parts != [] {
      ArrowUnbalances(parts[0], inside);
      ArrowsUnbalance(parts[1..], inside);
      BalanceConcat(PartText(parts[0]), PartsText(parts[1..]));
    }
  }

  lemma {:induction false} ArrowUnbalances(part: Part, inside: bool)
    requires GoodPart(part, inside)
    ensures Balance(PartText(part)) + ArrowsIn(part) == 0
    decreases part, 0
  {
    match part
    case Letter(c) =>
      BalanceOne(c);
    case Arrow =>
      ArrowCloses();
    case Group(opening, parts, closing) =>
      ArrowsUnbalance(parts, true);
      BalanceInside(opening, PartsText(parts), closing);
  }

  lemma ArrowCloses()
    ensures Balance("->") == -1
  {
    BalanceOne('-');
    BalanceOne('>');
    BalanceConcat(['-'], ['>']);
    assert "->" == ['-'] + ['>'];
  }

  lemma BalanceInside(opening: char, s: string, closing: char)
    requires opening in "<([{" && closing in ">)]}"
    ensures Balance([opening] + s + [closing]) == Balance(s)
  {
    BalanceOne(opening);
    BalanceOne(closing);
    BalanceConcat([opening], s);
    BalanceConcat([opening] + s, [closing]);
  }

  lemma {:induction false} PartsAreLevel(parts: seq<Part>, inside: bool)
    requires GoodParts(parts, inside) && Arrows(parts) == 0
    ensures Level(PartsText(parts), inside)
    decreases parts, 1
  {
    if parts != [] {
      PartIsLevel(parts[0], inside);
      PartsAreLevel(parts[1..], inside);
      LevelConcat(PartText(parts[0]), PartsText(parts[1..]), inside);
    }
  }

  lemma {:induction false} PartIsLevel(part: Part, inside: bool)
    requires GoodPart(part, inside) && ArrowsIn(part) == 0
    ensures Level(PartText(part), inside)
    decreases part, 0
  {
    match part
    case Letter(c) =>
      BalanceOne(c);
      assert [c][..0] == "" && [c][..1] == [c];
    case Arrow =>
    case Group(opening, parts, closing) =>
      PartsAreLevel(parts, true);
      LevelGroup(opening, PartsText(parts), closing);
  }

  /** The comma after a text ends the field only if the text's brackets are level. */
  lemma CommaEnds(before: string, s: string, rest: string)
    ensures EndsField(before + s + "," + rest, |before|, |before| + |s|) <==> Balance(s) == 0
  {
    Between(before, s, ',', rest);
  }

  lemma Between(before: string, s: string, c: char, rest: string)
    ensures
      var text := before + s + [c] + rest;
      text[|before| + |s|] == c && text[|before|..|before| + |s|] == s
  {
  }

  lemma LevelEndsField(before: string, s: string, rest: string)
    requires Level(s, false)
    ensures IsFieldEnd(before + s + "," + rest, |before|, |before| + |s|)
  {
    var text := before + s + "," + rest;
    CommaEnds(before, s, rest);
    forall j | |before| <= j < |before| + |s| ensures !EndsField(text, |before|, j) {
      assert text[|before|..j] == s[..j - |before|] && text[j] == s[j - |before|];
    }
  }

  /** A well-formed type ends at the comma that follows it, whatever comes after, exactly when no arrow
      stands in it at any depth. */
  lemma FieldEndsAfterType(before: string, parts: seq<Part>, rest: string)
    requires GoodParts(parts, false)
    ensures
      IsFieldEnd(before + PartsText(parts) + "," + rest, |before|, |before| + |PartsText(parts)|) <==> Arrows(parts) == 0
  {
    var s := PartsText(parts);
    if Arrows(parts) == 0 {
      PartsAreLevel(parts, false);
      LevelEndsField(before, s, rest);
    } else {
      ArrowsUnbalance(parts, false);
      CommaEnds(before, s, rest);
    }
  }

  /** An arrow anywhere in a type hides the comma after it: no field ends there. */
  lemma ArrowHidesTheComma(before: string, parts: seq<Part>, rest: string)
    requires GoodParts(parts, false) && Arrows(parts) > 0
    ensures
      !EndsField(before + PartsText(parts) + "," + rest, |before|, |before| + |PartsText(parts)|)
  {
    ArrowsUnbalance(parts, false);
    CommaEnds(before, PartsText(parts), rest);
  }
}
