/** The supplemental TypeScript converter of scripts/codex/generate_supplement.py: `split_union` and
    `parse_type`. */
module TypeText {
  import opened Wrappers
  import opened Text

  // ----- split_union

  function Delta(c: char): int {
    if c == '{' then 1 else if c == '}' then -1 else 0
  }

  /** Opening less closing braces. */
  function Net(s: string): int {
    if s == "" then 0 else Net(s[..|s| - 1]) + Delta(s[|s| - 1])
  }

  /** The pieces between depth-zero bars, before stripping; `depth` is the depth at the start. */
  function Pieces(text: string, depth: int): (pieces: seq<string>)
    ensures pieces != []
  {
    if text == "" then [""]
    else if text[0] == '|' && depth == 0 then [""] + Pieces(text[1..], 0)
    else Glue([text[0]], Pieces(text[1..], depth + Delta(text[0])))
  }

  function Glue(head: string, pieces: seq<string>): seq<string>
    requires pieces != []
  {
    [head + pieces[0]] + pieces[1..]
  }

  lemma GlueNothing(pieces: seq<string>)
    requires pieces != []
    ensures Glue("", pieces) == pieces
  {
    assert "" + pieces[0] == pieces[0];
  }

  function StripAll(pieces: seq<string>): (r: seq<string>)
    ensures |r| == |pieces|
    ensures forall i :: 0 <= i < |r| ==> r[i] == Strip(pieces[i])
  {
    seq(|pieces|, i requires 0 <= i < |pieces| => Strip(pieces[i]))
  }

  function SplitUnionOf(text: string): Result<seq<string>> {
    if Net(text) != 0 then Failure else Success(StripAll(Pieces(text, 0)))
  }

  /** The loop has cut `raw` off the text and stands at `index` inside a piece from `start`. */
  ghost predicate Cutting(text: string, raw: seq<string>, start: nat, index: nat, depth: int) {
    && start <= index <= |text|
    && depth == Net(text[..index])
    && Pieces(text, 0) == raw + Glue(text[start..index], Pieces(text[index..], depth))
  }

  lemma CuttingStarts(text: string)
    ensures Cutting(text, [], 0, 0, 0)
  {
    assert text[0..] == text && text[0..0] == "" && text[..0] == "";
    GlueNothing(Pieces(text, 0));
  }

  lemma BarStep(text: string, raw: seq<string>, start: nat, index: nat)
    requires Cutting(text, raw, start, index, 0) && index < |text| && text[index] == '|'
    ensures Cutting(text, raw + [text[start..index]], index + 1, index + 1, 0)
  {
    var rest := Pieces(text[index + 1..], 0);
    assert text[..index + 1][..index] == text[..index];
    assert text[index..][1..] == text[index + 1..] && text[index + 1..index + 1] == "";
    assert ([""] + rest)[1..] == rest;
    GlueNothing(rest);
    assert text[start..index] + "" == text[start..index];
    assert Glue(text[start..index], Pieces(text[index..], 0)) == [text[start..index]] + rest;
  }

  lemma CharStep(text: string, raw: seq<string>, start: nat, index: nat, depth: int)
    requires Cutting(text, raw, start, index, depth) && index < |text| && !(text[index] == '|' && depth == 0)
    ensures Cutting(text, raw, start, index + 1, depth + Delta(text[index]))
  {
    assert text[..index + 1][..index] == text[..index];
    assert text[index..][1..] == text[index + 1..];
    var rest := Pieces(text[index + 1..], depth + Delta(text[index]));
    assert text[start..index + 1] == text[start..index] + [text[index]];
    assert text[start..index] + ([text[index]] + rest[0]) == text[start..index + 1] + rest[0];
  }

  lemma CuttingEnds(text: string, raw: seq<string>, start: nat, depth: int)
    requires Cutting(text, raw, start, |text|, depth)
    ensures depth == Net(text) && Pieces(text, 0) == raw + [text[start..]]
  {
    assert text[..|text|] == text && text[|text|..] == "";
    assert Pieces("", depth) == [""];
    GlueLast(text[start..]);
    assert text[start..|text|] == text[start..];
  }

  lemma GlueLast(s: string)
    ensures Glue(s, [""]) == [s]
  {
    assert s + "" == s;
  }

  lemma StripAllMore(raw: seq<string>, piece: string)
    ensures StripAll(raw + [piece]) == StripAll(raw) + [Strip(piece)]
  {
  }

  method SplitUnion(text: string) returns (r: Result<seq<string>>)
    ensures r == SplitUnionOf(text)
  {
    var depth, start, pieces: seq<string> := 0, 0, [];
    ghost var raw: seq<string> := [];
    CuttingStarts(text);
    for index := 0 to |text|
      invariant Cutting(text, raw, start, index, depth)
      invariant pieces == StripAll(raw)
    {
      if text[index] == '|' && depth == 0 {
        BarStep(text, raw, start, index);
        StripAllMore(raw, text[start..index]);
        raw := raw + [text[start..index]];
        pieces := pieces + [Strip(text[start..index])];
        start := index + 1;
      } else {
        CharStep(text, raw, start, index, depth);
        depth := depth + Delta(text[index]);
      }
    }
    CuttingEnds(text, raw, start, depth);
    if depth != 0 {
      return Failure;
    }
    StripAllMore(raw, text[start..]);
    return Success(pieces + [Strip(text[start..])]);
  }

  // ----- What the split means

  function Bars(pieces: seq<string>): string {
    if pieces == [] then ""
    else if |pieces| == 1 then pieces[0]
    else pieces[0] + "|" + Bars(pieces[1..])
  }

  /** No bar of the text stands at depth zero when the text starts at this depth. */
  predicate NoTopBar(s: string, depth: int) {
    s == "" || (!(s[0] == '|' && depth == 0) && NoTopBar(s[1..], depth + Delta(s[0])))
  }

  function NetFrom(s: string, depth: int): int {
    if s == "" then depth else NetFrom(s[1..], depth + Delta(s[0]))
  }

  /** A list of pieces cut exactly at the depth-zero bars: no piece has one left, and each piece before
      a bar ends at depth zero. */
  predicate CutAtTop(pieces: seq<string>, depth: int)
    requires pieces != []
  {
    && NoTopBar(pieces[0], depth)
    && (|pieces| > 1 ==> NetFrom(pieces[0], depth) == 0 && CutAtTop(pieces[1..], 0))
  }

  /** The pieces with their bars are the whole text, cut exactly at the depth-zero bars. */
  lemma {:induction false} PiecesAreCut(text: string, depth: int)
    ensures Bars(Pieces(text, depth)) == text && CutAtTop(Pieces(text, depth), depth)
  {
    if text != "" {
      if text[0] == '|' && depth == 0 {
        PiecesAreCut(text[1..], 0);
        assert Pieces(text, depth)[1..] == Pieces(text[1..], 0);
        assert Bars(Pieces(text, depth)) == "" + "|" + Bars(Pieces(text[1..], 0));
      } else {
        var rest := Pieces(text[1..], depth + Delta(text[0]));
        PiecesAreCut(text[1..], depth + Delta(text[0]));
        GlueCut(text[0], rest, depth);
        assert [text[0]] + text[1..] == text;
      }
    }
  }

  lemma GlueCut(c: char, pieces: seq<string>, depth: int)
    requires pieces != [] && !(c == '|' && depth == 0)
    ensures CutAtTop(Glue([c], pieces), depth) == CutAtTop(pieces, depth + Delta(c))
    ensures Bars(Glue([c], pieces)) == [c] + Bars(pieces)
  {
    var glued := Glue([c], pieces);
    assert glued[0][1..] == pieces[0];
    assert glued[1..] == pieces[1..];
    if |pieces| > 1 {
      assert glued[0] + "|" + Bars(glued[1..]) == [c] + (pieces[0] + "|" + Bars(pieces[1..]));
    }
  }

  /** There is only one such cut. */
  lemma {:induction false} CutIsPieces(pieces: seq<string>, depth: int)
    requires pieces != [] && CutAtTop(pieces, depth)
    ensures Pieces(Bars(pieces), depth) == pieces
    decreases |Bars(pieces)|, |pieces|
  {
    var head := pieces[0];
    if head == "" {
      if |pieces| == 1 {
        assert pieces == [""];
      } else {
        assert Bars(pieces)[1..] == Bars(pieces[1..]);
        CutIsPieces(pieces[1..], 0);
        assert pieces == [""] + pieces[1..];
      }
    } else {
      var shorter := [head[1..]] + pieces[1..];
      assert [head[0]] + head[1..] == head && shorter[1..] == pieces[1..];
      assert pieces == Glue([head[0]], shorter);
      GlueCut(head[0], shorter, depth);
      assert Bars(pieces)[1..] == Bars(shorter);
      CutIsPieces(shorter, depth + Delta(head[0]));
    }
  }

  /** `split_union` splits exactly at the depth-zero bars: the pieces are cut there, the bars give the
      text back, and no other list does. */
  lemma SplitIsExact(text: string, pieces: seq<string>)
    ensures pieces == Pieces(text, 0) <==> pieces != [] && Bars(pieces) == text && CutAtTop(pieces, 0)
  {
    PiecesAreCut(text, 0);
    if pieces != [] && Bars(pieces) == text && CutAtTop(pieces, 0) {
      CutIsPieces(pieces, 0);
    }
  }

  lemma {:induction false} PieceIsShorter(pieces: seq<string>, i: nat)
    requires i < |pieces|
    ensures |pieces[i]| <= |Bars(pieces)|
    ensures |pieces| > 1 ==> |pieces[i]| < |Bars(pieces)|
  {
    if i > 0 {
      PieceIsShorter(pieces[1..], i - 1);
    }
  }

  // ----- parse_type

  datatype Field = Field(name: string, schema: Schema)

  datatype Schema =
    | AnyOf(choices: seq<Schema>)
    | Scalar(kind: string)
    | Object(properties: seq<Field>, required: seq<string>)
    | Ref(target: string)

  const SCALARS := {"string", "boolean", "null"}

  predicate IsReference(text: string) {
    text != "" && 'A' <= text[0] <= 'Z' && forall i :: 0 <= i < |text| ==> IsWord(text[i])
  }

  function WordRun(s: string): (n: nat)
    ensures n <= |s|
    ensures forall i :: 0 <= i < n ==> IsWord(s[i])
    ensures n < |s| ==> !IsWord(s[n])
  {
    if s != "" && IsWord(s[0]) then 1 + WordRun(s[1..]) else 0
  }

  predicate InValue(c: char) {
    c != ',' && c != '{' && c != '}'
  }

  function ValueRun(s: string): (n: nat)
    ensures n <= |s|
    ensures forall i :: 0 <= i < n ==> InValue(s[i])
    ensures n < |s| ==> !InValue(s[n])
  {
    if s != "" && InValue(s[0]) then 1 + ValueRun(s[1..]) else 0
  }

  lemma StripStaysInValue(s: string)
    requires forall i :: 0 <= i < |s| ==> InValue(s[i])
    ensures forall i :: 0 <= i < |Strip(s)| ==> InValue(Strip(s)[i])
  {
    var left, right := StripIsPart(s);
    forall i | 0 <= i < |Strip(s)| ensures InValue(Strip(s)[i]) {
      assert s[|left| + i] == Strip(s)[i];
    }
  }

  datatype TextField = TextField(name: string, value: string)

  datatype Read = NoField | Read(field: TextField, rest: string)

  predicate WellRead(f: TextField, bound: nat) {
    && |f.value| < bound && f.name != ""
    && (forall i :: 0 <= i < |f.name| ==> IsWord(f.name[i]))
    && (forall i :: 0 <= i < |f.value| ==> InValue(f.value[i]))
  }

  /** One field `name: value,` at the start of the text: what both regular expressions match there. */
  function ReadField(text: string): (r: Read)
    ensures r.Read? ==> |r.rest| < |text| && WellRead(r.field, |text|)
  {
    var n := WordRun(text);
    if n == 0 || n == |text| || text[n] != ':' then NoField
    else
      var after := text[n + 1..];
      var m := ValueRun(after);
      if m == 0 || m == |after| || after[m] != ',' then NoField
      else
        StripStaysInValue(after[..m]);
        Read(TextField(text[..n], Strip(after[..m])), after[m + 1..])
  }

  /** The fields of an object body: anything but whitespace between them raises. */
  function ReadFields(body: string): Result<seq<TextField>>
    decreases |body|
  {
    var text := StripStart(body);
    if text == "" then Success([])
    else
      match ReadField(text)
      case NoField => Failure
      case Read(field, next) =>
        var rest :- ReadFields(next);
        Success([field] + rest)
  }

  predicate AllWellRead(fields: seq<TextField>, bound: nat) {
    forall i :: 0 <= i < |fields| ==> WellRead(fields[i], bound)
  }

  lemma MoreWellRead(field: TextField, rest: seq<TextField>, bound: nat, more: nat)
    requires WellRead(field, more) && AllWellRead(rest, bound) && bound <= more
    ensures AllWellRead([field] + rest, more)
  {
  }

  lemma {:induction false} FieldsAreWellRead(body: string)
    ensures ReadFields(body).Success? ==> AllWellRead(ReadFields(body).value, |body|)
    decreases |body|
  {
    var text := StripStart(body);
    if text != "" && ReadField(text).Read? && ReadFields(body).Success? {
      var Read(field, next) := ReadField(text);
      FieldsAreWellRead(next);
      MoreWellRead(field, ReadFields(next).value, |next|, |body|);
    }
  }

  function NamesOf(fields: seq<TextField>): (names: seq<string>)
    ensures |names| == |fields| && forall i :: 0 <= i < |names| ==> names[i] == fields[i].name
  {
    seq(|fields|, i requires 0 <= i < |fields| => fields[i].name)
  }

  function ParseType(text: string): Result<Schema>
    decreases |text|, 0
  {
    var choices :- SplitUnionOf(text);
    if |choices| > 1 then
      ChoicesAreShorter(text);
      var schemas :- ParseAll(choices, |text|);
      Success(AnyOf(schemas))
    else if text in SCALARS then Success(Scalar(text))
    else if |text| > 1 && text[0] == '{' && text[|text| - 1] == '}' then
      var fields :- ReadFields(text[1..|text| - 1]);
      FieldsAreWellRead(text[1..|text| - 1]);
      if fields == [] || !AllDifferent(NamesOf(fields)) then Failure
      else
        var properties :- ParseFields(fields, |text|);
        Success(Object(properties, NamesOf(fields)))
    else if IsReference(text) then Success(Ref(text))
    else Failure
  }

  function ParseAll(texts: seq<string>, bound: nat): Result<seq<Schema>>
    requires forall i :: 0 <= i < |texts| ==> |texts[i]| < bound
    decreases bound, 0, |texts|
  {
    if texts == [] then Success([])
    else
      var first :- ParseType(texts[0]);
      var rest :- ParseAll(texts[1..], bound);
      Success([first] + rest)
  }

  function ParseFields(fields: seq<TextField>, bound: nat): Result<seq<Field>>
    requires AllWellRead(fields, bound)
    decreases bound, 0, |fields|
  {
    if fields == [] then Success([])
    else
      var first :- ParseType(fields[0].value);
      var rest :- ParseFields(fields[1..], bound);
      Success([Field(fields[0].name, first)] + rest)
  }

  lemma ChoicesAreShorter(text: string)
    ensures |Pieces(text, 0)| > 1 ==> forall i :: 0 <= i < |Pieces(text, 0)| ==> |StripAll(Pieces(text, 0))[i]| < |text|
  {
    var pieces := Pieces(text, 0);
    if |pieces| > 1 {
      assert Bars(pieces) == text by { PiecesAreCut(text, 0); }
      forall i | 0 <= i < |pieces| ensures |StripAll(pieces)[i]| < |text| {
        PieceIsShorter(pieces, i);
      }
    }
  }
}
