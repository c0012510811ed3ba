/** `parse_type` undoes a printer for the TypeScript subset it supports, and accepts nothing else. */
module TypeRoundTrip {
  import opened Wrappers
  import opened Text
  import opened TypeText

  /** The subset: scalars and references by name, flat objects, unions. */
  datatype TsType = Named(name: string) | Braces(fields: seq<TsField>) | Either(members: seq<TsType>)

  datatype TsField = TsField(name: string, kind: TsType)

  predicate IsName(text: string) {
    text == "string" || text == "boolean" || text == "null" || IsReference(text)
  }

  predicate IsFieldName(text: string) {
    text != "" && forall i :: 0 <= i < |text| ==> IsWord(text[i])
  }

  /** What the value of a field may be: a name or a union of names. */
  predicate Flat(t: TsType) {
    match t
    case Named(name) => IsName(name)
    case Braces(_) => false
    case Either(members) => |members| >= 2 && forall i :: 0 <= i < |members| ==> members[i].Named? && IsName(members[i].name)
  }

  function FieldNames(fields: seq<TsField>): (names: seq<string>)
    ensures |names| == |fields| && forall i :: 0 <= i < |names| ==> names[i] == fields[i].name
  {
    seq(|fields|, i requires 0 <= i < |fields| => fields[i].name)
  }

  predicate FieldsSupported(fields: seq<TsField>) {
    forall i :: 0 <= i < |fields| ==> IsFieldName(fields[i].name) && Flat(fields[i].kind)
  }

  predicate Supported(t: TsType) {
    match t
    case Named(name) => IsName(name)
    case Braces(fields) => fields != [] && FieldsSupported(fields) && AllDifferent(FieldNames(fields))
    case Either(members) => |members| >= 2 && forall i :: 0 <= i < |members| ==> !members[i].Either? && Supported(members[i])
  }

  // ----- The printer

  function Print(t: TsType): string
    decreases t, 0
  {
    match t
    case Named(name) => name
    case Braces(fields) => "{ " + PrintFields(fields) + "}"
    case Either(members) => Bars(Padded(members, ""))
  }

  function PrintFields(fields: seq<TsField>): string
    decreases fields, 1
  {
    if fields == [] then ""
    else fields[0].name + ":" + (" " + Print(fields[0].kind)) + "," + (" " + PrintFields(fields[1..]))
  }

  /** The stretches between the bars of a printed union. */
  function Padded(members: seq<TsType>, lead: string): (pieces: seq<string>)
    ensures |pieces| == |members|
    decreases members, 1
  {
    if members == [] then []
    else [lead + Print(members[0]) + if |members| == 1 then "" else " "] + Padded(members[1..], " ")
  }

  function ToSchema(t: TsType): Schema
    decreases t, 0
  {
    match t
    case Named(name) => if name == "string" || name == "boolean" || name == "null" then Scalar(name) else Ref(name)
    case Braces(fields) => Object(ToFields(fields), FieldNames(fields))
    case Either(members) => AnyOf(ToSchemas(members))
  }

  function ToSchemas(members: seq<TsType>): seq<Schema>
    decreases members, 1
  {
    if members == [] then [] else [ToSchema(members[0])] + ToSchemas(members[1..])
  }

  function ToFields(fields: seq<TsField>): seq<Field>
    decreases fields, 1
  {
    if fields == [] then [] else [Field(fields[0].name, ToSchema(fields[0].kind))] + ToFields(fields[1..])
  }

  // ----- Braces and bars

  predicate NoBraces(s: string) {
    forall i :: 0 <= i < |s| ==> s[i] != '{' && s[i] != '}'
  }

  predicate NoBars(s: string) {
    forall i :: 0 <= i < |s| ==> s[i] != '|'
  }

  lemma {:induction false} NetFromConcat(a: string, b: string, depth: int)
    ensures NetFrom(a + b, depth) == NetFrom(b, NetFrom(a, depth))
    ensures NoTopBar(a + b, depth) == (NoTopBar(a, depth) && NoTopBar(b, NetFrom(a, depth)))
  {
    if a == "" {
      assert a + b == b;
    } else {
      assert (a + b)[1..] == a[1..] + b;
      NetFromConcat(a[1..], b, depth + Delta(a[0]));
    }
  }

  lemma {:induction false} NetIsNetFrom(s: string)
    ensures Net(s) == NetFrom(s, 0)
  {
    if s != "" {
      var front := s[..|s| - 1];
      NetIsNetFrom(front);
      assert s == front + [s[|s| - 1]];
      NetFromConcat(front, [s[|s| - 1]], 0);
    }
  }

  lemma {:induction false} BracelessIsLevel(s: string, depth: int)
    requires NoBraces(s)
    ensures NetFrom(s, depth) == depth
    ensures depth != 0 || NoBars(s) ==> NoTopBar(s, depth)
  {
    if s != "" {
      var tail := s[1..];
      assert forall i :: 0 <= i < |tail| ==> tail[i] == s[i + 1];
      BracelessIsLevel(tail, depth);
    }
  }

  /** A text that reads as one piece: no depth-zero bar, level braces. */
  predicate OnePiece(s: string) {
    NoTopBar(s, 0) && NetFrom(s, 0) == 0
  }

  lemma OnePieceConcat(a: string, b: string)
    requires OnePiece(a) && OnePiece(b)
    ensures OnePiece(a + b)
  {
    NetFromConcat(a, b, 0);
  }

  lemma SplitOnePiece(s: string)
    requires OnePiece(s) && Trimmed(s)
    ensures SplitUnionOf(s) == Success([s])
  {
    NetIsNetFrom(s);
    assert Bars([s]) == s && CutAtTop([s], 0);
    CutIsPieces([s], 0);
    assert "" + s + "" == s;
    StripPadded("", s, "");
    assert StripAll([s]) == [s];
  }

  lemma WordsAreQuiet(s: string)
    requires IsFieldName(s)
    ensures NoBraces(s) && NoBars(s) && Trimmed(s) && OnePiece(s)
    ensures forall i :: 0 <= i < |s| ==> InValue(s[i])
  {
    assert NoBraces(s) && NoBars(s);
    BracelessIsLevel(s, 0);
  }

  lemma NamesAreWords(name: string)
    requires IsName(name)
    ensures IsFieldName(name)
  {
  }

  // ----- Printed texts

  predicate InValueOnly(s: string) {
    forall i :: 0 <= i < |s| ==> InValue(s[i])
  }

  /** Stripping the stretches of a printed union. */
  lemma {:induction false} PaddedStrips(members: seq<TsType>, lead: string, i: nat)
    requires i < |members| && (lead == "" || lead == " ")
    requires Trimmed(Print(members[i]))
    ensures Strip(Padded(members, lead)[i]) == Print(members[i])
    decreases |members|
  {
    if i == 0 {
      StripPadded(lead, Print(members[0]), if |members| == 1 then "" else " ");
    } else {
      PaddedStrips(members[1..], " ", i - 1);
    }
  }

  /** A printed union starts and ends with its members' own ends. */
  lemma {:induction false} PaddedEnds(members: seq<TsType>, lead: string)
    requires members != [] && forall i :: 0 <= i < |members| ==> Trimmed(Print(members[i]))
    ensures
      var text := Bars(Padded(members, lead));
      text != "" && !IsSpace(text[|text| - 1]) && (lead == "" ==> !IsSpace(text[0]))
    decreases |members|
  {
    var p := Print(members[0]);
    var pieces := Padded(members, lead);
    if |members| == 1 {
      assert pieces == [lead + p + ""];
      assert (lead + p + "")[|lead + p + ""| - 1] == p[|p| - 1];
    } else {
      PaddedEnds(members[1..], " ");
      var rest := Bars(Padded(members[1..], " "));
      assert pieces[1..] == Padded(members[1..], " ");
      assert Bars(pieces) == (lead + p + " ") + "|" + rest;
      assert lead == "" ==> ((lead + p + " ") + "|" + rest)[0] == p[0];
    }
  }

  lemma {:induction false} PaddedIsCut(members: seq<TsType>, lead: string)
    requires members != [] && (lead == "" || lead == " ")
    requires forall i :: 0 <= i < |members| ==> OnePiece(Print(members[i]))
    ensures CutAtTop(Padded(members, lead), 0)
    ensures NetFrom(Bars(Padded(members, lead)), 0) == 0
    decreases |members|
  {
    var trail := if |members| == 1 then "" else " ";
    var pieces := Padded(members, lead);
    FirstIsPiece(lead, Print(members[0]), trail);
    assert pieces[0] == lead + Print(members[0]) + trail;
    if |members| > 1 {
      PaddedIsCut(members[1..], " ");
      assert pieces[1..] == Padded(members[1..], " ");
      BarsLevel(pieces);
    }
  }

  lemma FirstIsPiece(lead: string, p: string, trail: string)
    requires OnePiece(p) && (lead == "" || lead == " ") && (trail == "" || trail == " ")
    ensures OnePiece(lead + p + trail)
  {
    BracelessIsLevel(lead, 0);
    BracelessIsLevel(trail, 0);
    OnePieceConcat(lead, p);
    OnePieceConcat(lead + p, trail);
  }

  /** A bar between level texts is level. */
  lemma BarsLevel(pieces: seq<string>)
    requires |pieces| > 1 && NetFrom(pieces[0], 0) == 0 && NetFrom(Bars(pieces[1..]), 0) == 0
    ensures NetFrom(Bars(pieces), 0) == 0
  {
    NetFromConcat(pieces[0] + "|", Bars(pieces[1..]), 0);
    NetFromConcat(pieces[0], "|", 0);
    assert NetFrom("|", 0) == NetFrom("", 0 + Delta('|'));
  }

  lemma {:induction false} PaddedStaysInValue(members: seq<TsType>, lead: string)
    requires lead == "" || lead == " "
    requires forall i :: 0 <= i < |members| ==> InValueOnly(Print(members[i]))
    ensures InValueOnly(Bars(Padded(members, lead)))
    decreases |members|
  {
    if members != [] {
      PaddedStaysInValue(members[1..], " ");
      assert Padded(members, lead)[1..] == Padded(members[1..], " ");
      assert InValueOnly(Padded(members, lead)[0]);
    }
  }

  lemma FlatIsValue(t: TsType)
    requires Flat(t)
    ensures InValueOnly(Print(t)) && Trimmed(Print(t)) && NoBraces(Print(t))
  {
    if t.Named? {
      NamesAreWords(t.name);
      WordsAreQuiet(t.name);
    } else {
      forall i | 0 <= i < |t.members| ensures InValueOnly(Print(t.members[i])) && Trimmed(Print(t.members[i])) {
        NamesAreWords(t.members[i].name);
        WordsAreQuiet(t.members[i].name);
      }
      PaddedStaysInValue(t.members, "");
      PaddedEnds(t.members, "");
    }
  }

  lemma {:induction false} FieldsHaveNoBraces(fields: seq<TsField>)
    requires FieldsSupported(fields)
    ensures NoBraces(PrintFields(fields))
    decreases |fields|
  {
    if fields != [] {
      FlatIsValue(fields[0].kind);
      WordsAreQuiet(fields[0].name);
      FieldsHaveNoBraces(fields[1..]);
    }
  }

  lemma PrintedIsOnePiece(t: TsType)
    requires Supported(t) && !t.Either?
    ensures OnePiece(Print(t)) && Trimmed(Print(t))
  {
    match t
    case Named(name) =>
      NamesAreWords(name);
      WordsAreQuiet(name);
    case Braces(fields) =>
      FieldsHaveNoBraces(fields);
      var inner := " " + PrintFields(fields);
      assert Print(t) == "{" + (inner + "}");
      BracelessIsLevel(inner, 1);
      NetFromConcat("{", inner + "}", 0);
      NetFromConcat(inner, "}", 1);
      assert NetFrom("{", 0) == NetFrom("", 0 + Delta('{')) == 1;
      assert NetFrom("}", 1) == NetFrom("", 1 + Delta('}')) == 0;
      assert NoTopBar("{", 0) && NoTopBar("}", 1);
  }

  // ----- Reading printed fields

  lemma {:induction false} WordRunStops(word: string, rest: string)
    requires (forall i :: 0 <= i < |word| ==> IsWord(word[i])) && (rest == "" || !IsWord(rest[0]))
    ensures WordRun(word + rest) == |word|
  {
    if word == "" {
      assert word + rest == rest;
    } else {
      assert (word + rest)[1..] == word[1..] + rest;
      WordRunStops(word[1..], rest);
    }
  }

  lemma {:induction false} ValueRunStops(value: string, rest: string)
    requires InValueOnly(value) && rest != "" && !InValue(rest[0])
    ensures ValueRun(value + rest) == |value|
  {
    if value == "" {
      assert value + rest == rest;
    } else {
      assert (value + rest)[1..] == value[1..] + rest;
      ValueRunStops(value[1..], rest);
    }
  }

  lemma ReadPrintedField(name: string, value: string, rest: string)
    requires IsFieldName(name) && InValueOnly(value) && Trimmed(value)
    ensures ReadField(name + ":" + (" " + value) + "," + rest) == Read(TextField(name, value), rest)
  {
    var padded := " " + value;
    var tail := padded + ("," + rest);
    var text := name + ":" + padded + "," + rest;
    assert text == name + (":" + tail);
    Stretches(name, ':', tail);
    Stretches(padded, ',', rest);
    WordRunStops(name, ":" + tail);
    ValueRunStops(padded, "," + rest);
    StripPadded(" ", value, "");
    assert " " + value + "" == padded;
  }

  lemma Stretches(head: string, c: char, tail: string)
    ensures
      var s := head + ([c] + tail);
      s[..|head|] == head && s[|head|] == c && s[|head| + 1..] == tail
  {
  }

  function TextFields(fields: seq<TsField>): seq<TextField> {
    if fields == [] then [] else [TextField(fields[0].name, Print(fields[0].kind))] + TextFields(fields[1..])
  }

  lemma {:induction false} ReadPrintedFields(fields: seq<TsField>)
    requires FieldsSupported(fields)
    ensures ReadFields(" " + PrintFields(fields)) == Success(TextFields(fields))
    decreases |fields|
  {
    var body := " " + PrintFields(fields);
    if fields == [] {
      assert StripStart(body) == "" by { assert body[1..] == ""; }
    } else {
      var f := fields[0];
      FlatIsValue(f.kind);
      var rest := " " + PrintFields(fields[1..]);
      ReadPrintedField(f.name, Print(f.kind), rest);
      WordsAreQuiet(f.name);
      assert PrintFields(fields)[0] == f.name[0];
      StripStartPadded(" ", PrintFields(fields));
      ReadPrintedFields(fields[1..]);
    }
  }

  lemma {:induction false} TextFieldNames(fields: seq<TsField>)
    ensures NamesOf(TextFields(fields)) == FieldNames(fields)
    decreases |fields|
  {
    if fields != [] {
      TextFieldNames(fields[1..]);
      assert NamesOf(TextFields(fields)) == [fields[0].name] + NamesOf(TextFields(fields[1..]));
    }
  }

  // ----- The round trip

  lemma UnionSplits(members: seq<TsType>) returns (texts: seq<string>)
    requires Supported(Either(members))
    ensures SplitUnionOf(Print(Either(members))) == Success(texts) && |texts| == |members|
    ensures forall i :: 0 <= i < |texts| ==> texts[i] == Print(members[i]) && |texts[i]| < |Print(Either(members))|
  {
    var pieces := Padded(members, "");
    var text := Print(Either(members));
    forall i | 0 <= i < |members| ensures OnePiece(Print(members[i])) && Trimmed(Print(members[i])) {
      PrintedIsOnePiece(members[i]);
    }
    PaddedIsCut(members, "");
    CutIsPieces(pieces, 0);
    NetIsNetFrom(text);
    ChoicesAreShorter(text);
    texts := StripAll(pieces);
    forall i | 0 <= i < |texts| ensures texts[i] == Print(members[i]) {
      PaddedStrips(members, "", i);
    }
  }

  lemma BracesBody(fields: seq<TsField>)
    ensures
      var text := Print(Braces(fields));
      && |text| > 1 && text[0] == '{' && text[|text| - 1] == '}' && text !in SCALARS
      && text[1..|text| - 1] == " " + PrintFields(fields)
  {
    var text, body := Print(Braces(fields)), " " + PrintFields(fields);
    assert text == "{" + body + "}";
    assert "string"[0] != '{' && "boolean"[0] != '{' && "null"[0] != '{';
  }

  lemma BracesAreRead(fields: seq<TsField>)
    requires Supported(Braces(fields))
    ensures SplitUnionOf(Print(Braces(fields))) == Success([Print(Braces(fields))])
    ensures ReadFields(" " + PrintFields(fields)) == Success(TextFields(fields))
    ensures AllWellRead(TextFields(fields), |" " + PrintFields(fields)|)
  {
    PrintedIsOnePiece(Braces(fields));
    SplitOnePiece(Print(Braces(fields)));
    ReadPrintedFields(fields);
    FieldsAreWellRead(" " + PrintFields(fields));
  }

  lemma WellReadMore(fields: seq<TextField>, bound: nat, more: nat)
    requires AllWellRead(fields, bound) && bound <= more
    ensures AllWellRead(fields, more)
    ensures fields != [] ==> AllWellRead(fields[1..], bound)
  {
  }

  predicate Returns(t: TsType) {
    ParseType(Print(t)) == Success(ToSchema(t))
  }

  lemma FlatIsSupported(t: TsType)
    requires Flat(t)
    ensures Supported(t)
  {
  }

  lemma ParseFieldsMore(field: TextField, rest: seq<TextField>, first: Schema, fields: seq<Field>, bound: nat)
    requires AllWellRead([field] + rest, bound) && AllWellRead(rest, bound)
    requires ParseType(field.value) == Success(first) && ParseFields(rest, bound) == Success(fields)
    ensures ParseFields([field] + rest, bound) == Success([Field(field.name, first)] + fields)
  {
    assert ([field] + rest)[1..] == rest;
  }

  lemma {:induction false} FieldsRoundTrip(fields: seq<TsField>, bound: nat)
    requires AllWellRead(TextFields(fields), bound)
    requires forall i :: 0 <= i < |fields| ==> Returns(fields[i].kind)
    ensures ParseFields(TextFields(fields), bound) == Success(ToFields(fields))
    decreases |fields|
  {
    if fields != [] {
      var first := TextField(fields[0].name, Print(fields[0].kind));
      assert Returns(fields[0].kind);
      WellReadMore(TextFields(fields), bound, bound);
      assert TextFields(fields)[1..] == TextFields(fields[1..]);
      FieldsRoundTrip(fields[1..], bound);
      ParseFieldsMore(first, TextFields(fields[1..]), ToSchema(fields[0].kind), ToFields(fields[1..]), bound);
    }
  }

  /** `parse_type` undoes the printer. */
  lemma {:induction false} RoundTrip(t: TsType)
    requires Supported(t)
    ensures Returns(t)
    decreases t, 0
  {
    match t
    case Named(name) =>
      PrintedIsOnePiece(t);
      SplitOnePiece(name);
      NamesAreWords(name);
    case Braces(fields) =>
      BracesBody(fields);
      BracesAreRead(fields);
      TextFieldNames(fields);
      WellReadMore(TextFields(fields), |" " + PrintFields(fields)|, |Print(t)|);
      forall i | 0 <= i < |fields| ensures Returns(fields[i].kind) {
        FlatIsSupported(fields[i].kind);
        RoundTrip(fields[i].kind);
      }
      FieldsRoundTrip(fields, |Print(t)|);
    case Either(members) =>
      var texts := UnionSplits(members);
      AllRoundTrip(members, texts, |Print(t)|);
  }

  lemma {:induction false} AllRoundTrip(members: seq<TsType>, texts: seq<string>, bound: nat)
    requires forall i :: 0 <= i < |members| ==> Supported(members[i])
    requires |texts| == |members| && forall i :: 0 <= i < |members| ==> texts[i] == Print(members[i]) && |texts[i]| < bound
    ensures ParseAll(texts, bound) == Success(ToSchemas(members))
    decreases members, 1
  {
    if members != [] {
      RoundTrip(members[0]);
      AllRoundTrip(members[1..], texts[1..], bound);
    }
  }

  // ----- Nothing else is accepted

  lemma MiddleHasNoTopBar(left: string, middle: string, right: string)
    requires Spaces(left) && NoTopBar(left + middle + right, 0)
    ensures NoTopBar(middle, 0)
  {
    assert NoBraces(left) && NoBars(left);
    BracelessIsLevel(left, 0);
    NetFromConcat(left, middle, 0);
    NetFromConcat(left + middle, right, 0);
  }

  lemma MiddleHasNoBraces(left: string, middle: string, right: string)
    requires NoBraces(left + middle + right)
    ensures NoBraces(middle)
  {
    var whole := left + middle + right;
    forall i | 0 <= i < |middle| ensures middle[i] == whole[|left| + i] {
    }
  }

  lemma StrippedPiece(piece: string)
    requires NoTopBar(piece, 0)
    ensures NoTopBar(Strip(piece), 0)
    ensures NoBraces(piece) ==> NoBraces(Strip(piece))
  {
    var left, right := StripIsPart(piece);
    MiddleHasNoTopBar(left, Strip(piece), right);
    if NoBraces(piece) {
      MiddleHasNoBraces(left, Strip(piece), right);
    }
  }

  lemma {:induction false} CutPieces(pieces: seq<string>, depth: int, i: nat)
    requires pieces != [] && CutAtTop(pieces, depth) && (i == 0 ==> depth == 0) && i < |pieces|
    ensures NoTopBar(pieces[i], 0)
    ensures NoBraces(Bars(pieces)) ==> NoBraces(pieces[i])
    decreases i
  {
    var text := Bars(pieces);
    if NoBraces(text) {
      forall k | 0 <= k < |pieces[0]| ensures pieces[0][k] == text[k] {
      }
    }
    if i > 0 {
      var rest := Bars(pieces[1..]);
      if NoBraces(text) {
        forall k | 0 <= k < |rest| ensures rest[k] == text[|pieces[0]| + 1 + k] {
        }
      }
      CutPieces(pieces[1..], 0, i - 1);
    }
  }

  /** The choices of a split text have no further bar. */
  lemma ChoicesAreOnePiece(text: string)
    ensures
      var choices := StripAll(Pieces(text, 0));
      forall i :: 0 <= i < |choices| ==> NoTopBar(choices[i], 0) && (NoBraces(text) ==> NoBraces(choices[i]))
  {
    PiecesAreCut(text, 0);
    var pieces := Pieces(text, 0);
    forall i | 0 <= i < |pieces|
      ensures NoTopBar(Strip(pieces[i]), 0) && (NoBraces(text) ==> NoBraces(Strip(pieces[i])))
    {
      CutPieces(pieces, 0, i);
      StrippedPiece(pieces[i]);
    }
  }

  /** Every text that `parse_type` accepts has the schema of a supported type, whose printed form has the
      same schema. */
  lemma {:induction false} OnlySupportedIsAccepted(text: string) returns (t: TsType)
    requires ParseType(text).Success?
    ensures Supported(t) && ToSchema(t) == ParseType(text).value
    ensures NoBraces(text) ==> Flat(t)
    ensures NoTopBar(text, 0) ==> !t.Either?
    decreases |text|, 0
  {
    var choices := SplitUnionOf(text).value;
    if |choices| > 1 {
      ChoicesAreShorter(text);
      ChoicesAreOnePiece(text);
      if NoTopBar(text, 0) {
        assert Bars([text]) == text;
        CutIsPieces([text], 0);
      }
      var members := AcceptedChoices(choices, |text|);
      t := Either(members);
      SchemasLength(members);
    } else if text in SCALARS || IsReference(text) {
      t := Named(text);
      ScalarsAreNoReferences();
    } else {
      var fields := ReadFields(text[1..|text| - 1]).value;
      FieldsAreWellRead(text[1..|text| - 1]);
      var kinds := AcceptedFields(fields, |text|);
      t := Braces(kinds);
    }
  }

  lemma ScalarsAreNoReferences()
    ensures forall name <- SCALARS :: !IsReference(name)
  {
    assert "string"[0] == 's' && "boolean"[0] == 'b' && "null"[0] == 'n';
  }

  lemma {:induction false} SchemasLength(members: seq<TsType>)
    ensures |ToSchemas(members)| == |members|
  {
    if members != [] {
      SchemasLength(members[1..]);
    }
  }

  lemma {:induction false} AcceptedChoices(texts: seq<string>, bound: nat) returns (members: seq<TsType>)
    requires forall i :: 0 <= i < |texts| ==> |texts[i]| < bound && NoTopBar(texts[i], 0)
    requires ParseAll(texts, bound).Success?
    ensures |members| == |texts| && ToSchemas(members) == ParseAll(texts, bound).value
    ensures forall i :: 0 <= i < |members| ==> Supported(members[i]) && !members[i].Either?
    ensures forall i :: 0 <= i < |members| && NoBraces(texts[i]) ==> Flat(members[i])
    decreases bound, 0, |texts|
  {
    if texts == [] {
      members := [];
    } else {
      var first := OnlySupportedIsAccepted(texts[0]);
      var rest := AcceptedChoices(texts[1..], bound);
      members := [first] + rest;
    }
  }

  lemma {:induction false} AcceptedFields(fields: seq<TextField>, bound: nat) returns (kinds: seq<TsField>)
    requires AllWellRead(fields, bound) && ParseFields(fields, bound).Success?
    ensures |kinds| == |fields| && ToFields(kinds) == ParseFields(fields, bound).value
    ensures FieldsSupported(kinds) && FieldNames(kinds) == NamesOf(fields)
    decreases bound, 0, |fields|
  {
    if fields == [] {
      kinds := [];
    } else {
      assert WellRead(fields[0], bound);
      var first := OnlySupportedIsAccepted(fields[0].value);
      var rest := AcceptedFields(fields[1..], bound);
      kinds := [TsField(fields[0].name, first)] + rest;
      FieldsMore(fields[0].name, first, rest);
      NamesMore(fields);
      ParsedMore(fields, bound);
    }
  }

  lemma FieldsMore(name: string, first: TsType, rest: seq<TsField>)
    ensures ToFields([TsField(name, first)] + rest) == [Field(name, ToSchema(first))] + ToFields(rest)
    ensures FieldNames([TsField(name, first)] + rest) == [name] + FieldNames(rest)
    ensures IsFieldName(name) && Flat(first) && FieldsSupported(rest) ==> FieldsSupported([TsField(name, first)] + rest)
  {
    assert ([TsField(name, first)] + rest)[1..] == rest;
  }

  lemma NamesMore(fields: seq<TextField>)
    requires fields != []
    ensures NamesOf(fields) == [fields[0].name] + NamesOf(fields[1..])
  {
  }

  lemma ParsedMore(fields: seq<TextField>, bound: nat)
    requires AllWellRead(fields, bound) && fields != [] && ParseFields(fields, bound).Success?
    ensures ParseType(fields[0].value).Success? && ParseFields(fields[1..], bound).Success?
    ensures ParseFields(fields, bound).value ==
      [Field(fields[0].name, ParseType(fields[0].value).value)] + ParseFields(fields[1..], bound).value
  {
  }
}
