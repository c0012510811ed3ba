/** The string operations of Python that the tools use. */
module Text {
  import opened Wrappers

  /** `str.removeprefix`. */
  function RemovePrefix(s: string, prefix: string): string {
    if prefix <= s then s[|prefix|..] else s
  }

  // ----- Sorting strings by code points

  predicate AtMost(a: string, b: string) {
    if a == [] then true
    else if b == [] then false
    else a[0] < b[0] || (a[0] == b[0] && AtMost(a[1..], b[1..]))
  }

  predicate AllDifferent(texts: seq<string>) {
    forall i, j :: 0 <= i < j < |texts| ==> texts[i] != texts[j]
  }

  predicate Ascending(xs: seq<string>) {
    forall i, j :: 0 <= i < j < |xs| ==> AtMost(xs[i], xs[j])
  }

  lemma {:induction false} AtMostTotal(a: string, b: string)
    ensures AtMost(a, b) || AtMost(b, a)
  {
    if a != [] && b != [] {
      AtMostTotal(a[1..], b[1..]);
    }
  }

  lemma {:induction false} AtMostTransitive(a: string, b: string, c: string)
    requires AtMost(a, b) && AtMost(b, c)
    ensures AtMost(a, c)
  {
    if a != [] && b != [] && c != [] && a[0] == b[0] == c[0] {
      AtMostTransitive(a[1..], b[1..], c[1..]);
    }
  }

  function Insert(x: string, xs: seq<string>): seq<string> {
    if xs == [] then [x]
    else if AtMost(x, xs[0]) then [x] + xs
    else [xs[0]] + Insert(x, xs[1..])
  }

  lemma {:induction false} InsertKeeps(x: string, xs: seq<string>)
    ensures multiset(Insert(x, xs)) == multiset(xs) + multiset{x}
  {
    if xs != [] && !AtMost(x, xs[0]) {
      InsertKeeps(x, xs[1..]);
      assert xs == [xs[0]] + xs[1..];
    }
  }

  lemma {:induction false} InsertAscends(x: string, xs: seq<string>)
    requires Ascending(xs)
    ensures Ascending(Insert(x, xs))
  {
    if xs != [] {
      if AtMost(x, xs[0]) {
        forall j | 0 < j < |xs| ensures AtMost(x, xs[j]) {
          AtMostTransitive(x, xs[0], xs[j]);
        }
      } else {
        var rest := Insert(x, xs[1..]);
        InsertAscends(x, xs[1..]);
        AtMostTotal(x, xs[0]);
        forall j | 0 <= j < |rest| ensures AtMost(xs[0], rest[j]) {
          InsertKeeps(x, xs[1..]);
          assert rest[j] in multiset(rest);
        }
      }
    }
  }

  /** `sorted`: an ascending rearrangement. */
  function Sort(xs: seq<string>): seq<string> {
    if xs == [] then [] else Insert(xs[0], Sort(xs[1..]))
  }

  lemma {:induction false} SortIsSorted(xs: seq<string>)
    ensures Ascending(Sort(xs)) && multiset(Sort(xs)) == multiset(xs)
  {
    if xs != [] {
      SortIsSorted(xs[1..]);
      InsertAscends(xs[0], Sort(xs[1..]));
      InsertKeeps(xs[0], Sort(xs[1..]));
      assert xs == [xs[0]] + xs[1..];
    }
  }

  // ----- Replacing and splitting

  /** `str.replace`: every non-overlapping occurrence, from the left. */
  function Replace(s: string, before: string, after: string): string
    requires before != ""
  {
    if |s| < |before| then s
    else if before <= s then after + Replace(s[|before|..], before, after)
    else [s[0]] + Replace(s[1..], before, after)
  }

  /** `str.split` on one character: never empty, and empty pieces are kept. */
  function Split(s: string, sep: char): (pieces: seq<string>)
    ensures pieces != []
    ensures |pieces| == 1 + Count(s, sep)
  {
    if s == "" then [""]
    else if s[0] == sep then [""] + Split(s[1..], sep)
    else var rest := Split(s[1..], sep); [[s[0]] + rest[0]] + rest[1..]
  }

  function Count(s: string, c: char): nat {
    if s == "" then 0 else (if s[0] == c then 1 else 0) + Count(s[1..], c)
  }

  lemma {:induction false} CountConcat(s: string, t: string, c: char)
    ensures Count(s + t, c) == Count(s, c) + Count(t, c)
  {
    if s == "" {
      assert s + t == t;
    } else {
      assert (s + t)[1..] == s[1..] + t;
      CountConcat(s[1..], t, c);
    }
  }

  /** A piece without the separator is split off whole. */
  lemma {:induction false} SplitFirst(piece: string, rest: string, sep: char)
    requires sep !in piece
    ensures Split(piece, sep) == [piece]
    ensures Split(piece + [sep] + rest, sep) == [piece] + Split(rest, sep)
  {
    if piece == "" {
      assert piece + [sep] + rest == [sep] + rest;
    } else {
      SplitFirst(piece[1..], rest, sep);
      assert [piece[0]] + piece[1..] == piece;
      assert (piece + [sep] + rest)[1..] == piece[1..] + [sep] + rest;
    }
  }

  /** `str.lstrip` of one character. */
  function StripLeft(s: string, c: char): (r: string)
    ensures r == "" || r[0] != c
    ensures Count(r, c) <= Count(s, c)
  {
    if s != "" && s[0] == c then StripLeft(s[1..], c) else s
  }

  // ----- Decimal numbers

  function Digit(d: nat): char
    requires d < 10
  {
    ('0' as int + d) as char
  }

  predicate IsDigit(c: char) {
    '0' <= c <= '9'
  }

  predicate AllDigits(s: string) {
    s != "" && forall i :: 0 <= i < |s| ==> IsDigit(s[i])
  }

  /** `str` of a natural number. */
  function Decimal(n: nat): (s: string)
    ensures AllDigits(s)
  {
    if n < 10 then [Digit(n)] else Decimal(n / 10) + [Digit(n % 10)]
  }

  /** `int` of a string of digits. */
  function ReadDecimal(s: string): nat
    requires AllDigits(s)
  {
    var last := s[|s| - 1] as int - '0' as int;
    if |s| == 1 then last else 10 * ReadDecimal(s[..|s| - 1]) + last
  }

  lemma {:induction false} DecimalRoundTrip(n: nat)
    ensures ReadDecimal(Decimal(n)) == n
  {
    if n >= 10 {
      DecimalRoundTrip(n / 10);
      assert Decimal(n)[..|Decimal(n)| - 1] == Decimal(n / 10);
    }
  }

  // ----- Whitespace and words (ASCII)

  predicate IsSpace(c: char) {
    9 <= c as int <= 13 || 28 <= c as int <= 32
  }

  predicate IsWord(c: char) {
    'a' <= c <= 'z' || 'A' <= c <= 'Z' || IsDigit(c) || c == '_'
  }

  function StripStart(s: string): (r: string)
    ensures |r| <= |s|
  {
    if s != "" && IsSpace(s[0]) then StripStart(s[1..]) else s
  }

  function StripEnd(s: string): (r: string)
    ensures |r| <= |s|
  {
    if s != "" && IsSpace(s[|s| - 1]) then StripEnd(s[..|s| - 1]) else s
  }

  /** `str.strip`. */
  function Strip(s: string): (r: string)
    ensures |r| <= |s|
  {
    StripEnd(StripStart(s))
  }

  predicate Spaces(s: string) {
    forall i :: 0 <= i < |s| ==> IsSpace(s[i])
  }

  /** A text that starts and ends with other characters than spaces. */
  predicate Trimmed(s: string) {
    s != "" && !IsSpace(s[0]) && !IsSpace(s[|s| - 1])
  }

  lemma {:induction false} StripStartPadded(left: string, s: string)
    requires Spaces(left) && s != "" && !IsSpace(s[0])
    ensures StripStart(left + s) == s
  {
    if left == "" {
      assert left + s == s;
    } else {
      assert (left + s)[1..] == left[1..] + s;
      StripStartPadded(left[1..], s);
    }
  }

  lemma {:induction false} StripEndPadded(s: string, right: string)
    requires s != "" && !IsSpace(s[|s| - 1]) && Spaces(right)
    ensures StripEnd(s + right) == s
  {
    if right == "" {
      assert s + right == s;
    } else {
      assert (s + right)[..|s + right| - 1] == s + right[..|right| - 1];
      StripEndPadded(s, right[..|right| - 1]);
    }
  }

  /** Stripping takes back a trimmed text from between any spaces. */
  lemma StripPadded(left: string, s: string, right: string)
    requires Spaces(left) && Trimmed(s) && Spaces(right)
    ensures Strip(left + s + right) == s
  {
    assert left + s + right == left + (s + right);
    StripStartPadded(left, s + right);
    StripEndPadded(s, right);
  }

  lemma {:induction false} StripStartIsPart(s: string) returns (left: string)
    ensures s == left + StripStart(s) && Spaces(left)
  {
    if s != "" && IsSpace(s[0]) {
      var more := StripStartIsPart(s[1..]);
      left := [s[0]] + more;
      assert s == [s[0]] + s[1..];
    } else {
      left := "";
    }
  }

  lemma {:induction false} StripEndIsPart(s: string) returns (right: string)
    ensures s == StripEnd(s) + right && Spaces(right)
  {
    if s != "" && IsSpace(s[|s| - 1]) {
      var more := StripEndIsPart(s[..|s| - 1]);
      right := more + [s[|s| - 1]];
      assert s == s[..|s| - 1] + [s[|s| - 1]];
    } else {
      right := "";
    }
  }

  /** What stripping takes away. */
  lemma StripIsPart(s: string) returns (left: string, right: string)
    ensures s == left + Strip(s) + right && Spaces(left) && Spaces(right)
  {
    left := StripStartIsPart(s);
    right := StripEndIsPart(StripStart(s));
    assert left + (Strip(s) + right) == left + Strip(s) + right;
  }

  // ----- Integers as `int` reads them

  /** Digits, with single underscores between them. */
  predicate IsDigitGroup(s: string) {
    && s != "" && IsDigit(s[0]) && IsDigit(s[|s| - 1])
    && (forall i :: 0 <= i < |s| ==> IsDigit(s[i]) || s[i] == '_')
    && forall i :: 0 <= i < |s| - 1 ==> s[i] != '_' || s[i + 1] != '_'
  }

  function GroupValue(s: string): nat
    requires forall i :: 0 <= i < |s| ==> IsDigit(s[i]) || s[i] == '_'
  {
    if s == "" then 0
    else
      var front, last := s[..|s| - 1], s[|s| - 1];
      assert IsDigit(last) || last == '_';
      if last == '_' then GroupValue(front) else 10 * GroupValue(front) + (last as int - '0' as int)
  }

  /** `int` of a text: whitespace around an optional sign and a digit group. */
  function ReadInt(s: string): Option<int> {
    var t := Strip(s);
    if IsDigitGroup(t) then Some(GroupValue(t))
    else if t != "" && t[0] in "+-" && IsDigitGroup(t[1..]) then
      var n: int := GroupValue(t[1..]);
      Some(if t[0] == '-' then -n else n)
    else None
  }

  lemma {:induction false} GroupIsDecimal(s: string)
    requires AllDigits(s)
    ensures IsDigitGroup(s) && GroupValue(s) == ReadDecimal(s)
  {
    var front := s[..|s| - 1];
    if |s| == 1 {
      assert front == "" && GroupValue(front) == 0;
    } else {
      GroupIsDecimal(front);
    }
  }

  lemma ReadIntOfDecimal(n: nat)
    ensures ReadInt(Decimal(n)) == Some(n)
  {
    var s := Decimal(n);
    DecimalRoundTrip(n);
    GroupIsDecimal(s);
    assert !IsSpace(s[0]) && !IsSpace(s[|s| - 1]);
    assert StripStart(s) == s && StripEnd(s) == s;
  }

  /** A sign before the digits, and spaces around both. */
  lemma ReadIntSigned(left: string, n: nat, right: string)
    requires Spaces(left) && Spaces(right)
    ensures
      var negative := ReadInt(left + ("-" + Decimal(n)) + right);
      negative.Some? && negative.value + n == 0
    ensures ReadInt(left + ("+" + Decimal(n)) + right) == Some(n)
  {
    var digits := Decimal(n);
    DecimalRoundTrip(n);
    GroupIsDecimal(digits);
    StripPadded(left, "-" + digits, right);
    StripPadded(left, "+" + digits, right);
    assert ("-" + digits)[1..] == digits && ("+" + digits)[1..] == digits;
    assert !IsDigit('-') && !IsDigit('+');
  }

  // ----- Repeated replacement

  /** Replacing a text by itself changes nothing. */
  lemma {:induction false} ReplaceSame(s: string, x: string)
    requires x != ""
    ensures Replace(s, x, x) == s
    decreases |s|
  {
    if |s| >= |x| {
      if x <= s {
        ReplaceSame(s[|x|..], x);
        assert x + s[|x|..] == s;
      } else {
        ReplaceSame(s[1..], x);
        assert [s[0]] + s[1..] == s;
      }
    }
  }
}
