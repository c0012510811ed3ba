/** The command line that `command` of scripts/codex/background_terminal_fixture.py builds, read back under
    sections 2.2.1 and 2.2.2 of the POSIX Shell Command Language. */
module ShellQuoting {
  import opened Wrappers
  import opened Text

  // ----- Building

  /** `quote`: single quotes around the value, each single quote in it written as '\''. */
  function Quote(value: string): string {
    "'" + Replace(value, "'", "'\\''") + "'"
  }

  /** `" ".join` of the quoted values. */
  function Joined(values: seq<string>): string {
    if values == [] then ""
    else if |values| == 1 then Quote(values[0])
    else Quote(values[0]) + " " + Joined(values[1..])
  }

  function CommandLine(values: seq<string>): string {
    "exec " + Joined(values)
  }

  // ----- Splitting as a shell does

  /** Characters that stand for themselves outside quotes in every position. */
  predicate IsPlain(c: char) {
    IsWord(c) || c in "/.-"
  }

  /** The words of a command line. `word` is the word being read, if one has begun. Text that would need
      other rules than single quotes and backslash gives nothing. */
  function Words(s: string, word: Option<string>): Option<seq<string>>
    decreases |s|
  {
    if s == "" then Some(Finished(word))
    else if s[0] == ' ' then Also(Finished(word), Words(s[1..], None))
    else if s[0] == '\'' then QuotedWords(s[1..], Begun(word))
    else if s[0] == '\\' then
      if |s| == 1 || s[1] == '\n' then None else Words(s[2..], Some(Begun(word) + [s[1]]))
    else if IsPlain(s[0]) then Words(s[1..], Some(Begun(word) + [s[0]]))
    else None
  }

  /** Inside single quotes every character stands for itself up to the closing quote. */
  function QuotedWords(s: string, word: string): Option<seq<string>>
    decreases |s|
  {
    if s == "" then None
    else if s[0] == '\'' then Words(s[1..], Some(word))
    else QuotedWords(s[1..], word + [s[0]])
  }

  function Begun(word: Option<string>): string {
    match word case None => "" case Some(w) => w
  }

  function Finished(word: Option<string>): seq<string> {
    match word case None => [] case Some(w) => [w]
  }

  function Also(words: seq<string>, more: Option<seq<string>>): Option<seq<string>> {
    match more case None => None case Some(rest) => Some(words + rest)
  }

  function ShellSplit(s: string): Option<seq<string>> {
    Words(s, None)
  }

  // ----- Round trip

  /** A written single quote: the quotes close, one escaped quote follows, the quotes open again. */
  lemma ReadEscapedQuote(word: string, more: string)
    ensures QuotedWords("'\\''" + more, word) == QuotedWords(more, word + ['\''])
  {
    var s := "'\\''" + more;
    assert s[1..] == "\\''" + more && s[1..][2..] == "'" + more && s[1..][2..][1..] == more;
    assert QuotedWords(s, word) == Words(s[1..], Some(word));
    assert Words(s[1..], Some(word)) == Words(s[1..][2..], Some(word + ['\'']));
    assert Words("'" + more, Some(word + ['\''])) == QuotedWords(more, word + ['\'']);
  }

  /** The inside of a quoted value, whatever follows the closing quote. */
  lemma {:induction false} ReadInside(value: string, word: string, rest: string)
    ensures QuotedWords(Replace(value, "'", "'\\''") + ("'" + rest), word) == Words(rest, Some(word + value))
    decreases |value|
  {
    if value == "" {
      assert Replace(value, "'", "'\\''") + ("'" + rest) == "'" + rest && ("'" + rest)[1..] == rest;
      assert word + value == word;
    } else {
      var more := Replace(value[1..], "'", "'\\''") + ("'" + rest);
      ReadInside(value[1..], word + [value[0]], rest);
      assert word + [value[0]] + value[1..] == word + value;
      ReplaceFirst(value, "'" + rest);
      if value[0] == '\'' {
        ReadEscapedQuote(word, more);
      } else {
        assert ([value[0]] + more)[1..] == more;
      }
    }
  }

  lemma ReplaceFirst(value: string, rest: string)
    requires value != ""
    ensures
      var more := Replace(value[1..], "'", "'\\''") + rest;
      Replace(value, "'", "'\\''") + rest == if value[0] == '\'' then "'\\''" + more else [value[0]] + more
  {
    ReplaceQuote(value, "'\\''");
    Together(if value[0] == '\'' then "'\\''" else [value[0]], Replace(value[1..], "'", "'\\''"), rest);
  }

  lemma ReplaceQuote(value: string, quoted: string)
    requires value != ""
    ensures Replace(value, "'", quoted) == (if value[0] == '\'' then quoted else [value[0]]) + Replace(value[1..], "'", quoted)
  {
    assert "'" <= value <==> value[0] == '\'';
  }

  lemma Together(a: string, b: string, c: string)
    ensures (a + b) + c == a + (b + c)
  {
  }

  lemma ReadQuoted(value: string, rest: string)
    ensures Words(Quote(value) + rest, None) == Words(rest, Some(value))
  {
    Together(Replace(value, "'", "'\\''"), "'", rest);
    var inside := Replace(value, "'", "'\\''");
    assert (Quote(value) + rest)[1..] == inside + "'" + rest;
    ReadInside(value, "", rest);
    assert "" + value == value;
  }

  lemma {:induction false} ReadJoined(values: seq<string>)
    ensures Words(Joined(values), None) == Some(values)
  {
    if values != [] {
      var value, tail := values[0], values[1..];
      if tail == [] {
        ReadQuoted(value, "");
        assert Quote(value) + "" == Joined(values);
        assert values == [value];
      } else {
        var rest := " " + Joined(tail);
        ReadQuoted(value, rest);
        ReadJoined(tail);
        assert Quote(value) + rest == Joined(values);
        assert rest[1..] == Joined(tail);
        assert values == [value] + tail;
      }
    }
  }

  lemma {:induction false} ReadPlain(plain: string, word: string, rest: string)
    requires forall i :: 0 <= i < |plain| ==> IsPlain(plain[i])
    ensures Words(plain + rest, Some(word)) == Words(rest, Some(word + plain))
    decreases |plain|
  {
    if plain == "" {
      assert plain + rest == rest && word + plain == word;
    } else {
      assert (plain + rest)[1..] == plain[1..] + rest;
      assert !IsPlain(' ') && !IsPlain('\'') && !IsPlain('\\');
      ReadPlain(plain[1..], word + [plain[0]], rest);
      assert word + [plain[0]] + plain[1..] == word + plain;
    }
  }

  /** For every list of arguments, the shell splits the command line into `exec` and exactly that list. */
  lemma CommandLineSplits(values: seq<string>)
    ensures ShellSplit(CommandLine(values)) == Some(["exec"] + values)
  {
    var rest := " " + Joined(values);
    assert "exec " == "e" + "xec" + " ";
    assert CommandLine(values) == "e" + ("xec" + rest);
    assert CommandLine(values)[1..] == "xec" + rest;
    assert "" + ['e'] == "e";
    assert Words(CommandLine(values), None) == Words("xec" + rest, Some("e"));
    ReadPlain("xec", "e", rest);
    assert "e" + "xec" == "exec";
    assert rest[1..] == Joined(values);
    ReadJoined(values);
  }
}
