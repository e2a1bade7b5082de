/**
 * The shell rendering of a command for the deployment report, and a reader for it: the token and quoting rules of
 * sections 2.2.1 to 2.2.3 and 2.3 of the POSIX.1-2017 Shell Command Language, for texts that ask for no expansion,
 * operator or comment.
 */
module ShellQuote {
  import opened Sequences
  import opened Text

  /** Characters that mean something to the shell outside quotes (section 2.2), blanks and newline included. */
  predicate IsSpecial(c: char) {
    c in "|&;<>()$`\\\"' \t\n*?[#~%!{}"
  }

  /** Python's `str.isalnum` on one character, as far as it matters here: letters and digits of any script, and never
      a character that is special to the shell. */
  ghost predicate IsAlnumTable(isAlnum: char -> bool) {
    forall c :: IsSpecial(c) ==> !isAlnum(c)
  }

  predicate IsPlain(c: char, isAlnum: char -> bool) {
    isAlnum(c) || c == '-' || c == '_' || c == '.' || c == '/' || c == '=' || c == ':'
  }

  function Quote(value: string, isAlnum: char -> bool): string {
    if value != "" && forall i :: 0 <= i < |value| ==> IsPlain(value[i], isAlnum) then value
    else "'" + ReplaceChar(value, '\'', "'\"'\"'") + "'"
  }

  function Quoted(command: seq<string>, isAlnum: char -> bool): seq<string> {
    if command == [] then [] else [Quote(command[0], isAlnum)] + Quoted(command[1..], isAlnum)
  }

  function ShellJoin(command: seq<string>, isAlnum: char -> bool): string {
    Join(Quoted(command, isAlnum), " ")
  }

  /** Quotes are put only where they are needed: a word stays as it is exactly when it is not empty and holds nothing
      but alphanumerical characters and six others. */
  lemma QuotesWhatNeedsIt(value: string, isAlnum: char -> bool)
    ensures Quote(value, isAlnum) == value
      <==> value != "" && forall i :: 0 <= i < |value| ==> isAlnum(value[i]) || value[i] in "-_./=:"
  {
    EscapedIsNoShorter(value);
    forall i | 0 <= i < |value|
      ensures IsPlain(value[i], isAlnum) <==> isAlnum(value[i]) || value[i] in "-_./=:"
    {
      SixPlain(value[i]);
    }
  }

  lemma SixPlain(c: char)
    ensures c in "-_./=:" <==> c == '-' || c == '_' || c == '.' || c == '/' || c == '=' || c == ':'
  {
    assert "-_./=:" == ['-', '_', '.', '/', '=', ':'];
  }

  lemma {:induction false} EscapedIsNoShorter(value: string)
    ensures |ReplaceChar(value, '\'', "'\"'\"'")| >= |value|
  {
    if value != "" {
      EscapedIsNoShorter(value[1..]);
    }
  }

  // ---- the reader ----

  datatype Mode = Unquoted | Single | Double

  /** Reads `s[0..]` after `words` complete words; `word` is the word under way, if one has begun. `None` means that the
      text does not end inside the fragment: an open quote, an expansion, an operator, a comment or a pattern. */
  function Read(s: string, mode: Mode, word: Option<string>, words: seq<string>): Option<seq<string>>
    decreases |s|
  {
    if s == "" then
      if mode != Unquoted then None
      else Some(words + if word.Some? then [word.value] else [])
    else
      var c, rest := s[0], s[1..];
      var text := if word.Some? then word.value else "";
      match mode
      case Single =>
        if c == '\'' then Read(rest, Unquoted, Some(text), words)
        else Read(rest, Single, Some(text + [c]), words)
      case Double =>
        if c == '"' then Read(rest, Unquoted, Some(text), words)
        else if c == '$' || c == '`' then None
        else if c == '\\' then
          if rest == "" then None
          else if rest[0] in "$`\"\\" then Read(rest[1..], Double, Some(text + [rest[0]]), words)
          else if rest[0] == '\n' then Read(rest[1..], Double, Some(text), words)
          else Read(rest, Double, Some(text + [c]), words)
        else Read(rest, Double, Some(text + [c]), words)
      case Unquoted =>
        if c == '\'' then Read(rest, Single, Some(text), words)
        else if c == '"' then Read(rest, Double, Some(text), words)
        else if c == ' ' || c == '\t' then
          Read(rest, Unquoted, None, words + if word.Some? then [word.value] else [])
        else if c == '\\' then
          if rest == "" then None
          else if rest[0] == '\n' then Read(rest[1..], Unquoted, word, words)
          else Read(rest[1..], Unquoted, Some(text + [rest[0]]), words)
        else if IsSpecial(c) then None
        else Read(rest, Unquoted, Some(text + [c]), words)
  }

  function Tokens(s: string): Option<seq<string>> {
    Read(s, Unquoted, None, [])
  }

  // ---- the round trip ----

  function WordText(word: Option<string>): string {
    if word.Some? then word.value else ""
  }

  /** Plain characters are read one for one. */
  lemma {:induction false} ReadPlain(value: string, rest: string, isAlnum: char -> bool, word: Option<string>,
                                     words: seq<string>)
    requires IsAlnumTable(isAlnum)
    requires forall i :: 0 <= i < |value| ==> IsPlain(value[i], isAlnum)
    requires value != ""
    ensures Read(value + rest, Unquoted, word, words) == Read(rest, Unquoted, Some(WordText(word) + value), words)
  {
    var c := value[0];
    assert IsPlain(value[0], isAlnum);
    assert !IsSpecial(c);
    assert (value + rest)[1..] == value[1..] + rest;
    var next := Some(WordText(word) + [c]);
    assert Read(value + rest, Unquoted, word, words) == Read(value[1..] + rest, Unquoted, next, words);
    if |value| == 1 {
      assert value[1..] + rest == rest && [c] == value;
    } else {
      ReadPlain(value[1..], rest, isAlnum, next, words);
      assert WordText(next) + value[1..] == WordText(word) + value;
    }
  }

  lemma ReadEscapedQuote(rest: string, text: string, words: seq<string>)
    ensures Read("'\"'\"'" + rest, Single, Some(text), words) == Read(rest, Single, Some(text + "'"), words)
  {
    var s := "'\"'\"'" + rest;
    var s1 := "\"'\"'" + rest;
    var s2 := "'\"'" + rest;
    var s3 := "\"'" + rest;
    var s4 := "'" + rest;
    assert s[1..] == s1 && s1[1..] == s2 && s2[1..] == s3 && s3[1..] == s4 && s4[1..] == rest;
    assert Read(s, Single, Some(text), words) == Read(s1, Unquoted, Some(text), words);
    assert Read(s1, Unquoted, Some(text), words) == Read(s2, Double, Some(text), words);
    assert Read(s2, Double, Some(text), words) == Read(s3, Double, Some(text + "'"), words);
    assert Read(s3, Double, Some(text + "'"), words) == Read(s4, Unquoted, Some(text + "'"), words);
  }

  /** Inside single quotes the escaped value is read back and the closing quote ends the mode. */
  lemma {:induction false} ReadSingleQuoted(value: string, rest: string, text: string, words: seq<string>)
    ensures Read(ReplaceChar(value, '\'', "'\"'\"'") + "'" + rest, Single, Some(text), words)
         == Read(rest, Unquoted, Some(text + value), words)
    decreases |value|
  {
    var escaped := ReplaceChar(value, '\'', "'\"'\"'");
    if value == "" {
      assert escaped + "'" + rest == "'" + rest;
      assert ("'" + rest)[1..] == rest;
      assert text + value == text;
    } else {
      var tail := ReplaceChar(value[1..], '\'', "'\"'\"'") + "'" + rest;
      if value[0] == '\'' {
        assert escaped + "'" + rest == "'\"'\"'" + tail;
        ReadEscapedQuote(tail, text, words);
      } else {
        assert escaped + "'" + rest == [value[0]] + tail;
        assert ([value[0]] + tail)[1..] == tail;
      }
      ReadSingleQuoted(value[1..], rest, text + [value[0]], words);
      assert text + [value[0]] + value[1..] == text + value;
    }
  }

  lemma ReadQuote(value: string, rest: string, isAlnum: char -> bool, words: seq<string>)
    requires IsAlnumTable(isAlnum)
    ensures Read(Quote(value, isAlnum) + rest, Unquoted, None, words) == Read(rest, Unquoted, Some(value), words)
  {
    if value != "" && forall i :: 0 <= i < |value| ==> IsPlain(value[i], isAlnum) {
      ReadPlain(value, rest, isAlnum, None, words);
      assert "" + value == value;
    } else {
      var body := ReplaceChar(value, '\'', "'\"'\"'") + "'" + rest;
      assert Quote(value, isAlnum) + rest == "'" + body;
      assert ("'" + body)[1..] == body;
      ReadSingleQuoted(value, rest, "", words);
      assert "" + value == value;
    }
  }

  lemma JoinOfMore(command: seq<string>, isAlnum: char -> bool)
    requires |command| > 1
    ensures ShellJoin(command, isAlnum) == Quote(command[0], isAlnum) + (" " + ShellJoin(command[1..], isAlnum))
  {
    assert Quoted(command, isAlnum)[1..] == Quoted(command[1..], isAlnum);
  }

  /** A word before a blank is read and done with. */
  lemma ReadWord(value: string, rest: string, isAlnum: char -> bool, words: seq<string>)
    requires IsAlnumTable(isAlnum)
    ensures Read(Quote(value, isAlnum) + (" " + rest), Unquoted, None, words)
         == Read(rest, Unquoted, None, words + [value])
  {
    ReadQuote(value, " " + rest, isAlnum, words);
    assert (" " + rest)[1..] == rest;
  }

  lemma {:induction false} ReadJoined(command: seq<string>, isAlnum: char -> bool, words: seq<string>)
    requires IsAlnumTable(isAlnum)
    ensures Read(ShellJoin(command, isAlnum), Unquoted, None, words) == Some(words + command)
    decreases |command|
  {
    if command == [] {
      assert words + command == words + [];
    } else if |command| == 1 {
      var first := Quote(command[0], isAlnum);
      assert Quoted(command, isAlnum) == [first];
      ReadQuote(command[0], "", isAlnum, words);
      assert first + "" == first;
      assert command == [command[0]];
    } else {
      JoinOfMore(command, isAlnum);
      ReadWord(command[0], ShellJoin(command[1..], isAlnum), isAlnum, words);
      ReadJoined(command[1..], isAlnum, words + [command[0]]);
      assert words + [command[0]] + command[1..] == words + command;
    }
  }

  /** Every command reads back word for word: empty arguments, quotes, blanks and newlines included. */
  lemma TokensOfShellJoin(command: seq<string>, isAlnum: char -> bool)
    requires IsAlnumTable(isAlnum)
    ensures Tokens(ShellJoin(command, isAlnum)) == Some(command)
  {
    ReadJoined(command, isAlnum, []);
    assert [] + command == command;
  }

  lemma ShellJoinInjective(a: seq<string>, b: seq<string>, isAlnum: char -> bool)
    requires IsAlnumTable(isAlnum) && ShellJoin(a, isAlnum) == ShellJoin(b, isAlnum)
    ensures a == b
  {
    TokensOfShellJoin(a, isAlnum);
    TokensOfShellJoin(b, isAlnum);
  }
}
