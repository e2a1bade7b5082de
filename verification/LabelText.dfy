/**
 * Label values in the Prometheus text exposition format: the three replacements of the renderer, and what reads them
 * back.
 */
module LabelText {
  import opened Sequences
  import opened Text

  function EscapeLabel(value: string): string {
    ReplaceChar(ReplaceChar(ReplaceChar(value, '\\', "\\\\"), '\n', "\\n"), '"', "\\\"")
  }

  function Escape1(c: char): string {
    if c == '\\' then "\\\\" else if c == '\n' then "\\n" else if c == '"' then "\\\"" else [c]
  }

  /** The escape that looks at every character once. */
  function Escape(value: string): string {
    if value == "" then "" else Escape1(value[0]) + Escape(value[1..])
  }

  /** The order of the replacements matters and is right: the backslashes they add are not escaped again. */
  lemma {:induction false} ThreeReplacementsAreOneEscape(value: string)
    ensures EscapeLabel(value) == Escape(value)
  {
    if value != "" {
      ThreeReplacementsAreOneEscape(value[1..]);
      var c := value[0];
      var h := if c == '\\' then "\\\\" else [c];
      var a := ReplaceChar(value[1..], '\\', "\\\\");
      ReplaceAppend(h, a, '\n', "\\n");
      assert h[1..] == if c == '\\' then "\\" else "";
      assert c == '\\' ==> h[1..][1..] == "";
      var h2 := ReplaceChar(h, '\n', "\\n");
      assert h2 == if c == '\n' then "\\n" else h;
      ReplaceAppend(h2, ReplaceChar(a, '\n', "\\n"), '"', "\\\"");
      assert h2[1..] == if c == '\\' then "\\" else if c == '\n' then "n" else "";
      assert |h2| == 2 ==> h2[1..][1..] == "";
    }
  }

  /** Reads an escaped value up to the closing quote: the value and what follows the quote. `None` without a closing
      quote or on an escape that the format does not know. */
  function Unescape(s: string): Option<(string, string)> {
    if s == "" then None
    else if s[0] == '"' then Some(("", s[1..]))
    else if s[0] == '\\' then
      if |s| < 2 || (s[1] != '\\' && s[1] != 'n' && s[1] != '"') then None
      else
        var rest := Unescape(s[2..]);
        if rest.None? then None
        else Some(([if s[1] == 'n' then '\n' else s[1]] + rest.value.0, rest.value.1))
    else
      var rest := Unescape(s[1..]);
      if rest.None? then None else Some(([s[0]] + rest.value.0, rest.value.1))
  }

  lemma UnescapeEscape1(c: char, tail: string)
    requires Unescape(tail).Some?
    ensures Unescape(Escape1(c) + tail) == Some(([c] + Unescape(tail).value.0, Unescape(tail).value.1))
  {
    var s := Escape1(c) + tail;
    assert s[|Escape1(c)|..] == tail;
    if c == '\\' || c == '\n' || c == '"' {
      assert s[0] == '\\' && s[1] == if c == '\n' then 'n' else c;
    } else {
      assert s[0] == c;
    }
  }

  lemma {:induction false} UnescapeEscape(value: string, after: string)
    ensures Unescape(Escape(value) + "\"" + after) == Some((value, after))
  {
    if value == "" {
      assert ("" + "\"" + after)[1..] == after;
    } else {
      var tail := Escape(value[1..]) + "\"" + after;
      UnescapeEscape(value[1..], after);
      UnescapeEscape1(value[0], tail);
      assert Escape(value) + "\"" + after == Escape1(value[0]) + tail;
      assert value == [value[0]] + value[1..];
    }
  }

  // ---- whole label sets ----

  /** Values in the order of the label names. */
  function RenderPairs(names: seq<string>, values: seq<string>): string
    requires |names| == |values|
  {
    if names == [] then ""
    else
      names[0] + "=\"" + EscapeLabel(values[0]) + "\""
      + if |names| == 1 then "" else "," + RenderPairs(names[1..], values[1..])
  }

  function RenderLabels(names: seq<string>, values: seq<string>): string
    requires |names| == |values|
  {
    if names == [] then "" else "{" + RenderPairs(names, values) + "}"
  }

  /** Braces stand around the labels, and there are none without labels. */
  lemma BracedUnlessEmpty(names: seq<string>, values: seq<string>)
    requires |names| == |values|
    ensures names == [] <==> RenderLabels(names, values) == ""
    ensures names != [] ==> RenderLabels(names, values) == "{" + RenderPairs(names, values) + "}"
  {
  }

  /** Reads the pairs of known label names back. */
  function ReadPairs(names: seq<string>, s: string): Option<(seq<string>, string)> {
    if names == [] then Some(([], s))
    else
      var head := names[0] + "=\"";
      if !(head <= s) then None
      else
        var first := Unescape(s[|head|..]);
        if first.None? then None
        else if |names| == 1 then Some(([first.value.0], first.value.1))
        else if first.value.1 == "" || first.value.1[0] != ',' then None
        else
          var rest := ReadPairs(names[1..], first.value.1[1..]);
          if rest.None? then None else Some(([first.value.0] + rest.value.0, rest.value.1))
  }

  /** One pair: its name, the escaped value, the closing quote and whatever follows. */
  lemma ReadOnePair(name: string, value: string, more: string)
    ensures var head := name + "=\"";
      var s := head + EscapeLabel(value) + "\"" + more;
      head <= s && Unescape(s[|head|..]) == Some((value, more))
  {
    var head := name + "=\"";
    var s := head + EscapeLabel(value) + "\"" + more;
    ThreeReplacementsAreOneEscape(value);
    UnescapeEscape(value, more);
    assert s[|head|..] == Escape(value) + "\"" + more;
  }

  lemma {:induction false} ReadRenderPairs(names: seq<string>, values: seq<string>, after: string)
    requires |names| == |values|
    ensures ReadPairs(names, RenderPairs(names, values) + after) == Some((values, after))
  {
    if names == [] {
      assert "" + after == after;
    } else {
      var more := if |names| == 1 then "" else "," + RenderPairs(names[1..], values[1..]);
      ReadOnePair(names[0], values[0], more + after);
      assert RenderPairs(names, values) + after == names[0] + "=\"" + EscapeLabel(values[0]) + "\"" + (more + after);
      if |names| == 1 {
        assert more + after == after && values == [values[0]];
      } else {
        assert (more + after)[1..] == RenderPairs(names[1..], values[1..]) + after;
        ReadRenderPairs(names[1..], values[1..], after);
        assert values == [values[0]] + values[1..];
      }
    }
  }

  lemma ReadRenderedLabels(names: seq<string>, values: seq<string>)
    requires |names| == |values| && names != []
    ensures var s := RenderLabels(names, values);
      |s| > 0 && ReadPairs(names, s[1..]) == Some((values, "}"))
  {
    assert RenderLabels(names, values)[1..] == RenderPairs(names, values) + "}";
    ReadRenderPairs(names, values, "}");
  }

  /** For the same label names, different label values never render to the same text, whatever characters they hold. */
  lemma RenderLabelsInjective(names: seq<string>, a: seq<string>, b: seq<string>)
    requires |names| == |a| == |b|
    requires RenderLabels(names, a) == RenderLabels(names, b)
    ensures a == b
  {
    if names != [] {
      ReadRenderedLabels(names, a);
      ReadRenderedLabels(names, b);
    }
  }
}
