/**
 * Dotted and indexed paths into response payloads, and the normalisation behind the stable response hash.
 */
module JsonPath {
  import opened Sequences
  import opened Text

  /** A list and a tuple are both sequences; the flag tells them apart. */
  datatype Json =
    | Obj(fields: map<string, Json>)
    | Arr(isTuple: bool, items: seq<Json>)
    | Str(text: string)
    | Scalar(number: int)
    | Nothing

  // ---- integers as Python reads them from ASCII text ----

  predicate IsSpace(c: char) {
    c == ' ' || '\t' <= c <= '\r' || 28 <= c as int <= 31
  }

  function TrimLeft(s: string): string {
    if s != "" && IsSpace(s[0]) then TrimLeft(s[1..]) else s
  }

  function TrimRight(s: string): string {
    if s != "" && IsSpace(s[|s| - 1]) then TrimRight(s[..|s| - 1]) else s
  }

  /** Digits, single underscores between them allowed. */
  function ReadDigits(s: string): (n: Option<int>)
    ensures n.Some? ==> n.value >= 0
  {
    if s == "" then None
    else
      var last := s[|s| - 1];
      if !IsDigit(last) then None
      else
        var d := last as int - '0' as int;
        if |s| == 1 then Some(d)
        else
          var front := if s[|s| - 2] == '_' then s[..|s| - 2] else s[..|s| - 1];
          var high := ReadDigits(front);
          if high.None? then None else Some(high.value * 10 + d)
  }

  /** `int(text)`; `None` is the ValueError. */
  function ReadInt(text: string): Option<int> {
    var s := TrimRight(TrimLeft(text));
    if s == "" then None
    else if s[0] == '-' then
      var n := ReadDigits(s[1..]);
      if n.None? then None else Some(-n.value)
    else ReadDigits(if s[0] == '+' then s[1..] else s)
  }

  ghost predicate AreSpaces(s: string) {
    forall i :: 0 <= i < |s| ==>
      s[i] in {' ', '\t', '\n', 11 as char, 12 as char, '\r', 28 as char, 29 as char, 30 as char, 31 as char}
  }

  lemma {:induction false} LeftOfSpaces(s: string) returns (spaces: string)
    ensures AreSpaces(spaces) && s == spaces + TrimLeft(s)
  {
    if s != "" && IsSpace(s[0]) {
      var rest := LeftOfSpaces(s[1..]);
      spaces := [s[0]] + rest;
    } else {
      spaces := "";
    }
  }

  lemma {:induction false} RightOfSpaces(s: string) returns (spaces: string)
    ensures AreSpaces(spaces) && s == TrimRight(s) + spaces
  {
    if s != "" && IsSpace(s[|s| - 1]) {
      var rest := RightOfSpaces(s[..|s| - 1]);
      spaces := rest + [s[|s| - 1]];
    } else {
      spaces := "";
      assert s + "" == s;
    }
  }

  lemma {:induction false} TrimsBoth(w1: string, s: string, w2: string)
    requires AreSpaces(w1) && AreSpaces(w2)
    requires s != "" && !IsSpace(s[0]) && !IsSpace(s[|s| - 1])
    ensures TrimRight(TrimLeft(w1 + s + w2)) == s
    decreases |w1| + |w2|
  {
    var text := w1 + s + w2;
    if w1 != "" {
      assert text[1..] == w1[1..] + s + w2;
      TrimsBoth(w1[1..], s, w2);
    } else {
      assert TrimLeft(text) == text;
      if w2 == "" {
        assert text == s;
      } else {
        var front := w2[..|w2| - 1];
        assert text[..|text| - 1] == w1 + s + front;
        TrimsBoth(w1, s, front);
        assert TrimLeft(w1 + s + front) == w1 + s + front;
      }
    }
  }

  /** `sign` and `digits` between blanks. */
  ghost predicate WrittenAs(text: string, w1: string, sign: string, digits: string, w2: string) {
    && text == w1 + (sign + digits) + w2 && AreSpaces(w1) && AreSpaces(w2)
    && (sign == "" || sign == "+" || sign == "-")
  }

  /** Whatever is read was written so: blanks, a sign or none, digits, blanks. */
  lemma ReadsOnlyIntegers(text: string) returns (w1: string, sign: string, digits: string, w2: string)
    requires ReadInt(text).Some?
    ensures WrittenAs(text, w1, sign, digits, w2) && ReadDigits(digits).Some?
    ensures ReadInt(text).value == if sign == "-" then -ReadDigits(digits).value else ReadDigits(digits).value
  {
    w1 := LeftOfSpaces(text);
    w2 := RightOfSpaces(TrimLeft(text));
    var s := TrimRight(TrimLeft(text));
    if s[0] == '-' || s[0] == '+' {
      sign, digits := [s[0]], s[1..];
    } else {
      sign, digits := "", s;
    }
    assert sign + digits == s;
    assert text == w1 + (s + w2) == w1 + s + w2;
  }

  /** And whatever is written so is read. */
  lemma ReadsIntegers(text: string, w1: string, sign: string, digits: string, w2: string)
    requires WrittenAs(text, w1, sign, digits, w2) && ReadDigits(digits).Some?
    ensures ReadInt(text) == Some(if sign == "-" then -ReadDigits(digits).value else ReadDigits(digits).value)
  {
    var s := sign + digits;
    assert s != "" && !IsSpace(s[0]) && !IsSpace(s[|s| - 1]) by {
      ReadableEnds(digits);
      assert s[|s| - 1] == digits[|digits| - 1];
    }
    assert TrimRight(TrimLeft(text)) == s by {
      TrimsBoth(w1, s, w2);
    }
    ReadsSigned(text, sign, digits);
  }

  lemma ReadsSigned(text: string, sign: string, digits: string)
    requires TrimRight(TrimLeft(text)) == sign + digits && ReadDigits(digits).Some?
    requires sign == "" || sign == "+" || sign == "-"
    ensures ReadInt(text) == Some(if sign == "-" then -ReadDigits(digits).value else ReadDigits(digits).value)
  {
    ReadableEnds(digits);
    if sign == "" {
      assert sign + digits == digits;
    } else {
      assert (sign + digits)[1..] == digits;
    }
  }

  lemma {:induction false} ReadableEnds(s: string)
    requires ReadDigits(s).Some?
    ensures s != "" && IsDigit(s[0]) && IsDigit(s[|s| - 1])
  {
    if |s| > 1 {
      ReadableEnds(if s[|s| - 2] == '_' then s[..|s| - 2] else s[..|s| - 1]);
    }
  }

  /** Digits and single underscores, digits at both ends. */
  ghost predicate AreDigits(s: string) {
    && s != "" && '0' <= s[0] <= '9' && '0' <= s[|s| - 1] <= '9'
    && forall i :: 0 <= i < |s| - 1 ==> '0' <= s[i] <= '9' || (s[i] == '_' && '0' <= s[i + 1] <= '9')
  }

  lemma OneDigitLess(s: string)
    requires |s| > 1 && '0' <= s[|s| - 1] <= '9'
    ensures AreDigits(s) <==> AreDigits(if s[|s| - 2] == '_' then s[..|s| - 2] else s[..|s| - 1])
  {
    var n := |s|;
    var m := if s[n - 2] == '_' then n - 2 else n - 1;
    var front := s[..m];
    if AreDigits(s) {
      assert m > 0 && '0' <= s[m - 1] <= '9';
      forall i | 0 <= i < m - 1 ensures '0' <= front[i] <= '9' || (front[i] == '_' && '0' <= front[i + 1] <= '9') {
        assert front[i] == s[i] && front[i + 1] == s[i + 1];
      }
      assert front[0] == s[0] && front[m - 1] == s[m - 1];
    }
    if AreDigits(front) {
      forall i | 0 <= i < n - 1 ensures '0' <= s[i] <= '9' || (s[i] == '_' && '0' <= s[i + 1] <= '9') {
        if i < m - 1 {
          assert front[i] == s[i] && front[i + 1] == s[i + 1];
        }
      }
      assert front[0] == s[0] && front[m - 1] == s[m - 1];
    }
  }

  lemma {:induction false} ReadableDigits(s: string)
    ensures ReadDigits(s).Some? <==> AreDigits(s)
  {
    if |s| > 1 && IsDigit(s[|s| - 1]) {
      OneDigitLess(s);
      ReadableDigits(if s[|s| - 2] == '_' then s[..|s| - 2] else s[..|s| - 1]);
    }
  }

  function Kept(s: string): string { Filter((c: char) => c != '_', s) }

  lemma KeptLast(s: string, c: char)
    ensures Kept(s + [c]) == if c == '_' then Kept(s) else Kept(s) + [c]
  {
    FilterAppend((c: char) => c != '_', s, [c]);
  }

  lemma DigitBehind(s: string, c: char)
    requires ReadDigits(s).Some? && '_' !in s && IsDigit(c)
    ensures ReadDigits(s + [c]) == Some(ReadDigits(s).value * 10 + (c as int - '0' as int))
  {
    var t := s + [c];
    assert s != "";
    assert t[|t| - 1] == c && t[|t| - 2] == s[|s| - 1];
    assert s[|s| - 1] in s;
    assert t[..|t| - 1] == s;
  }

  /** The underscores mean nothing. */
  lemma {:induction false} UnderscoresMeanNothing(s: string)
    requires ReadDigits(s).Some?
    ensures ReadDigits(Kept(s)) == ReadDigits(s)
  {
    var last := s[|s| - 1];
    var before := s[..|s| - 1];
    assert s == before + [last];
    KeptLast(before, last);
    if |s| == 1 {
      assert Kept(before) == "" && Kept(s) == s;
    } else {
      var front := if s[|s| - 2] == '_' then s[..|s| - 2] else before;
      UnderscoresMeanNothing(front);
      assert Kept(before) == Kept(front) by {
        if s[|s| - 2] == '_' {
          assert before == front + ['_'];
          KeptLast(front, '_');
        }
      }
      assert '_' !in Kept(front);
      DigitBehind(Kept(front), last);
    }
  }

  // ---- the path reader ----

  /** A part as the code splits it; `None` is the ValueError. */
  function SplitPathPart(part: string): Option<(string, Option<int>)> {
    if '[' !in part then Some((part, None))
    else
      var at := FirstBracket(part);
      var rest := part[at + 1..];
      if rest == "" || rest[|rest| - 1] != ']' then None
      else
        var n := ReadInt(rest[..|rest| - 1]);
        if n.None? then None else Some((part[..at], Some(n.value)))
  }

  function FirstBracket(part: string): (at: nat)
    requires '[' in part
    ensures at < |part| && part[at] == '[' && '[' !in part[..at]
  {
    if part[0] == '[' then 0
    else
      var at := FirstBracket(part[1..]);
      assert part[..at + 1] == [part[0]] + part[1..][..at];
      at + 1
  }

  /** The value found, Python's `None` for a path that leads nowhere, or an exception. */
  datatype Found = Value(value: Json) | Missing | Raised

  function FollowPart(current: Json, part: string): Found {
    var split := SplitPathPart(part);
    if split.None? then Raised
    else
      var (key, index) := split.value;
      if key != "" && (!current.Obj? || key !in current.fields) then Missing
      else
        var at := if key != "" then current.fields[key] else current;
        if index.None? then Value(at)
        else if !at.Arr? then Missing
        else if index.value >= |at.items| then Missing
        else if index.value >= 0 then Value(at.items[index.value])
        else if -index.value <= |at.items| then Value(at.items[|at.items| + index.value])
        else Raised
  }

  function Follow(current: Json, parts: seq<string>): Found {
    if parts == [] then Value(current)
    else
      var next := FollowPart(current, parts[0]);
      if next.Value? then Follow(next.value, parts[1..]) else next
  }

  method GetPath(payload: Json, path: string) returns (r: Found)
    ensures r == Follow(payload, Split(path, '.'))
  {
    var parts := Split(path, '.');
    var current := payload;
    for i := 0 to |parts|
      invariant Follow(current, parts[i..]) == Follow(payload, parts)
    {
      assert parts[i..][0] == parts[i] && parts[i..][1..] == parts[i + 1..];
      var split := SplitPathPart(parts[i]);
      if split.None? {
        return Raised;
      }
      var key, index := split.value.0, split.value.1;
      if key != "" {
        if !current.Obj? || key !in current.fields {
          return Missing;
        }
        current := current.fields[key];
      }
      if index.Some? {
        if !current.Arr? {
          return Missing;
        }
        if index.value >= |current.items| {
          return Missing;
        }
        if index.value < -|current.items| {
          return Raised;
        }
        current := current.items[if index.value < 0 then |current.items| + index.value else index.value];
      }
    }
    return Value(current);
  }

  // ---- addresses and how they are printed ----

  /** One step down: into a field, into an element, or into an element of a field. */
  datatype Part = Part(key: string, index: Option<nat>)

  ghost predicate Printable(p: Part) {
    '.' !in p.key && '[' !in p.key
  }

  function Digits(n: nat): (s: string)
    ensures s != "" && forall c :: c in s ==> IsDigit(c)
  {
    var low := ('0' as int + n % 10) as char;
    if n < 10 then [low] else Digits(n / 10) + [low]
  }

  function PrintPart(p: Part): string {
    p.key + if p.index.None? then "" else "[" + Digits(p.index.value) + "]"
  }

  function PrintParts(address: seq<Part>): seq<string> {
    if address == [] then [] else [PrintPart(address[0])] + PrintParts(address[1..])
  }

  function PrintPath(address: seq<Part>): string { Join(PrintParts(address), ".") }

  /** Where one step leads, if it leads anywhere. */
  function StepInto(j: Json, p: Part): Option<Json> {
    if p.key != "" && !(j.Obj? && p.key in j.fields) then None
    else
      var at := if p.key != "" then j.fields[p.key] else j;
      if p.index.None? then Some(at)
      else if at.Arr? && p.index.value < |at.items| then Some(at.items[p.index.value])
      else None
  }

  /** The subtree at an address, if the tree has one there. */
  function Subtree(j: Json, address: seq<Part>): Option<Json> {
    if address == [] then Some(j)
    else
      var next := StepInto(j, address[0]);
      if next.None? then None else Subtree(next.value, address[1..])
  }

  lemma {:induction false} ReadPrintedDigits(n: nat)
    ensures ReadDigits(Digits(n)) == Some(n)
  {
    var s := Digits(n);
    if n >= 10 {
      ReadPrintedDigits(n / 10);
      var high := Digits(n / 10);
      assert s[..|s| - 1] == high;
      assert s[|s| - 2] in high;
    }
  }

  lemma ReadPrintedInt(n: nat)
    ensures ReadInt(Digits(n)) == Some(n)
  {
    var s := Digits(n);
    assert s[0] in s && s[|s| - 1] in s;
    assert TrimLeft(s) == s && TrimRight(s) == s;
    ReadPrintedDigits(n);
  }

  lemma {:induction false} FirstBracketAt(a: string, b: string)
    requires '[' !in a
    ensures '[' in a + "[" + b && FirstBracket(a + "[" + b) == |a|
  {
    var s := a + "[" + b;
    assert s[|a|] == '[';
    if a != "" {
      assert s[1..] == a[1..] + "[" + b;
      FirstBracketAt(a[1..], b);
    }
  }

  lemma SplitPrintedPart(p: Part)
    requires Printable(p)
    ensures SplitPathPart(PrintPart(p)) == Some((p.key, if p.index.None? then None else Some(p.index.value)))
    ensures '.' !in PrintPart(p)
  {
    var text := PrintPart(p);
    if p.index.Some? {
      var digits := Digits(p.index.value);
      ReadPrintedInt(p.index.value);
      FirstBracketAt(p.key, digits + "]");
      assert text == p.key + "[" + (digits + "]");
      assert text[|p.key| + 1..] == digits + "]";
      assert (digits + "]")[..|digits|] == digits;
      assert text[..|p.key|] == p.key;
    } else {
      assert text == p.key;
    }
  }

  lemma FollowPrintedPart(j: Json, p: Part)
    requires Printable(p)
    ensures FollowPart(j, PrintPart(p)) == match StepInto(j, p) case Some(v) => Value(v) case None => Missing
  {
    var index := if p.index.None? then None else Some(p.index.value);
    assert SplitPathPart(PrintPart(p)) == Some((p.key, index)) by { SplitPrintedPart(p); }
  }

  lemma {:induction false} FollowPrinted(j: Json, address: seq<Part>)
    requires forall p :: p in address ==> Printable(p)
    ensures Follow(j, PrintParts(address)) == match Subtree(j, address) case Some(v) => Value(v) case None => Missing
    decreases |address|
  {
    if address != [] {
      assert address[0] in address && forall q :: q in address[1..] ==> q in address;
      FollowPrintedPart(j, address[0]);
      var next := StepInto(j, address[0]);
      if next.Some? {
        FollowPrinted(next.value, address[1..]);
      }
    }
  }

  lemma {:induction false} PrintedPartsHaveNoDot(address: seq<Part>)
    requires forall p :: p in address ==> Printable(p)
    ensures forall part :: part in PrintParts(address) ==> '.' !in part
  {
    if address != [] {
      assert address[0] in address && forall q :: q in address[1..] ==> q in address;
      SplitPrintedPart(address[0]);
      PrintedPartsHaveNoDot(address[1..]);
    }
  }

  /** Reading a printed address gives exactly the subtree there, and nothing exactly when there is none: for every tree
      and every address whose keys are free of dots and brackets. */
  lemma ReadingAPrintedPath(j: Json, address: seq<Part>)
    requires forall p :: p in address ==> Printable(p)
    ensures Follow(j, Split(PrintPath(address), '.'))
         == match Subtree(j, address) case Some(v) => Value(v) case None => Missing
  {
    FollowPrinted(j, address);
    if address == [] {
      assert Split("", '.') == [""];
      assert FollowPart(j, "") == Value(j);
    } else {
      PrintedPartsHaveNoDot(address);
      SplitJoin(PrintParts(address), '.');
    }
  }

  // ---- the fields that the response hash ignores ----

  function DropUnstable(j: Json): Json {
    match j
    case Obj(fields) => Obj(map key | key in fields && key != "query_id" :: DropUnstable(fields[key]))
    case Arr(_, items) => Arr(false, seq(|items|, i requires 0 <= i < |items| => DropUnstable(items[i])))
    case _ => j
  }

  /** The same payload up to `query_id` fields at any depth, and up to the kind of sequence. */
  ghost predicate SameButQueryIds(a: Json, b: Json) {
    match a
    case Obj(fields) =>
      && b.Obj?
      && (forall key :: key != "query_id" ==> (key in fields <==> key in b.fields))
      && (forall key :: key in fields && key in b.fields && key != "query_id" ==>
            SameButQueryIds(fields[key], b.fields[key]))
    case Arr(_, items) =>
      && b.Arr? && |items| == |b.items|
      && (forall i :: 0 <= i < |items| ==> SameButQueryIds(items[i], b.items[i]))
    case _ => a == b
  }

  /** What is left of a list or a tuple is a list, and of an object one without query id. */
  lemma DropsTo(j: Json)
    ensures j.Arr? ==> DropUnstable(j).Arr? && !DropUnstable(j).isTuple && |DropUnstable(j).items| == |j.items|
    ensures j.Obj? ==> DropUnstable(j).Obj? && DropUnstable(j).fields.Keys == j.fields.Keys - {"query_id"}
    ensures !j.Arr? && !j.Obj? ==> DropUnstable(j) == j
  {
  }

  lemma {:induction false} DropTwice(j: Json)
    ensures DropUnstable(DropUnstable(j)) == DropUnstable(j)
  {
    match j
    case Obj(fields) =>
      forall key | key in fields ensures DropUnstable(DropUnstable(fields[key])) == DropUnstable(fields[key]) {
        DropTwice(fields[key]);
      }
    case Arr(_, items) =>
      forall i | 0 <= i < |items| ensures DropUnstable(DropUnstable(items[i])) == DropUnstable(items[i]) {
        DropTwice(items[i]);
      }
    case _ =>
  }

  /** Two payloads normalise alike exactly when they differ in nothing but `query_id` fields, at whatever depth. */
  lemma {:induction false} DropForgetsExactlyQueryIds(a: Json, b: Json)
    ensures DropUnstable(a) == DropUnstable(b) <==> SameButQueryIds(a, b)
  {
    match a
    case Obj(fields) =>
      if b.Obj? {
        var x, y := DropUnstable(a).fields, DropUnstable(b).fields;
        forall key | key in fields && key in b.fields
          ensures DropUnstable(fields[key]) == DropUnstable(b.fields[key])
            <==> SameButQueryIds(fields[key], b.fields[key])
        {
          DropForgetsExactlyQueryIds(fields[key], b.fields[key]);
        }
        if x == y {
          forall key | key != "query_id" ensures key in fields <==> key in b.fields {
            assert key in x <==> key in y;
          }
          forall key | key in fields && key in b.fields && key != "query_id"
            ensures SameButQueryIds(fields[key], b.fields[key])
          {
            assert x[key] == y[key];
          }
        }
        if SameButQueryIds(a, b) {
          assert x == y;
        }
      }
    case Arr(_, items) =>
      if b.Arr? && |items| == |b.items| {
        var x, y := DropUnstable(a).items, DropUnstable(b).items;
        forall i | 0 <= i < |items|
          ensures DropUnstable(items[i]) == DropUnstable(b.items[i]) <==> SameButQueryIds(items[i], b.items[i])
        {
          DropForgetsExactlyQueryIds(items[i], b.items[i]);
        }
        if x == y {
          forall i | 0 <= i < |items| ensures SameButQueryIds(items[i], b.items[i]) {
            assert x[i] == y[i];
          }
        }
        if SameButQueryIds(a, b) {
          assert x == y;
        }
      } else if b.Arr? {
        assert |DropUnstable(a).items| != |DropUnstable(b).items|;
      }
    case _ =>
  }
}
