/**
 * The base64url codec of the admin UI session cookie, and the constant-time byte comparison.
 *
 * `Encode` and `Decode` follow the code: the browser's `btoa`/`atob` with character replacements
 * around them. `Rfc` is the direct definition, the unpadded URL-safe alphabet of section 5 of
 * RFC 4648 over the six-bit groups of section 4.
 */
module Base64Url {
  import opened Sequences
  import opened Text

  type Byte = i: int | 0 <= i < 256

  type Sextet = i: int | 0 <= i < 64

  // ---- regrouping of bits, section 4 of RFC 4648 ----

  function Sextets(b: seq<Byte>): seq<Sextet> {
    if |b| == 0 then []
    else if |b| == 1 then [b[0] / 4, b[0] % 4 * 16]
    else if |b| == 2 then [b[0] / 4, b[0] % 4 * 16 + b[1] / 16, b[1] % 16 * 4]
    else [b[0] / 4, b[0] % 4 * 16 + b[1] / 16, b[1] % 16 * 4 + b[2] / 64, b[2] % 64] + Sextets(b[3..])
  }

  function First(q0: Sextet, q1: Sextet): Byte { q0 * 4 + q1 / 16 }

  function Second(q1: Sextet, q2: Sextet): Byte { q1 % 16 * 16 + q2 / 4 }

  function Third(q2: Sextet, q3: Sextet): Byte { q2 % 4 * 64 + q3 }

  /** A last group of one sextet holds no byte, so its bits are dropped with the other spare bits. */
  function Bytes(q: seq<Sextet>): seq<Byte> {
    if |q| <= 1 then []
    else if |q| == 2 then [First(q[0], q[1])]
    else if |q| == 3 then [First(q[0], q[1]), Second(q[1], q[2])]
    else [First(q[0], q[1]), Second(q[1], q[2]), Third(q[2], q[3])] + Bytes(q[4..])
  }

  /** The bits of the last sextet that no byte takes are zero (section 3.5 of RFC 4648). */
  predicate Canonical(q: seq<Sextet>) {
    if |q| == 0 then true
    else if |q| == 1 then false
    else if |q| == 2 then q[1] % 16 == 0
    else if |q| == 3 then q[2] % 4 == 0
    else Canonical(q[4..])
  }

  lemma GroupRoundTrip(b0: Byte, b1: Byte, b2: Byte)
    ensures First(b0 / 4, b0 % 4 * 16 + b1 / 16) == b0
    ensures Second(b0 % 4 * 16 + b1 / 16, b1 % 16 * 4 + b2 / 64) == b1
    ensures Third(b1 % 16 * 4 + b2 / 64, b2 % 64) == b2
  {
  }

  lemma {:induction false} BytesOfSextets(b: seq<Byte>)
    ensures Bytes(Sextets(b)) == b
  {
    if |b| == 1 {
      GroupRoundTrip(b[0], 0, 0);
    } else if |b| == 2 {
      GroupRoundTrip(b[0], b[1], 0);
    } else if |b| >= 3 {
      GroupRoundTrip(b[0], b[1], b[2]);
      BytesOfSextets(b[3..]);
      var q := Sextets(b);
      assert q[4..] == Sextets(b[3..]);
      assert Bytes(q) == [b[0], b[1], b[2]] + Bytes(q[4..]);
    }
  }

  lemma SextetRoundTrip(q0: Sextet, q1: Sextet, q2: Sextet, q3: Sextet)
    ensures var b0, b1, b2 := First(q0, q1), Second(q1, q2), Third(q2, q3);
      b0 / 4 == q0 && b0 % 4 * 16 + b1 / 16 == q1 && b1 % 16 * 4 + b2 / 64 == q2 && b2 % 64 == q3
  {
  }

  lemma SpareBitsOfTwo(q0: Sextet, q1: Sextet)
    ensures First(q0, q1) / 4 == q0
    ensures First(q0, q1) % 4 * 16 == q1 <==> q1 % 16 == 0
  {
  }

  lemma SpareBitsOfThree(q1: Sextet, q2: Sextet)
    ensures q1 / 16 * 16 + Second(q1, q2) / 16 == q1
    ensures Second(q1, q2) % 16 * 4 == q2 <==> q2 % 4 == 0
  {
  }

  lemma TwoSextets(q0: Sextet, q1: Sextet)
    ensures Sextets(Bytes([q0, q1])) == [q0, q1] <==> q1 % 16 == 0
  {
    var b0 := First(q0, q1);
    assert Bytes([q0, q1]) == [b0];
    var last: Sextet := b0 % 4 * 16;
    assert Sextets([b0])[0] == b0 / 4 && Sextets([b0])[1] == last;
    SpareBitsOfTwo(q0, q1);
  }

  lemma ThreeSextets(q0: Sextet, q1: Sextet, q2: Sextet)
    ensures Sextets(Bytes([q0, q1, q2])) == [q0, q1, q2] <==> q2 % 4 == 0
  {
    var b0, b1 := First(q0, q1), Second(q1, q2);
    assert Bytes([q0, q1, q2]) == [b0, b1];
    var middle: Sextet := b0 % 4 * 16 + b1 / 16;
    var last: Sextet := b1 % 16 * 4;
    assert Sextets([b0, b1])[0] == b0 / 4 && Sextets([b0, b1])[1] == middle && Sextets([b0, b1])[2] == last;
    SextetRoundTrip(q0, q1, q2, 0);
    SpareBitsOfThree(q1, q2);
  }

  lemma GroupOfBytes(b: seq<Byte>, q0: Sextet, q1: Sextet, q2: Sextet, q3: Sextet)
    ensures Sextets([First(q0, q1), Second(q1, q2), Third(q2, q3)] + b) == [q0, q1, q2, q3] + Sextets(b)
  {
    SextetRoundTrip(q0, q1, q2, q3);
    assert ([First(q0, q1), Second(q1, q2), Third(q2, q3)] + b)[3..] == b;
  }

  lemma SextetsOfOneByte(q: seq<Sextet>)
    requires |q| == 2
    ensures Sextets(Bytes(q)) == q <==> Canonical(q)
  {
    assert q == [q[0], q[1]];
    TwoSextets(q[0], q[1]);
  }

  lemma SextetsOfTwoBytes(q: seq<Sextet>)
    requires |q| == 3
    ensures Sextets(Bytes(q)) == q <==> Canonical(q)
  {
    assert q == [q[0], q[1], q[2]];
    ThreeSextets(q[0], q[1], q[2]);
  }

  lemma SamePrefix(prefix: seq<Sextet>, a: seq<Sextet>, b: seq<Sextet>)
    ensures prefix + a == prefix + b <==> a == b
  {
    assert (prefix + a)[|prefix|..] == a && (prefix + b)[|prefix|..] == b;
  }

  lemma GroupsOfBytes(q: seq<Sextet>)
    requires |q| > 3
    ensures Sextets(Bytes(q)) == [q[0], q[1], q[2], q[3]] + Sextets(Bytes(q[4..]))
  {
    var triple := [First(q[0], q[1]), Second(q[1], q[2]), Third(q[2], q[3])];
    assert Bytes(q) == triple + Bytes(q[4..]);
    GroupOfBytes(Bytes(q[4..]), q[0], q[1], q[2], q[3]);
  }

  lemma LongSextetsOfBytes(q: seq<Sextet>)
    requires |q| > 3
    ensures Sextets(Bytes(q)) == q <==> Sextets(Bytes(q[4..])) == q[4..]
  {
    var group := [q[0], q[1], q[2], q[3]];
    GroupsOfBytes(q);
    assert q == group + q[4..];
    SamePrefix(group, Sextets(Bytes(q[4..])), q[4..]);
  }

  lemma {:induction false} SextetsOfBytes(q: seq<Sextet>)
    ensures Sextets(Bytes(q)) == q <==> Canonical(q)
  {
    if |q| == 2 {
      SextetsOfOneByte(q);
    } else if |q| == 3 {
      SextetsOfTwoBytes(q);
    } else if |q| > 3 {
      LongSextetsOfBytes(q);
      SextetsOfBytes(q[4..]);
    }
  }

  lemma FourPerThree(n: int)
    ensures (4 * n + 2) / 3 == (4 * (n - 3) + 2) / 3 + 4
    ensures (4 * n + 2) / 3 % 4 == if n % 3 == 0 then 0 else n % 3 + 1
  {
    var k, r := n / 3, n % 3;
    assert 4 * n + 2 == 3 * (4 * k) + 4 * r + 2;
    assert (4 * n + 2) / 3 == 4 * k + (4 * r + 2) / 3;
  }

  lemma {:induction false} SextetLength(b: seq<Byte>)
    ensures |Sextets(b)| == (4 * |b| + 2) / 3
  {
    if |b| >= 3 {
      SextetLength(b[3..]);
      assert |Sextets(b)| == 4 + |Sextets(b[3..])|;
      FourPerThree(|b|);
    }
  }

  lemma SextetCount(b: seq<Byte>)
    ensures |Sextets(b)| == (4 * |b| + 2) / 3
    ensures |Sextets(b)| % 4 == if |b| % 3 == 0 then 0 else |b| % 3 + 1
  {
    SextetLength(b);
    FourPerThree(|b|);
  }

  // ---- the standard alphabet and the browser functions ----

  function Letter(n: Sextet): (c: char)
    ensures Value(c) == Some(n)
  {
    if n < 26 then (n + 'A' as int) as char
    else if n < 52 then (n - 26 + 'a' as int) as char
    else if n < 62 then (n - 52 + '0' as int) as char
    else if n == 62 then '+'
    else '/'
  }

  function Value(c: char): Option<Sextet> {
    if 'A' <= c <= 'Z' then Some(c as int - 'A' as int)
    else if 'a' <= c <= 'z' then Some(c as int - 'a' as int + 26)
    else if '0' <= c <= '9' then Some(c as int - '0' as int + 52)
    else if c == '+' then Some(62)
    else if c == '/' then Some(63)
    else None
  }

  function Letters(q: seq<Sextet>): string { seq(|q|, i requires 0 <= i < |q| => Letter(q[i])) }

  predicate IsBase64(s: string) {
    forall i :: 0 <= i < |s| ==> Value(s[i]).Some?
  }

  function Values(s: string): seq<Sextet>
    requires IsBase64(s)
  {
    seq(|s|, i requires 0 <= i < |s| => Value(s[i]).value)
  }

  function Equals(k: nat): string { seq(k, _ => '=') }

  /** How many `=` fill the last group of four. */
  function Missing(n: nat): nat { (4 - n % 4) % 4 }

  /** The browser's `btoa`. */
  function Btoa(b: seq<Byte>): string {
    var q := Sextets(b);
    Letters(q) + Equals(Missing(|q|))
  }

  /** The browser's `atob` on a text without white space: padding is dropped only from full groups. */
  function Atob(s: string): Option<seq<Byte>> {
    var t :=
      if |s| > 0 && |s| % 4 == 0 && s[|s| - 1] == '=' then
        if s[|s| - 2] == '=' then s[..|s| - 2] else s[..|s| - 1]
      else s;
    if |t| % 4 == 1 || !IsBase64(t) then None else Some(Bytes(Values(t)))
  }

  // ---- the codec of the code ----

  predicate IsUrlChar(c: char) {
    '0' <= c <= '9' || 'A' <= c <= 'Z' || 'a' <= c <= 'z' || c == '_' || c == '-'
  }

  predicate IsBase64UrlString(v: string) {
    |v| > 0 && forall i :: 0 <= i < |v| ==> IsUrlChar(v[i])
  }

  function Encode(b: seq<Byte>): string {
    ReplaceChar(ReplaceChar(ReplaceChar(Btoa(b), '+', "-"), '/', "_"), '=', "")
  }

  function PadEnd(s: string, n: nat): string
    decreases n - |s|
  {
    if |s| >= n then s else PadEnd(s + "=", n)
  }

  /** Back to the letters of the standard alphabet. */
  function Normalized(v: string): string { ReplaceChar(ReplaceChar(v, '-', "+"), '_', "/") }

  /** `None` is the thrown "invalid base64url" error. */
  function Decode(v: string): Option<seq<Byte>> {
    if !IsBase64UrlString(v) || |v| % 4 == 1 then None
    else
      var normalized := Normalized(v);
      Atob(PadEnd(normalized, |normalized| + Missing(|normalized|)))
  }

  // ---- the direct form, section 5 of RFC 4648, unpadded ----

  function UrlLetter(n: Sextet): (c: char)
    ensures IsUrlChar(c) && UrlValue(c) == n
  {
    if n == 62 then '-' else if n == 63 then '_' else Letter(n)
  }

  function UrlValue(c: char): Sextet
    requires IsUrlChar(c)
  {
    if c == '-' then 62 else if c == '_' then 63 else Value(c).value
  }

  function UrlLetters(q: seq<Sextet>): string { seq(|q|, i requires 0 <= i < |q| => UrlLetter(q[i])) }

  function UrlValues(s: string): seq<Sextet>
    requires forall i :: 0 <= i < |s| ==> IsUrlChar(s[i])
  {
    seq(|s|, i requires 0 <= i < |s| => UrlValue(s[i]))
  }

  function Rfc(b: seq<Byte>): string { UrlLetters(Sextets(b)) }

  lemma UrlLetterOfValue(c: char)
    requires IsUrlChar(c)
    ensures UrlLetter(UrlValue(c)) == c
  {
  }

  lemma UrlValuesOfLetters(q: seq<Sextet>)
    ensures UrlValues(UrlLetters(q)) == q
  {
  }

  lemma UrlLettersOfValues(s: string)
    requires forall i :: 0 <= i < |s| ==> IsUrlChar(s[i])
    ensures UrlLetters(UrlValues(s)) == s
  {
    forall i | 0 <= i < |s| ensures UrlLetters(UrlValues(s))[i] == s[i] { UrlLetterOfValue(s[i]); }
  }

  // ---- the code's codec is the direct one ----

  /** What the three `replaceAll` calls of the encoder do to one character. */
  function UrlForm1(c: char): string {
    if c == '+' then "-" else if c == '/' then "_" else if c == '=' then "" else [c]
  }

  function UrlForm(s: string): string {
    if s == "" then "" else UrlForm1(s[0]) + UrlForm(s[1..])
  }

  lemma {:induction false} ThreeReplacementsAreOnePass(s: string)
    ensures ReplaceChar(ReplaceChar(ReplaceChar(s, '+', "-"), '/', "_"), '=', "") == UrlForm(s)
  {
    if s != "" {
      ThreeReplacementsAreOnePass(s[1..]);
      var h := if s[0] == '+' then "-" else [s[0]];
      var a := ReplaceChar(s[1..], '+', "-");
      ReplaceAppend(h, a, '/', "_");
      var h' := ReplaceChar(h, '/', "_");
      assert h[1..] == "" && h'[1..] == "";
      ReplaceAppend(h', ReplaceChar(a, '/', "_"), '=', "");
    }
  }

  lemma {:induction false} UrlFormLetters(q: seq<Sextet>, k: nat)
    ensures UrlForm(Letters(q) + Equals(k)) == UrlLetters(q)
    decreases |q|, k
  {
    var s := Letters(q) + Equals(k);
    if q != [] {
      UrlFormLetters(q[1..], k);
      assert s[1..] == Letters(q[1..]) + Equals(k);
      assert UrlForm1(Letter(q[0])) == [UrlLetter(q[0])];
    } else if k > 0 {
      UrlFormLetters(q, k - 1);
      assert s[1..] == Letters(q) + Equals(k - 1);
    }
  }

  lemma EncodeIsRfc(b: seq<Byte>)
    ensures Encode(b) == Rfc(b)
  {
    ThreeReplacementsAreOnePass(Btoa(b));
    UrlFormLetters(Sextets(b), Missing(|Sextets(b)|));
  }

  lemma {:induction false} UndoUrlLetters(v: string)
    requires forall i :: 0 <= i < |v| ==> IsUrlChar(v[i])
    ensures var n := ReplaceChar(ReplaceChar(v, '-', "+"), '_', "/");
      |n| == |v| && forall i :: 0 <= i < |v| ==> Value(n[i]) == Some(UrlValue(v[i]))
  {
    if v != "" {
      UndoUrlLetters(v[1..]);
      var h := if v[0] == '-' then "+" else [v[0]];
      ReplaceAppend(h, ReplaceChar(v[1..], '-', "+"), '_', "/");
      assert h[1..] == "";
    }
  }

  lemma {:induction false} PadEndAppends(n: string, k: nat)
    ensures PadEnd(n, |n| + k) == n + Equals(k)
    decreases k
  {
    if k == 0 {
      assert n + Equals(0) == n;
    } else {
      PadEndAppends(n + "=", k - 1);
      assert n + "=" + Equals(k - 1) == n + Equals(k);
    }
  }

  lemma MissingFills(n: nat)
    requires n % 4 != 1
    ensures Missing(n) <= 2 && (n + Missing(n)) % 4 == 0
  {
  }

  lemma AtobDropsPadding(n: string)
    requires |n| % 4 != 1 && IsBase64(n)
    ensures Atob(n + Equals(Missing(|n|))) == Some(Bytes(Values(n)))
  {
    var k := Missing(|n|);
    var s := n + Equals(k);
    MissingFills(|n|);
    assert Value('=').None?;
    assert s[..|s| - k] == n;
    if k == 0 {
      assert s == n;
      assert |n| > 0 ==> Value(s[|s| - 1]).Some?;
    } else {
      assert s[|s| - 1] == '=';
      assert |n| > 0;
      assert s[|s| - 2] == if k == 2 then '=' else n[|n| - 1];
    }
  }

  lemma NormalizedText(v: string)
    requires forall i :: 0 <= i < |v| ==> IsUrlChar(v[i])
    ensures var n := Normalized(v);
      |n| == |v| && IsBase64(n) && Values(n) == UrlValues(v)
  {
    UndoUrlLetters(v);
  }

  lemma DecodeText(v: string)
    requires IsBase64UrlString(v) && |v| % 4 != 1
    ensures Decode(v) == Some(Bytes(UrlValues(v)))
  {
    var n := Normalized(v);
    NormalizedText(v);
    assert PadEnd(n, |n| + Missing(|n|)) == n + Equals(Missing(|n|)) by { PadEndAppends(n, Missing(|n|)); }
    assert Atob(n + Equals(Missing(|n|))) == Some(Bytes(Values(n))) by { AtobDropsPadding(n); }
  }

  /** Decoding fails exactly on the empty text, text outside the alphabet and lengths 1 mod 4. */
  lemma DecodeIsRfc(v: string)
    ensures Decode(v).Some? <==> IsBase64UrlString(v) && |v| % 4 != 1
    ensures Decode(v).Some? ==> Decode(v) == Some(Bytes(UrlValues(v)))
  {
    if IsBase64UrlString(v) && |v| % 4 != 1 {
      DecodeText(v);
    }
  }

  // ---- round trips ----

  /** `base64UrlDecode(base64UrlEncode(b))` is `b` exactly when `b` has a byte: the empty text is rejected. */
  lemma RoundTrip(b: seq<Byte>)
    ensures Decode(Encode(b)) == Some(b) <==> b != []
    ensures b != [] ==> IsBase64UrlString(Encode(b))
    ensures |Encode(b)| == (4 * |b| + 2) / 3 && |Encode(b)| % 4 != 1
  {
    EncodeIsRfc(b);
    SextetCount(b);
    DecodeIsRfc(Encode(b));
    UrlValuesOfLetters(Sextets(b));
    BytesOfSextets(b);
  }

  lemma EncodeInjective(a: seq<Byte>, b: seq<Byte>)
    requires Encode(a) == Encode(b)
    ensures a == b
  {
    EncodeIsRfc(a);
    EncodeIsRfc(b);
    UrlValuesOfLetters(Sextets(a));
    UrlValuesOfLetters(Sextets(b));
    BytesOfSextets(a);
    BytesOfSextets(b);
  }

  /** Decoding is not injective: a text is the encoding of what it decodes to only when its spare bits are zero. */
  lemma DecodedTextIsEncodingIffCanonical(v: string)
    requires Decode(v).Some?
    ensures IsBase64UrlString(v)
    ensures Encode(Decode(v).value) == v <==> Canonical(UrlValues(v))
  {
    DecodeIsRfc(v);
    var q := UrlValues(v);
    EncodeIsRfc(Bytes(q));
    SextetsOfBytes(q);
    UrlLettersOfValues(v);
    if Encode(Bytes(q)) == v {
      UrlValuesOfLetters(Sextets(Bytes(q)));
    }
  }

  // ---- constant-time comparison ----

  lemma DiffBit(diff: bv8, a: bv8, b: bv8)
    ensures diff | (a ^ b) == 0 <==> diff == 0 && a == b
  {
  }

  /** The comparison looks at every byte and still decides equality exactly. */
  method ConstantTimeEqualBytes(left: seq<bv8>, right: seq<bv8>) returns (equal: bool)
    ensures equal <==> left == right
  {
    if |left| != |right| {
      return false;
    }
    var diff: bv8 := 0;
    var i := 0;
    while i < |left|
      invariant 0 <= i <= |left|
      invariant diff == 0 <==> left[..i] == right[..i]
    {
      DiffBit(diff, left[i], right[i]);
      assert left[..i + 1] == left[..i] + [left[i]] && right[..i + 1] == right[..i] + [right[i]];
      diff := diff | (left[i] ^ right[i]);
      i := i + 1;
    }
    assert left[..i] == left && right[..i] == right;
    return diff == 0;
  }
}
