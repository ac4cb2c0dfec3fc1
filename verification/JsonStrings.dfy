/** The JSON string literals inside selectors: the writer and the decoder of filter.ts. */
module JsonStrings {
  import opened Text
  import opened Wrappers

  const QUOTE: CodeUnit := 0x22
  const LETTER_U: CodeUnit := 0x75

  // ----- Writing -----

  function HexDigit(d: int): CodeUnit
    requires 0 <= d < 16
  {
    if d < 10 then 0x30 + d else 0x41 + (d - 10)
  }

  /** Four upper-case hexadecimal digits. */
  function Hex4(u: CodeUnit): Str {
    [HexDigit(u / 0x1000), HexDigit(u / 0x100 % 16), HexDigit(u / 0x10 % 16), HexDigit(u % 16)]
  }

  function EscapeUnit(u: CodeUnit): (r: Str)
    ensures |r| > 0
  {
    if u == QUOTE then [BACKSLASH, QUOTE]
    else if u == BACKSLASH then [BACKSLASH, BACKSLASH]
    else if u == 0x0A then [BACKSLASH, 0x6E]
    else if u == 0x0D then [BACKSLASH, 0x72]
    else if u == 0x09 then [BACKSLASH, 0x74]
    else if u == 0x08 then [BACKSLASH, 0x62]
    else if u == 0x0C then [BACKSLASH, 0x66]
    else if u < 0x20 then [BACKSLASH, LETTER_U] + Hex4(u)
    else [u]
  }

  function Escape(s: Str): Str {
    if s == [] then [] else EscapeUnit(s[0]) + Escape(s[1..])
  }

  function JsonString(s: Str): Str {
    [QUOTE] + Escape(s) + [QUOTE]
  }

  lemma {:induction false} EscapeConcat(a: Str, b: Str)
    ensures Escape(a + b) == Escape(a) + Escape(b)
  {
    if a == [] {
      assert a + b == b;
    } else {
      assert (a + b)[1..] == a[1..] + b;
      EscapeConcat(a[1..], b);
    }
  }

  lemma {:induction false} EscapeOne(u: CodeUnit)
    ensures Escape([u]) == EscapeUnit(u)
  {
    assert [u][1..] == [];
    EmptyFront(EscapeUnit(u));
  }

  lemma {:induction false} EscapePair(hi: CodeUnit, lo: CodeUnit)
    requires IsHigh(hi) && IsLow(lo)
    ensures Escape([hi, lo]) == [hi, lo]
  {
    assert [hi, lo] == [hi] + [lo];
    EscapeOne(hi);
    EscapeOne(lo);
    EscapeConcat([hi], [lo]);
    hide Escape;
  }

  lemma {:induction false} EscapeCodePoint(s: Str, i: nat)
    requires i < |s|
    ensures Escape(s[..i + Width(s, i)])
            == Escape(s[..i]) + if Width(s, i) == 2 then s[i..i + 2] else EscapeUnit(s[i])
  {
    hide Escape, EscapeUnit;
    var w := Width(s, i);
    var c := s[i..i + w];
    assert s[..i] + c == s[..i + w];
    EscapeConcat(s[..i], c);
    if w == 2 {
      assert c == [s[i], s[i + 1]];
      EscapePair(s[i], s[i + 1]);
    } else {
      assert c == [s[i]];
      EscapeOne(s[i]);
    }
  }

  predicate Written(out: Str, s: Str, i: nat)
    requires i <= |s|
  {
    out == [QUOTE] + Escape(s[..i])
  }

  lemma {:induction false} WriteNext(out: Str, s: Str, i: nat)
    requires i < |s| && Written(out, s, i)
    ensures Written(out + if Width(s, i) == 2 then s[i..i + 2] else EscapeUnit(s[i]), s, i + Width(s, i))
  {
    EscapeCodePoint(s, i);
    hide Escape, EscapeUnit;
  }

  /** `writeJsonString`: one code point at a time. */
  method WriteJsonString(s: Str) returns (out: Str)
    ensures out == JsonString(s)
  {
    out := [QUOTE];
    var i := 0;
    assert s[..0] == [] && out == [QUOTE] + [];
    while i < |s|
      invariant 0 <= i <= |s|
      invariant Written(out, s, i)
    {
      hide Written, EscapeUnit;
      var w := Width(s, i);
      WriteNext(out, s, i);
      out := out + if w == 2 then s[i..i + 2] else EscapeUnit(s[i]);
      i := i + w;
    }
    assert s[..i] == s;
    out := out + [QUOTE];
  }

  // ----- Decoding -----

  datatype JsonError = ExpectedQuote | Eof | BadUnicode | BadEscape

  function HexValue(u: CodeUnit): (r: Option<int>)
    ensures r.Some? ==> 0 <= r.value < 16
  {
    if 0x30 <= u <= 0x39 then Some(u - 0x30)
    else if 0x61 <= u <= 0x66 then Some(u - 0x61 + 10)
    else if 0x41 <= u <= 0x46 then Some(u - 0x41 + 10)
    else None
  }

  /** Reading hexadecimal digits left to right; `None` as soon as one is not. */
  function HexNumber(digits: Str): (r: Option<int>)
    ensures r.Some? ==> 0 <= r.value
    ensures r.Some? && |digits| <= 4 ==> r.value < 0x1_0000
    ensures r.Some? && |digits| <= 3 ==> r.value < 0x1000
    ensures r.Some? && |digits| <= 2 ==> r.value < 0x100
    ensures r.Some? && |digits| <= 1 ==> r.value < 0x10
    ensures r.Some? && |digits| == 0 ==> r.value == 0
  {
    if digits == [] then Some(0) else
      var front := HexNumber(digits[..|digits| - 1]);
      var last := HexValue(digits[|digits| - 1]);
      if front.Some? && last.Some? then Some(front.value * 16 + last.value) else None
  }

  lemma {:induction false} HexNumberFails(digits: Str, n: nat)
    requires n <= |digits| && HexNumber(digits[..n]).None?
    ensures HexNumber(digits).None?
    decreases |digits|
  {
    if n < |digits| {
      assert digits[..|digits| - 1][..n] == digits[..n];
      HexNumberFails(digits[..|digits| - 1], n);
    } else {
      assert digits[..n] == digits;
    }
  }

  /** What `hex4` computes: the code unit and the position after it. */
  function ReadHex4(s: Str, start: nat): (r: Result<(CodeUnit, nat), JsonError>)
    ensures r.Ok? ==> r.value.1 == start + 4 <= |s|
  {
    if start + 4 > |s| then Err(Eof)
    else match HexNumber(s[start..start + 4])
      case Some(v) => Ok((v, start + 4))
      case None => Err(BadUnicode)
  }

  method Hex4Loop(s: Str, start: nat) returns (r: Result<(CodeUnit, nat), JsonError>)
    ensures r == ReadHex4(s, start)
  {
    if start + 4 > |s| { return Err(Eof); }
    var v, j := 0, 0;
    ghost var digits := s[start..start + 4];
    while j < 4
      invariant 0 <= j <= 4
      invariant HexNumber(digits[..j]) == Some(v)
    {
      assert digits[..j + 1][..j] == digits[..j];
      var b := HexValue(s[start + j]);
      if b.None? {
        HexNumberFails(digits, j + 1);
        return Err(BadUnicode);
      }
      v := v * 16 + b.value;
      j := j + 1;
    }
    assert digits[..4] == digits;
    return Ok((v, start + 4));
  }

  function SimpleEscape(u: CodeUnit): Option<CodeUnit> {
    if u == QUOTE || u == BACKSLASH || u == 0x2F then Some(u)
    else if u == 0x62 then Some(0x08)
    else if u == 0x66 then Some(0x0C)
    else if u == 0x6E then Some(0x0A)
    else if u == 0x72 then Some(0x0D)
    else if u == 0x74 then Some(0x09)
    else None
  }

  /** The escape whose letter is at `i`: the units it stands for, and where it ends. */
  function ReadEscape(input: Str, i: nat): (r: Result<(Str, nat), JsonError>)
    ensures r.Ok? ==> i < r.value.1 <= |input|
  {
    if i >= |input| then Err(Eof)
    else if SimpleEscape(input[i]).Some? then Ok(([SimpleEscape(input[i]).value], i + 1))
    else if input[i] != LETTER_U then Err(BadEscape)
    else match ReadHex4(input, i + 1)
      case Err(e) => Err(e)
      case Ok((cu1, next)) =>
        if IsHigh(cu1) then
          if next + 2 > |input| || input[next] != BACKSLASH || input[next + 1] != LETTER_U then Err(BadUnicode)
          else match ReadHex4(input, next + 2)
            case Err(e) => Err(e)
            case Ok((cu2, next2)) => if IsLow(cu2) then Ok(([cu1, cu2], next2)) else Err(BadUnicode)
        else if IsLow(cu1) then Err(BadUnicode)
        else Ok(([cu1], next))
  }

  /** One escape or one raw code point at `i`. */
  function ReadChunk(input: Str, i: nat): (r: Result<(Str, nat), JsonError>)
    requires i < |input|
    ensures r.Ok? ==> i < r.value.1 <= |input|
  {
    if input[i] == BACKSLASH then ReadEscape(input, i + 1)
    else Ok((input[i..i + Width(input, i)], i + Width(input, i)))
  }

  function Prepend(out: Str, r: Result<(Str, nat), JsonError>): Result<(Str, nat), JsonError> {
    match r
    case Ok((s, end)) => Ok((out + s, end))
    case Err(e) => Err(e)
  }

  /** The string from `i` up to its closing quote, and the position after that quote. */
  function DecodeBody(input: Str, i: nat): (r: Result<(Str, nat), JsonError>)
    ensures r.Ok? ==> i < r.value.1 <= |input|
    decreases |input| - i
  {
    if i >= |input| then Err(Eof)
    else if input[i] == QUOTE then Ok(([], i + 1))
    else match ReadChunk(input, i)
      case Err(e) => Err(e)
      case Ok((chunk, next)) => Prepend(chunk, DecodeBody(input, next))
  }

  function Decode(input: Str, pos: nat): (r: Result<(Str, nat), JsonError>)
    ensures r.Ok? ==> pos + 1 < r.value.1 <= |input|
  {
    if pos >= |input| || input[pos] != QUOTE then Err(ExpectedQuote) else DecodeBody(input, pos + 1)
  }

  /** The escape cases of the decoder. */
  method DecodeEscape(input: Str, start: nat) returns (r: Result<(Str, nat), JsonError>)
    ensures r == ReadEscape(input, start)
  {
    if start >= |input| { return Err(Eof); }
    var letter := input[start];
    if letter == 0x22 { return Ok(([0x22], start + 1)); }
    if letter == 0x5C { return Ok(([0x5C], start + 1)); }
    if letter == 0x2F { return Ok(([0x2F], start + 1)); }
    if letter == 0x62 { return Ok(([0x08], start + 1)); }
    if letter == 0x66 { return Ok(([0x0C], start + 1)); }
    if letter == 0x6E { return Ok(([0x0A], start + 1)); }
    if letter == 0x72 { return Ok(([0x0D], start + 1)); }
    if letter == 0x74 { return Ok(([0x09], start + 1)); }
    if letter != 0x75 { return Err(BadEscape); }
    hide ReadHex4;
    var first := Hex4Loop(input, start + 1);
    if first.Err? { return Err(first.error); }
    var (cu1, next) := first.value;
    if 0xD800 <= cu1 <= 0xDBFF {
      if next + 2 > |input| || input[next] != 0x5C || input[next + 1] != 0x75 { return Err(BadUnicode); }
      var second := Hex4Loop(input, next + 2);
      if second.Err? { return Err(second.error); }
      var (cu2, next2) := second.value;
      if cu2 < 0xDC00 || cu2 > 0xDFFF { return Err(BadUnicode); }
      return Ok(([cu1, cu2], next2));
    }
    if 0xDC00 <= cu1 <= 0xDFFF { return Err(BadUnicode); }
    return Ok(([cu1], next));
  }

  /** One round of the decoder: an escape, or a raw code point. */
  method DecodeChunk(input: Str, i: nat) returns (r: Result<(Str, nat), JsonError>)
    requires i < |input|
    ensures r == ReadChunk(input, i)
  {
    hide ReadEscape;
    if input[i] == BACKSLASH { r := DecodeEscape(input, i + 1); return; }
    var pair := 0xD800 <= input[i] <= 0xDBFF && i + 1 < |input| && 0xDC00 <= input[i + 1] <= 0xDFFF;
    var next := if pair then i + 2 else i + 1;
    return Ok((input[i..next], next));
  }

  /** `decodeJsonStringLiteral`, with its thrown codes as errors. */
  method DecodeJsonStringLiteral(input: Str, pos: nat) returns (r: Result<(Str, nat), JsonError>)
    ensures r == Decode(input, pos)
  {
    if pos >= |input| || input[pos] != QUOTE { return Err(ExpectedQuote); }
    var i, out: Str := pos + 1, [];
    PrependNothing(DecodeBody(input, i));
    while i < |input|
      invariant pos < i <= |input|
      invariant Prepend(out, DecodeBody(input, i)) == Decode(input, pos)
    {
      if input[i] == QUOTE {
        assert out + [] == out;
        return Ok((out, i + 1));
      }
      hide ReadChunk;
      var chunk := DecodeChunk(input, i);
      if chunk.Err? { return Err(chunk.error); }
      var (units, next) := chunk.value;
      PrependTwice(out, units, DecodeBody(input, next));
      out := out + units;
      i := next;
    }
    return Err(Eof);
  }

  lemma {:induction false} PrependNothing(r: Result<(Str, nat), JsonError>)
    ensures Prepend([], r) == r
  {
    if r.Ok? { assert [] + r.value.0 == r.value.0; }
  }

  lemma {:induction false} PrependTwice(a: Str, b: Str, r: Result<(Str, nat), JsonError>)
    ensures Prepend(a, Prepend(b, r)) == Prepend(a + b, r)
  {
    if r.Ok? { assert a + (b + r.value.0) == (a + b) + r.value.0; }
  }

  // ----- Decoding inverts writing -----

  lemma {:induction false} Hex4RoundTrip(u: CodeUnit)
    requires u < 0x20
    ensures HexNumber(Hex4(u)) == Some(u)
  {
    var h := Hex4(u);
    var a, b, c := h[..3], h[..2], h[..1];
    assert a[..2] == b && b[..1] == c && c[..0] == [];
    assert HexNumber(c) == Some(0);
    assert HexNumber(b) == Some(0);
    assert HexNumber(a) == Some(u / 16);
  }

  lemma {:induction false} EscapedUnitReadBack(input: Str, i: nat, u: CodeUnit)
    requires At(input, i, EscapeUnit(u)) && EscapeUnit(u) != [u]
    ensures input[i] == BACKSLASH && ReadEscape(input, i + 1) == Ok(([u], i + |EscapeUnit(u)|))
  {
    var e := EscapeUnit(u);
    assert input[i] == e[0] && input[i + 1] == e[1] by { assert input[i..i + |e|] == e; }
    if e[1] == LETTER_U {
      assert input[i + 2..i + 6] == e[2..] == Hex4(u) by { assert input[i..i + |e|] == e; }
      Hex4RoundTrip(u);
    }
  }

  /** Section 7 of RFC 8259: whatever follows, the decoder returns `k` and stops right after the closing quote. */
  lemma {:induction false} DecodeEscaped(input: Str, i: nat, k: Str)
    requires At(input, i, Escape(k) + [QUOTE])
    ensures DecodeBody(input, i) == Ok((k, i + |Escape(k)| + 1))
    decreases |k|
  {
    hide *;
    if k == [] {
      DecodeEnd(input, i, k);
    } else {
      var n := FirstChunk(k);
      SplitEscape(k, n);
      ChunkReadBack(input, i, k);
      var next := i + |Escape(k[..n])|;
      DecodeEscaped(input, next, k[n..]);
      PrependOk(DecodeBody(input, i), k[..n], DecodeBody(input, next), k[n..], i + |Escape(k)| + 1);
    }
  }

  lemma {:induction false} PrependOk(whole: Result<(Str, nat), JsonError>, a: Str, r: Result<(Str, nat), JsonError>,
                                     b: Str, end: nat)
    requires whole == Prepend(a, r) && r == Ok((b, end))
    ensures whole == Ok((a + b, end))
  {
  }

  lemma {:induction false} DecodeEnd(input: Str, i: nat, k: Str)
    requires k == [] && At(input, i, Escape(k) + [QUOTE])
    ensures DecodeBody(input, i) == Ok((k, i + |Escape(k)| + 1))
  {
    assert [] + [QUOTE] == [QUOTE] && input[i..i + 1] == [QUOTE];
  }

  /** How many units of `k` the decoder will read back at once. */
  function FirstChunk(k: Str): (n: nat)
    requires k != []
    ensures 1 <= n <= |k|
  {
    if EscapeUnit(k[0]) == [k[0]] then Width(k, 0) else 1
  }

  lemma {:induction false} SplitEscape(k: Str, n: nat)
    requires n <= |k|
    ensures k == k[..n] + k[n..]
    ensures Escape(k) == Escape(k[..n]) + Escape(k[n..])
    ensures Escape(k) + [QUOTE] == Escape(k[..n]) + (Escape(k[n..]) + [QUOTE])
  {
    assert k == k[..n] + k[n..];
    EscapeConcat(k[..n], k[n..]);
  }

  lemma {:induction false} EscapeFirstChunk(k: Str)
    requires k != []
    ensures Escape(k[..FirstChunk(k)]) == if EscapeUnit(k[0]) == [k[0]] then k[..FirstChunk(k)] else EscapeUnit(k[0])
  {
    EscapeCodePoint(k, 0);
    assert k[..0] == [] && k[..1] == [k[0]] && k[..1][1..] == [];
    assert Escape(k[..1]) == EscapeUnit(k[0]) + Escape([]);
  }

  /** The decoder reads back, as one chunk, the first code point that was written. */
  lemma {:induction false} ChunkReadBack(input: Str, i: nat, k: Str)
    requires k != [] && At(input, i, Escape(k) + [QUOTE])
    ensures var n, next := FirstChunk(k), i + |Escape(k[..FirstChunk(k)])|;
            && DecodeBody(input, i) == Prepend(k[..n], DecodeBody(input, next))
            && At(input, next, Escape(k[n..]) + [QUOTE])
  {
    var n := FirstChunk(k);
    var next := i + |Escape(k[..n])|;
    EscapeFirstChunk(k);
    SplitEscape(k, n);
    AtConcat(input, i, Escape(k[..n]), Escape(k[n..]) + [QUOTE]);
    if EscapeUnit(k[0]) == [k[0]] {
      RawReadBack(input, i, k);
    } else {
      assert k[..n] == [k[0]];
      EscapedUnitReadBack(input, i, k[0]);
    }
    DecodeStep(input, i, k[..n], next);
  }

  lemma {:induction false} DecodeStep(input: Str, i: nat, chunk: Str, next: nat)
    requires i < |input| && input[i] != QUOTE && ReadChunk(input, i) == Ok((chunk, next))
    ensures DecodeBody(input, i) == Prepend(chunk, DecodeBody(input, next))
  {
  }

  lemma {:induction false} RawReadBack(input: Str, i: nat, k: Str)
    requires k != [] && EscapeUnit(k[0]) == [k[0]]
    requires At(input, i, Escape(k) + [QUOTE])
    ensures input[i] == k[0] && Width(input, i) == Width(k, 0) && input[i..i + Width(k, 0)] == k[..Width(k, 0)]
  {
    hide *;
    EscapeRawHead(k);
    AtCons(input, i, k[0], Escape(k[1..]) + [QUOTE]);
    NextUnit(input, i + 1, k[1..]);
    SameWidth(input, i, k);
  }

  lemma {:induction false} EscapeRawHead(k: Str)
    requires k != [] && EscapeUnit(k[0]) == [k[0]]
    ensures Escape(k) + [QUOTE] == [k[0]] + (Escape(k[1..]) + [QUOTE])
  {
    hide EscapeUnit;
    Reassociate([k[0]], Escape(k[1..]), [QUOTE]);
  }

  lemma {:induction false} SameWidth(input: Str, i: nat, k: Str)
    requires k != [] && i + 1 < |input| && input[i] == k[0]
    requires IsLow(input[i + 1]) <==> k[1..] != [] && IsLow(k[1..][0])
    requires k[1..] != [] && IsLow(k[1..][0]) ==> input[i + 1] == k[1..][0]
    ensures Width(input, i) == Width(k, 0) && input[i..i + Width(k, 0)] == k[..Width(k, 0)]
  {
    if Width(k, 0) == 2 {
      assert input[i..i + 2] == [k[0], k[1]] == k[..2];
    } else {
      assert input[i..i + 1] == [k[0]] == k[..1];
    }
  }

  /** After a raw unit, a low surrogate follows in the text exactly when it follows in the key. */
  lemma {:induction false} NextUnit(input: Str, i: nat, rest: Str)
    requires At(input, i, Escape(rest) + [QUOTE])
    ensures i < |input|
    ensures IsLow(input[i]) <==> rest != [] && IsLow(rest[0])
    ensures rest != [] && IsLow(rest[0]) ==> input[i] == rest[0]
  {
    var t := Escape(rest) + [QUOTE];
    assert input[i] == t[0] by { assert input[i..i + |t|] == t; }
  }

  lemma {:induction false} DecodeWritten(input: Str, pos: nat, k: Str)
    requires At(input, pos, JsonString(k))
    ensures Decode(input, pos) == Ok((k, pos + |JsonString(k)|))
  {
    hide Escape, DecodeBody;
    Reassociate([QUOTE], Escape(k), [QUOTE]);
    AtCons(input, pos, QUOTE, Escape(k) + [QUOTE]);
    DecodeEscaped(input, pos + 1, k);
  }

  /** The same for an explicit suffix. */
  lemma {:induction false} JsonStringRoundTrip(k: Str, suffix: Str)
    ensures Decode(JsonString(k) + suffix, 0) == Ok((k, |JsonString(k)|))
  {
    var input := JsonString(k) + suffix;
    assert input[0..0 + |JsonString(k)|] == JsonString(k);
    DecodeWritten(input, 0, k);
  }

  // ----- The escapes, spelled out -----

  const LOWER_HEX := Ascii("0123456789abcdef")
  const UPPER_HEX := Ascii("0123456789ABCDEF")

  /** A hexadecimal digit is one of sixteen characters in either case, and its value is its place. */
  lemma {:induction false} HexValueSpelled(u: CodeUnit, v: int)
    ensures HexValue(u) == Some(v) <==> 0 <= v < 16 && (u == LOWER_HEX[v] || u == UPPER_HEX[v])
  {
  }

  lemma {:induction false} HexDigitSpelled(d: int)
    requires 0 <= d < 16
    ensures HexDigit(d) == UPPER_HEX[d]
  {
  }

  const ESCAPE_LETTERS := Ascii("\"\\/bfnrt")
  const ESCAPE_MEANINGS: Str := [0x22, 0x5C, 0x2F, 0x08, 0x0C, 0x0A, 0x0D, 0x09]

  /** The one-letter escapes are the eight of section 7 of RFC 8259. */
  lemma {:induction false} SimpleEscapeSpelled(u: CodeUnit, v: CodeUnit)
    ensures SimpleEscape(u) == Some(v)
            <==> exists k :: 0 <= k < 8 && u == ESCAPE_LETTERS[k] && v == ESCAPE_MEANINGS[k]
  {
    var k := if u == 0x22 then 0 else if u == 0x5C then 1 else if u == 0x2F then 2 else if u == 0x62 then 3
             else if u == 0x66 then 4 else if u == 0x6E then 5 else if u == 0x72 then 6 else 7;
    if SimpleEscape(u) == Some(v) { assert u == ESCAPE_LETTERS[k] && v == ESCAPE_MEANINGS[k]; }
  }

  /** What is written for each unit: a short escape, four upper-case digits for other controls, or the unit itself. */
  lemma {:induction false} EscapeSpelled(u: CodeUnit)
    ensures EscapeUnit(u)
            == if u == 0x22 then Ascii("\\\"") else if u == 0x5C then Ascii("\\\\")
               else if u == 0x0A then Ascii("\\n") else if u == 0x0D then Ascii("\\r")
               else if u == 0x09 then Ascii("\\t") else if u == 0x08 then Ascii("\\b")
               else if u == 0x0C then Ascii("\\f")
               else if u < 0x20 then Ascii("\\u00") + [UPPER_HEX[u / 16], UPPER_HEX[u % 16]]
               else [u]
  {
    HexDigitSpelled(u % 16);
    HexDigitSpelled(0);
    if u < 0x20 { ControlSpelled(u); }
  }

  lemma {:induction false} ControlSpelled(u: CodeUnit)
    requires u < 0x20
    ensures [BACKSLASH, LETTER_U] + Hex4(u) == Ascii("\\u00") + [UPPER_HEX[u / 16], UPPER_HEX[u % 16]]
  {
    HexDigitSpelled(0);
    HexDigitSpelled(u / 16);
    HexDigitSpelled(u % 16);
  }

  // ----- Which literals the decoder accepts, and what they denote -----

  /** A unit on its own, a one-letter escape, a `\u` escape, or a `\u` escape for each half of a surrogate pair. */
  datatype Piece = Raw(unit: CodeUnit) | Short(letter: CodeUnit) | Hex(digits: Str) | Pair(high: Str, low: Str)

  predicate IsHex4(digits: Str) { |digits| == 4 && HexNumber(digits).Some? }

  /** Any unit but a quote or a backslash may stand on its own, controls and lone surrogates included. */
  predicate ValidPiece(p: Piece) {
    match p
    case Raw(u) => u != QUOTE && u != BACKSLASH
    case Short(letter) => SimpleEscape(letter).Some?
    case Hex(d) => IsHex4(d) && !IsHigh(HexNumber(d).value) && !IsLow(HexNumber(d).value)
    case Pair(h, l) => IsHex4(h) && IsHex4(l) && IsHigh(HexNumber(h).value) && IsLow(HexNumber(l).value)
  }

  function PieceText(p: Piece): (r: Str)
    ensures |r| > 0
  {
    match p
    case Raw(u) => [u]
    case Short(letter) => [BACKSLASH, letter]
    case Hex(d) => [BACKSLASH, LETTER_U] + d
    case Pair(h, l) => [BACKSLASH, LETTER_U] + h + ([BACKSLASH, LETTER_U] + l)
  }

  function PieceMeaning(p: Piece): Str
    requires ValidPiece(p)
  {
    match p
    case Raw(u) => [u]
    case Short(letter) => [SimpleEscape(letter).value]
    case Hex(d) => [HexNumber(d).value]
    case Pair(h, l) => [HexNumber(h).value, HexNumber(l).value]
  }

  predicate AllValid(ps: seq<Piece>) { forall k :: 0 <= k < |ps| ==> ValidPiece(ps[k]) }

  function LiteralText(ps: seq<Piece>): Str {
    if ps == [] then [] else PieceText(ps[0]) + LiteralText(ps[1..])
  }

  function Meaning(ps: seq<Piece>): Str
    requires AllValid(ps)
  {
    if ps == [] then [] else PieceMeaning(ps[0]) + Meaning(ps[1..])
  }

  /** Reading code point by code point is reading unit by unit. */
  lemma {:induction false} RawUnit(input: Str, i: nat)
    requires i < |input| && input[i] != QUOTE && input[i] != BACKSLASH
    ensures DecodeBody(input, i) == Prepend([input[i]], DecodeBody(input, i + 1))
  {
    hide ReadEscape;
    assert input[i..i + 1] == [input[i]];
    if Width(input, i) == 2 {
      assert input[i + 1..i + 2] == [input[i + 1]];
      var rest := DecodeBody(input, i + 2);
      assert input[i..i + 2] == [input[i]] + [input[i + 1]];
      assert DecodeBody(input, i + 1) == Prepend([input[i + 1]], rest);
      PrependTwice([input[i]], [input[i + 1]], rest);
    }
  }

  lemma {:induction false} HexAt(input: Str, i: nat, d: Str)
    requires IsHex4(d) && At(input, i, [BACKSLASH, LETTER_U] + d)
    ensures i + 6 <= |input| && input[i] == BACKSLASH && input[i + 1] == LETTER_U
    ensures ReadHex4(input, i + 2) == Ok((HexNumber(d).value, i + 6))
  {
    AtConcat(input, i, [BACKSLASH, LETTER_U], d);
    AtUnit(input, i, [BACKSLASH, LETTER_U], 0);
    AtUnit(input, i, [BACKSLASH, LETTER_U], 1);
    hide HexNumber;
  }

  lemma {:induction false} RawStep(input: Str, i: nat, p: Piece)
    requires p.Raw? && ValidPiece(p) && At(input, i, PieceText(p))
    ensures DecodeBody(input, i) == Prepend(PieceMeaning(p), DecodeBody(input, i + |PieceText(p)|))
  {
    hide DecodeBody, HexNumber;
    AtUnit(input, i, [p.unit], 0);
    RawUnit(input, i);
  }

  lemma {:induction false} ShortRead(input: Str, i: nat, p: Piece)
    requires p.Short? && ValidPiece(p) && At(input, i, PieceText(p))
    ensures i < |input| && input[i] == BACKSLASH
    ensures ReadEscape(input, i + 1) == Ok((PieceMeaning(p), i + |PieceText(p)|))
  {
    hide HexNumber, ReadHex4;
    AtUnit(input, i, [BACKSLASH, p.letter], 0);
    AtUnit(input, i, [BACKSLASH, p.letter], 1);
  }

  lemma {:induction false} HexRead(input: Str, i: nat, p: Piece)
    requires p.Hex? && ValidPiece(p) && At(input, i, PieceText(p))
    ensures i < |input| && input[i] == BACKSLASH
    ensures ReadEscape(input, i + 1) == Ok((PieceMeaning(p), i + |PieceText(p)|))
  {
    hide HexNumber, ReadHex4;
    HexAt(input, i, p.digits);
  }

  lemma {:induction false} PairRead(input: Str, i: nat, p: Piece)
    requires p.Pair? && ValidPiece(p) && At(input, i, PieceText(p))
    ensures i < |input| && input[i] == BACKSLASH
    ensures ReadEscape(input, i + 1) == Ok((PieceMeaning(p), i + |PieceText(p)|))
  {
    hide HexNumber, ReadHex4, ReadEscape;
    AtConcat(input, i, [BACKSLASH, LETTER_U] + p.high, [BACKSLASH, LETTER_U] + p.low);
    HexAt(input, i, p.high);
    HexAt(input, i + 6, p.low);
    PairEscape(input, i, HexNumber(p.high).value, HexNumber(p.low).value);
  }

  lemma {:induction false} PairEscape(input: Str, i: nat, high: CodeUnit, low: CodeUnit)
    requires i + 8 <= |input| && input[i + 1] == LETTER_U && input[i + 6] == BACKSLASH && input[i + 7] == LETTER_U
    requires ReadHex4(input, i + 2) == Ok((high, i + 6)) && ReadHex4(input, i + 8) == Ok((low, i + 12))
    requires IsHigh(high) && IsLow(low)
    ensures ReadEscape(input, i + 1) == Ok(([high, low], i + 12))
  {
    hide ReadHex4;
  }

  lemma {:induction false} EscapeStep(input: Str, i: nat, p: Piece)
    requires i < |input| && input[i] == BACKSLASH && ValidPiece(p)
    requires ReadEscape(input, i + 1) == Ok((PieceMeaning(p), i + |PieceText(p)|))
    ensures DecodeBody(input, i) == Prepend(PieceMeaning(p), DecodeBody(input, i + |PieceText(p)|))
  {
    hide ReadEscape, PieceText, PieceMeaning, ValidPiece, DecodeBody;
    DecodeStep(input, i, PieceMeaning(p), i + |PieceText(p)|);
  }

  /** The decoder reads a valid piece as what it means, and goes on after it. */
  lemma {:induction false} PieceStep(input: Str, i: nat, p: Piece)
    requires ValidPiece(p) && At(input, i, PieceText(p))
    ensures DecodeBody(input, i) == Prepend(PieceMeaning(p), DecodeBody(input, i + |PieceText(p)|))
  {
    hide *;
    if p.Raw? {
      RawStep(input, i, p);
    } else {
      match p {
        case Short(_) => ShortRead(input, i, p);
        case Hex(_) => HexRead(input, i, p);
        case Pair(_, _) => PairRead(input, i, p);
      }
      EscapeStep(input, i, p);
    }
  }

  /** What the decoder reads next is a valid piece. */
  lemma {:induction false} FirstPiece(input: Str, i: nat) returns (p: Piece)
    requires i < |input| && DecodeBody(input, i).Ok? && input[i] != QUOTE
    ensures ValidPiece(p) && At(input, i, PieceText(p))
  {
    hide HexNumber;
    if input[i] != BACKSLASH {
      p := Raw(input[i]);
    } else if SimpleEscape(input[i + 1]).Some? {
      p := Short(input[i + 1]);
    } else {
      var d := input[i + 2..i + 6];
      assert input[i..i + 6] == [BACKSLASH, LETTER_U] + d;
      if IsHigh(HexNumber(d).value) {
        var l := input[i + 8..i + 12];
        assert input[i + 6..i + 12] == [BACKSLASH, LETTER_U] + l;
        AtConcat(input, i, [BACKSLASH, LETTER_U] + d, [BACKSLASH, LETTER_U] + l);
        p := Pair(d, l);
      } else {
        p := Hex(d);
      }
    }
  }

  lemma {:induction false} PiecesStep(ps: seq<Piece>)
    requires ps != [] && AllValid(ps)
    ensures ValidPiece(ps[0]) && AllValid(ps[1..]) && Meaning(ps) == PieceMeaning(ps[0]) + Meaning(ps[1..])
    ensures LiteralText(ps) + [QUOTE] == PieceText(ps[0]) + (LiteralText(ps[1..]) + [QUOTE])
    ensures |LiteralText(ps)| == |PieceText(ps[0])| + |LiteralText(ps[1..])|
  {
    hide PieceText, PieceMeaning, ValidPiece;
    Reassociate(PieceText(ps[0]), LiteralText(ps[1..]), [QUOTE]);
  }

  lemma {:induction false} NoPieces(input: Str, i: nat, ps: seq<Piece>)
    requires ps == []
    ensures AllValid(ps) && Meaning(ps) == [] && LiteralText(ps) == [] && LiteralText(ps) + [QUOTE] == [QUOTE]
    ensures At(input, i, [QUOTE]) <==> i < |input| && input[i] == QUOTE
    ensures At(input, i, [QUOTE]) ==> DecodeBody(input, i) == Ok(([], i + 1))
  {
    EmptyFront([QUOTE]);
    if i < |input| { assert input[i..i + 1] == [input[i]]; }
  }

  lemma {:induction false} PiecesDecode(input: Str, i: nat, ps: seq<Piece>)
    requires AllValid(ps) && At(input, i, LiteralText(ps) + [QUOTE])
    ensures DecodeBody(input, i) == Ok((Meaning(ps), i + |LiteralText(ps)| + 1))
    decreases |ps|
  {
    hide *;
    if ps == [] {
      NoPieces(input, i, ps);
    } else {
      PiecesStep(ps);
      var next := i + |PieceText(ps[0])|;
      AtConcat(input, i, PieceText(ps[0]), LiteralText(ps[1..]) + [QUOTE]);
      PieceStep(input, i, ps[0]);
      PiecesDecode(input, next, ps[1..]);
      PrependOk(DecodeBody(input, i), PieceMeaning(ps[0]), DecodeBody(input, next), Meaning(ps[1..]),
                i + |LiteralText(ps)| + 1);
    }
  }

  lemma {:induction false} RestDecodes(a: Str, r: Result<(Str, nat), JsonError>)
    ensures Prepend(a, r).Ok? <==> r.Ok?
  {
  }

  lemma {:induction false} DecodedPieces(input: Str, i: nat) returns (ps: seq<Piece>)
    requires i < |input| && DecodeBody(input, i).Ok?
    ensures AllValid(ps) && At(input, i, LiteralText(ps) + [QUOTE])
    decreases |input| - i
  {
    hide *;
    if input[i] == QUOTE {
      ps := [];
      NoPieces(input, i, ps);
    } else {
      var p := FirstPiece(input, i);
      PieceStep(input, i, p);
      var next := i + |PieceText(p)|;
      RestDecodes(PieceMeaning(p), DecodeBody(input, next));
      var rest := DecodedPieces(input, next);
      ps := [p] + rest;
      HeadAndTail(p, rest);
      MoreValid(p, rest);
      PiecesStep(ps);
      AtConcat(input, i, PieceText(p), LiteralText(rest) + [QUOTE]);
    }
  }

  lemma {:induction false} MoreValid(p: Piece, rest: seq<Piece>)
    requires ValidPiece(p) && AllValid(rest)
    ensures AllValid([p] + rest)
  {
  }

  /** The literal at `pos` is a quote, these pieces, and a quote, and means what they mean. */
  ghost predicate IsLiteral(input: Str, pos: nat, ps: seq<Piece>, out: Str, end: nat) {
    && AllValid(ps) && out == Meaning(ps)
    && At(input, pos, [QUOTE] + (LiteralText(ps) + [QUOTE])) && end == pos + |LiteralText(ps)| + 2
  }

  /** The decoder accepts exactly the literals of that grammar, and returns what they denote and where they end. */
  lemma {:induction false} DecodesExactlyLiterals(input: Str, pos: nat, out: Str, end: nat)
    ensures Decode(input, pos) == Ok((out, end)) <==> exists ps :: IsLiteral(input, pos, ps, out, end)
  {
    hide DecodeBody, At, LiteralText, Meaning, AllValid;
    if Decode(input, pos) == Ok((out, end)) {
      var ps := DecodedPieces(input, pos + 1);
      AtCons(input, pos, QUOTE, LiteralText(ps) + [QUOTE]);
      PiecesDecode(input, pos + 1, ps);
      assert IsLiteral(input, pos, ps, out, end);
    }
    if ps :| IsLiteral(input, pos, ps, out, end) {
      AtCons(input, pos, QUOTE, LiteralText(ps) + [QUOTE]);
      PiecesDecode(input, pos + 1, ps);
    }
  }
}
