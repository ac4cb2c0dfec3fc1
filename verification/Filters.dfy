/** Selector filters, their text form, and the filter parsers (selector/filter.ts). */
module Filters {
  import opened Text
  import opened Wrappers
  import opened JsonStrings
  import IpldModel

  datatype Filter =
    | ArrayIndex(index: int)
    | Field(key: Str)
    | Slice(start: Option<int>, end: Option<int>)
    | Values
    | Try(inner: Filter)

  const DOT: CodeUnit := 0x2E
  const OPEN: CodeUnit := 0x5B
  const CLOSE: CodeUnit := 0x5D
  const COLON: CodeUnit := 0x3A
  const QUERY: CodeUnit := 0x3F
  const MINUS: CodeUnit := 0x2D
  const UNDERSCORE: CodeUnit := 0x5F

  predicate IsAlpha(c: CodeUnit) { 65 <= c <= 90 || 97 <= c <= 122 }

  predicate IsDigit(c: CodeUnit) { 48 <= c <= 57 }

  predicate IsAlnum(c: CodeUnit) { IsAlpha(c) || IsDigit(c) }

  predicate IsDotFieldChar(c: CodeUnit) { IsAlnum(c) || c == UNDERSCORE }

  /** The character classes: ASCII letters, decimal digits, and what may follow the first character of an identifier. */
  lemma {:induction false} ClassesSpelled(c: CodeUnit)
    ensures IsAlpha(c) <==> 'A' as int <= c <= 'Z' as int || 'a' as int <= c <= 'z' as int
    ensures IsDigit(c) <==> '0' as int <= c <= '9' as int
    ensures IsAlnum(c) <==> IsAlpha(c) || IsDigit(c)
    ensures IsDotFieldChar(c) <==> IsAlpha(c) || IsDigit(c) || c == '_' as int
  {
  }

  // ----- Printing -----

  predicate IsIdentifier(k: Str) {
    && k != [] && (IsAlpha(k[0]) || k[0] == UNDERSCORE)
    && forall i :: 1 <= i < |k| ==> IsDotFieldChar(k[i])
  }

  /** `filterIsDotField`. */
  predicate IsDotField(f: Filter) {
    f.Field? && IsIdentifier(f.key)
  }

  /** The regular expression of `filterToString`: a quote, a dot, a backslash or a control character. */
  predicate NeedsQuotes(k: Str) {
    exists i :: 0 <= i < |k| && (k[i] == QUOTE || k[i] == DOT || k[i] == BACKSLASH || k[i] < 0x20)
  }

  function Decimal(n: nat): (r: Str)
    ensures |r| > 0 && forall i :: 0 <= i < |r| ==> IsDigit(r[i])
  {
    if n < 10 then [0x30 + n] else Decimal(n / 10) + [0x30 + n % 10]
  }

  /** `String(n)` for an integer the code can hold exactly. */
  function IntText(n: int): (r: Str)
    ensures |r| > 0 && (IsDigit(r[0]) || r[0] == MINUS)
  {
    if n < 0 then [MINUS] + Decimal(-n) else Decimal(n)
  }

  function OptIntText(n: Option<int>): Str {
    match n
    case Some(v) => IntText(v)
    case None => []
  }

  /** `filterToString`. */
  function FilterText(f: Filter): (r: Str)
    ensures |r| > 0 && (r[0] == DOT || r[0] == OPEN)
  {
    match f
    case ArrayIndex(i) => [OPEN] + IntText(i) + [CLOSE]
    case Slice(s, e) => [OPEN] + OptIntText(s) + [COLON] + OptIntText(e) + [CLOSE]
    case Field(k) => if IsDotField(f) && !NeedsQuotes(k) then [DOT] + k else [OPEN] + JsonString(k) + [CLOSE]
    case Values => [OPEN, CLOSE]
    case Try(g) => FilterText(g) + [QUERY]
  }

  function FiltersText(fs: seq<Filter>): Str {
    if fs == [] then [] else FilterText(fs[0]) + FiltersText(fs[1..])
  }

  // ----- Numbers -----

  /** The gap between neighbouring doubles around `n`. */
  function Ulp(n: nat): (u: nat)
    ensures u > 0
  {
    if n < 0x20_0000_0000_0000 then 1 else 2 * Ulp(n / 2)
  }

  /** The double nearest to `n`, ties to even: what a JavaScript number holds after `* 10` or `+ digit`. */
  function ToDouble(n: nat): nat { RoundTo(n, Ulp(n)) }

  function RoundTo(n: nat, u: nat): nat
    requires u > 0
  {
    var q, r := n / u, n % u;
    if 2 * r < u || (2 * r == u && q % 2 == 0) then q * u else (q + 1) * u
  }

  predicate PowerOfTwo(u: nat) { u == 1 || (u > 1 && u % 2 == 0 && PowerOfTwo(u / 2)) }

  /** Below 2^53 every integer is a double; from there on there are 2^52 to 2^53 gaps, of a power of two, up to `n`. */
  lemma {:induction false} UlpSpelled(n: nat)
    ensures PowerOfTwo(Ulp(n))
    ensures if n < 0x20_0000_0000_0000 then Ulp(n) == 1
            else 0x10_0000_0000_0000 <= n / Ulp(n) < 0x20_0000_0000_0000
  {
    if n >= 0x20_0000_0000_0000 {
      var u := Ulp(n / 2);
      UlpSpelled(n / 2);
      Doubles(u);
      DivideTwice(n, u);
      hide PowerOfTwo;
    }
  }

  lemma {:induction false} Doubles(u: nat)
    requires u > 0 && PowerOfTwo(u)
    ensures PowerOfTwo(2 * u)
  {
    assert 2 * u / 2 == u;
  }

  lemma {:induction false} MoreTimes(a: nat, b: nat, d: nat)
    requires a < b
    ensures a * d + d <= b * d
    decreases b
  {
    assert b * d == (b - 1) * d + d;
    if a < b - 1 { MoreTimes(a, b - 1, d); }
  }

  lemma {:induction false} QuotientIs(n: nat, d: nat, q: nat)
    requires d > 0 && q * d <= n < q * d + d
    ensures n / d == q && n % d == n - q * d
  {
    var p, r := n / d, n % d;
    assert n == p * d + r && 0 <= r < d;
    SameQuotient(p, r, q, n - q * d, d);
  }

  lemma {:induction false} SameQuotient(p: nat, r: nat, q: nat, s: nat, d: nat)
    requires r < d && s < d && p * d + r == q * d + s
    ensures p == q && r == s
  {
    if p < q { MoreTimes(p, q, d); }
    if q < p { MoreTimes(q, p, d); }
  }

  lemma {:induction false} DivideTwice(n: nat, u: nat)
    requires u > 0
    ensures n / (2 * u) == n / 2 / u
  {
    var m := n / 2;
    var q := m / u;
    assert m == q * u + m % u;
    assert q * (2 * u) == 2 * (q * u);
    hide *;
    QuotientIs(n, 2 * u, q);
  }

  /** The nearest multiple of the gap, and of two that are as near, the even one. */
  lemma {:induction false} ToDoubleSpelled(n: nat)
    ensures IsNearest(ToDouble(n), n, Ulp(n))
  {
    hide RoundTo, Ulp;
    RoundIsNearest(n, Ulp(n));
  }

  lemma {:induction false} RoundIsNearest(n: nat, u: nat)
    requires u > 0
    ensures IsNearest(RoundTo(n, u), n, u)
  {
    hide IsNearest;
    Nearest(n, u, n / u, n % u);
  }

  predicate IsNearest(d: nat, n: nat, u: nat)
    requires u > 0
  {
    && d % u == 0 && n - d <= d - n + u && d - n <= n - d + u
    && (2 * d - 2 * n == u || 2 * n - 2 * d == u ==> d / u % 2 == 0)
  }

  lemma {:induction false} Nearest(n: nat, u: nat, q: nat, r: nat)
    requires u > 0 && r < u && n == q * u + r
    ensures IsNearest(if 2 * r < u || (2 * r == u && q % 2 == 0) then q * u else (q + 1) * u, n, u)
  {
    var below, above := q * u, (q + 1) * u;
    assert above == below + u;
    QuotientIs(below, u, q);
    QuotientIs(above, u, q + 1);
    hide *;
    assert below / u == q && below % u == 0 && above / u == q + 1 && above % u == 0;
  }

  /** One step of the decimal reader. */
  function Accumulate(val: nat, digit: CodeUnit): nat
    requires IsDigit(digit)
  {
    ToDouble(ToDouble(val * 10) + (digit - 0x30))
  }

  function ScanDigits(input: Str, p: nat, val: nat): (r: (nat, nat))
    requires p <= |input|
    ensures p <= r.1 <= |input|
    ensures p < |input| && IsDigit(input[p]) ==> p < r.1
    decreases |input| - p
  {
    if p < |input| && IsDigit(input[p]) then ScanDigits(input, p + 1, Accumulate(val, input[p])) else (val, p)
  }

  function Signed(neg: bool, val: int): int {
    if neg then -val else val
  }

  /** What `parseOptSignedInt` returns: `None` for a lone minus, otherwise an optional integer and a position. */
  function ParseOptSignedInt(input: Str, pos: nat): (r: Option<(Option<int>, nat)>)
    requires pos <= |input|
    ensures r.Some? ==> pos <= r.value.1 <= |input|
  {
    var neg := pos < |input| && input[pos] == MINUS;
    var p := if neg then pos + 1 else pos;
    if p >= |input| || !IsDigit(input[p]) then (if neg then None else Some((None, pos)))
    else
      var (val, end) := ScanDigits(input, p, 0);
      Some((Some(Signed(neg, val)), end))
  }

  method ParseOptSignedIntLoop(input: Str, pos: nat) returns (r: Option<(Option<int>, nat)>)
    requires pos <= |input|
    ensures r == ParseOptSignedInt(input, pos)
  {
    var p, neg := pos, false;
    if p < |input| && input[p] == MINUS { neg := true; p := p + 1; }
    if p >= |input| || !IsDigit(input[p]) {
      return if neg then None else Some((None, pos));
    }
    var val: nat := 0;
    ghost var start := p;
    while p < |input| && IsDigit(input[p])
      invariant start <= p <= |input|
      invariant ScanDigits(input, p, val) == ScanDigits(input, start, 0)
    {
      val := Accumulate(val, input[p]);
      p := p + 1;
    }
    return Some((Some(Signed(neg, val)), p));
  }

  // ----- What the integer reader accepts, and what it denotes -----

  predicate AllDigits(ds: Str) { forall k :: 0 <= k < |ds| ==> IsDigit(ds[k]) }

  /** The number a run of digits denotes, leading zeros included. */
  function DecimalValue(ds: Str): nat
    requires AllDigits(ds)
  {
    if ds == [] then 0 else DecimalValue(ds[..|ds| - 1]) * 10 + (ds[|ds| - 1] - 0x30)
  }

  /** What reading it digit by digit in doubles gives. */
  function ReadDigits(ds: Str): nat
    requires AllDigits(ds)
  {
    if ds == [] then 0 else Accumulate(ReadDigits(ds[..|ds| - 1]), ds[|ds| - 1])
  }

  lemma {:induction false} ExactStep(val: nat, digit: CodeUnit)
    requires IsDigit(digit) && val * 10 + (digit - 0x30) <= IpldModel.MAX_SAFE
    ensures Accumulate(val, digit) == val * 10 + (digit - 0x30)
  {
  }

  /** Up to 2^53-1 no step rounds. */
  lemma {:induction false} SafeDigitsAreExact(ds: Str)
    requires AllDigits(ds) && DecimalValue(ds) <= IpldModel.MAX_SAFE
    ensures ReadDigits(ds) == DecimalValue(ds)
  {
    if ds != [] {
      var front, digit := ds[..|ds| - 1], ds[|ds| - 1];
      hide Accumulate;
      SafeDigitsAreExact(front);
      ExactStep(DecimalValue(front), digit);
    }
  }

  /** Below 2^54 a multiple of ten is a double when it is ten times a safe integer, so only the last step rounds. */
  lemma {:induction false} LastStepRounds(val: nat, digit: CodeUnit)
    requires IsDigit(digit) && val * 10 < 0x40_0000_0000_0000
    ensures Accumulate(val, digit) == ToDouble(val * 10 + (digit - 0x30))
  {
    hide ToDouble, Ulp;
    TensAreDoubles(val);
  }

  lemma {:induction false} TensAreDoubles(val: nat)
    requires val * 10 < 0x40_0000_0000_0000
    ensures ToDouble(val * 10) == val * 10
  {
    hide *;
    Even(val * 5);
    EvenIsDouble(2 * (val * 5));
  }

  lemma {:induction false} Even(half: nat)
    ensures 2 * half % 2 == 0
  {
  }

  /** The integers below 2^54 that are doubles: those below 2^53 and the even ones. */
  lemma {:induction false} EvenIsDouble(n: nat)
    requires n < 0x40_0000_0000_0000
    ensures ToDouble(n) == n <==> n < 0x20_0000_0000_0000 || n % 2 == 0
  {
    assert n >= 0x20_0000_0000_0000 ==> Ulp(n) == 2;
  }

  /** Below 2^54 the whole run is rounded once: it is read as the double nearest to its value. */
  lemma {:induction false} DigitsReadNearest(ds: Str)
    requires AllDigits(ds) && DecimalValue(ds) < 0x40_0000_0000_0000
    ensures ReadDigits(ds) == ToDouble(DecimalValue(ds))
    ensures ReadDigits(ds) == DecimalValue(ds)
            <==> DecimalValue(ds) < 0x20_0000_0000_0000 || DecimalValue(ds) % 2 == 0
  {
    hide Accumulate, ToDouble;
    EvenIsDouble(DecimalValue(ds));
    if ds != [] {
      SafeDigitsAreExact(ds[..|ds| - 1]);
      LastStepRounds(DecimalValue(ds[..|ds| - 1]), ds[|ds| - 1]);
    }
  }

  lemma {:induction false} ScanDigitsReads(input: Str, p: nat, ds: Str)
    requires AllDigits(ds) && At(input, p, ds)
    ensures ScanDigits(input, p, 0) == ScanDigits(input, p + |ds|, ReadDigits(ds))
  {
    if ds != [] {
      var front, digit := ds[..|ds| - 1], ds[|ds| - 1];
      assert ds == front + [digit];
      hide Accumulate;
      AtConcat(input, p, front, [digit]);
      assert input[p + |front|] == digit by { AtUnit(input, p + |front|, [digit], 0); }
      ScanDigitsReads(input, p, front);
    }
  }

  lemma {:induction false} DigitAt(input: Str, p: nat, ds: Str)
    requires ds != [] && AllDigits(ds) && At(input, p, ds)
    ensures p < p + |ds| <= |input| && IsDigit(input[p])
  {
    AtUnit(input, p, ds, 0);
  }

  lemma {:induction false} ScanDigitsStops(input: Str, p: nat, val: nat)
    requires p <= |input| && NoDigitAt(input, p)
    ensures ScanDigits(input, p, val) == (val, p)
  {
  }

  predicate NoDigitAt(input: Str, p: nat) {
    p < |input| ==> !IsDigit(input[p])
  }

  function Sign(neg: bool): Str { if neg then [MINUS] else [] }

  /**
   * An optional minus and a maximal run of digits is read as the signed value of the run, whatever zeros lead it:
   * exactly up to 2^53-1, and below 2^54 as the nearest double, so exactly when the value is even or below 2^53.
   */
  lemma {:induction false} IntegerDenotes(input: Str, pos: nat, neg: bool, ds: Str)
    requires ds != [] && AllDigits(ds)
    requires At(input, pos, Sign(neg) + ds) && NoDigitAt(input, pos + |Sign(neg) + ds|)
    ensures var end := pos + |Sign(neg) + ds|;
            && ParseOptSignedInt(input, pos) == Some((Some(Signed(neg, ReadDigits(ds))), end))
            && (DecimalValue(ds) <= IpldModel.MAX_SAFE ==> ReadDigits(ds) == DecimalValue(ds))
            && (DecimalValue(ds) < 0x40_0000_0000_0000 ==>
                  ReadDigits(ds) == ToDouble(DecimalValue(ds))
                  && (ReadDigits(ds) == DecimalValue(ds)
                      <==> DecimalValue(ds) < 0x20_0000_0000_0000 || DecimalValue(ds) % 2 == 0))
  {
    hide ReadDigits, DecimalValue, At, ToDouble, ParseOptSignedInt;
    IntegerReads(input, pos, neg, ds);
    if DecimalValue(ds) <= IpldModel.MAX_SAFE { SafeDigitsAreExact(ds); }
    if DecimalValue(ds) < 0x40_0000_0000_0000 { DigitsReadNearest(ds); }
  }

  lemma {:induction false} IntegerReads(input: Str, pos: nat, neg: bool, ds: Str)
    requires ds != [] && AllDigits(ds)
    requires At(input, pos, Sign(neg) + ds) && NoDigitAt(input, pos + |Sign(neg) + ds|)
    ensures ParseOptSignedInt(input, pos)
            == Some((Some(Signed(neg, ReadDigits(ds))), pos + |Sign(neg) + ds|))
  {
    hide ReadDigits, At, ScanDigits;
    var p := pos + |Sign(neg)|;
    if neg { AtCons(input, pos, MINUS, ds); } else { EmptyFront(ds); }
    DigitAt(input, p, ds);
    ScanDigitsReads(input, p, ds);
    ScanDigitsStops(input, p + |ds|, ReadDigits(ds));
  }

  /** Anything else is no integer: none is read, and a minus without a digit is refused. */
  lemma {:induction false} OtherwiseNoInteger(input: Str, pos: nat)
    requires pos <= |input|
    ensures ParseOptSignedInt(input, pos).None? <==> UnitAt(input, pos, MINUS) && NoDigitAt(input, pos + 1)
    ensures ParseOptSignedInt(input, pos) == Some((None, pos)) <==> !UnitAt(input, pos, MINUS) && NoDigitAt(input, pos)
  {
    hide ScanDigits;
  }

  // ----- Filter parsers -----

  datatype Parsed = Miss | Hit(filter: Filter, pos: nat)

  /** `a ?? b` on parse results. */
  function OrElse(a: Parsed, b: Parsed): Parsed {
    if a.Hit? then a else b
  }

  predicate UnitAt(input: Str, p: nat, c: CodeUnit) {
    p < |input| && input[p] == c
  }

  function ParseArrayIndex(input: Str, pos: nat): Parsed {
    if !UnitAt(input, pos, OPEN) then Miss
    else match ParseOptSignedInt(input, pos + 1)
      case Some((Some(i), p)) => if UnitAt(input, p, CLOSE) then Hit(ArrayIndex(i), p + 1) else Miss
      case _ => Miss
  }

  function ParseValues(input: Str, pos: nat): Parsed {
    if At(input, pos, [OPEN, CLOSE]) then Hit(Values, pos + 2) else Miss
  }

  function ParseSlice(input: Str, pos: nat): Parsed {
    if !UnitAt(input, pos, OPEN) then Miss
    else match ParseOptSignedInt(input, pos + 1)
      case None => Miss
      case Some((start, p1)) =>
        if !UnitAt(input, p1, COLON) then Miss
        else match ParseOptSignedInt(input, p1 + 1)
          case None => Miss
          case Some((end, p2)) => if UnitAt(input, p2, CLOSE) then Hit(Slice(start, end), p2 + 1) else Miss
  }

  function ParseEmptyQuotesField(input: Str, pos: nat): Parsed {
    if At(input, pos, [OPEN, QUOTE, QUOTE, CLOSE]) then Hit(Field([]), pos + 4) else Miss
  }

  /** The first position at or after `p` whose unit fails the test. */
  function ScanWhile(input: Str, p: nat, test: CodeUnit -> bool): (end: nat)
    requires p <= |input|
    ensures p <= end <= |input|
    ensures forall i :: p <= i < end ==> test(input[i])
    ensures end < |input| ==> !test(input[end])
    decreases |input| - p
  {
    if p < |input| && test(input[p]) then ScanWhile(input, p + 1, test) else p
  }

  method ScanWhileLoop(input: Str, start: nat, test: CodeUnit -> bool) returns (p: nat)
    requires start <= |input|
    ensures p == ScanWhile(input, start, test)
  {
    p := start;
    while p < |input| && test(input[p])
      invariant start <= p <= |input|
      invariant ScanWhile(input, p, test) == ScanWhile(input, start, test)
    {
      p := p + 1;
    }
  }

  function ParseDotAlphaField(input: Str, pos: nat): Parsed {
    if !UnitAt(input, pos, DOT) then Miss
    else
      var p1 := pos + 1;
      if p1 >= |input| || !(IsAlpha(input[p1]) || input[p1] == UNDERSCORE) then Miss
      else
        var p := ScanWhile(input, p1 + 1, IsDotFieldChar);
        Hit(Field(input[p1..p]), p)
  }

  function ParseDotUnderscoreField(input: Str, pos: nat): Parsed {
    if !At(input, pos, [DOT, UNDERSCORE]) || pos + 2 >= |input| || !IsAlnum(input[pos + 2]) then Miss
    else
      var p := ScanWhile(input, pos + 2, IsAlnum);
      Hit(Field([UNDERSCORE] + input[pos + 2..p]), p)
  }

  /** Every error of the string decoder is swallowed and falls through to the empty-quotes form. */
  function ParseDelimField(input: Str, pos: nat): Parsed {
    if !UnitAt(input, pos, OPEN) then Miss
    else match Decode(input, pos + 1)
      case Ok((decoded, afterQuote)) =>
        if UnitAt(input, afterQuote, CLOSE) then Hit(Field(decoded), afterQuote + 1)
        else ParseEmptyQuotesField(input, pos)
      case Err(_) => ParseEmptyQuotesField(input, pos)
  }

  function ParseDotField(input: Str, pos: nat): Parsed {
    OrElse(ParseDotAlphaField(input, pos), ParseDotUnderscoreField(input, pos))
  }

  function ParseField(input: Str, pos: nat): Parsed {
    OrElse(ParseDelimField(input, pos), ParseDotField(input, pos))
  }

  function ParseNonTry(input: Str, pos: nat): Parsed {
    OrElse(ParseValues(input, pos),
           OrElse(ParseSlice(input, pos), OrElse(ParseField(input, pos), ParseArrayIndex(input, pos))))
  }

  predicate IsQuery(c: CodeUnit) { c == QUERY }

  /** `many1Q`: one or more question marks. */
  function Many1Q(input: Str, pos: nat): Option<nat> {
    if !UnitAt(input, pos, QUERY) then None else Some(ScanWhile(input, pos, IsQuery))
  }

  /** Wrap a hit in an optional when question marks follow it. */
  function Optional(input: Str, inner: Parsed): Parsed {
    match inner
    case Miss => Miss
    case Hit(found, p1) =>
      match Many1Q(input, p1)
      case None => Miss
      case Some(afterQ) =>
        var work := match found case Try(Try(x)) => x case _ => found;
        Hit(Try(work), afterQ)
  }

  function ParseTry(input: Str, pos: nat): Parsed {
    Optional(input, ParseNonTry(input, pos))
  }

  /** `parse`: an optional filter if possible, otherwise a required one. */
  function Parse(input: Str, pos: nat): Parsed {
    OrElse(ParseTry(input, pos), ParseNonTry(input, pos))
  }

  // ----- Optionals inside optionals -----

  /** The filter inside all the optionals. */
  function Innermost(f: Filter): (r: Filter)
    ensures Plain(r) && (Plain(f) ==> r == f)
  {
    if f.Try? then Innermost(f.inner) else f
  }

  function Depth(f: Filter): nat {
    if f.Try? then 1 + Depth(f.inner) else 0
  }

  /** Any number of optionals collapse to one. */
  function Collapse(f: Filter): (r: Filter)
    ensures Flat(r) && (Flat(f) <==> r == f)
  {
    if f.Try? then Try(Innermost(f)) else f
  }

  function CollapseAll(fs: seq<Filter>): (r: seq<Filter>)
    ensures |r| == |fs| && forall k :: 0 <= k < |fs| ==> r[k] == Collapse(fs[k])
  {
    if fs == [] then [] else [Collapse(fs[0])] + CollapseAll(fs[1..])
  }

  // ----- What every successful parse guarantees -----

  predicate Plain(f: Filter) { !f.Try? }

  /** No optional inside an optional. */
  predicate Flat(f: Filter) { f.Try? ==> Plain(f.inner) }

  /** A hit is strictly further on, and inside the input. */
  predicate Advances(input: Str, pos: nat, r: Parsed) {
    r.Hit? ==> pos < r.pos <= |input|
  }

  lemma {:induction false} DotFieldParses(input: Str, pos: nat)
    ensures Advances(input, pos, ParseDotField(input, pos))
    ensures ParseDotField(input, pos).Hit? ==> IsDotField(ParseDotField(input, pos).filter)
  {
    assert ParseDotUnderscoreField(input, pos).Hit?
           ==> input[pos..pos + 2][0] == DOT && input[pos..pos + 2][1] == UNDERSCORE;
  }

  lemma {:induction false} NonTryParses(input: Str, pos: nat)
    ensures Advances(input, pos, ParseNonTry(input, pos))
    ensures ParseNonTry(input, pos).Hit? ==> Plain(ParseNonTry(input, pos).filter)
  {
    DotFieldParses(input, pos);
    assert Advances(input, pos, ParseValues(input, pos));
    assert Advances(input, pos, ParseSlice(input, pos));
    assert Advances(input, pos, ParseDelimField(input, pos));
    assert Advances(input, pos, ParseArrayIndex(input, pos));
  }

  lemma {:induction false} OptionalParses(input: Str, pos: nat, inner: Parsed)
    requires Advances(input, pos, inner) && (inner.Hit? ==> Plain(inner.filter))
    ensures Advances(input, pos, Optional(input, inner))
    ensures Optional(input, inner).Hit? ==> Optional(input, inner).filter == Try(inner.filter)
  {
  }

  /** Every parse that succeeds consumes something, stays inside the input, and never nests optionals. */
  lemma {:induction false} ParseAdvances(input: Str, pos: nat)
    ensures Advances(input, pos, Parse(input, pos))
    ensures Parse(input, pos).Hit? ==> Flat(Parse(input, pos).filter)
  {
    NonTryParses(input, pos);
    OptionalParses(input, pos, ParseNonTry(input, pos));
  }
}
