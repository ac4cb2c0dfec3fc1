/** Whole selectors: `parseSelector`, `toString`, and how they fit together (selector/filter.ts, select.ts). */
module Selectors {
  import opened Text
  import opened Wrappers
  import opened JsonStrings
  import opened Filters
  import IpldModel

  datatype ParseError =
    | MissingStartingDot(input: Str)
    | StartsWithDoubleDot(input: Str)
    | TrailingInput(rest: Str)
    | UnknownPattern(input: Str)

  // ----- Parsing -----

  function ParseMany(input: Str, p: nat): (r: (seq<Filter>, nat))
    requires p <= |input|
    ensures p <= r.1 <= |input|
    ensures Parse(input, r.1).Miss?
    ensures forall k :: 0 <= k < |r.0| ==> Flat(r.0[k])
    decreases |input| - p
  {
    ParseAdvances(input, p);
    match Parse(input, p)
    case Miss => ([], p)
    case Hit(f, next) =>
      var (rest, end) := ParseMany(input, next);
      ([f] + rest, end)
  }

  method ParseManyLoop(input: Str, pos: nat) returns (filters: seq<Filter>, p: nat)
    requires pos <= |input|
    ensures (filters, p) == ParseMany(input, pos)
  {
    hide Parse;
    filters, p := [], pos;
    assert filters + ParseMany(input, p).0 == ParseMany(input, p).0;
    while true
      invariant pos <= p <= |input|
      invariant ParseMany(input, pos) == (filters + ParseMany(input, p).0, ParseMany(input, p).1)
      decreases |input| - p
    {
      ParseAdvances(input, p);
      var r := Parse(input, p);
      if r.Miss? {
        assert filters + [] == filters;
        return;
      }
      assert filters + ([r.filter] + ParseMany(input, r.pos).0) == filters + [r.filter] + ParseMany(input, r.pos).0;
      filters := filters + [r.filter];
      p := r.pos;
    }
  }

  /** `parseFilter`. */
  function ParseFilter(s: Str): Result<Filter, ParseError> {
    ParseAdvances(s, 0);
    match Parse(s, 0)
    case Miss => Err(UnknownPattern(s))
    case Hit(f, pos) => if pos != |s| then Err(TrailingInput(s[pos..])) else Ok(f)
  }

  /** The optional leading dot field, and what is left of the selector. */
  function ParseFirst(s: Str): (r: (seq<Filter>, Str))
    requires UnitAt(s, 0, DOT)
    ensures forall k :: 0 <= k < |r.0| ==> Flat(r.0[k])
  {
    DotFieldParses(s, 0);
    OptionalParses(s, 0, ParseDotField(s, 0));
    match OrElse(Optional(s, ParseDotField(s, 0)), ParseDotField(s, 0))
    case Hit(f, pos) => ([f], s[pos..])
    case Miss => ([], s[1..])
  }

  function StripQueries(working: Str): Str {
    working[ScanWhile(working, 0, IsQuery)..]
  }

  /** What `parseSelector` returns. */
  function ParseSelector(s: Str): (r: Result<seq<Filter>, ParseError>)
    ensures r.Ok? ==> forall k :: 0 <= k < |r.value| ==> Flat(r.value[k])
  {
    if !UnitAt(s, 0, DOT) then Err(MissingStartingDot(s))
    else if UnitAt(s, 1, DOT) then Err(StartsWithDoubleDot(s))
    else
      var (first, rest) := ParseFirst(s);
      var working := StripQueries(rest);
      var (remaining, restPos) := ParseMany(working, 0);
      if restPos != |working| then Err(TrailingInput(working[restPos..])) else Ok(first + remaining)
  }

  method ParseSelectorLoop(s: Str) returns (r: Result<seq<Filter>, ParseError>)
    ensures r == ParseSelector(s)
  {
    if !UnitAt(s, 0, DOT) { return Err(MissingStartingDot(s)); }
    if UnitAt(s, 1, DOT) { return Err(StartsWithDoubleDot(s)); }
    var filters, working := ParseFirst(s).0, ParseFirst(s).1;
    var stripPos := ScanWhileLoop(working, 0, IsQuery);
    working := working[stripPos..];
    if |working| > 0 {
      var remaining, restPos := ParseManyLoop(working, 0);
      filters := filters + remaining;
      if restPos != |working| { return Err(TrailingInput(working[restPos..])); }
    } else {
      ParseAdvances(working, 0);
      assert ParseMany(working, 0) == ([], 0);
      assert filters + [] == filters;
    }
    return Ok(filters);
  }

  // ----- Printing -----

  /** `Select.toString` and `Selector.toString`: a leading dot unless the first filter brings its own. */
  function SelectorText(fs: seq<Filter>): Str {
    if fs == [] then [DOT]
    else (if IsDotField(fs[0]) then [] else [DOT]) + FiltersText(fs)
  }

  predicate Printed(out: Str, lead: Str, fs: seq<Filter>, i: nat)
    requires i <= |fs|
  {
    out == lead + FiltersText(fs[..i])
  }

  lemma {:induction false} PrintNext(out: Str, lead: Str, fs: seq<Filter>, i: nat)
    requires i < |fs| && if i == 0 then out == lead else Printed(out, lead, fs, i)
    ensures Printed(out + FilterText(fs[i]), lead, fs, i + 1)
  {
    FiltersTextSnoc(fs[..i], fs[i]);
    assert fs[..i + 1] == fs[..i] + [fs[i]];
    var before := FiltersText(fs[..i]);
    if i == 0 { assert before == []; }
    hide FiltersText, FilterText;
    Reassociate(lead, before, FilterText(fs[i]));
  }

  method SelectorTextLoop(fs: seq<Filter>) returns (out: Str)
    ensures out == SelectorText(fs)
  {
    if |fs| == 0 { return [DOT]; }
    out := [];
    ghost var lead := if IsDotField(fs[0]) then [] else [DOT];
    assert fs[..0] == [] && lead + FiltersText(fs[..0]) == lead;
    for i := 0 to |fs|
      invariant if i == 0 then out == [] else Printed(out, lead, fs, i)
    {
      hide Printed, FilterText;
      if i == 0 && !IsDotField(fs[i]) { out := out + [DOT]; }
      assert i == 0 ==> out == lead;
      PrintNext(out, lead, fs, i);
      out := out + FilterText(fs[i]);
    }
    assert fs[..|fs|] == fs;
  }

  lemma {:induction false} FiltersTextSnoc(fs: seq<Filter>, f: Filter)
    ensures FiltersText(fs + [f]) == FiltersText(fs) + FilterText(f)
  {
    if fs == [] {
      assert (fs + [f])[1..] == [] && FilterText(f) + [] == FilterText(f);
    } else {
      assert (fs + [f])[1..] == fs[1..] + [f];
      FiltersTextSnoc(fs[1..], f);
    }
  }

  // ----- Integers come back -----

  predicate IsSafe(n: int) { -IpldModel.MAX_SAFE <= n <= IpldModel.MAX_SAFE }

  predicate SafeBound(n: Option<int>) { n.Some? ==> IsSafe(n.value) }

  /** Every index and slice bound is a safe integer. */
  predicate SafeFilter(f: Filter) {
    match f
    case ArrayIndex(i) => IsSafe(i)
    case Slice(s, e) => SafeBound(s) && SafeBound(e)
    case Try(g) => SafeFilter(g)
    case _ => true
  }

  lemma {:induction false} DecimalIsDigits(n: nat)
    ensures AllDigits(Decimal(n)) && DecimalValue(Decimal(n)) == n
    decreases n
  {
    if n < 10 {
      assert [0x30 + n][..0] == [];
    } else {
      var front, digit := Decimal(n / 10), 0x30 + n % 10;
      DecimalIsDigits(n / 10);
      assert Decimal(n) == front + [digit] && (front + [digit])[..|front|] == front;
      hide Decimal;
    }
  }

  lemma {:induction false} IntTextParses(input: Str, pos: nat, i: int)
    requires IsSafe(i) && At(input, pos, IntText(i)) && NoDigitAt(input, pos + |IntText(i)|)
    ensures ParseOptSignedInt(input, pos) == Some((Some(i), pos + |IntText(i)|))
  {
    hide *;
    var ds := Magnitude(i);
    IntTextShape(i);
    IntegerDenotes(input, pos, i < 0, ds);
  }

  function Magnitude(i: int): Str { Decimal(if i < 0 then -i else i) }

  lemma {:induction false} IntTextShape(i: int)
    ensures IntText(i) == Sign(i < 0) + Magnitude(i) && Magnitude(i) != [] && AllDigits(Magnitude(i))
    ensures IsSafe(i) ==> Signed(i < 0, ReadDigits(Magnitude(i))) == i
    ensures IsSafe(i) ==> DecimalValue(Magnitude(i)) <= IpldModel.MAX_SAFE
  {
    var n := if i < 0 then -i else i;
    DecimalIsDigits(n);
    EmptyFront(Decimal(n));
    if IsSafe(i) { SafeDigitsAreExact(Decimal(n)); }
    hide Decimal, DecimalValue, ReadDigits;
  }

  lemma {:induction false} OptIntTextParses(input: Str, pos: nat, i: Option<int>, stop: CodeUnit)
    requires SafeBound(i) && stop in {COLON, CLOSE, QUOTE}
    requires At(input, pos, OptIntText(i)) && UnitAt(input, pos + |OptIntText(i)|, stop)
    ensures ParseOptSignedInt(input, pos) == Some((i, pos + |OptIntText(i)|))
  {
    if i.Some? { IntTextParses(input, pos, i.value); }
  }

  // ----- What is written, spelled out -----

  /** An optional minus and the decimal digits of the magnitude, without leading zeros. */
  ghost predicate IsDecimal(t: Str, i: int) {
    exists ds :: t == (if i < 0 then Ascii("-") else []) + ds && IsCanonicalRun(ds)
                 && DecimalValue(ds) == if i < 0 then -i else i
  }

  predicate IsCanonicalRun(ds: Str) {
    ds != [] && AllDigits(ds) && (|ds| > 1 ==> ds[0] != '0' as int)
  }

  lemma {:induction false} DecimalIsCanonical(n: nat)
    ensures IsCanonicalRun(Decimal(n)) && (n > 0 ==> Decimal(n)[0] != '0' as int)
    decreases n
  {
    if n >= 10 { DecimalIsCanonical(n / 10); }
  }

  lemma {:induction false} IntTextSpelled(i: int)
    ensures IsDecimal(IntText(i), i)
  {
    var n := if i < 0 then -i else i;
    DecimalIsDigits(n);
    DecimalIsCanonical(n);
    EmptyFront(Decimal(n));
    assert Ascii("-") == [MINUS];
    assert IntText(i) == (if i < 0 then Ascii("-") else []) + Decimal(n);
  }

  /** The text of each filter; a field is dotted exactly when its key is an identifier, and quoted otherwise. */
  lemma {:induction false} FilterTextSpelled(f: Filter)
    ensures FilterText(f)
            == match f
               case ArrayIndex(i) => Ascii("[") + IntText(i) + Ascii("]")
               case Slice(s, e) =>
                 Ascii("[") + (if s.Some? then IntText(s.value) else []) + Ascii(":")
                 + (if e.Some? then IntText(e.value) else []) + Ascii("]")
               case Field(k) => if IsIdentifier(k) then Ascii(".") + k else Ascii("[") + JsonString(k) + Ascii("]")
               case Values => Ascii("[]")
               case Try(g) => FilterText(g) + Ascii("?")
  {
    assert Ascii("[") == [OPEN] && Ascii("]") == [CLOSE] && Ascii(":") == [COLON] && Ascii(".") == [DOT];
    assert Ascii("?") == [QUERY] && Ascii("[]") == [OPEN, CLOSE];
    if f.Field? && IsIdentifier(f.key) { IdentifierNeedsNoQuotes(f.key); }
    hide Ascii, IntText, JsonString, NeedsQuotes;
  }

  /** An identifier is a letter or an underscore, and then letters, digits and underscores. */
  lemma {:induction false} IdentifierSpelled(k: Str)
    ensures IsIdentifier(k)
            <==> && k != [] && !IsDigit(k[0])
                 && forall i :: 0 <= i < |k| ==>
                      || 'A' as int <= k[i] <= 'Z' as int || 'a' as int <= k[i] <= 'z' as int
                      || '0' as int <= k[i] <= '9' as int || k[i] == '_' as int
  {
  }

  // ----- Each filter comes back -----

  /** The position is the end of the input, or the start of another printed filter. */
  predicate StopsAt(input: Str, p: nat) {
    p <= |input| && (p < |input| ==> input[p] == DOT || input[p] == OPEN)
  }

  lemma {:induction false} ScanWhileStops(input: Str, p: nat, q: nat, test: CodeUnit -> bool)
    requires p <= q <= |input| && (q < |input| ==> !test(input[q]))
    requires forall i :: p <= i < q ==> test(input[i])
    ensures ScanWhile(input, p, test) == q
    decreases q - p
  {
    if p < q { ScanWhileStops(input, p + 1, q, test); }
  }

  lemma {:induction false} IdentifierNeedsNoQuotes(k: Str)
    requires IsIdentifier(k)
    ensures !NeedsQuotes(k)
  {
  }

  lemma {:induction false} DotTextParses(input: Str, pos: nat, k: Str)
    requires IsIdentifier(k) && At(input, pos, [DOT] + k)
    requires pos + 1 + |k| < |input| ==> !IsDotFieldChar(input[pos + 1 + |k|])
    ensures ParseDotField(input, pos) == Hit(Field(k), pos + 1 + |k|)
    ensures ParseNonTry(input, pos) == Hit(Field(k), pos + 1 + |k|)
  {
    AtCons(input, pos, DOT, k);
    var end := pos + 1 + |k|;
    forall i | pos + 1 <= i < end ensures input[i] == k[i - pos - 1] {
      assert input[pos + 1..end][i - pos - 1] == k[i - pos - 1];
    }
    ScanWhileStops(input, pos + 2, end, IsDotFieldChar);
    assert input[pos..pos + 1] == [DOT];
    AtUnit(input, pos, [OPEN, CLOSE], 0);
  }

  lemma {:induction false} QuotedTextParses(input: Str, pos: nat, k: Str)
    requires At(input, pos, [OPEN] + JsonString(k) + [CLOSE])
    ensures ParseNonTry(input, pos) == Hit(Field(k), pos + |JsonString(k)| + 2)
  {
    hide Decode, Escape;
    var j := JsonString(k);
    AtConcat(input, pos, [OPEN] + j, [CLOSE]);
    AtCons(input, pos, OPEN, j);
    UnitOf(input, pos + 1 + |j|, CLOSE);
    UnitOf(input, pos, OPEN);
    DecodeWritten(input, pos + 1, k);
    AtUnit(input, pos + 1, j, 0);
    AtUnit(input, pos, [OPEN, CLOSE], 1);
  }

  lemma {:induction false} UnitOf(input: Str, p: nat, c: CodeUnit)
    ensures At(input, p, [c]) <==> UnitAt(input, p, c)
  {
    AtCons(input, p, c, []);
    assert [c] + [] == [c];
  }

  lemma {:induction false} IndexLiteralParses(input: Str, pos: nat, neg: bool, ds: Str)
    requires ds != [] && AllDigits(ds) && At(input, pos, [OPEN] + (Sign(neg) + ds) + [CLOSE])
    ensures ParseNonTry(input, pos)
            == Hit(ArrayIndex(Signed(neg, ReadDigits(ds))), pos + |Sign(neg) + ds| + 2)
  {
    hide ParseOptSignedInt, ReadDigits;
    var t := Sign(neg) + ds;
    AtConcat(input, pos, [OPEN] + t, [CLOSE]);
    AtCons(input, pos, OPEN, t);
    UnitOf(input, pos + 1 + |t|, CLOSE);
    IntegerReads(input, pos + 1, neg, ds);
    hide AllDigits;
    AtUnit(input, pos + 1, t, 0);
    AtUnit(input, pos, [OPEN, CLOSE], 1);
    AtUnit(input, pos, [OPEN, QUOTE, QUOTE, CLOSE], 1);
  }

  /** An index literal denotes its decimal value, as far as reading it digit by digit in doubles keeps it. */
  lemma {:induction false} IndexLiteralDenotes(neg: bool, ds: Str)
    requires ds != [] && AllDigits(ds)
    ensures ParseFilter([OPEN] + (Sign(neg) + ds) + [CLOSE]) == Ok(ArrayIndex(Signed(neg, ReadDigits(ds))))
    ensures DecimalValue(ds) < 0x40_0000_0000_0000 ==>
              (ReadDigits(ds) == DecimalValue(ds)
               <==> DecimalValue(ds) < 0x20_0000_0000_0000 || DecimalValue(ds) % 2 == 0)
  {
    var s := [OPEN] + (Sign(neg) + ds) + [CLOSE];
    assert At(s, 0, s) by { assert s[0..|s|] == s; }
    IndexLiteralParses(s, 0, neg, ds);
    hide ParseNonTry, ReadDigits, At, AllDigits, DecimalValue;
    if DecimalValue(ds) < 0x40_0000_0000_0000 { DigitsReadNearest(ds); }
  }

  lemma {:induction false} RoundedSteps()
    ensures Accumulate(900719925474099, 0x33) == 9007199254740992
    ensures Accumulate(1801439850948199, 0x36) == 18014398509482000
    ensures ToDouble(18014398509481996) == 18014398509481996
  {
    FirstRounding();
    SecondRounding();
  }

  lemma {:induction false} FirstRounding()
    ensures Accumulate(900719925474099, 0x33) == 9007199254740992
  {
    assert Ulp(9007199254740990) == 1 && Ulp(9007199254740993) == 2;
    hide Ulp;
  }

  lemma {:induction false} SecondRounding()
    ensures Accumulate(1801439850948199, 0x36) == 18014398509482000
    ensures ToDouble(18014398509481996) == 18014398509481996
  {
    assert Ulp(18014398509481990) == 4 && Ulp(18014398509481996) == 4 && Ulp(18014398509481998) == 4;
    hide Ulp;
  }

  /** The literal `[9007199254740993]`, which spells 2^53+1, is accepted and denotes 2^53. */
  lemma {:induction false} UnsafeLiteralRounds()
    ensures ParseFilter([OPEN] + (Sign(false) + Decimal(9007199254740993)) + [CLOSE])
            == Ok(ArrayIndex(9007199254740992))
  {
    hide Decimal, ReadDigits, Accumulate, ParseFilter;
    ReadsLastDigit(9007199254740993);
    RoundedSteps();
    IndexLiteralDenotes(false, Decimal(9007199254740993));
  }

  /** An index that is a double, but beyond 2^53-1, need not read back: here 2^54+12 comes back as 2^54+16. */
  lemma {:induction false} UnsafeIndexIsLost()
    ensures ToDouble(18014398509481996) == 18014398509481996
    ensures ParseFilter(FilterText(ArrayIndex(18014398509481996))) == Ok(ArrayIndex(18014398509482000))
  {
    hide Decimal, ReadDigits, Accumulate, ToDouble, ParseFilter;
    ReadsLastDigit(18014398509481996);
    RoundedSteps();
    EmptyFront(Decimal(18014398509481996));
    IndexLiteralDenotes(false, Decimal(18014398509481996));
  }

  /** The last step is the only one that can round when the digits before it are safe. */
  lemma {:induction false} ReadsLastDigit(n: nat)
    requires 10 <= n && n / 10 <= IpldModel.MAX_SAFE
    ensures AllDigits(Decimal(n)) && Decimal(n) != []
    ensures ReadDigits(Decimal(n)) == Accumulate(n / 10, 0x30 + n % 10)
  {
    var front, digit := Decimal(n / 10), 0x30 + n % 10;
    DecimalIsDigits(n);
    DecimalIsDigits(n / 10);
    SafeDigitsAreExact(front);
    assert Decimal(n) == front + [digit] && Decimal(n)[..|front|] == front;
    hide Decimal, Accumulate;
  }

  lemma {:induction false} IndexTextParses(input: Str, pos: nat, i: int)
    requires IsSafe(i) && At(input, pos, [OPEN] + IntText(i) + [CLOSE])
    ensures ParseNonTry(input, pos) == Hit(ArrayIndex(i), pos + |IntText(i)| + 2)
  {
    hide *;
    IntTextShape(i);
    IndexLiteralParses(input, pos, i < 0, Magnitude(i));
  }

  lemma {:induction false} SliceTextParses(input: Str, pos: nat, start: Option<int>, end: Option<int>)
    requires SafeBound(start) && SafeBound(end)
    requires At(input, pos, FilterText(Slice(start, end)))
    ensures ParseNonTry(input, pos) == Hit(Slice(start, end), pos + |FilterText(Slice(start, end))|)
  {
    hide ParseSlice, IntText;
    var s, e := OptIntText(start), OptIntText(end);
    SlicePieces(input, pos, s, e);
    SliceParses(input, pos, start, end);
    if s != [] { AtUnit(input, pos + 1, s, 0); }
    AtUnit(input, pos, [OPEN, CLOSE], 1);
  }

  lemma {:induction false} SliceParses(input: Str, pos: nat, start: Option<int>, end: Option<int>)
    requires SafeBound(start) && SafeBound(end)
    requires UnitAt(input, pos, OPEN) && At(input, pos + 1, OptIntText(start))
    requires UnitAt(input, pos + 1 + |OptIntText(start)|, COLON)
    requires At(input, pos + 2 + |OptIntText(start)|, OptIntText(end))
    requires UnitAt(input, pos + 2 + |OptIntText(start)| + |OptIntText(end)|, CLOSE)
    ensures ParseSlice(input, pos) == Hit(Slice(start, end), pos + 3 + |OptIntText(start)| + |OptIntText(end)|)
  {
    hide ParseOptSignedInt, OptIntText;
    OptIntTextParses(input, pos + 1, start, COLON);
    OptIntTextParses(input, pos + 2 + |OptIntText(start)|, end, CLOSE);
  }

  lemma {:induction false} SlicePieces(input: Str, pos: nat, s: Str, e: Str)
    requires At(input, pos, [OPEN] + s + [COLON] + e + [CLOSE])
    ensures UnitAt(input, pos, OPEN) && At(input, pos + 1, s)
    ensures UnitAt(input, pos + 1 + |s|, COLON) && At(input, pos + 2 + |s|, e)
    ensures UnitAt(input, pos + 2 + |s| + |e|, CLOSE)
  {
    AtConcat(input, pos, [OPEN] + s + [COLON] + e, [CLOSE]);
    AtConcat(input, pos, [OPEN] + s + [COLON], e);
    AtConcat(input, pos, [OPEN] + s, [COLON]);
    AtCons(input, pos, OPEN, s);
    UnitOf(input, pos + 1 + |s|, COLON);
    UnitOf(input, pos + 2 + |s| + |e|, CLOSE);
  }

  lemma {:induction false} PlainTextParses(input: Str, pos: nat, f: Filter)
    requires Plain(f) && SafeFilter(f) && At(input, pos, FilterText(f))
    requires StopsAt(input, pos + |FilterText(f)|) || UnitAt(input, pos + |FilterText(f)|, QUERY)
    ensures ParseNonTry(input, pos) == Hit(f, pos + |FilterText(f)|)
  {
    match f
    case ArrayIndex(i) => IndexTextParses(input, pos, i);
    case Slice(s, e) => SliceTextParses(input, pos, s, e);
    case Values =>
    case Field(k) =>
      if IsIdentifier(k) {
        IdentifierNeedsNoQuotes(k);
        DotTextParses(input, pos, k);
      } else {
        QuotedTextParses(input, pos, k);
      }
  }

  function Queries(n: nat): (r: Str)
    ensures |r| == n && forall k :: 0 <= k < n ==> r[k] == QUERY
  {
    if n == 0 then [] else Queries(n - 1) + [QUERY]
  }

  /** A nested optional prints as what is inside it and one question mark for each level. */
  lemma {:induction false} NestedText(f: Filter)
    ensures FilterText(f) == FilterText(Innermost(f)) + Queries(Depth(f))
  {
    if f.Try? {
      NestedText(f.inner);
      assert FilterText(f) == FilterText(f.inner) + [QUERY];
      hide FilterText;
      Reassociate(FilterText(Innermost(f)), Queries(Depth(f.inner)), [QUERY]);
    } else {
      EmptyFront(FilterText(f));
    }
  }

  lemma {:induction false} QueriesAt(input: Str, q: nat, n: nat)
    requires At(input, q, Queries(n))
    ensures forall k :: q <= k < q + n ==> UnitAt(input, k, QUERY)
  {
    forall k | q <= k < q + n ensures UnitAt(input, k, QUERY) { AtUnit(input, q, Queries(n), k - q); }
  }

  lemma {:induction false} SafeInside(f: Filter)
    requires SafeFilter(f)
    ensures SafeFilter(Innermost(f))
  {
    if f.Try? { SafeInside(f.inner); }
  }

  /** A printed filter is read back with its optionals collapsed. */
  lemma {:induction false} FilterTextParses(input: Str, pos: nat, f: Filter)
    requires SafeFilter(f) && At(input, pos, FilterText(f)) && StopsAt(input, pos + |FilterText(f)|)
    ensures Parse(input, pos) == Hit(Collapse(f), pos + |FilterText(f)|)
  {
    hide ParseNonTry, FilterText, SafeFilter;
    var base, n := Innermost(f), Depth(f);
    var q := pos + |FilterText(base)|;
    NestedText(f);
    SafeInside(f);
    AtConcat(input, pos, FilterText(base), Queries(n));
    QueriesAt(input, q, n);
    hide At;
    PlainTextParses(input, pos, base);
    if f.Try? { ScanWhileStops(input, q, q + n, IsQuery); } else { EmptyFront(FilterText(f)); }
  }

  /** One filter printed and parsed on its own comes back with its optionals collapsed. */
  lemma {:induction false} FilterRoundTrip(f: Filter)
    requires SafeFilter(f)
    ensures ParseFilter(FilterText(f)) == Ok(Collapse(f))
    ensures ParseFilter(FilterText(f)) == Ok(f) <==> Flat(f)
  {
    hide Parse, FilterText, SafeFilter;
    var s := FilterText(f);
    ParseAdvances(s, 0);
    assert At(s, 0, s) by { assert s[0..|s|] == s; }
    FilterTextParses(s, 0, f);
  }

  /** Adjacent filters never merge: the parser's longest matches end exactly where the printer moved on. */
  lemma {:induction false} FiltersTextParses(input: Str, pos: nat, fs: seq<Filter>)
    requires AllSafe(fs)
    requires At(input, pos, FiltersText(fs)) && pos + |FiltersText(fs)| == |input|
    ensures ParseMany(input, pos) == (CollapseAll(fs), |input|)
    decreases |fs|
  {
    hide *;
    if fs == [] {
      ParseManyEnd(input, pos, fs);
    } else {
      var next := pos + |FilterText(fs[0])|;
      NextFilter(input, pos, fs);
      SafeRest(fs);
      FilterTextParses(input, pos, fs[0]);
      FiltersTextParses(input, next, fs[1..]);
      ParseManyStep(input, pos, Collapse(fs[0]), next);
      CollapseFirst(fs);
    }
  }

  lemma {:induction false} SafeRest(fs: seq<Filter>)
    requires fs != [] && AllSafe(fs)
    ensures SafeFilter(fs[0]) && AllSafe(fs[1..])
  {
  }

  lemma {:induction false} CollapseFirst(fs: seq<Filter>)
    requires fs != []
    ensures [Collapse(fs[0])] + CollapseAll(fs[1..]) == CollapseAll(fs)
  {
  }

  lemma {:induction false} ParseManyEnd(input: Str, pos: nat, fs: seq<Filter>)
    requires fs == [] && pos + |FiltersText(fs)| == |input|
    ensures ParseMany(input, pos) == (CollapseAll(fs), |input|)
  {
    ParseAdvances(input, pos);
    hide Parse;
  }

  lemma {:induction false} ParseManyStep(input: Str, pos: nat, f: Filter, next: nat)
    requires pos < next <= |input| && Parse(input, pos) == Hit(f, next)
    ensures ParseMany(input, pos) == ([f] + ParseMany(input, next).0, ParseMany(input, next).1)
  {
    hide Parse;
  }

  lemma {:induction false} NextFilter(input: Str, pos: nat, fs: seq<Filter>)
    requires fs != [] && At(input, pos, FiltersText(fs)) && pos + |FiltersText(fs)| == |input|
    ensures At(input, pos, FilterText(fs[0])) && StopsAt(input, pos + |FilterText(fs[0])|)
    ensures At(input, pos + |FilterText(fs[0])|, FiltersText(fs[1..]))
    ensures pos + |FilterText(fs[0])| + |FiltersText(fs[1..])| == |input|
  {
    StartOfText(fs);
    StartOfText(fs[1..]);
    hide FilterText, FiltersText, At;
    var first, rest := FilterText(fs[0]), FiltersText(fs[1..]);
    AtConcat(input, pos, first, rest);
    if rest != [] { AtUnit(input, pos + |first|, rest, 0); }
  }

  // ----- Whole selectors come back -----

  predicate AllFlat(fs: seq<Filter>) { forall k :: 0 <= k < |fs| ==> Flat(fs[k]) }

  predicate AllSafe(fs: seq<Filter>) { forall k :: 0 <= k < |fs| ==> SafeFilter(fs[k]) }

  /** The first filter is an optional identifier field, as in `.foo?`: it prints as `..foo?`. */
  predicate OptionalIdentifierFirst(fs: seq<Filter>) {
    fs != [] && fs[0].Try? && IsDotField(Innermost(fs[0]))
  }

  lemma {:induction false} NothingToStrip(working: Str)
    requires working != [] ==> working[0] != QUERY
    ensures StripQueries(working) == working
  {
  }

  /** A printed filter list is empty or opens with a dot or a bracket. */
  lemma {:induction false} StartOfText(fs: seq<Filter>)
    ensures fs != [] ==> FiltersText(fs) == FilterText(fs[0]) + FiltersText(fs[1..])
    ensures FiltersText(fs) != [] ==> FiltersText(fs)[0] == DOT || FiltersText(fs)[0] == OPEN
    ensures FiltersText(fs) == [] <==> fs == []
  {
  }

  lemma {:induction false} RestParses(fs: seq<Filter>)
    requires AllSafe(fs)
    ensures StripQueries(FiltersText(fs)) == FiltersText(fs)
    ensures ParseMany(FiltersText(fs), 0) == (CollapseAll(fs), |FiltersText(fs)|)
  {
    StartOfText(fs);
    hide ParseMany, FilterText, FiltersText;
    var t := FiltersText(fs);
    assert t[0..|t|] == t;
    NothingToStrip(t);
    FiltersTextParses(t, 0, fs);
  }

  lemma {:induction false} DotFieldFirst(fs: seq<Filter>)
    requires fs != [] && IsDotField(fs[0])
    ensures var s := SelectorText(fs);
            UnitAt(s, 0, DOT) && !UnitAt(s, 1, DOT) && ParseFirst(s) == ([fs[0]], FiltersText(fs[1..]))
  {
    IdentifierNeedsNoQuotes(fs[0].key);
    StartOfText(fs);
    StartOfText(fs[1..]);
    hide FiltersText, ParseFirst;
    assert SelectorText(fs) == [DOT] + fs[0].key + FiltersText(fs[1..]);
    FirstIdentifier(SelectorText(fs), fs[0].key, FiltersText(fs[1..]));
  }

  lemma {:induction false} FirstIdentifier(s: Str, k: Str, rest: Str)
    requires s == [DOT] + k + rest && IsIdentifier(k)
    requires rest != [] ==> rest[0] == DOT || rest[0] == OPEN
    ensures UnitAt(s, 0, DOT) && !UnitAt(s, 1, DOT) && ParseFirst(s) == ([Field(k)], rest)
  {
    hide ParseNonTry, ParseDotAlphaField, ParseDotUnderscoreField;
    assert s[0..1 + |k|] == [DOT] + k && s[1] == k[0];
    if rest != [] { assert s[1 + |k|] == rest[0]; }
    DotTextParses(s, 0, k);
    hide ParseDotField;
    assert s[1 + |k|..] == rest;
  }

  lemma {:induction false} BracketText(f: Filter)
    requires !IsDotField(Innermost(f))
    ensures FilterText(f)[0] == OPEN
  {
    NestedText(f);
  }

  lemma {:induction false} OtherFirst(fs: seq<Filter>)
    requires fs != [] ==> !IsDotField(Innermost(fs[0]))
    ensures var s := SelectorText(fs);
            UnitAt(s, 0, DOT) && !UnitAt(s, 1, DOT) && ParseFirst(s) == ([], FiltersText(fs))
  {
    StartOfText(fs);
    if fs != [] { BracketText(fs[0]); }
    hide FiltersText, FilterText;
    var s := SelectorText(fs);
    assert s == [DOT] + FiltersText(fs);
    assert fs != [] ==> s[1] == OPEN;
    AtUnit(s, 0, [DOT, UNDERSCORE], 1);
    assert s[1..] == FiltersText(fs);
  }

  /**
   * What printing then parsing gives, for every list whose numbers are safe integers: the same filters with every
   * nested optional collapsed, unless an optional identifier field comes first, which is rejected.
   */
  lemma {:induction false} ReparseCollapses(fs: seq<Filter>)
    requires AllSafe(fs)
    ensures ParseSelector(SelectorText(fs))
            == if OptionalIdentifierFirst(fs) then Err(StartsWithDoubleDot(SelectorText(fs))) else Ok(CollapseAll(fs))
  {
    hide SelectorText, FiltersText, ParseFirst, ParseMany, StripQueries, SafeFilter;
    if OptionalIdentifierFirst(fs) {
      DoubleDot(fs);
    } else if fs != [] && IsDotField(fs[0]) {
      DotFieldFirst(fs);
      SafeRest(fs);
      RestParses(fs[1..]);
      CollapseFirst(fs);
    } else {
      OtherFirst(fs);
      RestParses(fs);
      EmptyFront(CollapseAll(fs));
    }
  }

  /**
   * Printing then parsing gives the same filters back exactly when no optional is nested and the first
   * filter is not an optional identifier field.
   */
  lemma {:induction false} SelectorRoundTrip(fs: seq<Filter>)
    requires AllSafe(fs)
    ensures ParseSelector(SelectorText(fs)) == Ok(fs) <==> AllFlat(fs) && !OptionalIdentifierFirst(fs)
  {
    hide ParseSelector, SelectorText, AllSafe, OptionalIdentifierFirst;
    ReparseCollapses(fs);
    CollapseFixpoint(fs);
  }

  lemma {:induction false} CollapseFixpoint(fs: seq<Filter>)
    ensures CollapseAll(fs) == fs <==> AllFlat(fs)
  {
    if CollapseAll(fs) == fs {
      forall k | 0 <= k < |fs| ensures Flat(fs[k]) { assert CollapseAll(fs)[k] == Collapse(fs[k]); }
    }
  }

  lemma {:induction false} DoubleDot(fs: seq<Filter>)
    requires OptionalIdentifierFirst(fs)
    ensures ParseSelector(SelectorText(fs)) == Err(StartsWithDoubleDot(SelectorText(fs)))
  {
    var base := Innermost(fs[0]);
    IdentifierNeedsNoQuotes(base.key);
    assert FilterText(base)[0] == DOT;
    NestedText(fs[0]);
    assert FiltersText(fs)[0] == DOT;
    hide FilterText, FiltersText;
  }

  /** parse, print, parse: what the parser accepts reads back the same, with one exception. */
  lemma {:induction false} ReparseIsStable(s: Str)
    requires ParseSelector(s).Ok? && AllSafe(ParseSelector(s).value)
    ensures var fs := ParseSelector(s).value;
            ParseSelector(SelectorText(fs)) == Ok(fs) <==> !OptionalIdentifierFirst(fs)
  {
    hide ParseSelector;
    SelectorRoundTrip(ParseSelector(s).value);
  }

  /** The exception is real: `.k?` is accepted for every identifier k, prints as `..k?`, and that is rejected. */
  lemma {:induction false} OptionalIdentifierIsLost(k: Str)
    requires IsIdentifier(k)
    ensures var s := [DOT] + k + [QUERY];
            && ParseSelector(s) == Ok([Try(Field(k))])
            && ParseSelector(SelectorText([Try(Field(k))])) == Err(StartsWithDoubleDot([DOT] + s))
  {
    var s, fs := [DOT] + k + [QUERY], [Try(Field(k))];
    IdentifierNeedsNoQuotes(k);
    DoubleDot(fs);
    StartOfText(fs);
    StartOfText([]);
    assert FilterText(fs[0]) == s && FiltersText(fs) == s + [];
    assert SelectorText(fs) == [DOT] + s;
    OptionalFirst(s, k);
    ParseAdvances([], 0);
    hide ParseFirst, FilterText, Parse;
    assert ParseMany([], 0) == ([], 0) && fs + [] == fs;
  }

  lemma {:induction false} OptionalFirst(s: Str, k: Str)
    requires s == [DOT] + k + [QUERY] && IsIdentifier(k)
    ensures !UnitAt(s, 1, DOT) && ParseFirst(s) == ([Try(Field(k))], [])
  {
    assert s[0..1 + |k|] == [DOT] + k && s[1] == k[0];
    DotTextParses(s, 0, k);
    ScanWhileStops(s, 1 + |k|, |s|, IsQuery);
    hide ParseDotField;
    assert s[|s|..] == [];
  }

  // ----- Which accepted strings print back unchanged -----

  /** Text that the printer writes for some list that reads back. */
  ghost predicate IsPrinted(s: Str) {
    exists fs :: AllSafe(fs) && AllFlat(fs) && !OptionalIdentifierFirst(fs) && SelectorText(fs) == s
  }

  /** Parsing and printing keeps a string exactly when the printer writes it: it is a normal form for selectors. */
  lemma {:induction false} PrintsBackUnchanged(s: Str)
    ensures (ParseSelector(s).Ok? && AllSafe(ParseSelector(s).value) && SelectorText(ParseSelector(s).value) == s)
            <==> IsPrinted(s)
  {
    hide SelectorText, AllSafe, OptionalIdentifierFirst, ParseFirst, ParseMany;
    if ParseSelector(s).Ok? && AllSafe(ParseSelector(s).value) && SelectorText(ParseSelector(s).value) == s {
      hide ParseSelector;
      ReparseCollapses(ParseSelector(s).value);
    }
    hide ParseSelector, AllFlat;
    if fs :| AllSafe(fs) && AllFlat(fs) && !OptionalIdentifierFirst(fs) && SelectorText(fs) == s {
      SelectorRoundTrip(fs);
    }
  }

  /** Any key may be quoted, but an identifier is printed without quotes: `.["k"]` is kept exactly for other keys. */
  lemma {:induction false} QuotedKeyIsRewritten(k: Str)
    ensures var s := [DOT] + ([OPEN] + JsonString(k) + [CLOSE]);
            && ParseSelector(s) == Ok([Field(k)])
            && (SelectorText([Field(k)]) == s <==> !IsIdentifier(k))
  {
    var t := [OPEN] + JsonString(k) + [CLOSE];
    var s := [DOT] + t;
    QuotedFirst(s, t);
    QuotedAlone(t, k);
    KeyText(k);
    EmptyFront([Field(k)]);
    hide ParseFirst, ParseMany, JsonString, SelectorText;
    assert IsIdentifier(k) ==> s[1] == OPEN && ([DOT] + k)[1] == k[0];
  }

  lemma {:induction false} KeyText(k: Str)
    ensures SelectorText([Field(k)]) == [DOT] + if IsIdentifier(k) then k else [OPEN] + JsonString(k) + [CLOSE]
  {
    var f := Field(k);
    if IsIdentifier(k) { IdentifierNeedsNoQuotes(k); }
    StartOfText([f]);
    EmptyFront(FilterText(f));
    assert [f][1..] == [] && FiltersText([]) == [];
    hide FiltersText, JsonString;
  }

  lemma {:induction false} QuotedFirst(s: Str, t: Str)
    requires t != [] && t[0] == OPEN && s == [DOT] + t
    ensures UnitAt(s, 0, DOT) && !UnitAt(s, 1, DOT) && ParseFirst(s) == ([], t) && StripQueries(t) == t
  {
    assert s[1] == OPEN;
    AtUnit(s, 0, [DOT, UNDERSCORE], 1);
    assert s[1..] == t;
  }

  lemma {:induction false} QuotedAlone(t: Str, k: Str)
    requires t == [OPEN] + JsonString(k) + [CLOSE]
    ensures ParseMany(t, 0) == ([Field(k)], |t|)
  {
    hide JsonString, ParseNonTry, ParseMany;
    assert At(t, 0, t) by { assert t[0..|t|] == t; }
    QuotedTextParses(t, 0, k);
    assert Parse(t, 0) == Hit(Field(k), |t|);
    ParseManyStep(t, 0, Field(k), |t|);
    ParseManyEnd(t, |t|, []);
    EmptyFront([Field(k)]);
  }

  // ----- Prefix order -----

  /** `filterEquals`. */
  predicate FilterEquals(a: Filter, b: Filter)
    decreases a
  {
    match (a, b)
    case (ArrayIndex(i), ArrayIndex(j)) => i == j
    case (Field(k), Field(l)) => k == l
    case (Slice(s, e), Slice(s', e')) => s == s' && e == e'
    case (Values, Values) => true
    case (Try(f), Try(g)) => FilterEquals(f, g)
    case _ => false
  }

  predicate StartsWith(haystack: seq<Filter>, needle: seq<Filter>) {
    |needle| <= |haystack| && forall i :: 0 <= i < |needle| ==> FilterEquals(haystack[i], needle[i])
  }

  datatype PrefixOrder = Same | Shorter | Longer | Unrelated

  /** `compare`: 0, -1, 1 or null. */
  function Compare(a: seq<Filter>, b: seq<Filter>): PrefixOrder {
    if |a| == |b| && forall i :: 0 <= i < |a| ==> FilterEquals(a[i], b[i]) then Same
    else if StartsWith(b, a) then Shorter
    else if StartsWith(a, b) then Longer
    else Unrelated
  }

  /** `isRelated`. */
  method IsRelated(a: seq<Filter>, b: seq<Filter>) returns (related: bool)
    ensures related <==> a <= b || b <= a
    ensures related <==> Compare(a, b) != Unrelated
  {
    var len := if |a| < |b| then |a| else |b|;
    CompareIsPrefixOrder(a, b);
    for i := 0 to len
      invariant a[..i] == b[..i]
    {
      FilterEqualsIsEquality(a[i], b[i]);
      if !FilterEquals(a[i], b[i]) { return false; }
    }
    return true;
  }

  lemma {:induction false} FilterEqualsIsEquality(a: Filter, b: Filter)
    ensures FilterEquals(a, b) <==> a == b
  {
    if a.Try? && b.Try? { FilterEqualsIsEquality(a.inner, b.inner); }
  }

  /** The comparison is the prefix order on filter lists. */
  lemma {:induction false} CompareIsPrefixOrder(a: seq<Filter>, b: seq<Filter>)
    ensures Compare(a, b) == Same <==> a == b
    ensures Compare(a, b) == Shorter <==> a < b
    ensures Compare(a, b) == Longer <==> b < a
  {
    forall i | 0 <= i < |a| && i < |b| ensures FilterEquals(a[i], b[i]) <==> a[i] == b[i] {
      FilterEqualsIsEquality(a[i], b[i]);
    }
    forall i | 0 <= i < |a| && i < |b| ensures FilterEquals(b[i], a[i]) <==> a[i] == b[i] {
      FilterEqualsIsEquality(b[i], a[i]);
    }
  }
}
