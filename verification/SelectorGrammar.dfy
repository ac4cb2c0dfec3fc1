/** Which strings are selectors, and what they denote: the language of `parseSelector` (selector/filter.ts). */
module SelectorGrammar {
  import opened Text
  import opened Wrappers
  import opened JsonStrings
  import opened Filters
  import opened Selectors

  // ----- The grammar -----

  /** A bound of a slice: absent, or an optional minus and digits. */
  datatype Bound = Absent | Given(neg: bool, digits: Str)

  /** The spellings of one filter without its question marks. */
  datatype Form =
    | Index(neg: bool, digits: Str)
    | Window(start: Bound, end: Bound)
    | Each
    | Quoted(pieces: seq<Piece>)
    | Dotted(key: Str)

  datatype Part = Part(form: Form, marks: nat)

  /** A selector is a dot, some question marks that do nothing, and parts; or parts that start with a dotted field. */
  datatype Shape = Led(marks: nat, parts: seq<Part>) | Direct(parts: seq<Part>)

  predicate ValidBound(b: Bound) { b.Given? ==> b.digits != [] && AllDigits(b.digits) }

  predicate ValidForm(f: Form) {
    match f
    case Index(_, digits) => digits != [] && AllDigits(digits)
    case Window(start, end) => ValidBound(start) && ValidBound(end)
    case Each => true
    case Quoted(pieces) => AllValid(pieces)
    case Dotted(key) => IsIdentifier(key)
  }

  predicate ValidParts(ps: seq<Part>) { forall k :: 0 <= k < |ps| ==> ValidForm(ps[k].form) }

  predicate ValidShape(shape: Shape) {
    && ValidParts(shape.parts)
    && match shape
       case Led(marks, ps) => marks == 0 && ps != [] ==> !ps[0].form.Dotted?
       case Direct(ps) => ps != [] && ps[0].form.Dotted?
  }

  function SignText(neg: bool): Str { if neg then Ascii("-") else [] }

  function BoundText(b: Bound): Str { if b.Given? then SignText(b.neg) + b.digits else [] }

  function FormText(f: Form): Str {
    match f
    case Index(neg, digits) => Ascii("[") + (SignText(neg) + digits) + Ascii("]")
    case Window(start, end) => Ascii("[") + BoundText(start) + Ascii(":") + BoundText(end) + Ascii("]")
    case Each => Ascii("[]")
    case Quoted(pieces) => Ascii("[") + (Ascii("\"") + LiteralText(pieces) + Ascii("\"")) + Ascii("]")
    case Dotted(key) => Ascii(".") + key
  }

  function Marks(n: nat): (r: Str)
    ensures |r| == n
  {
    if n == 0 then [] else Marks(n - 1) + Ascii("?")
  }

  function PartText(p: Part): Str { FormText(p.form) + Marks(p.marks) }

  function PartsText(ps: seq<Part>): Str { if ps == [] then [] else PartText(ps[0]) + PartsText(ps[1..]) }

  function ShapeText(shape: Shape): Str {
    match shape
    case Led(marks, ps) => Ascii(".") + (Marks(marks) + PartsText(ps))
    case Direct(ps) => PartsText(ps)
  }

  // ----- What it denotes -----

  function Denoted(neg: bool, digits: Str): int
    requires AllDigits(digits)
  {
    var n: int := ReadDigits(digits);
    if neg then -n else n
  }

  function BoundValue(b: Bound): Option<int>
    requires ValidBound(b)
  {
    if b.Given? then Some(Denoted(b.neg, b.digits)) else None
  }

  function FormFilter(f: Form): (r: Filter)
    requires ValidForm(f)
    ensures Plain(r)
  {
    match f
    case Index(neg, digits) => ArrayIndex(Denoted(neg, digits))
    case Window(start, end) => Slice(BoundValue(start), BoundValue(end))
    case Each => Values
    case Quoted(pieces) => Field(Meaning(pieces))
    case Dotted(key) => Field(key)
  }

  /** However many question marks follow, the filter is one optional. */
  function PartFilter(p: Part): Filter
    requires ValidForm(p.form)
  {
    if p.marks > 0 then Try(FormFilter(p.form)) else FormFilter(p.form)
  }

  function PartsFilters(ps: seq<Part>): (r: seq<Filter>)
    requires ValidParts(ps)
    ensures |r| == |ps| && forall k :: 0 <= k < |ps| ==> r[k] == PartFilter(ps[k])
  {
    if ps == [] then [] else [PartFilter(ps[0])] + PartsFilters(ps[1..])
  }

  // ----- The characters of the grammar -----

  lemma {:induction false} Characters()
    ensures Ascii("[") == [OPEN] && Ascii("]") == [CLOSE] && Ascii(":") == [COLON] && Ascii(".") == [DOT]
    ensures Ascii("?") == [QUERY] && Ascii("\"") == [QUOTE] && Ascii("[]") == [OPEN, CLOSE]
    ensures SignText(true) == Sign(true) && SignText(false) == Sign(false)
  {
    assert Ascii("-") == [MINUS];
  }

  lemma {:induction false} FormTextUnits(f: Form)
    ensures match f
            case Index(neg, digits) => FormText(f) == [OPEN] + (Sign(neg) + digits) + [CLOSE]
            case Window(start, end) => FormText(f) == [OPEN] + BoundText(start) + [COLON] + BoundText(end) + [CLOSE]
            case Each => FormText(f) == [OPEN, CLOSE]
            case Quoted(pieces) => FormText(f) == [OPEN] + ([QUOTE] + LiteralText(pieces) + [QUOTE]) + [CLOSE]
            case Dotted(key) => FormText(f) == [DOT] + key
    ensures FormText(f) != [] && FormText(f)[0] == if f.Dotted? then DOT else OPEN
  {
    Characters();
    hide Ascii, LiteralText, BoundText;
  }

  lemma {:induction false} MarksAre(n: nat)
    ensures Marks(n) == Queries(n)
  {
    Characters();
    hide Ascii;
    if n > 0 { MarksAre(n - 1); }
  }

  // ----- Every text of the grammar parses -----

  lemma {:induction false} GivenText(b: Bound)
    requires b.Given?
    ensures BoundText(b) == Sign(b.neg) + b.digits
    ensures ValidBound(b) ==> BoundValue(b) == Some(Signed(b.neg, ReadDigits(b.digits)))
  {
    Characters();
    hide Ascii, SignText, ReadDigits;
  }

  lemma {:induction false} BoundParses(input: Str, pos: nat, b: Bound, stop: CodeUnit)
    requires ValidBound(b) && At(input, pos, BoundText(b)) && stop in {COLON, CLOSE}
    requires UnitAt(input, pos + |BoundText(b)|, stop)
    ensures ParseOptSignedInt(input, pos) == Some((BoundValue(b), pos + |BoundText(b)|))
  {
    StopsDigits(input, pos + |BoundText(b)|, stop);
    if b.Given? {
      GivenParses(input, pos, b);
    } else {
      AbsentParses(input, pos, b);
    }
    hide *;
  }

  lemma {:induction false} StopsDigits(input: Str, p: nat, stop: CodeUnit)
    requires UnitAt(input, p, stop) && stop in {COLON, CLOSE}
    ensures NoDigitAt(input, p) && p <= |input| && !UnitAt(input, p, MINUS)
  {
  }

  lemma {:induction false} GivenParses(input: Str, pos: nat, b: Bound)
    requires b.Given? && ValidBound(b) && At(input, pos, BoundText(b)) && NoDigitAt(input, pos + |BoundText(b)|)
    ensures ParseOptSignedInt(input, pos) == Some((BoundValue(b), pos + |BoundText(b)|))
  {
    hide BoundText, BoundValue, ReadDigits, ParseOptSignedInt, At, Sign, AllDigits, NoDigitAt, Signed;
    GivenText(b);
    IntegerReads(input, pos, b.neg, b.digits);
  }

  lemma {:induction false} AbsentParses(input: Str, pos: nat, b: Bound)
    requires b == Absent && pos <= |input| && NoDigitAt(input, pos) && !UnitAt(input, pos, MINUS)
    ensures BoundText(b) == [] && ParseOptSignedInt(input, pos) == Some((BoundValue(b), pos))
  {
    hide ParseOptSignedInt, ReadDigits;
    OtherwiseNoInteger(input, pos);
  }

  lemma {:induction false} WindowParses(input: Str, pos: nat, start: Bound, end: Bound)
    requires ValidBound(start) && ValidBound(end) && At(input, pos, FormText(Window(start, end)))
    ensures ParseNonTry(input, pos) == Hit(FormFilter(Window(start, end)), pos + |FormText(Window(start, end))|)
  {
    hide BoundText, FormText, BoundValue, ParseSlice, ParseValues, At, ValidBound;
    FormTextUnits(Window(start, end));
    var s, e := BoundText(start), BoundText(end);
    SlicePieces(input, pos, s, e);
    SliceRead(input, pos, start, end);
    if s != [] { BoundStart(start); }
    NotValues(input, pos, s);
  }

  lemma {:induction false} SliceRead(input: Str, pos: nat, start: Bound, end: Bound)
    requires ValidBound(start) && ValidBound(end)
    requires UnitAt(input, pos, OPEN) && At(input, pos + 1, BoundText(start))
    requires UnitAt(input, pos + 1 + |BoundText(start)|, COLON)
    requires At(input, pos + 2 + |BoundText(start)|, BoundText(end))
    requires UnitAt(input, pos + 2 + |BoundText(start)| + |BoundText(end)|, CLOSE)
    ensures ParseSlice(input, pos)
            == Hit(Slice(BoundValue(start), BoundValue(end)), pos + 3 + |BoundText(start)| + |BoundText(end)|)
  {
    hide ParseOptSignedInt, BoundText, BoundValue, ValidBound, At;
    BoundParses(input, pos + 1, start, COLON);
    BoundParses(input, pos + 2 + |BoundText(start)|, end, CLOSE);
  }

  lemma {:induction false} NotValues(input: Str, pos: nat, s: Str)
    requires UnitAt(input, pos, OPEN) && UnitAt(input, pos + 1 + |s|, COLON) && At(input, pos + 1, s)
    requires s != [] ==> s[0] != CLOSE
    ensures ParseValues(input, pos).Miss?
  {
    if s != [] { AtUnit(input, pos + 1, s, 0); }
    AtUnit(input, pos, [OPEN, CLOSE], 1);
  }

  lemma {:induction false} BoundStart(b: Bound)
    requires ValidBound(b) && BoundText(b) != []
    ensures BoundText(b)[0] == MINUS || IsDigit(BoundText(b)[0])
  {
    Characters();
    hide Ascii, SignText;
    assert BoundText(b) == Sign(b.neg) + b.digits;
  }

  /** The input goes on with nothing, or with another part. */
  predicate Boundary(input: Str, p: nat) {
    p <= |input| && (p < |input| ==> input[p] == DOT || input[p] == OPEN)
  }

  lemma {:induction false} FormParses(input: Str, pos: nat, f: Form)
    requires ValidForm(f) && At(input, pos, FormText(f))
    requires Boundary(input, pos + |FormText(f)|) || UnitAt(input, pos + |FormText(f)|, QUERY)
    ensures ParseNonTry(input, pos) == Hit(FormFilter(f), pos + |FormText(f)|)
  {
    hide Ascii, BoundText, FormText, LiteralText, ParseNonTry, At, ReadDigits, AllDigits;
    FormTextUnits(f);
    match f
    case Index(neg, digits) => IndexLiteralParses(input, pos, neg, digits);
    case Window(start, end) => WindowParses(input, pos, start, end);
    case Each => EachParses(input, pos);
    case Quoted(pieces) => QuotedParses(input, pos, pieces);
    case Dotted(key) => DotTextParses(input, pos, key);
  }

  lemma {:induction false} EachParses(input: Str, pos: nat)
    requires At(input, pos, [OPEN, CLOSE])
    ensures ParseNonTry(input, pos) == Hit(Values, pos + 2)
  {
  }

  lemma {:induction false} QuotedParses(input: Str, pos: nat, pieces: seq<Piece>)
    requires AllValid(pieces) && At(input, pos, [OPEN] + ([QUOTE] + LiteralText(pieces) + [QUOTE]) + [CLOSE])
    ensures ParseNonTry(input, pos) == Hit(Field(Meaning(pieces)), pos + |LiteralText(pieces)| + 4)
  {
    hide LiteralText, Meaning, AllValid, Decode;
    var body := [QUOTE] + LiteralText(pieces) + [QUOTE];
    AtConcat(input, pos, [OPEN] + body, [CLOSE]);
    AtCons(input, pos, OPEN, body);
    UnitOf(input, pos + 1 + |body|, CLOSE);
    UnitOf(input, pos, OPEN);
    Reassociate([QUOTE], LiteralText(pieces), [QUOTE]);
    assert IsLiteral(input, pos + 1, pieces, Meaning(pieces), pos + 1 + |body|);
    DecodesExactlyLiterals(input, pos + 1, Meaning(pieces), pos + 1 + |body|);
    AtUnit(input, pos + 1, body, 0);
    AtUnit(input, pos, [OPEN, CLOSE], 1);
    DelimParses(input, pos, Meaning(pieces), pos + 1 + |body|);
  }

  lemma {:induction false} DelimParses(input: Str, pos: nat, key: Str, afterQuote: nat)
    requires UnitAt(input, pos, OPEN) && Decode(input, pos + 1) == Ok((key, afterQuote))
    requires UnitAt(input, afterQuote, CLOSE) && UnitAt(input, pos + 1, QUOTE)
    ensures ParseNonTry(input, pos) == Hit(Field(key), afterQuote + 1)
  {
    hide Decode;
    AtUnit(input, pos, [OPEN, CLOSE], 1);
  }

  lemma {:induction false} PartParses(input: Str, pos: nat, p: Part)
    requires ValidForm(p.form) && At(input, pos, PartText(p)) && Boundary(input, pos + |PartText(p)|)
    ensures Parse(input, pos) == Hit(PartFilter(p), pos + |PartText(p)|)
  {
    hide FormText, ParseNonTry, FormFilter, ValidForm, Ascii;
    var q := pos + |FormText(p.form)|;
    AtConcat(input, pos, FormText(p.form), Marks(p.marks));
    MarksAre(p.marks);
    QueriesAt(input, q, p.marks);
    hide At, Marks;
    FormParses(input, pos, p.form);
    if p.marks > 0 { ScanWhileStops(input, q, q + p.marks, IsQuery); } else { EmptyFront(FormText(p.form)); }
  }

  lemma {:induction false} PartStart(p: Part)
    ensures PartText(p) != [] && PartText(p)[0] == if p.form.Dotted? then DOT else OPEN
  {
    FormTextUnits(p.form);
    hide FormText;
  }

  lemma {:induction false} PartsStart(ps: seq<Part>)
    ensures PartsText(ps) == [] <==> ps == []
    ensures ps != [] ==> PartsText(ps)[0] == if ps[0].form.Dotted? then DOT else OPEN
  {
    if ps != [] { PartStart(ps[0]); }
    hide PartText;
  }

  lemma {:induction false} PartsParse(input: Str, pos: nat, ps: seq<Part>)
    requires ValidParts(ps) && At(input, pos, PartsText(ps)) && pos + |PartsText(ps)| == |input|
    ensures ParseMany(input, pos) == (PartsFilters(ps), |input|)
    decreases |ps|
  {
    hide PartText, PartFilter, ParseMany, ValidForm, Parse;
    if ps == [] {
      ParseManyEnd(input, pos, []);
    } else {
      var next := pos + |PartText(ps[0])|;
      AtConcat(input, pos, PartText(ps[0]), PartsText(ps[1..]));
      PartsStart(ps[1..]);
      if ps[1..] != [] { AtUnit(input, next, PartsText(ps[1..]), 0); }
      PartParses(input, pos, ps[0]);
      PartStart(ps[0]);
      PartsParse(input, next, ps[1..]);
      ParseManyStep(input, pos, PartFilter(ps[0]), next);
    }
  }

  lemma {:induction false} PartsAlone(ps: seq<Part>)
    requires ValidParts(ps)
    ensures ParseMany(PartsText(ps), 0) == (PartsFilters(ps), |PartsText(ps)|)
    ensures StripQueries(PartsText(ps)) == PartsText(ps)
  {
    var t := PartsText(ps);
    assert t[0..|t|] == t;
    PartsStart(ps);
    NothingToStrip(t);
    hide PartsText, ParseMany;
    PartsParse(t, 0, ps);
  }

  lemma {:induction false} DirectParses(ps: seq<Part>)
    requires ValidShape(Direct(ps))
    ensures ParseSelector(PartsText(ps)) == Ok(PartsFilters(ps))
  {
    var s, rest := PartsText(ps), PartsText(ps[1..]);
    var end := |PartText(ps[0])|;
    assert At(s, 0, PartText(ps[0])) by { assert s[0..end] == PartText(ps[0]); }
    assert s[end..] == rest;
    PartsStart(ps[1..]);
    PartsAlone(ps[1..]);
    hide PartsText, PartText, ParseMany, StripQueries;
    DirectFirst(s, ps[0], end);
  }

  /** A dotted field at the very start, with its question marks. */
  lemma {:induction false} DirectFirst(s: Str, p: Part, end: nat)
    requires p.form.Dotted? && ValidForm(p.form) && At(s, 0, PartText(p)) && end == |PartText(p)| && Boundary(s, end)
    ensures UnitAt(s, 0, DOT) && !UnitAt(s, 1, DOT) && ParseFirst(s) == ([PartFilter(p)], s[end..])
  {
    hide IsIdentifier, FormText, Marks, ParseNonTry, ParseDotField, At, PartText;
    var q := 1 + |p.form.key|;
    DirectPieces(s, p);
    assert q < end ==> UnitAt(s, q, QUERY);
    assert end == q + p.marks && (q < |s| ==> !IsDotFieldChar(s[q]));
    DotTextParses(s, 0, p.form.key);
    forall k | q <= k < end ensures IsQuery(s[k]) { assert UnitAt(s, k, QUERY); }
    if p.marks > 0 { ScanWhileStops(s, q, end, IsQuery); }
  }

  lemma {:induction false} DirectPieces(s: Str, p: Part)
    requires p.form.Dotted? && ValidForm(p.form) && At(s, 0, PartText(p))
    ensures |PartText(p)| == 1 + |p.form.key| + p.marks && At(s, 0, [DOT] + p.form.key)
    ensures UnitAt(s, 0, DOT) && !UnitAt(s, 1, DOT)
    ensures forall k :: 1 + |p.form.key| <= k < |PartText(p)| ==> UnitAt(s, k, QUERY)
  {
    hide Ascii, IsIdentifier, FormText, Marks;
    FormTextUnits(p.form);
    var q := |FormText(p.form)|;
    AtConcat(s, 0, FormText(p.form), Marks(p.marks));
    MarksAre(p.marks);
    QueriesAt(s, q, p.marks);
    IdentifierStart(p.form.key);
    AtUnit(s, 0, [DOT] + p.form.key, 0);
    AtUnit(s, 0, [DOT] + p.form.key, 1);
  }

  lemma {:induction false} IdentifierStart(k: Str)
    requires IsIdentifier(k)
    ensures k != [] && k[0] != DOT
  {
  }

  lemma {:induction false} LedParses(marks: nat, ps: seq<Part>)
    requires ValidShape(Led(marks, ps))
    ensures ParseSelector(ShapeText(Led(marks, ps))) == Ok(PartsFilters(ps))
  {
    Characters();
    hide Ascii;
    var t := PartsText(ps);
    var working := Marks(marks) + t;
    var s := [DOT] + working;
    assert ShapeText(Led(marks, ps)) == s;
    PartsStart(ps);
    PartsAlone(ps);
    hide PartsText, ParseMany, StripQueries;
    WorkingStart(working, marks, t);
    LedFirst(s, working);
    StripsMarks(working, marks, t);
    EmptyFront(PartsFilters(ps));
  }

  lemma {:induction false} WorkingStart(working: Str, marks: nat, t: Str)
    requires working == Marks(marks) + t
    ensures working == [] <==> marks == 0 && t == []
    ensures marks > 0 ==> working[0] == QUERY
    ensures marks == 0 ==> working == t
  {
    MarksAre(marks);
  }

  lemma {:induction false} LedFirst(s: Str, working: Str)
    requires s == [DOT] + working && (working != [] ==> working[0] == QUERY || working[0] == OPEN)
    ensures UnitAt(s, 0, DOT) && !UnitAt(s, 1, DOT) && ParseFirst(s) == ([], working)
  {
    assert working != [] ==> s[1] == working[0];
    AtUnit(s, 0, [DOT, UNDERSCORE], 1);
    assert s[1..] == working;
  }

  lemma {:induction false} StripsMarks(working: Str, marks: nat, t: Str)
    requires working == Marks(marks) + t && (t != [] ==> t[0] != QUERY)
    ensures StripQueries(working) == t
  {
    MarksAre(marks);
    hide Marks;
    assert forall k :: 0 <= k < marks ==> working[k] == Queries(marks)[k];
    assert working[marks..] == t;
    ScanWhileStops(working, 0, marks, IsQuery);
  }

  // ----- Everything that parses is a text of the grammar -----

  /** The run of digits at `p`. */
  function DigitsAt(input: Str, p: nat): (ds: Str)
    requires p <= |input|
    ensures AllDigits(ds) && At(input, p, ds) && NoDigitAt(input, p + |ds|)
  {
    input[p..ScanWhile(input, p, IsDigit)]
  }

  lemma {:induction false} BoundOf(input: Str, pos: nat) returns (b: Bound)
    requires pos <= |input| && ParseOptSignedInt(input, pos).Some?
    ensures ValidBound(b) && At(input, pos, BoundText(b))
    ensures ParseOptSignedInt(input, pos) == Some((BoundValue(b), pos + |BoundText(b)|))
  {
    hide ParseOptSignedInt, DigitsAt, BoundValue, BoundText, ReadDigits;
    OtherwiseNoInteger(input, pos);
    var neg := UnitAt(input, pos, MINUS);
    var ds := DigitsAt(input, if neg then pos + 1 else pos);
    if ds == [] {
      b := Absent;
      AbsentParses(input, pos, b);
      assert input[pos..pos] == [];
    } else {
      b := Given(neg, ds);
      SignedDigits(input, pos, b);
      hide At, AllDigits;
      GivenParses(input, pos, b);
    }
  }

  lemma {:induction false} SignedDigits(input: Str, pos: nat, b: Bound)
    requires b.Given? && (b.neg ==> UnitAt(input, pos, MINUS))
    requires At(input, if b.neg then pos + 1 else pos, b.digits)
    ensures At(input, pos, BoundText(b)) && |BoundText(b)| == |b.digits| + if b.neg then 1 else 0
  {
    GivenText(b);
    hide At, BoundText;
    if b.neg { AtCons(input, pos, MINUS, b.digits); } else { EmptyFront(b.digits); }
  }

  lemma {:induction false} WindowOf(input: Str, pos: nat) returns (f: Form)
    requires ParseSlice(input, pos).Hit?
    ensures ValidForm(f) && At(input, pos, FormText(f))
    ensures ParseSlice(input, pos) == Hit(FormFilter(f), pos + |FormText(f)|)
  {
    hide ParseOptSignedInt, BoundText, FormText, Ascii, BoundValue;
    var start := BoundOf(input, pos + 1);
    var p1 := pos + 1 + |BoundText(start)|;
    var end := BoundOf(input, p1 + 1);
    f := Window(start, end);
    FormTextUnits(f);
    JoinWindow(input, pos, BoundText(start), BoundText(end));
  }

  lemma {:induction false} JoinWindow(input: Str, pos: nat, s: Str, e: Str)
    requires UnitAt(input, pos, OPEN) && At(input, pos + 1, s) && UnitAt(input, pos + 1 + |s|, COLON)
    requires At(input, pos + 2 + |s|, e) && UnitAt(input, pos + 2 + |s| + |e|, CLOSE)
    ensures At(input, pos, [OPEN] + s + [COLON] + e + [CLOSE])
  {
    AtConcat(input, pos, [OPEN] + s + [COLON] + e, [CLOSE]);
    AtConcat(input, pos, [OPEN] + s + [COLON], e);
    AtConcat(input, pos, [OPEN] + s, [COLON]);
    AtCons(input, pos, OPEN, s);
    UnitOf(input, pos + 1 + |s|, COLON);
    UnitOf(input, pos + 2 + |s| + |e|, CLOSE);
  }

  lemma {:induction false} IndexOf(input: Str, pos: nat) returns (f: Form)
    requires ParseArrayIndex(input, pos).Hit?
    ensures ValidForm(f) && At(input, pos, FormText(f))
    ensures ParseArrayIndex(input, pos) == Hit(FormFilter(f), pos + |FormText(f)|)
  {
    hide FormText, BoundText, BoundValue, Denoted, Sign, AllDigits, At, ParseArrayIndex;
    var b, end := IndexBound(input, pos);
    GivenBound(b);
    f := Index(b.neg, b.digits);
    FormTextUnits(f);
    var t := Sign(b.neg) + b.digits;
    AtConcat(input, pos, [OPEN] + t, [CLOSE]);
    AtCons(input, pos, OPEN, t);
    UnitOf(input, end, CLOSE);
  }

  lemma {:induction false} IndexBound(input: Str, pos: nat) returns (b: Bound, end: nat)
    requires ParseArrayIndex(input, pos).Hit?
    ensures ValidBound(b) && BoundValue(b).Some? && UnitAt(input, pos, OPEN) && At(input, pos + 1, BoundText(b))
    ensures end == pos + 1 + |BoundText(b)| && UnitAt(input, end, CLOSE)
    ensures ParseArrayIndex(input, pos) == Hit(ArrayIndex(BoundValue(b).value), end + 1)
  {
    hide ParseOptSignedInt, BoundText, BoundValue, At;
    b := BoundOf(input, pos + 1);
    end := pos + 1 + |BoundText(b)|;
  }

  lemma {:induction false} GivenBound(b: Bound)
    requires ValidBound(b) && BoundValue(b).Some?
    ensures b.Given? && BoundText(b) == Sign(b.neg) + b.digits
    ensures BoundValue(b) == Some(Denoted(b.neg, b.digits))
  {
    Characters();
    hide Ascii;
  }

  lemma {:induction false} QuotedOf(input: Str, pos: nat) returns (f: Form)
    requires ParseDelimField(input, pos).Hit?
    ensures ValidForm(f) && At(input, pos, FormText(f))
    ensures ParseDelimField(input, pos) == Hit(FormFilter(f), pos + |FormText(f)|)
  {
    hide Decode, FormText, Ascii, LiteralText, Meaning, AllValid;
    EmptyQuotes(input, pos);
    var (decoded, afterQuote) := Decode(input, pos + 1).value;
    DecodesExactlyLiterals(input, pos + 1, decoded, afterQuote);
    var ps :| IsLiteral(input, pos + 1, ps, decoded, afterQuote);
    f := Quoted(ps);
    FormTextUnits(f);
    var body := [QUOTE] + LiteralText(ps) + [QUOTE];
    Reassociate([QUOTE], LiteralText(ps), [QUOTE]);
    AtConcat(input, pos, [OPEN] + body, [CLOSE]);
    AtCons(input, pos, OPEN, body);
    UnitOf(input, pos + 1 + |body|, CLOSE);
  }

  /** The form for empty quotes is never needed: the string decoder reads them. */
  lemma {:induction false} EmptyQuotes(input: Str, pos: nat)
    requires ParseDelimField(input, pos).Hit?
    ensures UnitAt(input, pos, OPEN) && Decode(input, pos + 1).Ok?
    ensures UnitAt(input, Decode(input, pos + 1).value.1, CLOSE)
  {
    var empty := [OPEN, QUOTE, QUOTE, CLOSE];
    if At(input, pos, empty) {
      AtUnit(input, pos, empty, 0);
      AtUnit(input, pos, empty, 1);
      AtUnit(input, pos, empty, 2);
      AtUnit(input, pos, empty, 3);
      assert DecodeBody(input, pos + 2) == Ok(([], pos + 3));
    }
  }

  lemma {:induction false} DottedOf(input: Str, pos: nat) returns (f: Form)
    requires ParseDotField(input, pos).Hit?
    ensures f.Dotted? && ValidForm(f) && At(input, pos, FormText(f))
    ensures ParseDotField(input, pos) == Hit(FormFilter(f), pos + |FormText(f)|)
  {
    var end := ParseDotField(input, pos).pos;
    AlphaDecides(input, pos);
    DotFieldParses(input, pos);
    f := Dotted(input[pos + 1..end]);
    FormTextUnits(f);
    hide FormText, ParseDotField;
    assert input[pos..end] == [DOT] + input[pos + 1..end];
  }

  /** The form for a leading underscore is never needed: the first form reads it. */
  lemma {:induction false} AlphaDecides(input: Str, pos: nat)
    requires ParseDotField(input, pos).Hit?
    ensures UnitAt(input, pos, DOT) && ParseDotField(input, pos).pos <= |input|
    ensures pos + 1 < ParseDotField(input, pos).pos
    ensures ParseDotField(input, pos).filter == Field(input[pos + 1..ParseDotField(input, pos).pos])
  {
    if ParseDotAlphaField(input, pos).Miss? {
      AtUnit(input, pos, [DOT, UNDERSCORE], 0);
      AtUnit(input, pos, [DOT, UNDERSCORE], 1);
    }
    hide At, IsDotFieldChar, IsAlnum;
  }

  lemma {:induction false} FormOf(input: Str, pos: nat) returns (f: Form)
    requires ParseNonTry(input, pos).Hit?
    ensures ValidForm(f) && At(input, pos, FormText(f))
    ensures ParseNonTry(input, pos) == Hit(FormFilter(f), pos + |FormText(f)|)
  {
    hide FormText, ParseSlice, ParseDelimField, ParseDotField, ParseArrayIndex, FormFilter, ValidForm, At, Ascii;
    if ParseValues(input, pos).Hit? {
      f := Each;
      EachForm();
    } else if ParseSlice(input, pos).Hit? {
      f := WindowOf(input, pos);
    } else if ParseDelimField(input, pos).Hit? {
      f := QuotedOf(input, pos);
    } else if ParseDotField(input, pos).Hit? {
      f := DottedOf(input, pos);
    } else {
      f := IndexOf(input, pos);
    }
  }

  lemma {:induction false} EachForm()
    ensures ValidForm(Each) && FormFilter(Each) == Values && FormText(Each) == [OPEN, CLOSE]
  {
    FormTextUnits(Each);
  }

  lemma {:induction false} MarksAt(input: Str, p: nat, q: nat)
    requires p <= q <= |input| && forall i :: p <= i < q ==> input[i] == QUERY
    ensures At(input, p, Marks(q - p))
  {
    MarksAre(q - p);
    assert input[p..q] == Queries(q - p);
  }

  lemma {:induction false} PartOf(input: Str, pos: nat) returns (p: Part)
    requires Parse(input, pos).Hit?
    ensures ValidForm(p.form) && At(input, pos, PartText(p))
    ensures Parse(input, pos) == Hit(PartFilter(p), pos + |PartText(p)|)
  {
    hide FormText, ParseNonTry, FormFilter, ValidForm;
    var f := FormOf(input, pos);
    var p1 := pos + |FormText(f)|;
    NonTryParses(input, pos);
    var q := ScanWhile(input, p1, IsQuery);
    p := Part(f, q - p1);
    MarksAt(input, p1, q);
    AtConcat(input, pos, FormText(f), Marks(q - p1));
    hide At, Marks;
  }

  lemma {:induction false} PartsOf(input: Str, pos: nat) returns (ps: seq<Part>)
    requires pos <= |input| && ParseMany(input, pos).1 == |input|
    ensures ValidParts(ps) && input[pos..] == PartsText(ps) && ParseMany(input, pos).0 == PartsFilters(ps)
    decreases |input| - pos
  {
    ParseAdvances(input, pos);
    hide Parse, PartText, ValidForm, PartFilter;
    if Parse(input, pos).Miss? {
      ps := [];
      assert input[pos..] == [];
    } else {
      var next := Parse(input, pos).pos;
      var p := PartOf(input, pos);
      ParseManyStep(input, pos, Parse(input, pos).filter, next);
      var rest := PartsOf(input, next);
      ps := [p] + rest;
      assert ps[1..] == rest;
      assert input[pos..] == input[pos..next] + input[next..];
    }
  }

  ghost predicate HasShape(s: Str, fs: seq<Filter>) {
    exists shape :: ValidShape(shape) && ShapeText(shape) == s && PartsFilters(shape.parts) == fs
  }

  lemma {:induction false} ShapeOf(s: Str) returns (shape: Shape)
    requires ParseSelector(s).Ok?
    ensures ValidShape(shape) && ShapeText(shape) == s && PartsFilters(shape.parts) == ParseSelector(s).value
  {
    hide ParseMany, ParseFirst, StripQueries, ShapeText, ValidShape;
    var rest := ParseFirst(s).1;
    var working := StripQueries(rest);
    var ps := PartsOf(working, 0);
    assert working[0..] == working;
    shape := AddFirst(s, rest, working, ps);
  }

  lemma {:induction false} AddFirst(s: Str, rest: Str, working: Str, ps: seq<Part>) returns (shape: Shape)
    requires UnitAt(s, 0, DOT) && !UnitAt(s, 1, DOT) && ParseFirst(s).1 == rest && StripQueries(rest) == working
    requires ValidParts(ps) && working == PartsText(ps)
    ensures ValidShape(shape) && ShapeText(shape) == s
    ensures PartsFilters(shape.parts) == ParseFirst(s).0 + PartsFilters(ps)
  {
    hide PartsText, PartText, PartsFilters, PartFilter;
    if ParseDotField(s, 0).Hit? {
      var p := FirstOf(s);
      shape := Direct([p] + ps);
      DirectText(s, p, ps);
    } else {
      shape := Led(|rest| - |working|, ps);
      LedText(s, rest, working, ps);
    }
  }

  lemma {:induction false} FirstOf(s: Str) returns (p: Part)
    requires ParseDotField(s, 0).Hit?
    ensures p.form.Dotted? && ValidForm(p.form) && UnitAt(s, 0, DOT) && At(s, 0, PartText(p))
    ensures ParseFirst(s) == ([PartFilter(p)], s[|PartText(p)|..])
    ensures |PartText(p)| < |s| ==> s[|PartText(p)|] != QUERY
  {
    hide FormText, ParseDotField, FormFilter;
    AlphaDecides(s, 0);
    var f := DottedOf(s, 0);
    var p1 := |FormText(f)|;
    DotFieldParses(s, 0);
    var q := ScanWhile(s, p1, IsQuery);
    p := Part(f, q - p1);
    MarksAt(s, p1, q);
    AtConcat(s, 0, FormText(f), Marks(q - p1));
    hide At, Marks;
  }

  lemma {:induction false} DirectText(s: Str, p: Part, ps: seq<Part>)
    requires p.form.Dotted? && ValidForm(p.form) && At(s, 0, PartText(p)) && ValidParts(ps)
    requires ParseFirst(s) == ([PartFilter(p)], s[|PartText(p)|..])
    requires |PartText(p)| < |s| ==> s[|PartText(p)|] != QUERY
    requires StripQueries(s[|PartText(p)|..]) == PartsText(ps)
    ensures ValidShape(Direct([p] + ps)) && ShapeText(Direct([p] + ps)) == s
    ensures PartsFilters([p] + ps) == ParseFirst(s).0 + PartsFilters(ps)
  {
    hide PartText, ValidForm, ParseFirst, StripQueries, PartFilter;
    HeadAndTail(p, ps);
    var end := |PartText(p)|;
    NothingToStrip(s[end..]);
    assert s[0..end] == PartText(p) && s == s[0..end] + s[end..];
    FirstAndRest(p, ps);
    hide PartsText, PartsFilters;
  }

  lemma {:induction false} FirstAndRest(p: Part, ps: seq<Part>)
    requires ValidForm(p.form) && ValidParts(ps)
    ensures ValidParts([p] + ps) && PartsText([p] + ps) == PartText(p) + PartsText(ps)
    ensures PartsFilters([p] + ps) == [PartFilter(p)] + PartsFilters(ps)
  {
    HeadAndTail(p, ps);
    hide PartText, ValidForm, PartFilter;
  }

  lemma {:induction false} LedText(s: Str, rest: Str, working: Str, ps: seq<Part>)
    requires UnitAt(s, 0, DOT) && !UnitAt(s, 1, DOT) && ParseFirst(s).1 == rest && StripQueries(rest) == working
    requires ParseDotField(s, 0).Miss? && ValidParts(ps) && working == PartsText(ps)
    ensures |working| <= |rest| && ValidShape(Led(|rest| - |working|, ps))
    ensures ShapeText(Led(|rest| - |working|, ps)) == s
    ensures PartsFilters(ps) == ParseFirst(s).0 + PartsFilters(ps)
  {
    hide PartsText, ParseDotField, ParseFirst, PartsFilters, StripQueries, Ascii, Marks, ValidParts;
    NoFirst(s);
    StripsTo(rest, working);
    PartsStart(ps);
    Characters();
    EmptyFront(PartsFilters(ps));
    assert s == [DOT] + s[1..];
  }

  lemma {:induction false} NoFirst(s: Str)
    requires UnitAt(s, 0, DOT) && ParseDotField(s, 0).Miss?
    ensures ParseFirst(s) == ([], s[1..])
  {
    hide ParseDotField;
  }

  /** What is stripped are the question marks in front. */
  lemma {:induction false} StripsTo(rest: Str, working: Str)
    requires StripQueries(rest) == working
    ensures |working| <= |rest| && rest == Marks(|rest| - |working|) + working
    ensures |working| == |rest| ==> working == rest
  {
    var marks := ScanWhile(rest, 0, IsQuery);
    MarksAt(rest, 0, marks);
    hide Marks;
    assert rest == rest[..marks] + rest[marks..];
  }

  /**
   * The language of selectors: a string is accepted exactly when it is a dot, any number of question marks that do
   * nothing, and parts, or parts that start with a dotted field; and it denotes what its parts do.
   */
  lemma {:induction false} ParsesExactly(s: Str, fs: seq<Filter>)
    ensures ParseSelector(s) == Ok(fs) <==> HasShape(s, fs)
  {
    hide ParseSelector, ShapeText, PartsFilters;
    if ParseSelector(s) == Ok(fs) {
      var shape := ShapeOf(s);
    }
    if shape :| ValidShape(shape) && ShapeText(shape) == s && PartsFilters(shape.parts) == fs {
      ShapeParses(shape);
    }
  }

  lemma {:induction false} ShapeParses(shape: Shape)
    requires ValidShape(shape)
    ensures ParseSelector(ShapeText(shape)) == Ok(PartsFilters(shape.parts))
  {
    hide ParseSelector, PartsText;
    match shape
    case Led(marks, ps) => LedParses(marks, ps);
    case Direct(ps) => DirectParses(ps);
  }

  ghost predicate IsPart(s: Str, f: Filter) {
    exists p: Part :: ValidForm(p.form) && PartText(p) == s && PartFilter(p) == f
  }

  ghost predicate StartsAPart(s: Str) { exists f :: IsPart(s, f) }

  /** A part in front is what the filter parser reads, and where it stops. */
  lemma {:induction false} FrontPart(s: Str)
    requires Parse(s, 0).Hit?
    ensures Parse(s, 0).pos <= |s| && IsPart(s[..Parse(s, 0).pos], Parse(s, 0).filter)
  {
    ParseAdvances(s, 0);
    hide Parse, PartText, PartFilter, ValidForm;
    var p := PartOf(s, 0);
    assert s[..Parse(s, 0).pos] == s[0..Parse(s, 0).pos];
  }

  lemma {:induction false} PartIsRead(s: Str, f: Filter)
    requires IsPart(s, f)
    ensures Parse(s, 0) == Hit(f, |s|)
  {
    hide Parse, PartText, PartFilter, ValidForm;
    var p: Part :| ValidForm(p.form) && PartText(p) == s && PartFilter(p) == f;
    assert s[0..|s|] == s;
    PartParses(s, 0, p);
  }

  /** A single filter is accepted exactly when it is one part, ... */
  lemma {:induction false} FilterParsesExactly(s: Str, f: Filter)
    ensures ParseFilter(s) == Ok(f) <==> IsPart(s, f)
  {
    hide Parse, IsPart;
    if ParseFilter(s) == Ok(f) {
      FrontPart(s);
      assert s[..|s|] == s;
    }
    if IsPart(s, f) { PartIsRead(s, f); }
  }

  /** ... and otherwise the error names what is left after the part in front, or the whole input if there is none. */
  lemma {:induction false} FilterRefused(s: Str)
    ensures match ParseFilter(s)
            case Ok(_) => true
            case Err(TrailingInput(rest)) =>
              rest != [] && |rest| <= |s| && rest == s[|s| - |rest|..] && StartsAPart(s[..|s| - |rest|])
            case Err(e) => e == UnknownPattern(s)
  {
    hide Parse, IsPart;
    ParseAdvances(s, 0);
    if Parse(s, 0).Hit? {
      FrontPart(s);
      Remainder(s, Parse(s, 0).pos);
      assert StartsAPart(s[..Parse(s, 0).pos]);
    }
    hide StartsAPart;
  }

  lemma {:induction false} Remainder(s: Str, end: nat)
    requires end <= |s|
    ensures |s[end..]| == |s| - end && s[|s| - |s[end..]|..] == s[end..] && s[..|s| - |s[end..]|] == s[..end]
  {
  }
}
