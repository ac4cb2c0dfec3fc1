/** The triple form of predicates: `predicateToIpld` and `ipldToPredicate` (predicate.ts). */
module PredicateWire {
  import opened Text
  import opened Wrappers
  import opened Numbers
  import opened IpldModel
  import opened Filters
  import opened Predicates
  import Selectors

  const EQ: Str := [0x3D, 0x3D]              // "=="
  const NE: Str := [0x21, 0x3D]              // "!="
  const GT: Str := [0x3E]                    // ">"
  const GE: Str := [0x3E, 0x3D]              // ">="
  const LT: Str := [0x3C]                    // "<"
  const LE: Str := [0x3C, 0x3D]              // "<="
  const LIKE: Str := [0x6C, 0x69, 0x6B, 0x65] // "like"
  const NOT: Str := [0x6E, 0x6F, 0x74]       // "not"
  const AND: Str := [0x61, 0x6E, 0x64]       // "and"
  const OR: Str := [0x6F, 0x72]              // "or"
  const ALL: Str := [0x61, 0x6C, 0x6C]       // "all"
  const ANY: Str := [0x61, 0x6E, 0x79]       // "any"

  // ----- Encoding -----

  function NumberToIpld(n: UcanNumber): Ipld {
    match n
    case Float(d) => Number(d)
    case Integer(i, big) => if big then BigInt(i) else Number(Finite(i as real))
  }

  function Triple(op: Str, select: Selector, value: Ipld): Ipld {
    List([String(op), String(Selectors.SelectorText(select)), value])
  }

  function PredicateToIpld(p: Predicate): Ipld
    decreases p
  {
    match p
    case Equal(s, v) => Triple(EQ, s, v)
    case GreaterThan(s, n) => Triple(GT, s, NumberToIpld(n))
    case GreaterThanOrEqual(s, n) => Triple(GE, s, NumberToIpld(n))
    case LessThan(s, n) => Triple(LT, s, NumberToIpld(n))
    case LessThanOrEqual(s, n) => Triple(LE, s, NumberToIpld(n))
    case Like(s, pattern) => Triple(LIKE, s, String(pattern))
    case Not(q) =>
      if q.Equal? then Triple(NE, q.select, q.value) else List([String(NOT), PredicateToIpld(q)])
    case And(ps) => List([String(AND), List(PredicatesToIpld(ps))])
    case Or(ps) => List([String(OR), List(PredicatesToIpld(ps))])
    case All(s, q) => Triple(ALL, s, PredicateToIpld(q))
    case Any(s, q) => Triple(ANY, s, PredicateToIpld(q))
  }

  function PredicatesToIpld(ps: seq<Predicate>): (r: seq<Ipld>)
    ensures |r| == |ps| && forall k :: 0 <= k < |ps| ==> r[k] == PredicateToIpld(ps[k])
    decreases ps
  {
    if ps == [] then [] else [PredicateToIpld(ps[0])] + PredicatesToIpld(ps[1..])
  }

  // ----- Decoding -----

  datatype FromIpldError =
    | InvalidSelector(op: Str, cause: Selectors.ParseError)
    | CannotParseIpldNumber | NotAString
    | UnrecognizedPairTag(tag: Str) | UnrecognizedTripleTag(tag: Str)
    | UnrecognizedShape | NotATuple

  function ParseNumber(v: Ipld): Result<UcanNumber, FromIpldError> {
    match v
    case BigInt(n) => Ok(Integer(n, true))
    case Number(d) => Ok(Float(d))
    case _ => Err(CannotParseIpldNumber)
  }

  /** An operator whose operands need no recursion. */
  function ParseTriple(op: Str, select: Selector, val: Ipld): Result<Predicate, FromIpldError> {
    if op == EQ then Ok(Equal(select, val))
    else if op == NE then Ok(Not(Equal(select, val)))
    else if op == LIKE then (if val.String? then Ok(Like(select, val.s)) else Err(NotAString))
    else match ParseNumber(val)
      case Err(e) => Err(e)
      case Ok(n) => Ok(Comparison(op, select, n))
  }

  function Comparison(op: Str, select: Selector, n: UcanNumber): Predicate {
    if op == GT then GreaterThan(select, n)
    else if op == GE then GreaterThanOrEqual(select, n)
    else if op == LT then LessThan(select, n)
    else LessThanOrEqual(select, n)
  }

  predicate KnownTriple(op: Str) {
    op == EQ || op == NE || op == GT || op == GE || op == LT || op == LE || op == LIKE || op == ALL || op == ANY
  }

  /** `ipldToPredicate`: every level normalises plain objects to maps before it looks. */
  function IpldToPredicate(raw: Ipld): Result<Predicate, FromIpldError>
    decreases Size(raw), 0, 0
  {
    var i := ObjectsToMaps(raw);
    if !i.List? then Err(NotATuple) else FromTuple(i.items)
  }

  function FromTuple(arr: seq<Ipld>): Result<Predicate, FromIpldError>
    decreases SizeAll(arr), 2, 0
  {
    if arr == [] then Err(UnrecognizedShape)
    else if |arr| == 2 && arr[0].String? then
      SizeOfItem(arr, 1);
      if arr[0].s == NOT then
        (match IpldToPredicate(arr[1])
         case Ok(q) => Ok(Not(q))
         case Err(e) => Err(e))
      else if arr[0].s == AND && arr[1].List? then
        (match IpldToPredicates(arr[1].items)
         case Ok(ps) => Ok(And(ps))
         case Err(e) => Err(e))
      else if arr[0].s == OR && arr[1].List? then
        (match IpldToPredicates(arr[1].items)
         case Ok(ps) => Ok(Or(ps))
         case Err(e) => Err(e))
      else Err(UnrecognizedPairTag(arr[0].s))
    else if |arr| >= 3 && arr[0].String? && arr[1].String? then
      SizeOfItem(arr, 2);
      var op := arr[0].s;
      if !KnownTriple(op) then Err(UnrecognizedTripleTag(op))
      else match Selectors.ParseSelector(arr[1].s)
        case Err(cause) => Err(InvalidSelector(op, cause))
        case Ok(select) =>
          if op == ALL then
            (match IpldToPredicate(arr[2])
             case Ok(q) => Ok(All(select, q))
             case Err(e) => Err(e))
          else if op == ANY then
            (match IpldToPredicate(arr[2])
             case Ok(q) => Ok(Any(select, q))
             case Err(e) => Err(e))
          else ParseTriple(op, select, arr[2])
    else Err(UnrecognizedShape)
  }

  function IpldToPredicates(items: seq<Ipld>): (r: Result<seq<Predicate>, FromIpldError>)
    decreases SizeAll(items), 1, |items|
  {
    if items == [] then Ok([])
    else match IpldToPredicate(items[0])
      case Err(e) => Err(e)
      case Ok(p) =>
        match IpldToPredicates(items[1..])
        case Err(e) => Err(e)
        case Ok(ps) => Ok([p] + ps)
  }

  // ----- What the decoder accepts, and as what -----

  predicate IsTriple(items: seq<Ipld>, op: string, select: Selector) {
    && |items| >= 3 && items[0] == String(Ascii(op))
    && items[1].String? && Selectors.ParseSelector(items[1].s) == Ok(select)
  }

  predicate IsPair(items: seq<Ipld>, op: string) {
    |items| == 2 && items[0] == String(Ascii(op))
  }

  /** A JavaScript number is a float, a bigint an integer. */
  predicate NumberIn(v: Ipld, n: UcanNumber) {
    (v.Number? && n == Float(v.d)) || (v.BigInt? && n == Integer(v.n, true))
  }

  /** The value spells the predicate: operator, selector text and operand, or connective and what it connects. */
  predicate Says(raw: Ipld, p: Predicate)
    decreases p
  {
    raw.List? && var items := raw.items;
    match p
    case Equal(s, v) => IsTriple(items, "==", s) && ObjectsToMaps(items[2]) == v
    case GreaterThan(s, n) => IsTriple(items, ">", s) && NumberIn(items[2], n)
    case GreaterThanOrEqual(s, n) => IsTriple(items, ">=", s) && NumberIn(items[2], n)
    case LessThan(s, n) => IsTriple(items, "<", s) && NumberIn(items[2], n)
    case LessThanOrEqual(s, n) => IsTriple(items, "<=", s) && NumberIn(items[2], n)
    case Like(s, pattern) => IsTriple(items, "like", s) && items[2] == String(pattern)
    case Not(q) =>
      || (IsPair(items, "not") && Says(ObjectsToMaps(items[1]), q))
      || (q.Equal? && IsTriple(items, "!=", q.select) && ObjectsToMaps(items[2]) == q.value)
    case And(ps) => IsPair(items, "and") && items[1].List? && SaysEach(items[1].items, ps)
    case Or(ps) => IsPair(items, "or") && items[1].List? && SaysEach(items[1].items, ps)
    case All(s, q) => IsTriple(items, "all", s) && Says(ObjectsToMaps(items[2]), q)
    case Any(s, q) => IsTriple(items, "any", s) && Says(ObjectsToMaps(items[2]), q)
  }

  predicate SaysEach(items: seq<Ipld>, ps: seq<Predicate>)
    decreases ps
  {
    |items| == |ps| && forall k :: 0 <= k < |ps| ==> Says(ObjectsToMaps(items[k]), ps[k])
  }

  lemma {:induction false} TagsSpelled()
    ensures EQ == Ascii("==") && NE == Ascii("!=") && GT == Ascii(">") && GE == Ascii(">=") && LT == Ascii("<")
    ensures LE == Ascii("<=") && LIKE == Ascii("like") && NOT == Ascii("not") && AND == Ascii("and")
    ensures OR == Ascii("or") && ALL == Ascii("all") && ANY == Ascii("any")
  {
  }

  /** The same for the tuple the decoder looks at, with the parts already decoded. */
  predicate TupleIs(arr: seq<Ipld>, p: Predicate) {
    match p
    case Equal(s, v) => IsTriple(arr, "==", s) && arr[2] == v
    case GreaterThan(s, n) => IsTriple(arr, ">", s) && NumberIn(arr[2], n)
    case GreaterThanOrEqual(s, n) => IsTriple(arr, ">=", s) && NumberIn(arr[2], n)
    case LessThan(s, n) => IsTriple(arr, "<", s) && NumberIn(arr[2], n)
    case LessThanOrEqual(s, n) => IsTriple(arr, "<=", s) && NumberIn(arr[2], n)
    case Like(s, pattern) => IsTriple(arr, "like", s) && arr[2] == String(pattern)
    case Not(q) =>
      || (IsPair(arr, "not") && IpldToPredicate(arr[1]) == Ok(q))
      || (q.Equal? && IsTriple(arr, "!=", q.select) && arr[2] == q.value)
    case And(ps) => IsPair(arr, "and") && arr[1].List? && IpldToPredicates(arr[1].items) == Ok(ps)
    case Or(ps) => IsPair(arr, "or") && arr[1].List? && IpldToPredicates(arr[1].items) == Ok(ps)
    case All(s, q) => IsTriple(arr, "all", s) && IpldToPredicate(arr[2]) == Ok(q)
    case Any(s, q) => IsTriple(arr, "any", s) && IpldToPredicate(arr[2]) == Ok(q)
  }

  lemma {:induction false} PairExact(arr: seq<Ipld>, p: Predicate)
    requires |arr| == 2
    ensures FromTuple(arr) == Ok(p) <==> TupleIs(arr, p)
  {
    TagsSpelled();
    TagsDistinct();
    hide IpldToPredicate, IpldToPredicates, Ascii;
  }

  lemma {:induction false} TripleExact(arr: seq<Ipld>, p: Predicate)
    requires |arr| >= 3
    ensures FromTuple(arr) == Ok(p) <==> TupleIs(arr, p)
  {
    TagsSpelled();
    TagsDistinct();
    hide IpldToPredicate, IpldToPredicates, Ascii, Selectors.ParseSelector;
  }

  lemma {:induction false} EachExact(items: seq<Ipld>, ps: seq<Predicate>)
    ensures IpldToPredicates(items) == Ok(ps)
            <==> |items| == |ps| && forall k :: 0 <= k < |ps| ==> IpldToPredicate(items[k]) == Ok(ps[k])
  {
    hide IpldToPredicate;
    if items != [] && ps != [] {
      EachExact(items[1..], ps[1..]);
      assert ps == [ps[0]] + ps[1..];
      assert forall k :: 0 < k < |ps| ==> ps[k] == ps[1..][k - 1];
      assert forall k :: 0 < k < |items| ==> items[k] == items[1..][k - 1];
      assert forall k :: 0 <= k < |ps| - 1 ==> ps[1..][k] == ps[k + 1];
    }
  }

  /** A value decodes to a predicate exactly when it spells it. */
  lemma {:induction false} DecodesExactly(raw: Ipld, p: Predicate)
    ensures IpldToPredicate(raw) == Ok(p) <==> Says(raw, p)
    decreases p, 2
  {
    if raw.List? {
      var arr := ObjectsToMaps(raw).items;
      assert IpldToPredicate(raw) == FromTuple(arr);
      ScalarsStay(raw, Integer(0, true));
      PartsExact(raw.items, arr, p);
      hide IpldToPredicate, FromTuple;
      if |arr| == 2 {
        PairExact(arr, p);
      } else if |arr| >= 3 {
        TripleExact(arr, p);
      } else {
        NoTuple(arr, p);
      }
    }
  }

  lemma {:induction false} NoTuple(arr: seq<Ipld>, p: Predicate)
    requires |arr| < 2
    ensures FromTuple(arr).Err? && !TupleIs(arr, p)
  {
  }

  lemma {:induction false} ScalarsStay(v: Ipld, n: UcanNumber)
    ensures v.String? || ObjectsToMaps(v).String? ==> ObjectsToMaps(v) == v
    ensures NumberIn(ObjectsToMaps(v), n) <==> NumberIn(v, n)
    ensures v.List? <==> ObjectsToMaps(v).List?
    ensures v.List? ==> |ObjectsToMaps(v).items| == |v.items|
                        && forall k :: 0 <= k < |v.items| ==> ObjectsToMaps(v).items[k] == ObjectsToMaps(v.items[k])
  {
  }

  lemma {:induction false} TagsStay(items: seq<Ipld>, arr: seq<Ipld>, op: string, s: Selector)
    requires |arr| == |items| && forall k :: 0 <= k < |items| ==> arr[k] == ObjectsToMaps(items[k])
    ensures IsTriple(arr, op, s) <==> IsTriple(items, op, s)
    ensures IsPair(arr, op) <==> IsPair(items, op)
  {
    if |items| >= 2 {
      ScalarsStay(items[0], Integer(0, true));
      ScalarsStay(items[1], Integer(0, true));
    }
    hide ObjectsToMaps, Ascii, Selectors.ParseSelector;
  }

  /** Looking at the parts before or after they are normalised makes no difference. */
  lemma {:induction false} PartsExact(items: seq<Ipld>, arr: seq<Ipld>, p: Predicate)
    requires |arr| == |items| && forall k :: 0 <= k < |items| ==> arr[k] == ObjectsToMaps(items[k])
    ensures TupleIs(arr, p) <==> Says(List(items), p)
    decreases p, 1
  {
    hide IpldToPredicate, IpldToPredicates, ObjectsToMaps, IsTriple, IsPair, NumberIn;
    match p
    case Equal(s, _) =>
      TagsStay(items, arr, "==", s);
      TripleHasThree(items, "==", s);
    case GreaterThan(s, n) => NumberStays(items, arr, ">", s, n);
    case GreaterThanOrEqual(s, n) => NumberStays(items, arr, ">=", s, n);
    case LessThan(s, n) => NumberStays(items, arr, "<", s, n);
    case LessThanOrEqual(s, n) => NumberStays(items, arr, "<=", s, n);
    case Like(s, _) => NumberStays(items, arr, "like", s, Integer(0, true));
    case Not(q) =>
      TagsStay(items, arr, "not", []);
      PairHasTwo(items, "not");
      if q.Equal? {
        TagsStay(items, arr, "!=", q.select);
        TripleHasThree(items, "!=", q.select);
      }
      if |items| == 2 { DecodesExactly(arr[1], q); }
    case And(ps) => ConnectivePart(items, arr, "and", p, ps);
    case Or(ps) => ConnectivePart(items, arr, "or", p, ps);
    case All(s, q) =>
      TagsStay(items, arr, "all", s);
      TripleHasThree(items, "all", s);
      if |items| >= 3 { DecodesExactly(arr[2], q); }
    case Any(s, q) =>
      TagsStay(items, arr, "any", s);
      TripleHasThree(items, "any", s);
      if |items| >= 3 { DecodesExactly(arr[2], q); }
  }

  lemma {:induction false} PairHasTwo(items: seq<Ipld>, op: string)
    ensures IsPair(items, op) ==> |items| == 2
  {
  }

  lemma {:induction false} TripleHasThree(items: seq<Ipld>, op: string, s: Selector)
    ensures IsTriple(items, op, s) ==> |items| >= 3
  {
  }

  lemma {:induction false} NumberStays(items: seq<Ipld>, arr: seq<Ipld>, op: string, s: Selector, n: UcanNumber)
    requires |arr| == |items| && forall k :: 0 <= k < |items| ==> arr[k] == ObjectsToMaps(items[k])
    ensures IsTriple(arr, op, s) <==> IsTriple(items, op, s)
    ensures IsTriple(items, op, s) ==>
              && |items| >= 3 && (NumberIn(arr[2], n) <==> NumberIn(items[2], n))
              && (arr[2].String? || items[2].String? ==> arr[2] == items[2])
  {
    TagsStay(items, arr, op, s);
    TripleHasThree(items, op, s);
    if |items| >= 3 { ScalarsStay(items[2], n); }
    hide ObjectsToMaps, IsTriple, NumberIn;
  }

  lemma {:induction false} ConnectivePart(items: seq<Ipld>, arr: seq<Ipld>, op: string, p: Predicate,
                                          ps: seq<Predicate>)
    requires |arr| == |items| && forall k :: 0 <= k < |items| ==> arr[k] == ObjectsToMaps(items[k])
    requires p == And(ps) || p == Or(ps)
    ensures IsPair(arr, op) <==> IsPair(items, op)
    ensures IsPair(items, op) ==>
              && |items| == 2 && (arr[1].List? <==> items[1].List?)
              && (items[1].List? ==> (IpldToPredicates(arr[1].items) == Ok(ps) <==> SaysEach(items[1].items, ps)))
    decreases p, 0
  {
    hide IpldToPredicate, IpldToPredicates, ObjectsToMaps, IsPair, Says;
    TagsStay(items, arr, op, []);
    PairHasTwo(items, op);
    if |items| == 2 {
      ScalarsStay(items[1], Integer(0, true));
      if items[1].List? {
        EachExact(arr[1].items, ps);
        if |items[1].items| == |ps| {
          forall k | 0 <= k < |ps|
            ensures IpldToPredicate(arr[1].items[k]) == Ok(ps[k]) <==> Says(ObjectsToMaps(items[1].items[k]), ps[k])
          {
            DecodesExactly(arr[1].items[k], ps[k]);
          }
        }
      }
    }
  }

  const COMPARISONS: seq<string> := [">", ">=", "<", "<="]
  const TRIPLES: seq<string> := ["==", "!=", ">", ">=", "<", "<=", "like", "all", "any"]

  predicate Among(op: Str, ops: seq<string>) { exists k :: 0 <= k < |ops| && op == Ascii(ops[k]) }

  lemma {:induction false} KnownSpelled(op: Str)
    ensures KnownTriple(op) <==> Among(op, TRIPLES)
    ensures Among(op, COMPARISONS) <==> op in [GT, GE, LT, LE]
  {
    TagsSpelled();
    hide Ascii;
    if KnownTriple(op) {
      var k := if op == EQ then 0 else if op == NE then 1 else if op == GT then 2 else if op == GE then 3
               else if op == LT then 4 else if op == LE then 5 else if op == LIKE then 6
               else if op == ALL then 7 else 8;
      assert op == Ascii(TRIPLES[k]);
      if op in [GT, GE, LT, LE] { assert op == Ascii(COMPARISONS[k - 2]); }
    }
  }

  /** Why a value is refused before any part of it is decoded. */
  lemma {:induction false} RefusedFor(items: seq<Ipld>, other: Ipld)
    ensures !other.List? ==> IpldToPredicate(other) == Err(NotATuple)
    ensures var r := IpldToPredicate(List(items));
            if |items| < 2 || !items[0].String? || (|items| > 2 && !items[1].String?) then r == Err(UnrecognizedShape)
            else if |items| == 2 then
              items[0].s != Ascii("not") && (items[0].s !in {Ascii("and"), Ascii("or")} || !items[1].List?) ==>
                r == Err(UnrecognizedPairTag(items[0].s))
            else if !Among(items[0].s, TRIPLES) then r == Err(UnrecognizedTripleTag(items[0].s))
            else match Selectors.ParseSelector(items[1].s)
              case Err(cause) => r == Err(InvalidSelector(items[0].s, cause))
              case Ok(_) =>
                && (Among(items[0].s, COMPARISONS) && !items[2].Number? && !items[2].BigInt? ==>
                      r == Err(CannotParseIpldNumber))
                && (items[0].s == Ascii("like") && !items[2].String? ==> r == Err(NotAString))
  {
    var arr := ObjectsToMaps(List(items)).items;
    assert IpldToPredicate(List(items)) == FromTuple(arr);
    forall k | 0 <= k < |items|
      ensures arr[k].String? <==> items[k].String?
      ensures items[k].String? ==> arr[k] == items[k]
      ensures arr[k].List? <==> items[k].List?
      ensures arr[k].Number? || arr[k].BigInt? <==> items[k].Number? || items[k].BigInt?
    {
      assert arr[k] == ObjectsToMaps(items[k]);
    }
    TagsSpelled();
    TagsDistinct();
    hide IpldToPredicate, IpldToPredicates, Ascii, Selectors.ParseSelector, ObjectsToMaps, Among, KnownTriple;
    TupleRefused(arr);
  }

  lemma {:induction false} TupleRefused(arr: seq<Ipld>)
    ensures var r := FromTuple(arr);
            if |arr| < 2 || !arr[0].String? || (|arr| > 2 && !arr[1].String?) then r == Err(UnrecognizedShape)
            else if |arr| == 2 then
              arr[0].s != Ascii("not") && (arr[0].s !in {Ascii("and"), Ascii("or")} || !arr[1].List?) ==>
                r == Err(UnrecognizedPairTag(arr[0].s))
            else if !Among(arr[0].s, TRIPLES) then r == Err(UnrecognizedTripleTag(arr[0].s))
            else match Selectors.ParseSelector(arr[1].s)
              case Err(cause) => r == Err(InvalidSelector(arr[0].s, cause))
              case Ok(_) =>
                && (Among(arr[0].s, COMPARISONS) && !arr[2].Number? && !arr[2].BigInt? ==>
                      r == Err(CannotParseIpldNumber))
                && (arr[0].s == Ascii("like") && !arr[2].String? ==> r == Err(NotAString))
  {
    TagsSpelled();
    TagsDistinct();
    hide IpldToPredicate, IpldToPredicates, Ascii, Selectors.ParseSelector, Among, KnownTriple;
    if |arr| > 2 && arr[0].String? { KnownSpelled(arr[0].s); }
  }

  /** What is written: operator, selector text and operand, with the operators spelled out. */
  lemma {:induction false} EncodesExactly(p: Predicate)
    ensures var triple := (op: string, s: Selector, v: Ipld) =>
              List([String(Ascii(op)), String(Selectors.SelectorText(s)), v]);
            PredicateToIpld(p)
            == match p
               case Equal(s, v) => triple("==", s, v)
               case GreaterThan(s, n) => triple(">", s, NumberToIpld(n))
               case GreaterThanOrEqual(s, n) => triple(">=", s, NumberToIpld(n))
               case LessThan(s, n) => triple("<", s, NumberToIpld(n))
               case LessThanOrEqual(s, n) => triple("<=", s, NumberToIpld(n))
               case Like(s, pattern) => triple("like", s, String(pattern))
               case Not(Equal(s, v)) => triple("!=", s, v)
               case Not(q) => List([String(Ascii("not")), PredicateToIpld(q)])
               case And(ps) => List([String(Ascii("and")), List(PredicatesToIpld(ps))])
               case Or(ps) => List([String(Ascii("or")), List(PredicatesToIpld(ps))])
               case All(s, q) => triple("all", s, PredicateToIpld(q))
               case Any(s, q) => triple("any", s, PredicateToIpld(q))
  {
    TagsSpelled();
    hide Ascii;
  }

  // ----- Decoding inverts encoding -----

  /** Every index and slice bound in every selector is a safe integer. */
  predicate SafeSelectors(p: Predicate)
    decreases p
  {
    match p
    case Not(q) => SafeSelectors(q)
    case And(ps) => forall k :: 0 <= k < |ps| ==> SafeSelectors(ps[k])
    case Or(ps) => forall k :: 0 <= k < |ps| ==> SafeSelectors(ps[k])
    case All(s, q) => Selectors.AllSafe(s) && SafeSelectors(q)
    case Any(s, q) => Selectors.AllSafe(s) && SafeSelectors(q)
    case _ => Selectors.AllSafe(p.select)
  }

  predicate ReadsBack(s: Selector) {
    Selectors.AllFlat(s) && !Selectors.OptionalIdentifierFirst(s)
  }

  /** An integer held as a JavaScript number is written like a float and read back as one. */
  predicate ParsedForm(n: UcanNumber) { n.Integer? ==> n.big }

  /** The predicates the triple form can carry: the guards a caller can check. */
  predicate Canonical(p: Predicate)
    decreases p
  {
    match p
    case Equal(s, v) => ReadsBack(s) && MapFree(v)
    case Like(s, _) => ReadsBack(s)
    case Not(q) => Canonical(q)
    case And(ps) => forall k :: 0 <= k < |ps| ==> Canonical(ps[k])
    case Or(ps) => forall k :: 0 <= k < |ps| ==> Canonical(ps[k])
    case All(s, q) => ReadsBack(s) && Canonical(q)
    case Any(s, q) => ReadsBack(s) && Canonical(q)
    case _ => ReadsBack(p.select) && ParsedForm(p.number)
  }

  /** No selector starts with an optional identifier field. */
  predicate Readable(p: Predicate)
    decreases p
  {
    match p
    case Not(q) => Readable(q)
    case And(ps) => forall k :: 0 <= k < |ps| ==> Readable(ps[k])
    case Or(ps) => forall k :: 0 <= k < |ps| ==> Readable(ps[k])
    case All(s, q) => !Selectors.OptionalIdentifierFirst(s) && Readable(q)
    case Any(s, q) => !Selectors.OptionalIdentifierFirst(s) && Readable(q)
    case _ => !Selectors.OptionalIdentifierFirst(p.select)
  }

  /** A number as the parser builds it: every JavaScript number is a float. */
  function AsParsed(x: UcanNumber): UcanNumber {
    if x.Integer? && !x.big then Float(Finite(x.i as real)) else x
  }

  /**
   * What the wire form of a predicate says, once normalised n times: nested optionals collapse, numbers take their
   * parsed form, and literals are normalised once more for every level they are nested at.
   */
  function Degraded(p: Predicate, n: nat): Predicate
    decreases p
  {
    match p
    case Equal(s, v) => Equal(CollapseAll(s), Normalised(v, n + 1))
    case GreaterThan(s, x) => GreaterThan(CollapseAll(s), AsParsed(x))
    case GreaterThanOrEqual(s, x) => GreaterThanOrEqual(CollapseAll(s), AsParsed(x))
    case LessThan(s, x) => LessThan(CollapseAll(s), AsParsed(x))
    case LessThanOrEqual(s, x) => LessThanOrEqual(CollapseAll(s), AsParsed(x))
    case Like(s, pattern) => Like(CollapseAll(s), pattern)
    case Not(q) => Not(Degraded(q, if q.Equal? then n else n + 1))
    case And(ps) => And(AllDegraded(ps, n + 1))
    case Or(ps) => Or(AllDegraded(ps, n + 1))
    case All(s, q) => All(CollapseAll(s), Degraded(q, n + 1))
    case Any(s, q) => Any(CollapseAll(s), Degraded(q, n + 1))
  }

  function AllDegraded(ps: seq<Predicate>, n: nat): (r: seq<Predicate>)
    ensures |r| == |ps| && forall k :: 0 <= k < |ps| ==> r[k] == Degraded(ps[k], n)
    decreases ps
  {
    if ps == [] then [] else [Degraded(ps[0], n)] + AllDegraded(ps[1..], n)
  }

  lemma {:induction false} TagsDistinct()
    ensures NOT != AND && NOT != OR && AND != OR
    ensures KnownTriple(EQ) && KnownTriple(NE) && KnownTriple(LIKE) && KnownTriple(ALL) && KnownTriple(ANY)
    ensures forall op :: op in [EQ, NE, GT, GE, LT, LE, LIKE, ANY] ==> op != ALL
    ensures forall op :: op in [EQ, NE, GT, GE, LT, LE, LIKE] ==> op != ANY
    ensures forall op :: op in [NE, GT, GE, LT, LE, LIKE] ==> op != EQ
    ensures forall op :: op in [GT, GE, LT, LE, LIKE] ==> op != NE
    ensures forall op :: op in [GT, GE, LT, LE] ==> op != LIKE
    ensures GT != GE && GT != LT && GT != LE && GE != LT && GE != LE && LT != LE
  {
    assert NOT[0] == 0x6E && AND[0] == 0x61 && OR[0] == 0x6F && |OR| == 2;
    assert ALL[1] == 0x6C && ANY[1] == 0x6E && LIKE[0] == 0x6C && |LIKE| == 4;
    assert EQ[0] == 0x3D && NE[0] == 0x21 && GT[0] == 0x3E && GE[0] == 0x3E && LT[0] == 0x3C && LE[0] == 0x3C;
    assert |ALL| == |ANY| == 3 && |EQ| == |NE| == |GE| == |LE| == 2 && |GT| == |LT| == 1;
  }

  /** What the decoder sees of a list that was normalised n times before it normalises once more. */
  lemma {:induction false} SeenItems(items: seq<Ipld>, n: nat)
    ensures var arr := ObjectsToMaps(Normalised(List(items), n)).items;
            && IpldToPredicate(Normalised(List(items), n)) == FromTuple(arr)
            && |arr| == |items|
            && forall k :: 0 <= k < |items| ==> arr[k] == Normalised(items[k], n + 1)
  {
    hide FromTuple, IpldModel.Size;
    NormalisedSnoc(List(items), n);
    NormalisedList(items, n + 1);
  }

  lemma {:induction false} TripleSeen(op: Str, s: Selector, v: Ipld, n: nat)
    ensures IpldToPredicate(Normalised(Triple(op, s, v), n))
            == FromTuple([String(op), String(Selectors.SelectorText(s)), Normalised(v, n + 1)])
  {
    hide IpldToPredicate, FromTuple, Normalised, Selectors.SelectorText;
    var items := [String(op), String(Selectors.SelectorText(s)), v];
    SeenItems(items, n);
    var arr := ObjectsToMaps(Normalised(List(items), n)).items;
    assert arr == [String(op), String(Selectors.SelectorText(s)), Normalised(v, n + 1)];
  }

  function ParsedTriple(op: Str, text: Str, val: Ipld): Result<Predicate, FromIpldError> {
    match Selectors.ParseSelector(text)
    case Err(cause) => Err(InvalidSelector(op, cause))
    case Ok(select) => ParseTriple(op, select, val)
  }

  lemma {:induction false} LeafSeen(op: Str, s: Selector, v: Ipld, n: nat)
    requires op in [EQ, NE, GT, GE, LT, LE, LIKE]
    ensures IpldToPredicate(Normalised(Triple(op, s, v), n))
            == ParsedTriple(op, Selectors.SelectorText(s), Normalised(v, n + 1))
  {
    TagsDistinct();
    TripleSeen(op, s, v, n);
    hide IpldToPredicate, Normalised, Selectors.SelectorText, Selectors.ParseSelector, ParseTriple;
  }

  /** The text of a selector, parsed. */
  function Reparsed(op: Str, s: Selector): Result<Selector, FromIpldError> {
    match Selectors.ParseSelector(Selectors.SelectorText(s))
    case Err(cause) => Err(InvalidSelector(op, cause))
    case Ok(select) => Ok(select)
  }

  lemma {:induction false} SelectorReparses(op: Str, s: Selector)
    requires Selectors.AllSafe(s)
    ensures if Selectors.OptionalIdentifierFirst(s) then Reparsed(op, s).Err? else Reparsed(op, s) == Ok(CollapseAll(s))
  {
    hide Selectors.ParseSelector, Selectors.SelectorText, Selectors.AllSafe;
    Selectors.ReparseCollapses(s);
  }

  lemma {:induction false} LeafDecodes(op: Str, s: Selector, v: Ipld, n: nat)
    requires Selectors.AllSafe(s) && op in [EQ, NE, GT, GE, LT, LE, LIKE]
    ensures var decoded := IpldToPredicate(Normalised(Triple(op, s, v), n));
            if Selectors.OptionalIdentifierFirst(s) then decoded.Err?
            else decoded == ParseTriple(op, CollapseAll(s), Normalised(v, n + 1))
  {
    hide IpldToPredicate, Normalised, Triple, Selectors.SelectorText, Selectors.ParseSelector, ParseTriple,
         Selectors.OptionalIdentifierFirst, Selectors.AllSafe, CollapseAll;
    LeafSeen(op, s, v, n);
    SelectorReparses(op, s);
  }

  lemma {:induction false} NumberReads(x: UcanNumber, n: nat)
    ensures Normalised(NumberToIpld(x), n) == NumberToIpld(x)
    ensures ParseNumber(NumberToIpld(x)) == Ok(AsParsed(x))
  {
  }

  lemma {:induction false} NumberTripleDecodes(op: Str, s: Selector, x: UcanNumber, n: nat)
    requires Selectors.AllSafe(s) && op in [GT, GE, LT, LE]
    ensures var decoded := IpldToPredicate(Normalised(Triple(op, s, NumberToIpld(x)), n));
            if Selectors.OptionalIdentifierFirst(s) then decoded.Err?
            else decoded == Ok(Comparison(op, CollapseAll(s), AsParsed(x)))
  {
    TagsDistinct();
    hide IpldToPredicate, Normalised, Triple, NumberToIpld, ParseNumber, AsParsed, Selectors.AllSafe,
         Selectors.OptionalIdentifierFirst, CollapseAll;
    LeafDecodes(op, s, NumberToIpld(x), n);
    NumberReads(x, n + 1);
  }

  lemma {:induction false} QuantifierSeen(op: Str, s: Selector, v: Ipld, n: nat)
    requires op == ALL || op == ANY
    ensures IpldToPredicate(Normalised(Triple(op, s, v), n))
            == match Selectors.ParseSelector(Selectors.SelectorText(s))
               case Err(cause) => Err(InvalidSelector(op, cause))
               case Ok(select) =>
                 match IpldToPredicate(Normalised(v, n + 1))
                 case Err(e) => Err(e)
                 case Ok(q) => Ok(if op == ALL then All(select, q) else Any(select, q))
  {
    TagsDistinct();
    TripleSeen(op, s, v, n);
    hide IpldToPredicate, Normalised, Selectors.SelectorText, Selectors.ParseSelector, ParseTriple;
  }

  lemma {:induction false} PairSeen(op: Str, v: Ipld, n: nat)
    requires op == NOT || op == AND || op == OR
    ensures IpldToPredicate(Normalised(List([String(op), v]), n)) == FromTuple([String(op), Normalised(v, n + 1)])
  {
    hide IpldToPredicate, FromTuple, Normalised;
    SeenItems([String(op), v], n);
    var arr := ObjectsToMaps(Normalised(List([String(op), v]), n)).items;
    assert arr == [String(op), Normalised(v, n + 1)];
  }

  lemma {:induction false} NotSeen(v: Ipld, n: nat)
    ensures IpldToPredicate(Normalised(List([String(NOT), v]), n))
            == match IpldToPredicate(Normalised(v, n + 1)) case Ok(q) => Ok(Not(q)) case Err(e) => Err(e)
  {
    PairSeen(NOT, v, n);
    hide IpldToPredicate, Normalised;
  }

  lemma {:induction false} ConnectiveSeen(items: seq<Ipld>, n: nat)
    ensures var inner := IpldToPredicates(Normalised(List(items), n + 1).items);
            && IpldToPredicate(Normalised(List([String(AND), List(items)]), n))
               == (match inner case Ok(ps) => Ok(And(ps)) case Err(e) => Err(e))
            && IpldToPredicate(Normalised(List([String(OR), List(items)]), n))
               == (match inner case Ok(ps) => Ok(Or(ps)) case Err(e) => Err(e))
  {
    hide IpldToPredicate, IpldToPredicates, Normalised;
    TagsDistinct();
    PairSeen(AND, List(items), n);
    PairSeen(OR, List(items), n);
  }

  lemma {:induction false} NotEqualTriple(s: Selector, v: Ipld)
    ensures ParseTriple(NE, s, v) == Ok(Not(Equal(s, v)))
  {
    assert NE[0] != EQ[0];
  }

  lemma {:induction false} NotEqualRedecodes(s: Selector, v: Ipld, n: nat)
    requires Selectors.AllSafe(s)
    ensures var p := Not(Equal(s, v));
            var decoded := IpldToPredicate(Normalised(PredicateToIpld(p), n));
            if Readable(p) then decoded == Ok(Degraded(p, n)) else decoded.Err?
  {
    hide IpldToPredicate, Normalised, Triple, CollapseAll, Selectors.OptionalIdentifierFirst, Selectors.AllSafe;
    LeafDecodes(NE, s, v, n);
    NotEqualTriple(CollapseAll(s), Normalised(v, n + 1));
    assert Readable(Not(Equal(s, v))) == Readable(Equal(s, v)) == !Selectors.OptionalIdentifierFirst(s);
    assert Degraded(Not(Equal(s, v)), n) == Not(Degraded(Equal(s, v), n));
  }

  /**
   * What encoding then decoding gives, at any depth and even when the encoded form was normalised n times on the way:
   * the degraded predicate, or an error if some selector does not read.
   */
  lemma {:induction false} Redecodes(p: Predicate, n: nat)
    requires SafeSelectors(p)
    ensures var decoded := IpldToPredicate(Normalised(PredicateToIpld(p), n));
            if Readable(p) then decoded == Ok(Degraded(p, n)) else decoded.Err?
    decreases p
  {
    hide IpldToPredicate, Normalised, Triple, Selectors.OptionalIdentifierFirst, Selectors.AllSafe;
    TagsDistinct();
    match p
    case Equal(s, v) => LeafDecodes(EQ, s, v, n);
    case Like(s, pattern) => LeafDecodes(LIKE, s, String(pattern), n);
    case GreaterThan(s, x) => NumberTripleDecodes(GT, s, x, n);
    case GreaterThanOrEqual(s, x) => NumberTripleDecodes(GE, s, x, n);
    case LessThan(s, x) => NumberTripleDecodes(LT, s, x, n);
    case LessThanOrEqual(s, x) => NumberTripleDecodes(LE, s, x, n);
    case Not(q) =>
      if q.Equal? {
        NotEqualRedecodes(q.select, q.value, n);
      } else {
        NotSeen(PredicateToIpld(q), n);
        Redecodes(q, n + 1);
      }
    case And(ps) =>
      ConnectiveSeen(PredicatesToIpld(ps), n);
      AllRedecode(ps, n + 1);
    case Or(ps) =>
      ConnectiveSeen(PredicatesToIpld(ps), n);
      AllRedecode(ps, n + 1);
    case All(s, q) =>
      QuantifierSeen(ALL, s, PredicateToIpld(q), n);
      SelectorReparses(ALL, s);
      Redecodes(q, n + 1);
    case Any(s, q) =>
      QuantifierSeen(ANY, s, PredicateToIpld(q), n);
      SelectorReparses(ANY, s);
      Redecodes(q, n + 1);
  }

  lemma {:induction false} AllRedecode(ps: seq<Predicate>, n: nat)
    requires forall k :: 0 <= k < |ps| ==> SafeSelectors(ps[k])
    ensures var decoded := IpldToPredicates(Normalised(List(PredicatesToIpld(ps)), n).items);
            if forall k :: 0 <= k < |ps| ==> Readable(ps[k]) then decoded == Ok(AllDegraded(ps, n)) else decoded.Err?
    decreases ps
  {
    hide IpldToPredicate, Readable, Degraded, PredicateToIpld, Normalised, SafeSelectors;
    var items := PredicatesToIpld(ps);
    NormalisedList(items, n);
    var arr := Normalised(List(items), n).items;
    if ps != [] {
      Redecodes(ps[0], n);
      AllRedecode(ps[1..], n);
      NormalisedList(items[1..], n);
      assert items[1..] == PredicatesToIpld(ps[1..]);
      assert arr[1..] == Normalised(List(items[1..]), n).items;
      assert (forall k :: 0 <= k < |ps| ==> Readable(ps[k]))
             <==> Readable(ps[0]) && forall k :: 0 <= k < |ps[1..]| ==> Readable(ps[1..][k]);
    }
  }

  /** Nothing is lost exactly when the predicate is canonical. */
  lemma {:induction false} DegradedFixpoint(p: Predicate, n: nat)
    ensures Readable(p) && Degraded(p, n) == p <==> Canonical(p)
    decreases p
  {
    hide Normalised, MapFree, Selectors.OptionalIdentifierFirst, CollapseAll, Selectors.AllFlat;
    match p
    case Equal(s, v) =>
      Selectors.CollapseFixpoint(s);
      NormalisedFixpoint(v, n + 1);
    case Not(q) => DegradedFixpoint(q, if q.Equal? then n else n + 1);
    case And(ps) => AllDegradedFixpoint(ps, n + 1);
    case Or(ps) => AllDegradedFixpoint(ps, n + 1);
    case All(s, q) =>
      Selectors.CollapseFixpoint(s);
      DegradedFixpoint(q, n + 1);
    case Any(s, q) =>
      Selectors.CollapseFixpoint(s);
      DegradedFixpoint(q, n + 1);
    case _ => Selectors.CollapseFixpoint(p.select);
  }

  lemma {:induction false} AllDegradedFixpoint(ps: seq<Predicate>, n: nat)
    ensures (forall k :: 0 <= k < |ps| ==> Readable(ps[k])) && AllDegraded(ps, n) == ps
            <==> forall k :: 0 <= k < |ps| ==> Canonical(ps[k])
    decreases ps
  {
    hide Readable, Degraded, Canonical;
    forall k | 0 <= k < |ps| ensures Readable(ps[k]) && Degraded(ps[k], n) == ps[k] <==> Canonical(ps[k]) {
      DegradedFixpoint(ps[k], n);
    }
  }

  /**
   * Encoding then decoding gives the same predicate back exactly when it is canonical, at any depth and even
   * when the encoded form was normalised n times on the way.
   */
  lemma {:induction false} PredicateRoundTripAt(p: Predicate, n: nat)
    requires SafeSelectors(p)
    ensures IpldToPredicate(Normalised(PredicateToIpld(p), n)) == Ok(p) <==> Canonical(p)
  {
    hide IpldToPredicate, Normalised, PredicateToIpld, Readable, Degraded, Canonical, SafeSelectors;
    Redecodes(p, n);
    DegradedFixpoint(p, n);
  }

  /** A policy list, as a delegation carries it. */
  lemma {:induction false} PolicyRoundTrip(ps: seq<Predicate>)
    requires forall k :: 0 <= k < |ps| ==> SafeSelectors(ps[k])
    ensures IpldToPredicates(PredicatesToIpld(ps)) == Ok(ps) <==> forall k :: 0 <= k < |ps| ==> Canonical(ps[k])
  {
    hide IpldToPredicates, Canonical, Readable, Degraded, SafeSelectors, PredicatesToIpld;
    assert Normalised(List(PredicatesToIpld(ps)), 0) == List(PredicatesToIpld(ps));
    AllRedecode(ps, 0);
    AllDegradedFixpoint(ps, 0);
  }

  lemma {:induction false} PredicateRoundTrip(p: Predicate)
    requires SafeSelectors(p)
    ensures IpldToPredicate(PredicateToIpld(p)) == Ok(p) <==> Canonical(p)
  {
    PredicateRoundTripAt(p, 0);
  }

  // ----- The losses, one by one -----

  /** A map literal comes back as the empty map. */
  lemma {:induction false} MapLiteralComesBackEmpty(s: Selector, entries: seq<Entry>)
    requires Selectors.AllSafe(s) && ReadsBack(s)
    ensures IpldToPredicate(PredicateToIpld(Equal(s, Map(entries)))) == Ok(Equal(s, Map([])))
  {
    Redecodes(Equal(s, Map(entries)), 0);
    Selectors.CollapseFixpoint(s);
    assert Normalised(Map(entries), 1) == Map([]);
    hide IpldToPredicate, PredicateToIpld, CollapseAll;
  }

  /** ... and so does a map inside a list literal, at its place. */
  lemma {:induction false} MapInListComesBackEmpty(s: Selector, items: seq<Ipld>, k: nat) returns (back: seq<Ipld>)
    requires Selectors.AllSafe(s) && ReadsBack(s) && k < |items| && items[k].Map?
    ensures IpldToPredicate(PredicateToIpld(Equal(s, List(items)))) == Ok(Equal(s, List(back)))
    ensures |back| == |items| && back[k] == Map([])
  {
    Redecodes(Equal(s, List(items)), 0);
    Selectors.CollapseFixpoint(s);
    NormalisedList(items, 1);
    assert Normalised(items[k], 1) == Map([]);
    assert Normalised(List(items), 1).List?;
    hide IpldToPredicate, PredicateToIpld, CollapseAll;
    back := Normalised(List(items), 1).items;
  }

  /** In every comparison an integer held as a JavaScript number comes back as the float of the same value. */
  lemma {:induction false} IntegerComesBackAsFloat(op: Str, s: Selector, i: int)
    requires op in [GT, GE, LT, LE]
    requires Selectors.AllSafe(s) && ReadsBack(s)
    ensures IpldToPredicate(PredicateToIpld(Comparison(op, s, Integer(i, false))))
            == Ok(Comparison(op, s, Float(Finite(i as real))))
  {
    hide IpldToPredicate, PredicateToIpld, CollapseAll, Selectors.AllFlat, Selectors.OptionalIdentifierFirst,
         Selectors.AllSafe;
    Redecodes(Comparison(op, s, Integer(i, false)), 0);
    Selectors.CollapseFixpoint(s);
  }

  lemma {:induction false} ObjectNormalised(fields: seq<Entry>)
    ensures Normalised(Object(fields), 1) == Map(ObjectsToMapsEntries(fields))
    ensures Normalised(Object(fields), 2) == Map([])
  {
    hide ObjectsToMapsEntries;
    NormalisedSnoc(Object(fields), 0);
    NormalisedSnoc(Object(fields), 1);
  }

  /** A plain-object literal becomes a map at the top level. */
  lemma {:induction false} ObjectLiteralBecomesMap(s: Selector, fields: seq<Entry>)
    requires Selectors.AllSafe(s) && ReadsBack(s)
    ensures IpldToPredicate(PredicateToIpld(Equal(s, Object(fields))))
            == Ok(Equal(s, Map(ObjectsToMapsEntries(fields))))
  {
    Redecodes(Equal(s, Object(fields)), 0);
    Selectors.CollapseFixpoint(s);
    ObjectNormalised(fields);
    hide IpldToPredicate, PredicateToIpld, CollapseAll, ObjectsToMapsEntries;
  }

  /** ... but under one more level it comes out empty, in a connective or under a negation. */
  lemma {:induction false} ObjectLiteralLostWhenNested(s: Selector, fields: seq<Entry>)
    requires Selectors.AllSafe(s) && ReadsBack(s)
    ensures var literal := Equal(s, Object(fields));
            && IpldToPredicate(PredicateToIpld(And([literal]))) == Ok(And([Equal(s, Map([]))]))
            && IpldToPredicate(List([String(NOT), PredicateToIpld(literal)])) == Ok(Not(Equal(s, Map([]))))
  {
    var literal := Equal(s, Object(fields));
    var negated := List([String(NOT), PredicateToIpld(literal)]);
    LiteralUnderOneLevel(s, fields);
    AndOfOne(literal, Equal(s, Map([])));
    hide IpldToPredicate, PredicateToIpld;
    assert Normalised(negated, 0) == negated;
    NotSeen(PredicateToIpld(literal), 0);
  }

  lemma {:induction false} LiteralUnderOneLevel(s: Selector, fields: seq<Entry>)
    requires Selectors.AllSafe(s) && ReadsBack(s)
    ensures IpldToPredicate(Normalised(PredicateToIpld(Equal(s, Object(fields))), 1)) == Ok(Equal(s, Map([])))
  {
    Redecodes(Equal(s, Object(fields)), 1);
    Selectors.CollapseFixpoint(s);
    ObjectNormalised(fields);
    hide IpldToPredicate, PredicateToIpld, CollapseAll, ObjectsToMapsEntries;
  }

  lemma {:induction false} AndOfOne(p: Predicate, q: Predicate)
    requires IpldToPredicate(Normalised(PredicateToIpld(p), 1)) == Ok(q)
    ensures IpldToPredicate(PredicateToIpld(And([p]))) == Ok(And([q]))
  {
    var items := [PredicateToIpld(p)];
    EncodedAndOfOne(p);
    hide IpldToPredicate, IpldToPredicates, PredicateToIpld;
    var encoded := List([String(AND), List(items)]);
    assert Normalised(encoded, 0) == encoded;
    hide Normalised;
    ConnectiveSeen(items, 0);
    NormalisedList(items, 1);
    DecodedOfOne(Normalised(List(items), 1).items, q);
  }

  lemma {:induction false} EncodedAndOfOne(p: Predicate)
    ensures PredicateToIpld(And([p])) == List([String(AND), List([PredicateToIpld(p)])])
  {
    assert [p][1..] == [] && PredicatesToIpld([]) == [];
    EmptyFront([PredicateToIpld(p)]);
    assert PredicatesToIpld([p]) == [PredicateToIpld(p)] + PredicatesToIpld([p][1..]);
  }

  lemma {:induction false} DecodedOfOne(items: seq<Ipld>, q: Predicate)
    requires |items| == 1 && IpldToPredicate(items[0]) == Ok(q)
    ensures IpldToPredicates(items) == Ok([q])
  {
    hide IpldToPredicate;
    assert items[1..] == [];
    assert IpldToPredicates(items[1..]) == Ok([]);
    EmptyFront([q]);
  }
}
