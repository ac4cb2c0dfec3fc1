/** Policy predicates and their evaluation (predicate.ts). */
module Predicates {
  import opened Text
  import opened Wrappers
  import opened Numbers
  import opened IpldModel
  import opened Filters
  import opened Select
  import Glob

  type Selector = seq<Filter>

  datatype Predicate =
    | Equal(select: Selector, value: Ipld)
    | GreaterThan(select: Selector, number: UcanNumber)
    | GreaterThanOrEqual(select: Selector, number: UcanNumber)
    | LessThan(select: Selector, number: UcanNumber)
    | LessThanOrEqual(select: Selector, number: UcanNumber)
    | Like(select: Selector, pattern: Str)
    | Not(inner: Predicate)
    | And(all: seq<Predicate>)
    | Or(any: seq<Predicate>)
    | All(select: Selector, inner: Predicate)
    | Any(select: Selector, inner: Predicate)

  datatype RunError = CannotCompareNonwholeFloatToInt | SelectorFailed(error: SelectorError)

  type Outcome = Result<bool, RunError>

  // ----- Projections (selectable.ts) -----

  function SelectIpld(v: Ipld): Result<Ipld, Reason> { Ok(v) }

  function SelectNumber(v: Ipld): Result<UcanNumber, Reason> {
    match v
    case BigInt(n) => Ok(Integer(n, true))
    case Number(d) => Ok(Float(d))
    case _ => Err(NotANumber)
  }

  function SelectString(v: Ipld): Result<Str, Reason> {
    match v
    case String(s) => Ok(s)
    case _ => Err(NotAString)
  }

  /** The elements of a list, or the values of a map in insertion order. */
  function SelectCollection(v: Ipld): Result<seq<Ipld>, Reason> {
    match v
    case List(items) => Ok(items)
    case Map(entries) => Ok(MapValues(entries))
    case _ => Err(NotACollection)
  }

  /** Select, turning a selector error into a run error. */
  function Selected<T>(select: Selector, data: Ipld, selectable: Ipld -> Result<T, Reason>): Result<T, RunError> {
    match Select.Get(data, select, selectable)
    case Ok(t) => Ok(t)
    case Err(e) => Err(SelectorFailed(e))
  }

  // ----- Evaluation -----

  predicate IsWhole(d: Double) {
    d.Finite? && d.r == d.r.Floor as real
  }

  function CompareWhole(d: Double, n: int): Outcome {
    if IsWhole(d) then Ok(d.r.Floor == n) else Err(CannotCompareNonwholeFloatToInt)
  }

  function RunEqual(focused: Ipld, value: Ipld): Outcome {
    match (focused, value)
    case (Number(d), BigInt(n)) => CompareWhole(d, n)
    case (BigInt(n), Number(d)) => CompareWhole(d, n)
    case _ => Ok(IpldEquals(focused, value))
  }

  /** Float against integer: `==` is equality in the numeric order, and an error on a float that is not whole. */
  lemma {:induction false} EqualAgreesWithOrder(d: Double, n: int)
    ensures RunEqual(Number(d), BigInt(n))
            == if IsWhole(d) then Ok(NumberCompare(Float(d), Integer(n, true)) == Tie)
               else Err(CannotCompareNonwholeFloatToInt)
    ensures RunEqual(BigInt(n), Number(d)) == RunEqual(Number(d), BigInt(n))
  {
    NumberCompareIsExact(Float(d), Integer(n, true));
  }

  function Compared(select: Selector, data: Ipld, number: UcanNumber, accepted: set<Ordering>): Outcome {
    match Selected(select, data, SelectNumber)
    case Ok(n) => Ok(NumberCompare(n, number) in accepted)
    case Err(e) => Err(e)
  }

  function Negate(r: Outcome): Outcome {
    match r
    case Ok(b) => Ok(!b)
    case Err(e) => Err(e)
  }

  /** `runPredicate`. */
  function Run(p: Predicate, data: Ipld): Outcome
    decreases p, 0, 0
  {
    match p
    case Equal(select, value) =>
      (match Selected(select, data, SelectIpld)
       case Ok(focused) => RunEqual(focused, value)
       case Err(e) => Err(e))
    case GreaterThan(select, n) => Compared(select, data, n, {Greater})
    case GreaterThanOrEqual(select, n) => Compared(select, data, n, {Greater, Tie})
    case LessThan(select, n) => Compared(select, data, n, {Less})
    case LessThanOrEqual(select, n) => Compared(select, data, n, {Less, Tie})
    case Like(select, pattern) =>
      (match Selected(select, data, SelectString)
       case Ok(s) => Ok(Glob.Matches(Glob.Tokens(pattern), s))
       case Err(e) => Err(e))
    case Not(q) => Negate(Run(q, data))
    case And(ps) => RunAnd(ps, data)
    case Or(ps) => if ps == [] then Ok(true) else RunOr(ps, data)
    case All(select, q) =>
      (match Selected(select, data, SelectCollection)
       case Ok(vs) => RunAll(q, vs)
       case Err(e) => Err(e))
    case Any(select, q) =>
      (match Selected(select, data, SelectCollection)
       case Ok(vs) => if vs == [] then Ok(true) else RunAny(q, vs)
       case Err(e) => Err(e))
  }

  /** Stops at the first predicate that is false or cannot be evaluated. */
  function RunAnd(ps: seq<Predicate>, data: Ipld): Outcome
    decreases ps, 0, 0
  {
    if ps == [] then Ok(true) else
      var first := Run(ps[0], data);
      if first == Ok(true) then RunAnd(ps[1..], data) else first
  }

  /** Stops at the first predicate that is true or cannot be evaluated. */
  function RunOr(ps: seq<Predicate>, data: Ipld): Outcome
    decreases ps, 0, 0
  {
    if ps == [] then Ok(false) else
      var first := Run(ps[0], data);
      if first == Ok(false) then RunOr(ps[1..], data) else first
  }

  function RunAll(p: Predicate, vs: seq<Ipld>): Outcome
    decreases p, 1, |vs|
  {
    if vs == [] then Ok(true) else
      var first := Run(p, vs[0]);
      if first == Ok(true) then RunAll(p, vs[1..]) else first
  }

  function RunAny(p: Predicate, vs: seq<Ipld>): Outcome
    decreases p, 1, |vs|
  {
    if vs == [] then Ok(false) else
      var first := Run(p, vs[0]);
      if first == Ok(false) then RunAny(p, vs[1..]) else first
  }

  // ----- What each predicate answers -----

  /** `neutral` when every part is; otherwise the outcome of the first part that is not, an error included. */
  predicate Decides(r: Outcome, parts: seq<Outcome>, neutral: bool) {
    && (r == Ok(neutral) <==> forall k :: 0 <= k < |parts| ==> parts[k] == Ok(neutral))
    && forall k :: 0 <= k < |parts| ==> FirstOther(parts, k, neutral) ==> r == parts[k]
  }

  predicate FirstOther(parts: seq<Outcome>, k: nat, neutral: bool)
    requires k < |parts|
  {
    parts[k] != Ok(neutral) && forall j :: 0 <= j < k ==> parts[j] == Ok(neutral)
  }

  lemma {:induction false} DecidesStep(r: Outcome, parts: seq<Outcome>, neutral: bool)
    requires parts != []
    requires if parts[0] == Ok(neutral) then Decides(r, parts[1..], neutral) else r == parts[0]
    ensures Decides(r, parts, neutral)
  {
    var rest := parts[1..];
    assert forall k :: 0 <= k < |rest| ==> rest[k] == parts[k + 1];
    assert forall k :: 0 < k < |parts| ==> parts[k] == rest[k - 1];
    forall k | 0 <= k < |parts| && FirstOther(parts, k, neutral) ensures r == parts[k] {
      if k > 0 {
        assert parts[0] == Ok(neutral);
        assert FirstOther(rest, k - 1, neutral);
      }
    }
  }

  /** The outcomes of all predicates on the data. */
  function Outcomes(ps: seq<Predicate>, data: Ipld): (r: seq<Outcome>)
    ensures |r| == |ps| && forall k :: 0 <= k < |ps| ==> r[k] == Run(ps[k], data)
  {
    if ps == [] then [] else [Run(ps[0], data)] + Outcomes(ps[1..], data)
  }

  /** The outcomes of one predicate on all elements. */
  function OutcomesOn(q: Predicate, vs: seq<Ipld>): (r: seq<Outcome>)
    ensures |r| == |vs| && forall k :: 0 <= k < |vs| ==> r[k] == Run(q, vs[k])
  {
    if vs == [] then [] else [Run(q, vs[0])] + OutcomesOn(q, vs[1..])
  }

  lemma {:induction false} ListsDecide(ps: seq<Predicate>, data: Ipld)
    ensures Decides(RunAnd(ps, data), Outcomes(ps, data), true)
    ensures Decides(RunOr(ps, data), Outcomes(ps, data), false)
  {
    hide Run;
    if ps != [] {
      ListsDecide(ps[1..], data);
      assert Outcomes(ps, data)[1..] == Outcomes(ps[1..], data);
      hide Decides;
      DecidesStep(RunAnd(ps, data), Outcomes(ps, data), true);
      DecidesStep(RunOr(ps, data), Outcomes(ps, data), false);
    }
  }

  lemma {:induction false} ElementsDecide(q: Predicate, vs: seq<Ipld>)
    ensures Decides(RunAll(q, vs), OutcomesOn(q, vs), true)
    ensures Decides(RunAny(q, vs), OutcomesOn(q, vs), false)
  {
    hide Run;
    if vs != [] {
      ElementsDecide(q, vs[1..]);
      assert OutcomesOn(q, vs)[1..] == OutcomesOn(q, vs[1..]);
      hide Decides;
      DecidesStep(RunAll(q, vs), OutcomesOn(q, vs), true);
      DecidesStep(RunAny(q, vs), OutcomesOn(q, vs), false);
    }
  }

  /**
   * `and` is true exactly when every part is, and otherwise answers as the first part that is not; `or` is true without
   * parts, false exactly when all its parts are, and otherwise answers as the first part that is not; `not` flips.
   */
  lemma {:induction false} ConnectivesAnswer(ps: seq<Predicate>, q: Predicate, data: Ipld)
    ensures Decides(Run(And(ps), data), Outcomes(ps, data), true)
    ensures if ps == [] then Run(Or(ps), data) == Ok(true) else Decides(Run(Or(ps), data), Outcomes(ps, data), false)
    ensures Run(Not(q), data) == match Run(q, data) case Ok(b) => Ok(!b) case Err(e) => Err(e)
  {
    ListsDecide(ps, data);
    hide Decides;
  }

  /** The error of a selector, and of a selector whose value is of the wrong kind. */
  function SelectionFails(e: SelectorError): Outcome { Err(SelectorFailed(e)) }

  function WrongKind(select: Selector, data: Ipld, reason: Reason): Outcome {
    SelectionFails(SelectorError(Select.Seen(data, select), reason))
  }

  /** The elements of a list, the values of a map in order, and no collection otherwise. */
  predicate HasElements(v: Ipld, vs: seq<Ipld>) {
    || v == List(vs)
    || (v.Map? && |vs| == |v.entries| && forall k :: 0 <= k < |vs| ==> vs[k] == v.entries[k].value)
  }

  /** `all` and `any` answer over the elements of what is selected, as `and` and `or` do over their parts. */
  lemma {:induction false} QuantifiersAnswer(select: Selector, q: Predicate, data: Ipld, vs: seq<Ipld>)
    ensures match Select.Focus(data, select)
            case Err(e) => Run(All(select, q), data) == Run(Any(select, q), data) == SelectionFails(e)
            case Ok(v) =>
              if v.List? || v.Map? then
                HasElements(v, vs) ==>
                  && Decides(Run(All(select, q), data), OutcomesOn(q, vs), true)
                  && (if vs == [] then Run(Any(select, q), data) == Ok(true)
                      else Decides(Run(Any(select, q), data), OutcomesOn(q, vs), false))
              else
                Run(All(select, q), data) == Run(Any(select, q), data) == WrongKind(select, data, NotACollection)
  {
    CollectionSelected(select, data, vs);
    hide Decides, Select.Focus, Select.Seen, Selected, SelectCollection, HasElements;
    ElementsDecide(q, vs);
  }

  lemma {:induction false} CollectionSelected(select: Selector, data: Ipld, vs: seq<Ipld>)
    ensures var selected := Selected(select, data, SelectCollection);
            match Select.Focus(data, select)
            case Err(e) => selected == Err(SelectorFailed(e))
            case Ok(v) =>
              if v.List? || v.Map? then HasElements(v, vs) ==> selected == Ok(vs)
              else selected == Err(SelectorFailed(SelectorError(Select.Seen(data, select), NotACollection)))
  {
    var focus := Select.Focus(data, select);
    if focus.Ok? && focus.value.Map? && HasElements(focus.value, vs) {
      assert vs == MapValues(focus.value.entries);
    }
    hide Select.Focus, Select.Seen;
  }

  /** The number an IPLD value is, as a point of the extended real line; NaN is none. */
  function PointOf(v: Ipld): Option<Double> {
    match v
    case Number(d) => Some(d)
    case BigInt(n) => Some(Finite(n as real))
    case _ => None
  }

  lemma {:induction false} ScalarsSelected(select: Selector, data: Ipld)
    ensures match Select.Focus(data, select)
            case Err(e) =>
              && Selected(select, data, SelectIpld) == Err(SelectorFailed(e))
              && Selected(select, data, SelectNumber) == Err(SelectorFailed(e))
              && Selected(select, data, SelectString) == Err(SelectorFailed(e))
            case Ok(v) =>
              && Selected(select, data, SelectIpld) == Ok(v)
              && (match Selected(select, data, SelectNumber)
                  case Ok(x) => PointOf(v) == Some(Point(x))
                  case Err(e) =>
                    PointOf(v) == None && e == SelectorFailed(SelectorError(Select.Seen(data, select), NotANumber)))
              && (if v.String? then Selected(select, data, SelectString) == Ok(v.s)
                  else Selected(select, data, SelectString)
                       == Err(SelectorFailed(SelectorError(Select.Seen(data, select), NotAString))))
  {
    hide Select.Focus, Select.Seen;
  }

  /** The four comparisons are those of the extended real line, all false when either side is NaN. */
  lemma {:induction false} ComparisonsAnswer(select: Selector, n: UcanNumber, data: Ipld)
    ensures var gt, ge := Run(GreaterThan(select, n), data), Run(GreaterThanOrEqual(select, n), data);
            var lt, le := Run(LessThan(select, n), data), Run(LessThanOrEqual(select, n), data);
            match Select.Focus(data, select)
            case Err(e) => gt == ge == lt == le == SelectionFails(e)
            case Ok(v) =>
              match PointOf(v)
              case None => gt == ge == lt == le == WrongKind(select, data, NotANumber)
              case Some(x) =>
                var y := Point(n);
                if x.NaN? || y.NaN? then gt == ge == lt == le == Ok(false)
                else gt == Ok(Below(y, x)) && ge == Ok(Below(y, x) || x == y)
                     && lt == Ok(Below(x, y)) && le == Ok(Below(x, y) || x == y)
  {
    ScalarsSelected(select, data);
    var x := Selected(select, data, SelectNumber);
    if x.Ok? { NumberCompareIsExact(x.value, n); }
    hide Select.Focus, Select.Seen, Selected, NumberCompare, Below, Point, PointOf;
  }

  /** `==` compares a number with a bigint as numbers, failing when the number is not whole; else as `ipldEquals`. */
  lemma {:induction false} EqualAnswers(select: Selector, value: Ipld, data: Ipld)
    ensures var equal := Run(Equal(select, value), data);
            match Select.Focus(data, select)
            case Err(e) => equal == SelectionFails(e)
            case Ok(v) =>
              && (v.Number? && value.BigInt? ==> EqualAcross(equal, v.d, value.n))
              && (v.BigInt? && value.Number? ==> EqualAcross(equal, value.d, v.n))
              && (!(v.Number? && value.BigInt?) && !(v.BigInt? && value.Number?) ==>
                    equal == Ok(IpldEquals(v, value)))
  {
    ScalarsSelected(select, data);
    hide Select.Focus, Select.Seen, Selected, IpldEquals, CompareWhole, EqualAcross;
    var focus := Select.Focus(data, select);
    if focus.Ok? {
      if focus.value.Number? && value.BigInt? { AcrossExact(focus.value.d, value.n); }
      if focus.value.BigInt? && value.Number? { AcrossExact(value.d, focus.value.n); }
    }
  }

  /** `like` holds of a selected string that the pattern expands to. */
  lemma {:induction false} LikeAnswers(select: Selector, pattern: Str, data: Ipld)
    ensures var like := Run(Like(select, pattern), data);
            match Select.Focus(data, select)
            case Err(e) => like == SelectionFails(e)
            case Ok(v) =>
              if v.String? then like.Ok? && (like.value <==> Glob.Expands(Glob.Tokens(pattern), v.s))
              else like == WrongKind(select, data, NotAString)
  {
    ScalarsSelected(select, data);
    hide Select.Focus, Select.Seen, Selected, Glob.Matches, Glob.Tokens, Glob.Expands;
    var focus := Select.Focus(data, select);
    if focus.Ok? && focus.value.String? { Glob.MatchesIffExpansion(Glob.Tokens(pattern), focus.value.s); }
  }

  predicate EqualAcross(r: Outcome, d: Double, n: int) {
    r == if d.Finite? && d.r == d.r.Floor as real then Ok(d == Finite(n as real))
         else Err(CannotCompareNonwholeFloatToInt)
  }

  lemma {:induction false} AcrossExact(d: Double, n: int)
    ensures EqualAcross(CompareWhole(d, n), d, n)
  {
  }

  // ----- Comparisons complement each other away from NaN -----

  predicate IsNaN(n: UcanNumber) { n.Float? && n.value.NaN? }

  /** `>` and `<=` are complementary exactly when neither side is NaN; with NaN both are false. */
  lemma {:induction false} GreaterComplementsLessOrEqual(select: Selector, n: UcanNumber, data: Ipld)
    ensures Run(LessThanOrEqual(select, n), data) == Negate(Run(GreaterThan(select, n), data))
            <==> match Selected(select, data, SelectNumber)
                 case Ok(m) => !IsNaN(m) && !IsNaN(n)
                 case Err(_) => true
  {
    var focused := Selected(select, data, SelectNumber);
    if focused.Ok? { NumberCompareIsExact(focused.value, n); }
  }

  // ----- Pushing negation inward, one step -----

  function NotAll(ps: seq<Predicate>): (r: seq<Predicate>)
    ensures |r| == |ps| && forall k :: 0 <= k < |ps| ==> r[k] == Not(ps[k])
  {
    if ps == [] then [] else [Not(ps[0])] + NotAll(ps[1..])
  }

  lemma {:induction false} NegatedLists(ps: seq<Predicate>, data: Ipld)
    ensures RunOr(NotAll(ps), data) == Negate(RunAnd(ps, data))
    ensures RunAnd(NotAll(ps), data) == Negate(RunOr(ps, data))
  {
    if ps != [] {
      assert Run(Not(ps[0]), data) == Negate(Run(ps[0], data));
      hide Run;
      NegatedLists(ps[1..], data);
      assert NotAll(ps)[1..] == NotAll(ps[1..]);
    }
  }

  lemma {:induction false} NegatedElements(p: Predicate, vs: seq<Ipld>)
    ensures RunAny(Not(p), vs) == Negate(RunAll(p, vs))
    ensures RunAll(Not(p), vs) == Negate(RunAny(p, vs))
    decreases |vs|
  {
    if vs != [] { NegatedElements(p, vs[1..]); }
  }

  /** De Morgan, errors and evaluation order included, holds for lists exactly when they are not empty. */
  lemma {:induction false} DeMorganLists(ps: seq<Predicate>, data: Ipld)
    ensures Run(Not(And(ps)), data) == Run(Or(NotAll(ps)), data) <==> ps != []
    ensures Run(Not(Or(ps)), data) == Run(And(NotAll(ps)), data) <==> ps != []
  {
    NegatedLists(ps, data);
  }

  /** The collection is there and empty. */
  predicate SelectsNothing(select: Selector, data: Ipld) {
    Selected(select, data, SelectCollection) == Ok([])
  }

  /** ... and for quantifiers exactly when the selected collection is not an empty one. */
  lemma {:induction false} DeMorganQuantifiers(select: Selector, p: Predicate, data: Ipld)
    ensures Run(Not(All(select, p)), data) == Run(Any(select, Not(p)), data) <==> !SelectsNothing(select, data)
    ensures Run(Not(Any(select, p)), data) == Run(All(select, Not(p)), data) <==> !SelectsNothing(select, data)
  {
    var focused := Selected(select, data, SelectCollection);
    if focused.Ok? { NegatedElements(p, focused.value); }
  }

  // ----- Negation normal form -----

  /** The negation normal form of `p`, or of its negation. */
  function Nnf(p: Predicate, negated: bool): Predicate
    decreases p
  {
    match p
    case Not(q) => Nnf(q, !negated)
    case And(ps) =>
      if ps == [] then (if negated then Not(p) else p)
      else if negated then Or(NnfList(ps, true)) else And(NnfList(ps, false))
    case Or(ps) =>
      if ps == [] then (if negated then Not(p) else p)
      else if negated then And(NnfList(ps, true)) else Or(NnfList(ps, false))
    case All(s, q) => if negated then Any(s, Nnf(q, true)) else All(s, Nnf(q, false))
    case Any(s, q) => if negated then All(s, Nnf(q, true)) else Any(s, Nnf(q, false))
    case _ => if negated then Not(p) else p
  }

  function NnfList(ps: seq<Predicate>, negated: bool): (r: seq<Predicate>)
    ensures |r| == |ps|
    decreases ps
  {
    if ps == [] then [] else [Nnf(ps[0], negated)] + NnfList(ps[1..], negated)
  }

  /** Negation stands only before comparisons and empty connectives. */
  predicate IsNnf(p: Predicate)
    decreases p
  {
    match p
    case Not(q) => !q.Not? && !q.All? && !q.Any? && (q.And? ==> q.all == []) && (q.Or? ==> q.any == [])
    case And(ps) => forall k :: 0 <= k < |ps| ==> IsNnf(ps[k])
    case Or(ps) => forall k :: 0 <= k < |ps| ==> IsNnf(ps[k])
    case All(_, q) => IsNnf(q)
    case Any(_, q) => IsNnf(q)
    case _ => true
  }

  lemma {:induction false} NnfIsNnf(p: Predicate, negated: bool)
    ensures IsNnf(Nnf(p, negated))
    decreases p
  {
    match p
    case Not(q) => NnfIsNnf(q, !negated);
    case And(ps) => NnfListIsNnf(ps, negated);
    case Or(ps) => NnfListIsNnf(ps, negated);
    case All(_, q) => NnfIsNnf(q, negated);
    case Any(_, q) => NnfIsNnf(q, negated);
    case _ =>
  }

  lemma {:induction false} NnfListIsNnf(ps: seq<Predicate>, negated: bool)
    ensures forall k :: 0 <= k < |ps| ==> IsNnf(NnfList(ps, negated)[k])
    decreases ps
  {
    if ps != [] {
      NnfIsNnf(ps[0], negated);
      NnfListIsNnf(ps[1..], negated);
    }
  }

  /** No quantifier standing under an odd number of negations meets an empty collection. */
  predicate NegatedQuantifiersInhabited(p: Predicate, data: Ipld, negated: bool)
    decreases p, 0
  {
    match p
    case Not(q) => NegatedQuantifiersInhabited(q, data, !negated)
    case And(ps) => forall k :: 0 <= k < |ps| ==> NegatedQuantifiersInhabited(ps[k], data, negated)
    case Or(ps) => forall k :: 0 <= k < |ps| ==> NegatedQuantifiersInhabited(ps[k], data, negated)
    case All(s, q) =>
      (negated ==> !SelectsNothing(s, data)) && ElementsInhabited(q, Selected(s, data, SelectCollection), negated)
    case Any(s, q) =>
      (negated ==> !SelectsNothing(s, data)) && ElementsInhabited(q, Selected(s, data, SelectCollection), negated)
    case _ => true
  }

  predicate ElementsInhabited(q: Predicate, focused: Result<seq<Ipld>, RunError>, negated: bool)
    decreases q, 1
  {
    focused.Ok? ==> forall k :: 0 <= k < |focused.value| ==> NegatedQuantifiersInhabited(q, focused.value[k], negated)
  }

  function NegateIf(negated: bool, r: Outcome): Outcome {
    if negated then Negate(r) else r
  }

  /** The normal form evaluates to the same verdict, or raises the same error, on the same data. */
  lemma {:induction false} NnfPreservesMeaning(p: Predicate, data: Ipld, negated: bool)
    requires NegatedQuantifiersInhabited(p, data, negated)
    ensures Run(Nnf(p, negated), data) == NegateIf(negated, Run(p, data))
    decreases p, 0, 0
  {
    hide Run, Nnf;
    match p
    case Not(q) =>
      NnfPreservesMeaning(q, data, !negated);
      NnfOfNot(q, data, negated);
    case And(ps) =>
      NnfListPreservesMeaning(ps, data, negated);
      NnfOfConnective(p, ps, data, negated);
    case Or(ps) =>
      NnfListPreservesMeaning(ps, data, negated);
      NnfOfConnective(p, ps, data, negated);
    case All(s, q) =>
      var focused := Selected(s, data, SelectCollection);
      if focused.Ok? { NnfElementsPreserveMeaning(q, focused.value, negated); }
      NnfOfQuantifier(p, q, data, negated);
    case Any(s, q) =>
      var focused := Selected(s, data, SelectCollection);
      if focused.Ok? { NnfElementsPreserveMeaning(q, focused.value, negated); }
      NnfOfQuantifier(p, q, data, negated);
    case _ =>
      NnfOfAtom(p, data, negated);
  }

  lemma {:induction false} NnfOfNot(q: Predicate, data: Ipld, negated: bool)
    requires Run(Nnf(q, !negated), data) == NegateIf(!negated, Run(q, data))
    ensures Run(Nnf(Not(q), negated), data) == NegateIf(negated, Run(Not(q), data))
  {
  }

  lemma {:induction false} NnfOfAtom(p: Predicate, data: Ipld, negated: bool)
    requires !p.Not? && !p.And? && !p.Or? && !p.All? && !p.Any?
    ensures Run(Nnf(p, negated), data) == NegateIf(negated, Run(p, data))
  {
    assert Nnf(p, negated) == if negated then Not(p) else p;
    assert Run(Not(p), data) == Negate(Run(p, data));
  }

  ghost predicate ListMeaning(ps: seq<Predicate>, data: Ipld, negated: bool) {
    var rs := NnfList(ps, negated);
    if negated then RunOr(rs, data) == Negate(RunAnd(ps, data)) && RunAnd(rs, data) == Negate(RunOr(ps, data))
    else RunOr(rs, data) == RunOr(ps, data) && RunAnd(rs, data) == RunAnd(ps, data)
  }

  lemma {:induction false} NnfOfConnective(p: Predicate, ps: seq<Predicate>, data: Ipld, negated: bool)
    requires (p == And(ps) || p == Or(ps)) && ListMeaning(ps, data, negated)
    ensures Run(Nnf(p, negated), data) == NegateIf(negated, Run(p, data))
  {
    if ps == [] { assert Run(Not(p), data) == Negate(Run(p, data)); }
  }

  ghost predicate ElementsMeaning(p: Predicate, vs: seq<Ipld>, negated: bool) {
    var q := Nnf(p, negated);
    if negated then RunAny(q, vs) == Negate(RunAll(p, vs)) && RunAll(q, vs) == Negate(RunAny(p, vs))
    else RunAny(q, vs) == RunAny(p, vs) && RunAll(q, vs) == RunAll(p, vs)
  }

  lemma {:induction false} NnfOfQuantifier(p: Predicate, q: Predicate, data: Ipld, negated: bool)
    requires (p.All? || p.Any?) && p.inner == q
    requires negated ==> !SelectsNothing(p.select, data)
    requires var focused := Selected(p.select, data, SelectCollection);
             focused.Ok? ==> ElementsMeaning(q, focused.value, negated)
    ensures Run(Nnf(p, negated), data) == NegateIf(negated, Run(p, data))
  {
    hide Selected, SelectCollection;
  }

  lemma {:induction false} NnfListPreservesMeaning(ps: seq<Predicate>, data: Ipld, negated: bool)
    requires forall k :: 0 <= k < |ps| ==> NegatedQuantifiersInhabited(ps[k], data, negated)
    ensures ListMeaning(ps, data, negated)
    decreases ps, 0, 0
  {
    if ps != [] {
      hide Run, Nnf, NegatedQuantifiersInhabited;
      NnfPreservesMeaning(ps[0], data, negated);
      NnfListPreservesMeaning(ps[1..], data, negated);
      assert NnfList(ps, negated)[1..] == NnfList(ps[1..], negated);
    }
  }

  lemma {:induction false} NnfElementsPreserveMeaning(p: Predicate, vs: seq<Ipld>, negated: bool)
    requires forall k :: 0 <= k < |vs| ==> NegatedQuantifiersInhabited(p, vs[k], negated)
    ensures ElementsMeaning(p, vs, negated)
    decreases p, 1, |vs|
  {
    if vs != [] {
      hide Run, Nnf, NegatedQuantifiersInhabited;
      NnfPreservesMeaning(p, vs[0], negated);
      NnfElementsPreserveMeaning(p, vs[1..], negated);
    }
  }
}
