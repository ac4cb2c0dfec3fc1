/** Evaluating a selector against a value: `Select.get` (selector/select.ts). */
module Select {
  import opened Wrappers
  import opened Filters
  import Selectors
  import Text
  import opened IpldModel

  datatype Reason =
    | IndexOutOfBounds | KeyNotFound | NotAList | NotAMap | NotACollection | NotANumber | NotAString

  /** The error names the filters seen so far; its message is their printed form. */
  datatype SelectorError = SelectorError(seen: seq<Filter>, reason: Reason)

  // ----- One required segment -----

  function Min(a: int, b: int): int { if a < b then a else b }

  function Max(a: int, b: int): int { if a > b then a else b }

  function ResolveIndex(idx: int, len: nat): (r: int)
    ensures 0 <= r <= len
  {
    if idx >= 0 then Min(idx, len) else Max(0, len + idx)
  }

  /** `resolveSliceIndices`: always an in-range, possibly empty window. */
  function ResolveSliceIndices(start: Option<int>, end: Option<int>, len: nat): (r: (int, int))
    ensures 0 <= r.0 <= r.1 <= len
  {
    var s := if start.Some? then ResolveIndex(start.value, len) else 0;
    var e := if end.Some? then ResolveIndex(end.value, len) else len;
    (s, Max(e, s))
  }

  /** The element position an index denotes, counting from the end when negative. */
  function ResolveElement(i: int, len: nat): (r: Option<nat>)
    ensures r.Some? ==> r.value < len
  {
    if len > 0x7FFF_FFFF then None
    else if (if i < 0 then -i else i) > len then None
    else
      var idx := if i >= 0 then i else len + i;
      if idx < 0 || idx >= len then None else Some(idx)
  }

  /** An index denotes the element that many places from the start, or from the end when negative. */
  lemma {:induction false} IndexCountsFromEitherEnd(i: int, len: nat, k: nat)
    requires len <= 0x7FFF_FFFF
    ensures ResolveElement(i, len) == Some(k) <==> k < len && (k == i || k - len == i)
  {
  }

  /** Whether a bound, counted from the end when negative, lies at or before position k. */
  predicate AtOrBefore(bound: int, k: nat, len: nat) {
    if bound >= 0 then bound <= k else len + bound <= k
  }

  /** A slice keeps exactly the positions at or after its start and before its end. */
  lemma {:induction false} SliceKeeps(start: Option<int>, end: Option<int>, len: nat, k: nat)
    requires k < len
    ensures var (s, e) := ResolveSliceIndices(start, end, len);
            s <= k < e <==> (start.Some? ==> AtOrBefore(start.value, k, len))
                            && (end.Some? ==> !AtOrBefore(end.value, k, len))
  {
  }

  /** `applyFilter`. */
  function ApplyFilter(v: Ipld, op: Filter): Result<Ipld, Reason> {
    match op
    case ArrayIndex(i) =>
      (match v
       case List(xs) =>
         var idx := ResolveElement(i, |xs|);
         if idx.Some? then Ok(xs[idx.value]) else Err(IndexOutOfBounds)
       case Bytes(bs) =>
         var idx := ResolveElement(i, |bs|);
         if idx.Some? then Ok(BigInt(bs[idx.value])) else Err(IndexOutOfBounds)
       case _ => Err(NotAList))
    case Field(k) =>
      (match v
       case Map(entries) =>
         (match Lookup(entries, k)
          case Some(w) => Ok(w)
          case None => Err(KeyNotFound))
       case _ => Err(NotAMap))
    case Slice(start, end) =>
      (match v
       case List(xs) =>
         var (s, e) := ResolveSliceIndices(start, end, |xs|);
         Ok(List(xs[s..e]))
       case Bytes(bs) =>
         var (s, e) := ResolveSliceIndices(start, end, |bs|);
         Ok(Bytes(bs[s..e]))
       case _ => Err(NotAList))
    case Values =>
      (match v
       case List(_) => Ok(v)
       case Map(entries) => Ok(List(MapValues(entries)))
       case _ => Err(NotACollection))
    case Try(_) => Err(KeyNotFound)
  }

  /** Position k is where index i points: k from the start, or k - len from the end. */
  predicate PointsAt(i: int, k: nat, len: nat) {
    k < len <= 0x7FFF_FFFF && (i == k || i == k - len)
  }

  /** An index gives the element it points at, a byte as an integer, and otherwise it is out of bounds. */
  lemma {:induction false} IndexGives(i: int, xs: seq<Ipld>, bs: seq<Byte>)
    ensures forall k: nat :: PointsAt(i, k, |xs|) ==> ApplyFilter(List(xs), ArrayIndex(i)) == Ok(xs[k])
    ensures (forall k: nat :: !PointsAt(i, k, |xs|)) ==> ApplyFilter(List(xs), ArrayIndex(i)) == Err(IndexOutOfBounds)
    ensures forall k: nat :: PointsAt(i, k, |bs|) ==> ApplyFilter(Bytes(bs), ArrayIndex(i)) == Ok(BigInt(bs[k]))
    ensures (forall k: nat :: !PointsAt(i, k, |bs|)) ==> ApplyFilter(Bytes(bs), ArrayIndex(i)) == Err(IndexOutOfBounds)
  {
    if i >= 0 {
      assert PointsAt(i, i, |xs|) || i >= |xs| || |xs| > 0x7FFF_FFFF;
      assert PointsAt(i, i, |bs|) || i >= |bs| || |bs| > 0x7FFF_FFFF;
    } else {
      assert i + |xs| < 0 || |xs| > 0x7FFF_FFFF || PointsAt(i, i + |xs|, |xs|);
      assert i + |bs| < 0 || |bs| > 0x7FFF_FFFF || PointsAt(i, i + |bs|, |bs|);
    }
  }

  /** A field gives the value of the entry with that key, and otherwise the key is not found. */
  lemma {:induction false} FieldGives(key: Text.Str, entries: seq<Entry>, w: Ipld)
    ensures ApplyFilter(Map(entries), Field(key)) == Ok(w) <==> Holds(entries, key, w)
    ensures UniqueKeys(entries) ==> (Holds(entries, key, w) <==> Entry(key, w) in entries)
    ensures ApplyFilter(Map(entries), Field(key)) == Err(KeyNotFound)
            <==> forall k :: 0 <= k < |entries| ==> entries[k].key != key
  {
    LookupExact(entries, key, w);
    hide Holds;
  }

  /** Position k is at or after the start and before the end, as far as there are such bounds. */
  predicate Kept(start: Option<int>, end: Option<int>, len: nat, k: nat) {
    (start.Some? ==> AtOrBefore(start.value, k, len)) && (end.Some? ==> !AtOrBefore(end.value, k, len))
  }

  /** ys is, in order, what xs holds at the positions kept. */
  predicate IsSlice<T(==)>(ys: seq<T>, xs: seq<T>, start: Option<int>, end: Option<int>) {
    exists s: nat, e: nat :: s <= e <= |xs| && ys == xs[s..e] && IsWindow(s, e, start, end, |xs|)
  }

  /** A slice gives, in order, exactly the elements or bytes at the positions it keeps. */
  lemma {:induction false} SliceGives(start: Option<int>, end: Option<int>, xs: seq<Ipld>, bs: seq<Byte>)
    ensures var r := ApplyFilter(List(xs), Slice(start, end));
            r.Ok? && r.value.List? && IsSlice(r.value.items, xs, start, end)
    ensures var r := ApplyFilter(Bytes(bs), Slice(start, end));
            r.Ok? && r.value.Bytes? && IsSlice(r.value.bytes, bs, start, end)
  {
    forall k | 0 <= k < |xs|
      ensures var (s, e) := ResolveSliceIndices(start, end, |xs|); s <= k < e <==> Kept(start, end, |xs|, k)
    {
      SliceKeeps(start, end, |xs|, k);
    }
    forall k | 0 <= k < |bs|
      ensures var (s, e) := ResolveSliceIndices(start, end, |bs|); s <= k < e <==> Kept(start, end, |bs|, k)
    {
      SliceKeeps(start, end, |bs|, k);
    }
    hide ResolveSliceIndices, AtOrBefore, Kept;
  }

  predicate IsWindow(s: nat, e: nat, start: Option<int>, end: Option<int>, len: nat) {
    s <= e <= len && forall k :: 0 <= k < len ==> (s <= k < e <==> Kept(start, end, len, k))
  }

  lemma {:induction false} WindowInside(s: nat, e: nat, t: nat, u: nat, start: Option<int>, end: Option<int>, len: nat)
    requires IsWindow(s, e, start, end, len) && IsWindow(t, u, start, end, len) && s < e
    ensures t <= s && e <= u
  {
    hide Kept;
    assert Kept(start, end, len, s) && Kept(start, end, len, e - 1);
  }

  /** A slice is fixed by what it keeps: there is only one. */
  lemma {:induction false} SliceIsUnique<T>(ys: seq<T>, zs: seq<T>, xs: seq<T>, start: Option<int>, end: Option<int>)
    requires IsSlice(ys, xs, start, end) && IsSlice(zs, xs, start, end)
    ensures ys == zs
  {
    hide Kept;
    var s: nat, e: nat :| s <= e <= |xs| && ys == xs[s..e] && IsWindow(s, e, start, end, |xs|);
    var t: nat, u: nat :| t <= u <= |xs| && zs == xs[t..u] && IsWindow(t, u, start, end, |xs|);
    hide IsWindow;
    if s < e { WindowInside(s, e, t, u, start, end, |xs|); }
    if t < u { WindowInside(t, u, s, e, start, end, |xs|); }
  }

  /** All the values of a list or a map, in order; and what no other kind of value gives. */
  lemma {:induction false} OtherFilters(v: Ipld, f: Filter)
    ensures f.Values? && v.List? ==> ApplyFilter(v, f) == Ok(v)
    ensures f.Values? && v.Map? ==>
              var r := ApplyFilter(v, f);
              && r.Ok? && r.value.List? && |r.value.items| == |v.entries|
              && forall k :: 0 <= k < |v.entries| ==> r.value.items[k] == v.entries[k].value
    ensures f.Values? && !v.List? && !v.Map? ==> ApplyFilter(v, f) == Err(NotACollection)
    ensures f.Field? && !v.Map? ==> ApplyFilter(v, f) == Err(NotAMap)
    ensures (f.ArrayIndex? || f.Slice?) && !v.List? && !v.Bytes? ==> ApplyFilter(v, f) == Err(NotAList)
  {
  }

  /** An optional gives what its filter gives, and null, forgiven, where that fails. */
  lemma {:induction false} SegmentMeans(v: Ipld, f: Filter)
    ensures !f.Try? ==> Segment(v, f) == match ApplyFilter(v, f) case Ok(w) => Found(w) case Err(e) => Failed(e)
    ensures f.Try? && !f.inner.Try? ==>
              Segment(v, f) == match ApplyFilter(v, f.inner) case Ok(w) => Found(w) case Err(_) => Missed
  {
    hide ApplyFilter;
  }

  // ----- First-failure meaning of a filter list -----

  /** What one segment does: it hits, it misses and is forgiven, or it fails. */
  datatype Step = Found(value: Ipld) | Missed | Failed(reason: Reason)

  /** A segment is optional when its miss is forgiven; an optional inside an optional always hits. */
  function Segment(v: Ipld, f: Filter): Step {
    match f
    case Try(g) =>
      (match Segment(v, g)
       case Found(w) => Found(w)
       case Missed => Found(Null)
       case Failed(_) => Missed)
    case _ =>
      (match ApplyFilter(v, f)
       case Ok(w) => Found(w)
       case Err(e) => Failed(e))
  }

  datatype Verdict =
    | Reached(value: Ipld)                  // no segment failed
    | Forgiven(at: nat)                     // the first failure is at an optional segment
    | Stuck(at: nat, reason: Reason)        // the first failure is at a required segment

  /** Look for the first segment that does not hit; nothing after it matters. */
  function FirstFailure(v: Ipld, fs: seq<Filter>, at: nat): (r: Verdict)
    requires at <= |fs|
    ensures r.Forgiven? || r.Stuck? ==> at <= r.at < |fs|
    decreases |fs| - at
  {
    if at == |fs| then Reached(v)
    else match Segment(v, fs[at])
      case Found(w) => FirstFailure(w, fs, at + 1)
      case Missed => Forgiven(at)
      case Failed(e) => Stuck(at, e)
  }

  /** The value a selector focuses on, before the final projection. */
  function Focus(v: Ipld, fs: seq<Filter>): Result<Ipld, SelectorError> {
    match FirstFailure(v, fs, 0)
    case Reached(w) => Ok(w)
    case Forgiven(_) => Ok(Null)
    case Stuck(at, e) => Err(SelectorError(fs[..at + 1], e))
  }

  // ----- The loop -----

  /** How far the loop walks: it stops early only at a required segment after a forgiven miss. */
  function LastSeen(fs: seq<Filter>, at: nat): (n: nat)
    requires at <= |fs|
    ensures at <= n <= |fs|
    decreases |fs| - at
  {
    if at == |fs| then at else if fs[at].Try? then LastSeen(fs, at + 1) else at + 1
  }

  /** The filters named by a projection error. */
  function Seen(v: Ipld, fs: seq<Filter>): seq<Filter> {
    match FirstFailure(v, fs, 0)
    case Reached(_) => fs
    case Forgiven(at) => fs[..LastSeen(fs, at)]
    case Stuck(at, _) => fs[..at + 1]
  }

  /** `get`: focus, then project to the wanted type. */
  function Get<T>(v: Ipld, fs: seq<Filter>, selectable: Ipld -> Result<T, Reason>): Result<T, SelectorError> {
    match Focus(v, fs)
    case Err(e) => Err(e)
    case Ok(w) =>
      match selectable(w)
      case Ok(t) => Ok(t)
      case Err(reason) => Err(SelectorError(Seen(v, fs), reason))
  }

  /** Nothing but a nested optional hits on null. */
  lemma {:induction false} NullIsADeadEnd(f: Filter)
    ensures !f.Try? ==> Segment(Null, f).Failed?
    ensures f.Try? ==> Segment(Null, f) == Missed || Segment(Null, f) == Found(Null)
    decreases f
  {
    if f.Try? { NullIsADeadEnd(f.inner); }
  }

  function MaxDepth(fs: seq<Filter>): (m: nat)
    ensures forall k :: 0 <= k < |fs| ==> Depth(fs[k]) <= m
    ensures |fs| == 1 ==> m == Depth(fs[0])
  {
    if fs == [] then 0 else Max(Depth(fs[0]), MaxDepth(fs[1..]))
  }

  /** `Select<Ipld>([inner]).get(current)`: the value, or any error. */
  method GetInner(inner: Filter, current: Ipld) returns (r: Option<Ipld>)
    ensures r == match Segment(current, inner) case Found(w) => Some(w) case Missed => Some(Null) case Failed(_) => None
    decreases Depth(inner), 1
  {
    var got := GetLoop(current, [inner], (x: Ipld) => Ok(x));
    assert FirstFailure(current, [inner], 0)
           == match Segment(current, inner)
              case Found(w) => FirstFailure(w, [inner], 1)
              case Missed => Forgiven(0)
              case Failed(e) => Stuck(0, e);
    r := if got.Ok? then Some(got.value) else None;
  }

  lemma {:induction false} WalkStep(v: Ipld, fs: seq<Filter>, at: nat)
    requires at <= |fs|
    ensures at == |fs| ==> FirstFailure(v, fs, at) == Reached(v)
    ensures at < |fs| ==> FirstFailure(v, fs, at)
                          == match Segment(v, fs[at])
                             case Found(w) => FirstFailure(w, fs, at + 1)
                             case Missed => Forgiven(at)
                             case Failed(e) => Stuck(at, e)
  {
    hide Segment;
  }

  lemma {:induction false} SegmentStep(v: Ipld, f: Filter)
    ensures !f.Try? ==> Segment(v, f)
                        == match ApplyFilter(v, f) case Ok(w) => Found(w) case Err(e) => Failed(e)
    ensures f.Try? ==> Segment(v, f)
                       == match Segment(v, f.inner)
                          case Found(w) => Found(w)
                          case Missed => Found(Null)
                          case Failed(_) => Missed
  {
    hide ApplyFilter;
  }

  /** Before segment i: the same failure lies ahead, or a miss was forgiven and the value has been null since. */
  predicate Walked(ctx: Ipld, fs: seq<Filter>, i: nat, isTry: bool, current: Ipld)
    requires i <= |fs|
  {
    var first := FirstFailure(ctx, fs, 0);
    if isTry then current == Null && first.Forgiven? && first.at < i && LastSeen(fs, first.at) == LastSeen(fs, i)
    else first == FirstFailure(current, fs, i)
  }

  lemma {:induction false} WalkOn(ctx: Ipld, fs: seq<Filter>, i: nat, isTry: bool, current: Ipld)
    requires i < |fs| && Walked(ctx, fs, i, isTry, current)
    ensures match Segment(current, fs[i])
            case Found(w) => Walked(ctx, fs, i + 1, isTry, w)
            case Missed => Walked(ctx, fs, i + 1, true, Null)
            case Failed(e) =>
              var first := FirstFailure(ctx, fs, 0);
              if isTry then first.Forgiven? && LastSeen(fs, first.at) == i + 1 else first == Stuck(i, e)
  {
    hide Segment, FirstFailure;
    WalkStep(current, fs, i);
    NullIsADeadEnd(fs[i]);
    SegmentStep(current, fs[i]);
  }

  /** The evaluator refines the first-failure meaning; once a miss was forgiven the value is null. */
  method GetLoop<T>(ctx: Ipld, fs: seq<Filter>, selectable: Ipld -> Result<T, Reason>)
    returns (r: Result<T, SelectorError>)
    ensures r == Get(ctx, fs, selectable)
    decreases MaxDepth(fs), 0
  {
    var seenOps: seq<Filter>, isTry, current := [], false, ctx;
    var i := 0;
    while i < |fs|
      invariant 0 <= i <= |fs| && seenOps == fs[..i]
      invariant Walked(ctx, fs, i, isTry, current)
    {
      hide FirstFailure, Segment, ApplyFilter, MaxDepth, Walked, LastSeen;
      var op := fs[i];
      seenOps := seenOps + [op];
      assert seenOps == fs[..i + 1];
      WalkOn(ctx, fs, i, isTry, current);
      SegmentStep(current, op);
      if op.Try? {
        var got := GetInner(op.inner, current);
        if got.Some? {
          current := got.value;
        } else {
          current := Null;
          isTry := true;
        }
      } else {
        var got := ApplyFilter(current, op);
        if got.Ok? {
          current := got.value;
        } else if isTry {
          current := Null;
          i := i + 1;
          break;
        } else {
          return Err(SelectorError(seenOps, got.error));
        }
      }
      i := i + 1;
    }
    ghost var first := FirstFailure(ctx, fs, 0);
    assert if isTry then first.Forgiven? && seenOps == fs[..LastSeen(fs, first.at)]
           else first == Reached(current) && seenOps == fs;
    hide *;
    var projected := selectable(current);
    r := if projected.Ok? then Ok(projected.value) else Err(SelectorError(seenOps, projected.error));
  }

  // ----- What the first-failure meaning promises -----

  /** The values passed through on the way: each segment before the end of the walk hits. */
  predicate IsWalk(walk: seq<Ipld>, v: Ipld, fs: seq<Filter>) {
    && 0 < |walk| <= |fs| + 1 && walk[0] == v
    && forall j :: 0 <= j < |walk| - 1 ==> Segment(walk[j], fs[j]) == Found(walk[j + 1])
  }

  /** The verdict is about the first segment that does not hit, and its flavour decides. */
  lemma {:induction false} VerdictIsFirstMiss(v: Ipld, fs: seq<Filter>, walk: seq<Ipld>)
    requires IsWalk(walk, v, fs)
    requires |walk| <= |fs| ==> !Segment(walk[|walk| - 1], fs[|walk| - 1]).Found?
    ensures var at := |walk| - 1;
            Focus(v, fs) == if at == |fs| then Ok(walk[at])
                            else if fs[at].Try? then Ok(Null)
                            else Err(SelectorError(fs[..at + 1], ApplyFilter(walk[at], fs[at]).error))
  {
    WalkReaches(v, fs, walk, |walk| - 1);
    if |walk| <= |fs| { SegmentShape(walk[|walk| - 1], fs[|walk| - 1]); }
  }

  lemma {:induction false} SegmentShape(v: Ipld, f: Filter)
    ensures Segment(v, f).Missed? ==> f.Try?
    ensures Segment(v, f).Failed? ==> !f.Try? && ApplyFilter(v, f) == Err(Segment(v, f).reason)
  {
  }

  lemma {:induction false} WalkReaches(v: Ipld, fs: seq<Filter>, walk: seq<Ipld>, n: nat)
    requires IsWalk(walk, v, fs) && n < |walk|
    ensures FirstFailure(v, fs, 0) == FirstFailure(walk[n], fs, n)
  {
    if n > 0 { WalkReaches(v, fs, walk, n - 1); }
  }

  /** After a first failure nothing that follows can change the outcome. */
  lemma {:induction false} WhateverFollows(v: Ipld, fs: seq<Filter>, tail: seq<Filter>)
    requires !FirstFailure(v, fs, 0).Reached?
    ensures Focus(v, fs + tail) == Focus(v, fs)
  {
    SamePrefix(v, fs, fs + tail, 0);
    var first := FirstFailure(v, fs, 0);
    assert (fs + tail)[..first.at + 1] == fs[..first.at + 1];
  }

  lemma {:induction false} SamePrefix(v: Ipld, fs: seq<Filter>, longer: seq<Filter>, at: nat)
    requires at <= |fs| <= |longer| && longer[..|fs|] == fs
    requires !FirstFailure(v, fs, at).Reached?
    ensures FirstFailure(v, longer, at) == FirstFailure(v, fs, at)
    decreases |fs| - at
  {
    assert at < |fs| ==> longer[at] == longer[..|fs|][at];
    if at < |fs| && Segment(v, fs[at]).Found? {
      SamePrefix(Segment(v, fs[at]).value, fs, longer, at + 1);
    }
  }

  // ----- Optionals inside optionals -----

  predicate Nested(f: Filter) { f.Try? && f.inner.Try? }

  /** From null: past any nested optionals, the next filter is a required one. */
  predicate Blocked(rest: seq<Filter>) {
    rest != [] && if Nested(rest[0]) then Blocked(rest[1..]) else Plain(rest[0])
  }

  lemma {:induction false} SegmentInside(v: Ipld, f: Filter)
    requires f.Try?
    ensures var inside := Segment(v, Innermost(f));
            && !inside.Missed?
            && (inside.Found? ==> Segment(v, f) == inside)
            && (inside.Failed? ==> Segment(v, f) == if Nested(f) then Found(Null) else Missed)
  {
    hide ApplyFilter;
    if f.inner.Try? { SegmentInside(v, f.inner); }
  }

  /** What an optional does on null depends only on whether it is nested. */
  lemma {:induction false} SegmentOnNull(f: Filter)
    ensures Segment(Null, f) == if Nested(f) then Found(Null) else if f.Try? then Missed else Segment(Null, f)
    ensures Plain(f) ==> Segment(Null, f).Failed?
  {
    NullIsADeadEnd(f);
    NullIsADeadEnd(Innermost(f));
    if f.Try? { SegmentInside(Null, f); }
  }

  lemma {:induction false} FromNull(fs: seq<Filter>, at: nat)
    requires at <= |fs|
    ensures var first := FirstFailure(Null, fs, at);
            if Blocked(fs[at..]) then first.Stuck? else first == Reached(Null) || first.Forgiven?
    decreases |fs| - at
  {
    hide Segment;
    if at < |fs| {
      SegmentOnNull(fs[at]);
      assert fs[at..][1..] == fs[at + 1..];
      FromNull(fs, at + 1);
    }
  }

  /** Both give the same value, or the same reason at the same segment. */
  predicate Agree(a: Result<Ipld, SelectorError>, b: Result<Ipld, SelectorError>) {
    || (a.Ok? && a == b)
    || (a.Err? && b.Err? && a.error.reason == b.error.reason && |a.error.seen| == |b.error.seen|)
  }

  /** Collapsing changes the walk at one place only: the first miss, if the optional that forgives it is nested. */
  lemma {:induction false} CollapsedWalk(v: Ipld, fs: seq<Filter>, at: nat)
    requires at <= |fs|
    ensures var first := FirstFailure(v, CollapseAll(fs), at);
            FirstFailure(v, fs, at)
            == if first.Forgiven? && Nested(fs[first.at]) then FirstFailure(Null, fs, first.at + 1) else first
    decreases |fs| - at
  {
    hide Segment, FirstFailure, CollapseAll, Collapse;
    var collapsed := CollapseAll(fs);
    WalkStep(v, fs, at);
    WalkStep(v, collapsed, at);
    if at < |fs| {
      SegmentInsideAndCollapsed(v, fs[at]);
      var single := Segment(v, collapsed[at]);
      if single.Found? { CollapsedWalk(single.value, fs, at + 1); }
    }
  }

  lemma {:induction false} SegmentInsideAndCollapsed(v: Ipld, f: Filter)
    ensures var single := Segment(v, Collapse(f));
            Segment(v, f) == if single.Missed? && Nested(f) then Found(Null) else single
  {
    hide ApplyFilter;
    if f.Try? {
      SegmentInside(v, f);
      SegmentInside(v, Collapse(f));
    }
  }

  /** The first miss is forgiven by a nested optional, and a required filter then runs into the null it left. */
  predicate MissResurfaces(v: Ipld, fs: seq<Filter>) {
    var first := FirstFailure(v, CollapseAll(fs), 0);
    first.Forgiven? && Nested(fs[first.at]) && Blocked(fs[first.at + 1..])
  }

  /** Collapsing nested optionals keeps the outcome on given data exactly when no forgiven miss resurfaces. */
  lemma {:induction false} CollapseAgrees(v: Ipld, fs: seq<Filter>)
    ensures Agree(Focus(v, fs), Focus(v, CollapseAll(fs))) <==> !MissResurfaces(v, fs)
  {
    hide Segment, CollapseAll, Blocked, FirstFailure;
    CollapsedWalk(v, fs, 0);
    var first := FirstFailure(v, CollapseAll(fs), 0);
    if first.Forgiven? { FromNull(fs, first.at + 1); }
  }

  /** No nested optional has a required filter next, past any nested optionals. */
  predicate NeverResurfaces(fs: seq<Filter>) {
    forall i :: 0 <= i < |fs| && Nested(fs[i]) ==> !Blocked(fs[i + 1..])
  }

  /** What the selector alone tells: then collapsing keeps the outcome on every value. */
  lemma {:induction false} CollapseIsSafe(v: Ipld, fs: seq<Filter>)
    requires NeverResurfaces(fs)
    ensures Agree(Focus(v, fs), Focus(v, CollapseAll(fs)))
  {
    hide Focus, CollapseAll, Blocked, FirstFailure;
    CollapseAgrees(v, fs);
  }

  /** So a selector that is printed and parsed again evaluates the same exactly then. */
  lemma {:induction false} ReparseEvaluatesTheSame(v: Ipld, fs: seq<Filter>)
    requires Selectors.AllSafe(fs) && !Selectors.OptionalIdentifierFirst(fs)
    ensures var again := Selectors.ParseSelector(Selectors.SelectorText(fs));
            again.Ok? && (Agree(Focus(v, fs), Focus(v, again.value)) <==> !MissResurfaces(v, fs))
  {
    hide Selectors.ParseSelector, Selectors.SelectorText, Focus, MissResurfaces;
    Selectors.ReparseCollapses(fs);
    CollapseAgrees(v, fs);
  }

  /** For one nested optional and any tail: it differs from a single one exactly on a miss that resurfaces. */
  lemma {:induction false} NestedOptionalDiffers(v: Ipld, f: Filter, rest: seq<Filter>)
    requires Nested(f)
    ensures Agree(Focus(v, [f] + rest), Focus(v, [Collapse(f)] + rest))
            <==> !(Segment(v, Innermost(f)).Failed? && Blocked(rest))
  {
    var nested, single := [f] + rest, [Collapse(f)] + rest;
    SegmentInside(v, f);
    SegmentInside(v, Collapse(f));
    hide Segment, Blocked;
    assert nested[1..] == rest;
    FromNull(nested, 1);
    if Segment(v, f).Found? { SameTail(Segment(v, f).value, nested, single, 1); }
  }

  lemma {:induction false} SameTail(v: Ipld, a: seq<Filter>, b: seq<Filter>, at: nat)
    requires at <= |a| == |b| && a[at..] == b[at..]
    ensures FirstFailure(v, a, at) == FirstFailure(v, b, at)
    decreases |a| - at
  {
    hide Segment;
    if at < |a| {
      assert a[at] == a[at..][0] && b[at] == b[at..][0];
      assert a[at..][1..] == a[at + 1..] && b[at..][1..] == b[at + 1..];
      if Segment(v, a[at]).Found? { SameTail(Segment(v, a[at]).value, a, b, at + 1); }
    }
  }
}
