/** IPLD values and the helpers of ipld.ts that policies rely on. */
module IpldModel {
  import opened Text
  import opened Wrappers
  import opened Numbers

  type Byte = b: int | 0 <= b < 0x100

  /** A content identifier, known by its string form: that is how the code keeps and compares it. */
  datatype Cid = Cid(text: Str)

  /**
   * `Number` is a JavaScript number, `BigInt` a bigint. `Map` is an ES Map in insertion order;
   * `Object` is a plain object, as a JSON import produces it.
   */
  datatype Ipld =
    | Null
    | Bool(b: bool)
    | Number(d: Double)
    | BigInt(n: int)
    | String(s: Str)
    | Bytes(bytes: seq<Byte>)
    | Link(cid: Cid)
    | List(items: seq<Ipld>)
    | Map(entries: seq<Entry>)
    | Object(fields: seq<Entry>)

  datatype Entry = Entry(key: Str, value: Ipld)

  const MAX_SAFE: int := 0x1F_FFFF_FFFF_FFFF

  /** `map.get(key)`, with `None` when `map.has(key)` is false. */
  function Lookup(entries: seq<Entry>, key: Str): (r: Option<Ipld>)
    ensures r.Some? ==> exists k :: 0 <= k < |entries| && entries[k] == Entry(key, r.value)
    ensures r.None? ==> forall k :: 0 <= k < |entries| ==> entries[k].key != key
  {
    if entries == [] then None
    else if entries[0].key == key then Some(entries[0].value)
    else Lookup(entries[1..], key)
  }

  /** The entry with this key, the only one in an ES Map, holds this value. */
  predicate Holds(entries: seq<Entry>, key: Str, value: Ipld) {
    exists k :: 0 <= k < |entries| && entries[k] == Entry(key, value)
                && forall j :: 0 <= j < k ==> entries[j].key != key
  }

  lemma {:induction false} LookupExact(entries: seq<Entry>, key: Str, value: Ipld)
    ensures Lookup(entries, key) == Some(value) <==> Holds(entries, key, value)
    ensures UniqueKeys(entries) ==> (Holds(entries, key, value) <==> Entry(key, value) in entries)
  {
    if entries != [] {
      LookupExact(entries[1..], key, value);
      if entries[0].key == key {
        assert Holds(entries, key, entries[0].value);
      } else {
        HoldsLater(entries, key, value);
      }
    }
  }

  lemma {:induction false} HoldsLater(entries: seq<Entry>, key: Str, value: Ipld)
    requires entries != [] && entries[0].key != key
    ensures Holds(entries, key, value) <==> Holds(entries[1..], key, value)
  {
    if Holds(entries, key, value) {
      var k :| 0 <= k < |entries| && entries[k] == Entry(key, value)
               && forall j :: 0 <= j < k ==> entries[j].key != key;
      assert entries[1..][k - 1] == entries[k];
    }
    if Holds(entries[1..], key, value) {
      var rest := entries[1..];
      var k :| 0 <= k < |rest| && rest[k] == Entry(key, value) && forall j :: 0 <= j < k ==> rest[j].key != key;
      assert entries[k + 1] == rest[k];
      assert forall j :: 0 < j < k + 1 ==> entries[j] == rest[j - 1];
    }
  }

  function MapValues(entries: seq<Entry>): (vs: seq<Ipld>)
    ensures |vs| == |entries| && forall k :: 0 <= k < |vs| ==> vs[k] == entries[k].value
  {
    if entries == [] then [] else [entries[0].value] + MapValues(entries[1..])
  }

  /** An ES Map holds every key once. */
  ghost predicate UniqueKeys(entries: seq<Entry>) {
    forall i, j :: 0 <= i < j < |entries| ==> entries[i].key != entries[j].key
  }

  /** The number of constructors, so that recursion through a rebuilt value is seen to end. */
  function Size(v: Ipld): (n: nat)
    ensures n > 0
    decreases v, 1
  {
    match v
    case List(items) => 1 + SizeAll(items)
    case Map(entries) => 1 + SizeEntries(entries)
    case Object(fields) => 1 + SizeEntries(fields)
    case _ => 1
  }

  function SizeAll(vs: seq<Ipld>): nat
    decreases vs, 0
  {
    if vs == [] then 0 else Size(vs[0]) + SizeAll(vs[1..])
  }

  function SizeEntries(es: seq<Entry>): nat
    decreases es, 0
  {
    if es == [] then 0 else Size(es[0].value) + SizeEntries(es[1..])
  }

  lemma {:induction false} SizeOfItem(vs: seq<Ipld>, k: nat)
    requires k < |vs|
    ensures Size(vs[k]) <= SizeAll(vs)
  {
    if k > 0 { SizeOfItem(vs[1..], k - 1); }
  }

  // ----- objectsToMaps -----

  /** `objectsToMaps`. `Object.entries` of an ES Map is empty, so every Map comes out empty. */
  function ObjectsToMaps(v: Ipld): (r: Ipld)
    ensures Size(r) <= Size(v)
    ensures r.List? <==> v.List?
    ensures !v.List? && !v.Map? && !v.Object? ==> r == v
    decreases v, 1
  {
    match v
    case List(items) => List(ObjectsToMapsAll(items))
    case Map(_) => Map([])
    case Object(fields) => Map(ObjectsToMapsEntries(fields))
    case _ => v
  }

  function ObjectsToMapsAll(vs: seq<Ipld>): (r: seq<Ipld>)
    ensures |r| == |vs| && SizeAll(r) <= SizeAll(vs)
    ensures forall k :: 0 <= k < |vs| ==> r[k] == ObjectsToMaps(vs[k])
    decreases vs, 0
  {
    if vs == [] then [] else
      var r := [ObjectsToMaps(vs[0])] + ObjectsToMapsAll(vs[1..]);
      assert r[1..] == ObjectsToMapsAll(vs[1..]);
      r
  }

  function ObjectsToMapsEntries(es: seq<Entry>): (r: seq<Entry>)
    ensures |r| == |es| && SizeEntries(r) <= SizeEntries(es)
    ensures forall k :: 0 <= k < |es| ==> r[k] == Entry(es[k].key, ObjectsToMaps(es[k].value))
    decreases es, 0
  {
    if es == [] then [] else
      var r := [Entry(es[0].key, ObjectsToMaps(es[0].value))] + ObjectsToMapsEntries(es[1..]);
      assert r[1..] == ObjectsToMapsEntries(es[1..]);
      r
  }

  /** The recursive conversion, filling a fresh container entry by entry. */
  method ObjectsToMapsLoop(v: Ipld) returns (r: Ipld)
    ensures r == ObjectsToMaps(v)
    decreases v
  {
    match v
    case List(items) =>
      var out: seq<Ipld> := [];
      for i := 0 to |items|
        invariant |out| == i && forall k :: 0 <= k < i ==> out[k] == ObjectsToMaps(items[k])
      {
        var item := ObjectsToMapsLoop(items[i]);
        out := out + [item];
      }
      assert out == ObjectsToMapsAll(items);
      return List(out);
    case Map(_) => return Map([]);
    case Object(fields) =>
      var converted: seq<Entry> := [];
      for i := 0 to |fields|
        invariant |converted| == i
        invariant forall k :: 0 <= k < i ==> converted[k] == Entry(fields[k].key, ObjectsToMaps(fields[k].value))
      {
        var value := ObjectsToMapsLoop(fields[i].value);
        converted := converted + [Entry(fields[i].key, value)];
      }
      assert converted == ObjectsToMapsEntries(fields);
      return Map(converted);
    case _ => return v;
  }

  /** No plain object and no non-empty ES Map anywhere inside. */
  predicate MapFree(v: Ipld) {
    match v
    case List(items) => forall k :: 0 <= k < |items| ==> MapFree(items[k])
    case Map(entries) => entries == []
    case Object(_) => false
    case _ => true
  }

  /** Normalising leaves a value alone exactly when it holds no object and no non-empty map. */
  lemma {:induction false} ObjectsToMapsFixpoint(v: Ipld)
    ensures ObjectsToMaps(v) == v <==> MapFree(v)
  {
    if v.List? {
      forall k | 0 <= k < |v.items|
        ensures ObjectsToMaps(v.items[k]) == v.items[k] <==> MapFree(v.items[k])
      {
        ObjectsToMapsFixpoint(v.items[k]);
      }
      if MapFree(v) {
        assert ObjectsToMapsAll(v.items) == v.items;
      }
    }
  }

  /** `objectsToMaps` applied n times, as nested conversions do. */
  function Normalised(v: Ipld, n: nat): (r: Ipld)
    ensures r.List? <==> v.List?
    ensures !v.List? && !v.Map? && !v.Object? ==> r == v
    decreases n
  {
    if n == 0 then v else Normalised(ObjectsToMaps(v), n - 1)
  }

  lemma {:induction false} NormalisedStep(v: Ipld, n: nat)
    requires n > 0
    ensures Normalised(v, n) == Normalised(ObjectsToMaps(v), n - 1)
  {
    hide ObjectsToMaps;
  }

  lemma {:induction false} NormalisedList(items: seq<Ipld>, n: nat)
    ensures |Normalised(List(items), n).items| == |items|
    ensures forall k :: 0 <= k < |items| ==> Normalised(List(items), n).items[k] == Normalised(items[k], n)
    decreases n
  {
    if n > 0 {
      var all := ObjectsToMapsAll(items);
      assert ObjectsToMaps(List(items)) == List(all);
      hide Normalised, ObjectsToMaps, ObjectsToMapsAll;
      NormalisedStep(List(items), n);
      NormalisedList(all, n - 1);
      forall k | 0 <= k < |items| ensures Normalised(items[k], n) == Normalised(all[k], n - 1) {
        NormalisedStep(items[k], n);
      }
    }
  }

  lemma {:induction false} NormalisedSnoc(v: Ipld, n: nat)
    ensures Normalised(v, n + 1) == ObjectsToMaps(Normalised(v, n))
    decreases n
  {
    hide ObjectsToMaps;
    if n > 0 {
      hide Normalised;
      NormalisedStep(v, n + 1);
      NormalisedStep(v, n);
      NormalisedSnoc(ObjectsToMaps(v), n - 1);
    }
  }

  predicate ObjectFree(v: Ipld) {
    match v
    case List(items) => forall k :: 0 <= k < |items| ==> ObjectFree(items[k])
    case Map(entries) => forall k :: 0 <= k < |entries| ==> ObjectFree(entries[k].value)
    case Object(_) => false
    case _ => true
  }

  lemma {:induction false} ObjectsToMapsIsObjectFree(v: Ipld)
    ensures ObjectFree(ObjectsToMaps(v))
    decreases v, 1
  {
    match v
    case List(items) =>
      forall k | 0 <= k < |items| ensures ObjectFree(ObjectsToMapsAll(items)[k]) {
        ObjectsToMapsIsObjectFree(items[k]);
      }
    case Object(fields) => EntriesAreObjectFree(fields);
    case _ =>
  }

  lemma {:induction false} EntriesAreObjectFree(es: seq<Entry>)
    ensures forall k :: 0 <= k < |es| ==> ObjectFree(ObjectsToMapsEntries(es)[k].value)
    decreases es, 0
  {
    if es != [] {
      ObjectsToMapsIsObjectFree(es[0].value);
      EntriesAreObjectFree(es[1..]);
    }
  }

  lemma {:induction false} ObjectFreeBecomesMapFree(v: Ipld)
    requires ObjectFree(v)
    ensures MapFree(ObjectsToMaps(v))
  {
    if v.List? {
      forall k | 0 <= k < |v.items| ensures MapFree(ObjectsToMapsAll(v.items)[k]) {
        ObjectFreeBecomesMapFree(v.items[k]);
      }
    }
  }

  lemma {:induction false} MapFreeStays(v: Ipld, n: nat)
    requires MapFree(v)
    ensures Normalised(v, n) == v
    decreases n
  {
    if n > 0 {
      ObjectsToMapsFixpoint(v);
      MapFreeStays(v, n - 1);
    }
  }

  /** Normalised at least once, a value survives exactly when it holds no object and no non-empty map. */
  lemma {:induction false} NormalisedFixpoint(v: Ipld, n: nat)
    requires n > 0
    ensures Normalised(v, n) == v <==> MapFree(v)
  {
    hide Normalised, ObjectsToMaps, ObjectFree, MapFree;
    if MapFree(v) {
      MapFreeStays(v, n);
    } else if Normalised(v, n) == v {
      NormalisedSnoc(v, n - 1);
      ObjectsToMapsIsObjectFree(Normalised(v, n - 1));
      ObjectFreeBecomesMapFree(v);
      MapFreeStays(ObjectsToMaps(v), n - 1);
      NormalisedStep(v, n);
    }
  }

  // ----- ipldEquals -----

  predicate IsSafeInteger(d: Double) {
    d.Finite? && d.r == d.r.Floor as real && -MAX_SAFE <= d.r.Floor <= MAX_SAFE
  }

  /** `ipldEquals` on values (not on shared references). */
  predicate IpldEquals(a: Ipld, b: Ipld)
    decreases a
  {
    match (a, b)
    case (Number(x), Number(y)) => !x.NaN? && x == y
    case (Number(x), BigInt(n)) => IsSafeInteger(x) && x.r.Floor == n
    case (BigInt(n), Number(x)) => IsSafeInteger(x) && n == x.r.Floor
    case (List(xs), List(ys)) => |xs| == |ys| && forall k :: 0 <= k < |xs| ==> IpldEquals(xs[k], ys[k])
    case (Map(xs), Map(ys)) =>
      |xs| == |ys| && forall k :: 0 <= k < |xs| ==> EntryMatches(xs[k], ys)
    case (Object(_), _) => false
    case _ => a == b
  }

  predicate EntryMatches(x: Entry, ys: seq<Entry>)
    decreases x
  {
    var found := Lookup(ys, x.key);
    found.Some? && IpldEquals(x.value, found.value)
  }

  /** What equality means: the same scalar, a number and a bigint that tie up to 2^53-1, or the same contents. */
  lemma {:induction false} IpldEqualsMeans(a: Ipld, b: Ipld)
    ensures a.Number? && b.Number? ==> (IpldEquals(a, b) <==> a == b && a != Number(NaN))
    ensures a.Number? && b.BigInt? ==> (IpldEquals(a, b) <==> TieSafely(a.d, b.n))
    ensures a.BigInt? && b.Number? ==> (IpldEquals(a, b) <==> TieSafely(b.d, a.n))
    ensures a.List? && b.List? ==>
              (IpldEquals(a, b)
               <==> |a.items| == |b.items| && forall k :: 0 <= k < |a.items| ==> IpldEquals(a.items[k], b.items[k]))
    ensures a.Map? && b.Map? && UniqueKeys(a.entries) && UniqueKeys(b.entries) ==>
              (IpldEquals(a, b)
               <==> Keys(a.entries) == Keys(b.entries)
                    && forall x, y :: x in a.entries && y in b.entries && x.key == y.key ==>
                                        IpldEquals(x.value, y.value))
    ensures a.Object? || b.Object? ==> !IpldEquals(a, b)
    ensures a.Null? || a.Bool? || a.String? || a.Bytes? || a.Link? ==> (IpldEquals(a, b) <==> a == b)
    ensures IpldEquals(a, b) ==> Kind(a) == Kind(b)
  {
    if a.Map? && b.Map? && UniqueKeys(a.entries) && UniqueKeys(b.entries) {
      if IpldEquals(a, b) { EqualMapsAgree(a.entries, b.entries); }
      if Keys(a.entries) == Keys(b.entries)
         && forall x, y :: x in a.entries && y in b.entries && x.key == y.key ==> IpldEquals(x.value, y.value) {
        AgreeingMapsEqual(a.entries, b.entries);
      }
    }
  }

  /** Numbers and bigints are of one kind. */
  function Kind(v: Ipld): int {
    match v
    case Null => 0
    case Bool(_) => 1
    case Number(_) => 2
    case BigInt(_) => 2
    case String(_) => 3
    case Bytes(_) => 4
    case Link(_) => 5
    case List(_) => 6
    case Map(_) => 7
    case Object(_) => 8
  }

  predicate TieSafely(d: Double, n: int) {
    d == Finite(n as real) && -0x1F_FFFF_FFFF_FFFF <= n <= 0x1F_FFFF_FFFF_FFFF
  }

  lemma {:induction false} EqualMapsAgree(xs: seq<Entry>, ys: seq<Entry>)
    requires UniqueKeys(xs) && UniqueKeys(ys) && IpldEquals(Map(xs), Map(ys))
    ensures Keys(xs) == Keys(ys)
    ensures forall x, y :: x in xs && y in ys && x.key == y.key ==> IpldEquals(x.value, y.value)
  {
    assert Keys(xs) <= Keys(ys) by {
      forall k | 0 <= k < |xs| ensures xs[k].key in Keys(ys) { assert EntryMatches(xs[k], ys); }
    }
    SameKeys(xs, ys);
    forall x, y | x in xs && y in ys && x.key == y.key ensures IpldEquals(x.value, y.value) {
      var k :| 0 <= k < |xs| && xs[k] == x;
      var j :| 0 <= j < |ys| && ys[j] == y;
      assert EntryMatches(xs[k], ys);
      LookupAt(ys, j);
    }
  }

  lemma {:induction false} AgreeingMapsEqual(xs: seq<Entry>, ys: seq<Entry>)
    requires UniqueKeys(xs) && UniqueKeys(ys) && Keys(xs) == Keys(ys)
    requires forall x, y :: x in xs && y in ys && x.key == y.key ==> IpldEquals(x.value, y.value)
    ensures IpldEquals(Map(xs), Map(ys))
  {
    KeyCount(xs);
    KeyCount(ys);
    forall k | 0 <= k < |xs| ensures EntryMatches(xs[k], ys) {
      assert xs[k].key in Keys(ys);
      var j :| 0 <= j < |ys| && ys[j].key == xs[k].key;
      LookupAt(ys, j);
      assert xs[k] in xs && ys[j] in ys;
    }
  }

  /** The recursive comparison, with its loop over the entries of a map. */
  method IpldEqualsLoop(a: Ipld, b: Ipld) returns (equal: bool)
    ensures equal == IpldEquals(a, b)
    decreases a
  {
    match (a, b)
    case (List(xs), List(ys)) =>
      if |xs| != |ys| { return false; }
      for i := 0 to |xs|
        invariant forall k :: 0 <= k < i ==> IpldEquals(xs[k], ys[k])
      {
        var same := IpldEqualsLoop(xs[i], ys[i]);
        if !same { return false; }
      }
      return true;
    case (Map(xs), Map(ys)) =>
      if |xs| != |ys| { return false; }
      for i := 0 to |xs|
        invariant forall k :: 0 <= k < i ==> EntryMatches(xs[k], ys)
      {
        var found := Lookup(ys, xs[i].key);
        if found.None? { return false; }
        var same := IpldEqualsLoop(xs[i].value, found.value);
        if !same { return false; }
      }
      return true;
    case _ => return IpldEquals(a, b);
  }

  /** Every map in the value holds each key once, as an ES Map does. */
  ghost predicate ProperMaps(v: Ipld)
    decreases v
  {
    match v
    case List(xs) => forall k :: 0 <= k < |xs| ==> ProperMaps(xs[k])
    case Map(xs) => UniqueKeys(xs) && forall k :: 0 <= k < |xs| ==> ProperMaps(xs[k].value)
    case _ => true
  }

  lemma {:induction false} LookupAt(entries: seq<Entry>, k: nat)
    requires UniqueKeys(entries) && k < |entries|
    ensures Lookup(entries, entries[k].key) == Some(entries[k].value)
  {
  }

  function Keys(entries: seq<Entry>): set<Str> {
    set k | 0 <= k < |entries| :: entries[k].key
  }

  lemma {:induction false} KeyCount(entries: seq<Entry>)
    requires UniqueKeys(entries)
    ensures |Keys(entries)| == |entries|
  {
    if entries != [] {
      var n := |entries| - 1;
      KeyCount(entries[..n]);
      assert Keys(entries) == Keys(entries[..n]) + {entries[n].key};
    }
  }

  /** Between maps of one size, having every key of the other means having the same keys. */
  lemma {:induction false} SameKeys(xs: seq<Entry>, ys: seq<Entry>)
    requires UniqueKeys(xs) && UniqueKeys(ys) && |xs| == |ys| && Keys(xs) <= Keys(ys)
    ensures Keys(xs) == Keys(ys)
  {
    KeyCount(xs);
    KeyCount(ys);
    assert |Keys(ys) - Keys(xs)| == |Keys(ys)| - |Keys(xs)|;
  }

  /** Although only the first map's entries are visited, equality is symmetric. */
  lemma {:induction false} IpldEqualsSymmetric(a: Ipld, b: Ipld)
    requires ProperMaps(a) && ProperMaps(b) && IpldEquals(a, b)
    ensures IpldEquals(b, a)
    decreases a
  {
    if a.List? && b.List? {
      forall k | 0 <= k < |a.items| ensures IpldEquals(b.items[k], a.items[k]) {
        IpldEqualsSymmetric(a.items[k], b.items[k]);
      }
    } else if a.Map? && b.Map? {
      var xs, ys := a.entries, b.entries;
      assert Keys(xs) <= Keys(ys) by {
        forall k | 0 <= k < |xs| ensures xs[k].key in Keys(ys) { assert EntryMatches(xs[k], ys); }
      }
      SameKeys(xs, ys);
      forall j | 0 <= j < |ys| ensures EntryMatches(ys[j], xs) {
        assert ys[j].key in Keys(xs);
        var k :| 0 <= k < |xs| && xs[k].key == ys[j].key;
        assert EntryMatches(xs[k], ys);
        LookupAt(xs, k);
        LookupAt(ys, j);
        IpldEqualsSymmetric(xs[k].value, ys[j].value);
      }
    }
  }

  /** No NaN, and no plain object, anywhere in the value. */
  predicate SelfEqual(v: Ipld)
    decreases v
  {
    match v
    case Number(d) => !d.NaN?
    case List(xs) => forall k :: 0 <= k < |xs| ==> SelfEqual(xs[k])
    case Map(xs) => forall k :: 0 <= k < |xs| ==> SelfEqual(xs[k].value)
    case Object(_) => false
    case _ => true
  }

  /** A value equals a copy of itself exactly when it holds no NaN and no plain object. */
  lemma {:induction false} IpldEqualsReflexive(v: Ipld)
    requires ProperMaps(v)
    ensures IpldEquals(v, v) <==> SelfEqual(v)
    decreases v
  {
    if v.List? {
      forall k | 0 <= k < |v.items| ensures IpldEquals(v.items[k], v.items[k]) <==> SelfEqual(v.items[k]) {
        IpldEqualsReflexive(v.items[k]);
      }
    } else if v.Map? {
      var xs := v.entries;
      forall k | 0 <= k < |xs| ensures EntryMatches(xs[k], xs) <==> SelfEqual(xs[k].value) {
        LookupAt(xs, k);
        IpldEqualsReflexive(xs[k].value);
      }
    }
  }

  /** Equality is transitive, across numbers and bigints and down through lists and maps. */
  lemma {:induction false} IpldEqualsTransitive(a: Ipld, b: Ipld, c: Ipld)
    requires IpldEquals(a, b) && IpldEquals(b, c)
    ensures IpldEquals(a, c)
    decreases a
  {
    if a.List? && b.List? && c.List? {
      forall k | 0 <= k < |a.items| ensures IpldEquals(a.items[k], c.items[k]) {
        IpldEqualsTransitive(a.items[k], b.items[k], c.items[k]);
      }
    } else if a.Map? && b.Map? && c.Map? {
      var xs, ys, zs := a.entries, b.entries, c.entries;
      forall k | 0 <= k < |xs| ensures EntryMatches(xs[k], zs) {
        assert EntryMatches(xs[k], ys);
        var j :| 0 <= j < |ys| && ys[j] == Entry(xs[k].key, Lookup(ys, xs[k].key).value);
        assert EntryMatches(ys[j], zs);
        IpldEqualsTransitive(xs[k].value, ys[j].value, Lookup(zs, ys[j].key).value);
      }
    }
  }
}
