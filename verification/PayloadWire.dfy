/** What both payload codecs share: field names, field readers, and collecting the fields of a map in any order. */
module PayloadWire {
  import opened Text
  import opened Wrappers
  import opened Numbers
  import opened IpldModel
  import opened Tokens
  import Commands
  import Predicates
  import PredicateWire

  /** Foreign code: `did:key` strings and `toLowerCase`. */
  datatype TextCodec = TextCodec(printDid: Did -> Str, parseDid: Str -> Option<Did>, lower: Str -> Str)

  predicate DidReadsBack(codec: TextCodec, d: Did) {
    codec.parseDid(codec.printDid(d)) == Some(d)
  }

  // ----- Field names -----

  datatype Key = Iss | Aud | Sub | Cmd | Pol | Args | Prf | Exp | Nbf | Iat | Cause | Meta | Nonce | Unknown(name: Str)

  function KeyText(k: Key): Str {
    match k
    case Iss => [0x69, 0x73, 0x73]               // "iss"
    case Aud => [0x61, 0x75, 0x64]               // "aud"
    case Sub => [0x73, 0x75, 0x62]               // "sub"
    case Cmd => [0x63, 0x6D, 0x64]               // "cmd"
    case Pol => [0x70, 0x6F, 0x6C]               // "pol"
    case Args => [0x61, 0x72, 0x67, 0x73]        // "args"
    case Prf => [0x70, 0x72, 0x66]               // "prf"
    case Exp => [0x65, 0x78, 0x70]               // "exp"
    case Nbf => [0x6E, 0x62, 0x66]               // "nbf"
    case Iat => [0x69, 0x61, 0x74]               // "iat"
    case Cause => [0x63, 0x61, 0x75, 0x73, 0x65] // "cause"
    case Meta => [0x6D, 0x65, 0x74, 0x61]        // "meta"
    case Nonce => [0x6E, 0x6F, 0x6E, 0x63, 0x65] // "nonce"
    case Unknown(name) => name
  }

  function KeyOf(s: Str): (k: Key)
    ensures KeyText(k) == s
  {
    if s == KeyText(Iss) then Iss else if s == KeyText(Aud) then Aud else if s == KeyText(Sub) then Sub
    else if s == KeyText(Cmd) then Cmd else if s == KeyText(Pol) then Pol else if s == KeyText(Args) then Args
    else if s == KeyText(Prf) then Prf else if s == KeyText(Exp) then Exp else if s == KeyText(Nbf) then Nbf
    else if s == KeyText(Iat) then Iat else if s == KeyText(Cause) then Cause else if s == KeyText(Meta) then Meta
    else if s == KeyText(Nonce) then Nonce else Unknown(s)
  }

  lemma {:induction false} NamesDiffer(j: Key, k: Key)
    requires !j.Unknown? && !k.Unknown? && j != k
    ensures KeyText(j) != KeyText(k)
  {
    var s, t := KeyText(j), KeyText(k);
    assert |s| >= 3 && |t| >= 3;
    assert |s| != |t| || s[0] != t[0] || s[1] != t[1];
  }

  /** The names as they are spelled on the wire. */
  lemma {:induction false} NamesSpelled()
    ensures KeyText(Iss) == Ascii("iss") && KeyText(Aud) == Ascii("aud") && KeyText(Sub) == Ascii("sub")
    ensures KeyText(Cmd) == Ascii("cmd") && KeyText(Pol) == Ascii("pol") && KeyText(Args) == Ascii("args")
    ensures KeyText(Prf) == Ascii("prf") && KeyText(Exp) == Ascii("exp") && KeyText(Nbf) == Ascii("nbf")
    ensures KeyText(Iat) == Ascii("iat") && KeyText(Cause) == Ascii("cause") && KeyText(Meta) == Ascii("meta")
    ensures KeyText(Nonce) == Ascii("nonce")
  {
  }

  /** The names are told apart by length and first two letters. */
  lemma {:induction false} KeyOfText(k: Key)
    requires !k.Unknown?
    ensures KeyOf(KeyText(k)) == k
  {
    forall j: Key | !j.Unknown? && j != k ensures KeyText(j) != KeyText(k) { NamesDiffer(j, k); }
    hide KeyText;
  }

  // ----- Field values -----

  datatype Value =
    | DidValue(did: Did)
    | SubjectValue(subject: Subject)
    | CommandValue(command: Commands.Command)
    | PolicyValue(policy: seq<Predicates.Predicate>)
    | TimeValue(time: Option<Timestamp>)
    | MapValue(entries: seq<Entry>)
    | BytesValue(bytes: seq<Byte>)
    | LinksValue(links: seq<Cid>)
    | LinkValue(link: Cid)

  datatype WireError =
    | ExpectedMap | DuplicateField(key: Key) | MissingField(key: Key) | UnknownField(name: Str)
    | BadField(key: Key) | BadCommand(cause: Commands.CommandError) | BadPolicy(reason: PredicateWire.FromIpldError)
    | AudienceEqualsSubject

  function ReadDid(codec: TextCodec, k: Key, v: Ipld): Result<Did, WireError> {
    if !v.String? then Err(BadField(k))
    else match codec.parseDid(v.s)
      case Some(d) => Ok(d)
      case None => Err(BadField(k))
  }

  function ReadCommand(codec: TextCodec, v: Ipld): Result<Commands.Command, WireError> {
    if !v.String? then Err(BadField(Cmd))
    else match Commands.Parse(v.s, codec.lower)
      case Ok(c) => Ok(c)
      case Err(e) => Err(BadCommand(e))
  }

  function TimestampToIpld(t: Timestamp): Ipld {
    if t <= MAX_SAFE then Number(Finite(t as real)) else BigInt(t)
  }

  /** `Timestamp.fromWireIpld`: a whole number of seconds, not negative, at most 2^53-1. */
  function ReadTimestamp(k: Key, v: Ipld): Result<Timestamp, WireError> {
    match v
    case Number(d) =>
      if d.Finite? && d.r == d.r.Floor as real && 0 <= d.r.Floor <= MAX_SAFE then Ok(d.r.Floor) else Err(BadField(k))
    case BigInt(n) => if 0 <= n <= MAX_SAFE then Ok(n) else Err(BadField(k))
    case _ => Err(BadField(k))
  }

  function OptionalTime(t: Option<Timestamp>): Ipld {
    if t.Some? then TimestampToIpld(t.value) else Null
  }

  predicate TimeFits(t: Option<Timestamp>) { t.Some? ==> t.value <= MAX_SAFE }

  /** A field that was read, wrapped as a table value. */
  function Typed<T>(r: Result<T, WireError>, wrap: T -> Value): Result<Option<Value>, WireError> {
    match r
    case Ok(t) => Ok(Some(wrap(t)))
    case Err(e) => Err(e)
  }

  // ----- Collecting fields -----

  type Reader = (Key, Ipld) -> Result<Option<Value>, WireError>

  /** Visiting the entries in order; a second value for a field, or one that cannot be read, stops the visit. */
  function Collect(entries: seq<Entry>, read: Reader): Result<map<Key, Value>, WireError> {
    if entries == [] then Ok(map[])
    else match Collect(entries[..|entries| - 1], read)
      case Err(e) => Err(e)
      case Ok(m) => CollectOne(m, KeyOf(entries[|entries| - 1].key), entries[|entries| - 1].value, read)
  }

  function CollectOne(m: map<Key, Value>, k: Key, v: Ipld, read: Reader): Result<map<Key, Value>, WireError> {
    if k in m then Err(DuplicateField(k))
    else match read(k, v)
      case Err(x) => Err(x)
      case Ok(None) => Ok(m)
      case Ok(Some(w)) => Ok(m[k := w])
  }

  /** The first error ends the visit. */
  lemma {:induction false} FirstErrorStays(entries: seq<Entry>, n: nat, read: Reader)
    requires n <= |entries| && Collect(entries[..n], read).Err?
    ensures Collect(entries, read) == Collect(entries[..n], read)
    decreases |entries|
  {
    if n == |entries| {
      assert entries[..n] == entries;
    } else {
      assert entries[..|entries| - 1][..n] == entries[..n];
      FirstErrorStays(entries[..|entries| - 1], n, read);
    }
  }

  /** Visiting entry j: either the visit goes on, or its error is the final one. */
  lemma {:induction false} CollectNext(entries: seq<Entry>, j: nat, read: Reader)
    requires j < |entries| && Collect(entries[..j], read).Ok?
    ensures Collect(entries[..j + 1], read)
            == CollectOne(Collect(entries[..j], read).value, KeyOf(entries[j].key), entries[j].value, read)
    ensures Collect(entries[..j + 1], read).Err? ==> Collect(entries, read) == Collect(entries[..j + 1], read)
  {
    hide CollectOne, KeyOf;
    assert entries[..j + 1][..j] == entries[..j];
    if Collect(entries[..j + 1], read).Err? { FirstErrorStays(entries, j + 1, read); }
  }

  /** What a finished visit found: every entry was readable, and the table holds exactly the values read. */
  predicate TableOf(m: map<Key, Value>, entries: seq<Entry>, read: Reader) {
    && (forall i :: 0 <= i < |entries| ==> read(KeyOf(entries[i].key), entries[i].value).Ok?)
    && (forall i :: 0 <= i < |entries| && read(KeyOf(entries[i].key), entries[i].value).value.Some? ==>
          KeyOf(entries[i].key) in m
          && m[KeyOf(entries[i].key)] == read(KeyOf(entries[i].key), entries[i].value).value.value)
    && (forall k :: k in m ==>
          exists i :: 0 <= i < |entries| && KeyOf(entries[i].key) == k && read(k, entries[i].value).Ok?
                      && read(k, entries[i].value).value.Some?)
  }

  lemma {:induction false} CollectFinds(entries: seq<Entry>, read: Reader)
    requires Collect(entries, read).Ok?
    ensures TableOf(Collect(entries, read).value, entries, read)
  {
    hide KeyOf;
    if entries != [] {
      var init, last := entries[..|entries| - 1], entries[|entries| - 1];
      CollectFinds(init, read);
      assert forall i :: 0 <= i < |init| ==> init[i] == entries[i];
      var before, after := Collect(init, read).value, Collect(entries, read).value;
      forall k | k in after
        ensures exists i :: 0 <= i < |entries| && KeyOf(entries[i].key) == k && read(k, entries[i].value).Ok?
                            && read(k, entries[i].value).value.Some?
      {
        if k in before {
          var i :| 0 <= i < |init| && KeyOf(init[i].key) == k && read(k, init[i].value).Ok?
                   && read(k, init[i].value).value.Some?;
          assert entries[i] == init[i];
        } else {
          assert entries[|entries| - 1] == last;
        }
      }
    }
  }

  /** A map with readable values is collected whatever order its entries are visited in. */
  lemma {:induction false} CollectSucceeds(entries: seq<Entry>, read: Reader)
    requires UniqueKeys(entries)
    requires forall i :: 0 <= i < |entries| ==> read(KeyOf(entries[i].key), entries[i].value).Ok?
    ensures Collect(entries, read).Ok?
  {
    hide KeyOf;
    if entries != [] {
      var init, last := entries[..|entries| - 1], entries[|entries| - 1];
      assert forall i :: 0 <= i < |init| ==> init[i] == entries[i];
      CollectSucceeds(init, read);
      CollectFinds(init, read);
      assert KeyOf(last.key) !in Collect(init, read).value;
    }
  }

  /** Two visiting orders of one ES Map. */
  ghost predicate SameMap(a: seq<Entry>, b: seq<Entry>) {
    UniqueKeys(a) && UniqueKeys(b) && forall e :: e in a <==> e in b
  }

  /** The visiting order changes neither whether the fields can be collected nor what is collected. */
  lemma {:induction false} OrderDoesNotMatter(a: seq<Entry>, b: seq<Entry>, read: Reader)
    requires SameMap(a, b)
    ensures Collect(a, read).Ok? <==> Collect(b, read).Ok?
    ensures Collect(a, read).Ok? ==> Collect(b, read) == Collect(a, read)
  {
    if Collect(a, read).Ok? { OneOrderGivesOther(a, b, read); }
    if Collect(b, read).Ok? { OneOrderGivesOther(b, a, read); }
  }

  lemma {:induction false} OneOrderGivesOther(a: seq<Entry>, b: seq<Entry>, read: Reader)
    requires SameMap(a, b) && Collect(a, read).Ok?
    ensures Collect(b, read) == Collect(a, read)
  {
    hide KeyOf, Collect;
    CollectFinds(a, read);
    forall i | 0 <= i < |b| ensures read(KeyOf(b[i].key), b[i].value).Ok? {
      assert b[i] in a;
    }
    CollectSucceeds(b, read);
    CollectFinds(b, read);
    var ma, mb := Collect(a, read).value, Collect(b, read).value;
    TableIncluded(ma, a, mb, b, read);
    TableIncluded(mb, b, ma, a, read);
    assert ma == mb;
  }

  lemma {:induction false} TableIncluded(ma: map<Key, Value>, a: seq<Entry>, mb: map<Key, Value>, b: seq<Entry>,
                                         read: Reader)
    requires TableOf(ma, a, read) && TableOf(mb, b, read) && forall e :: e in a ==> e in b
    ensures forall k :: k in ma ==> k in mb && mb[k] == ma[k]
  {
    hide KeyOf;
    forall k | k in ma ensures k in mb && mb[k] == ma[k] {
      var i :| 0 <= i < |a| && KeyOf(a[i].key) == k && read(k, a[i].value).Ok? && read(k, a[i].value).value.Some?;
      assert a[i] in b;
      var j :| 0 <= j < |b| && b[j] == a[i];
      assert KeyOf(b[j].key) == k;
    }
  }

  // ----- What a collected field says about the entries -----

  /** The value of the entry with this name. */
  function Get(entries: seq<Entry>, name: string): Option<Ipld> {
    Lookup(entries, Ascii(name))
  }

  /** Two visiting orders of one map hold the same values. */
  lemma {:induction false} SameGets(a: seq<Entry>, b: seq<Entry>, name: string)
    requires SameMap(a, b)
    ensures Get(a, name) == Get(b, name)
  {
    var key := Ascii(name);
    hide Holds, Ascii;
    if Lookup(a, key).Some? { LookupExact(a, key, Lookup(a, key).value); }
    if Lookup(b, key).Some? { LookupExact(b, key, Lookup(b, key).value); }
    if Lookup(a, key).Some? { LookupExact(b, key, Lookup(a, key).value); }
    if Lookup(b, key).Some? { LookupExact(a, key, Lookup(b, key).value); }
  }

  lemma {:induction false} GetField(entries: seq<Entry>)
    ensures Get(entries, "iss") == Lookup(entries, KeyText(Iss)) && Get(entries, "aud") == Lookup(entries, KeyText(Aud))
    ensures Get(entries, "sub") == Lookup(entries, KeyText(Sub)) && Get(entries, "cmd") == Lookup(entries, KeyText(Cmd))
    ensures Get(entries, "pol") == Lookup(entries, KeyText(Pol))
    ensures Get(entries, "args") == Lookup(entries, KeyText(Args))
    ensures Get(entries, "prf") == Lookup(entries, KeyText(Prf)) && Get(entries, "exp") == Lookup(entries, KeyText(Exp))
    ensures Get(entries, "nbf") == Lookup(entries, KeyText(Nbf)) && Get(entries, "iat") == Lookup(entries, KeyText(Iat))
    ensures Get(entries, "cause") == Lookup(entries, KeyText(Cause))
    ensures Get(entries, "meta") == Lookup(entries, KeyText(Meta))
    ensures Get(entries, "nonce") == Lookup(entries, KeyText(Nonce))
  {
    NamesSpelled();
    hide KeyText, Ascii, Lookup;
  }

  /** The table holds a field exactly when the entry of that name is there and is not skipped, and what it reads as. */
  lemma {:induction false} TableField(m: map<Key, Value>, entries: seq<Entry>, read: Reader, k: Key)
    requires TableOf(m, entries, read) && UniqueKeys(entries) && !k.Unknown?
    ensures match Lookup(entries, KeyText(k))
            case None => k !in m
            case Some(v) =>
              && read(k, v).Ok?
              && (match read(k, v).value
                  case Some(w) => k in m && m[k] == w
                  case None => k !in m)
  {
    KeyOfText(k);
    hide KeyOf, KeyText;
    var found := Lookup(entries, KeyText(k));
    if found.Some? {
      var i :| 0 <= i < |entries| && entries[i] == Entry(KeyText(k), found.value);
      assert KeyOf(entries[i].key) == k;
    }
    if k in m {
      var i :| 0 <= i < |entries| && KeyOf(entries[i].key) == k && read(k, entries[i].value).Ok?
               && read(k, entries[i].value).value.Some?;
      assert entries[i].key == KeyText(k);
      LookupAt(entries, i);
    }
  }

  predicate AllRead(entries: seq<Entry>, read: Reader) {
    forall i :: 0 <= i < |entries| ==> read(KeyOf(entries[i].key), entries[i].value).Ok?
  }

  /** The fields of a map are collected exactly when each can be read; otherwise the first that cannot is the error. */
  lemma {:induction false} CollectExact(entries: seq<Entry>, read: Reader, i: nat)
    requires UniqueKeys(entries)
    ensures Collect(entries, read).Ok? <==> AllRead(entries, read)
    ensures Collect(entries, read).Ok? ==> TableOf(Collect(entries, read).value, entries, read)
    ensures i < |entries| && AllRead(entries[..i], read) && read(KeyOf(entries[i].key), entries[i].value).Err? ==>
              Collect(entries, read) == Err(read(KeyOf(entries[i].key), entries[i].value).error)
  {
    hide KeyOf, Collect;
    if Collect(entries, read).Ok? { CollectFinds(entries, read); }
    if AllRead(entries, read) { CollectSucceeds(entries, read); }
    if i < |entries| && AllRead(entries[..i], read) && read(KeyOf(entries[i].key), entries[i].value).Err? {
      CollectSucceeds(entries[..i], read);
      CollectFinds(entries[..i], read);
      CollectNext(entries, i, read);
      assert KeyOf(entries[i].key) !in Collect(entries[..i], read).value;
    }
  }

  predicate DidIn(codec: TextCodec, v: Option<Ipld>, d: Did) {
    v.Some? && v.value.String? && codec.parseDid(v.value.s) == Some(d)
  }

  predicate CommandIn(codec: TextCodec, v: Option<Ipld>, c: Commands.Command) {
    v.Some? && v.value.String? && Commands.Parse(v.value.s, codec.lower) == Ok(c)
  }

  /** A whole number of seconds from 0 to 2^53-1, as a JavaScript number or a bigint. */
  predicate TimeIn(v: Option<Ipld>, t: Timestamp) {
    t <= 0x1F_FFFF_FFFF_FFFF && (v == Some(BigInt(t)) || v == Some(Number(Finite(t as real))))
  }

  /** A field that must be there, and is null when there is no such instant. */
  predicate NullableTimeIn(v: Option<Ipld>, t: Option<Timestamp>) {
    if t.Some? then TimeIn(v, t.value) else v == Some(Null)
  }

  /** A field that may be left out. */
  predicate OptionalTimeIn(v: Option<Ipld>, t: Option<Timestamp>) {
    if t.Some? then TimeIn(v, t.value) else v == None
  }

  /** A timestamp as it is written: a JavaScript number while that is exact. */
  predicate TimeWritten(v: Option<Ipld>, t: Option<Timestamp>, absent: Option<Ipld>) {
    v == if t.None? then absent
         else if t.value < 0x20_0000_0000_0000 then Some(Number(Finite(t.value as real)))
         else Some(BigInt(t.value))
  }

  /** A written timestamp is read exactly when it is at most 2^53-1. */
  lemma {:induction false} WrittenTimes(v: Option<Ipld>, t: Option<Timestamp>)
    ensures TimeWritten(v, t, Some(Null)) ==> (NullableTimeIn(v, t) <==> TimeFits(t))
    ensures TimeWritten(v, t, None) ==> (OptionalTimeIn(v, t) <==> TimeFits(t))
    ensures forall u :: TimeWritten(v, t, Some(Null)) && NullableTimeIn(v, u) ==> TimeFits(t)
    ensures forall u :: TimeWritten(v, t, None) && OptionalTimeIn(v, u) ==> TimeFits(t)
  {
  }

  lemma {:induction false} ReadersExact(codec: TextCodec, k: Key, v: Ipld, d: Did, c: Commands.Command, t: Timestamp)
    ensures ReadDid(codec, k, v) == Ok(d) <==> DidIn(codec, Some(v), d)
    ensures ReadCommand(codec, v) == Ok(c) <==> CommandIn(codec, Some(v), c)
    ensures ReadTimestamp(k, v) == Ok(t) <==> TimeIn(Some(v), t)
  {
    hide Commands.Parse;
  }

  // ----- Encoded payloads: named fields in wire order -----

  datatype Row = Row(key: Key, value: Ipld)

  function ToEntries(rows: seq<Row>): (es: seq<Entry>)
    ensures |es| == |rows| && forall i :: 0 <= i < |rows| ==> es[i] == Entry(KeyText(rows[i].key), rows[i].value)
  {
    if rows == [] then [] else [Entry(KeyText(rows[0].key), rows[0].value)] + ToEntries(rows[1..])
  }

  predicate ProperRows(rows: seq<Row>) {
    && (forall i :: 0 <= i < |rows| ==> !rows[i].key.Unknown?)
    && (forall i, j :: 0 <= i < j < |rows| ==> rows[i].key != rows[j].key)
  }

  predicate KeysIn(rows: seq<Row>, keys: set<Key>) {
    forall i :: 0 <= i < |rows| ==> rows[i].key in keys
  }

  /** Proper parts with different keys make a proper whole. */
  lemma {:induction false} ProperConcat(a: seq<Row>, ka: set<Key>, b: seq<Row>, kb: set<Key>)
    requires ProperRows(a) && KeysIn(a, ka) && ProperRows(b) && KeysIn(b, kb) && ka !! kb
    ensures ProperRows(a + b) && KeysIn(a + b, ka + kb)
  {
    forall i, j | 0 <= i < j < |a + b| ensures (a + b)[i].key != (a + b)[j].key {
      if i < |a| <= j { assert a[i].key in ka && b[j - |a|].key in kb; }
    }
  }

  lemma {:induction false} RowsAreAMap(rows: seq<Row>)
    requires ProperRows(rows)
    ensures UniqueKeys(ToEntries(rows))
    ensures forall i :: 0 <= i < |rows| ==> KeyOf(ToEntries(rows)[i].key) == rows[i].key
  {
    hide KeyOf, KeyText;
    forall i | 0 <= i < |rows| ensures KeyOf(KeyText(rows[i].key)) == rows[i].key { KeyOfText(rows[i].key); }
    var es := ToEntries(rows);
    forall i, j | 0 <= i < j < |es| ensures es[i].key != es[j].key {
      assert KeyOf(KeyText(rows[i].key)) == rows[i].key && KeyOf(KeyText(rows[j].key)) == rows[j].key;
    }
  }

  // ----- Reading typed fields out of the table -----

  function DidAt(m: map<Key, Value>, k: Key): Option<Did> {
    if k in m && m[k].DidValue? then Some(m[k].did) else None
  }

  function CommandAt(m: map<Key, Value>): Option<Commands.Command> {
    if Cmd in m && m[Cmd].CommandValue? then Some(m[Cmd].command) else None
  }

  function TimeAt(m: map<Key, Value>, k: Key): Option<Option<Timestamp>> {
    if k in m && m[k].TimeValue? then Some(m[k].time) else None
  }

  function MapAt(m: map<Key, Value>, k: Key): Option<seq<Entry>> {
    if k in m && m[k].MapValue? then Some(m[k].entries) else None
  }

  function NonceAt(m: map<Key, Value>): Option<seq<Byte>> {
    if Nonce in m && m[Nonce].BytesValue? then Some(m[Nonce].bytes) else None
  }
}
