/** The wire map of a delegation payload (delegation/index.ts). */
module DelegationWire {
  import opened Wrappers
  import opened IpldModel
  import opened Tokens
  import opened PayloadWire
  import Commands
  import Predicates
  import PredicateWire
  import Text

  function SubjectToIpld(codec: TextCodec, s: Subject): Ipld {
    if s.AnySubject? then Null else String(codec.printDid(s.did))
  }

  predicate HasMeta(p: DelegationPayload) { p.metaPresent || |p.meta| > 0 }

  /** `delegationPayloadToIpld`, entry by entry. */
  function Rows(codec: TextCodec, p: DelegationPayload): seq<Row> {
    [Row(Iss, String(codec.printDid(p.issuer))),
     Row(Aud, String(codec.printDid(p.audience))),
     Row(Sub, SubjectToIpld(codec, p.subject)),
     Row(Cmd, String(Commands.Print(p.command))),
     Row(Pol, List(PredicateWire.PredicatesToIpld(p.policy))),
     Row(Exp, OptionalTime(p.expiration)),
     Row(Nonce, Bytes(p.nonce))]
    + (if HasMeta(p) then [Row(Meta, Map(p.meta))] else [])
    + (if p.notBefore.Some? then [Row(Nbf, TimestampToIpld(p.notBefore.value))] else [])
  }

  function Encode(codec: TextCodec, p: DelegationPayload): (r: Ipld)
    ensures r.Map?
  {
    Map(ToEntries(Rows(codec, p)))
  }

  /** How the decoder reads one field; every other name is refused. */
  function Read(codec: TextCodec, k: Key, v: Ipld): Result<Option<Value>, WireError> {
    match k
    case Iss => Typed(ReadDid(codec, Iss, v), (d: Did) => DidValue(d))
    case Aud => Typed(ReadDid(codec, Aud, v), (d: Did) => DidValue(d))
    case Sub =>
      if v.Null? then Ok(Some(SubjectValue(AnySubject)))
      else Typed(ReadDid(codec, Sub, v), (d: Did) => SubjectValue(Specific(d)))
    case Cmd => Typed(ReadCommand(codec, v), (c: Commands.Command) => CommandValue(c))
    case Pol =>
      if !v.List? then Err(BadField(Pol))
      else (match PredicateWire.IpldToPredicates(v.items)
            case Ok(ps) => Ok(Some(PolicyValue(ps)))
            case Err(e) => Err(BadPolicy(e)))
    case Exp =>
      if v.Null? then Ok(Some(TimeValue(None)))
      else Typed(ReadTimestamp(Exp, v), (t: Timestamp) => TimeValue(Some(t)))
    case Nbf => Typed(ReadTimestamp(Nbf, v), (t: Timestamp) => TimeValue(Some(t)))
    case Meta => if v.Map? then Ok(Some(MapValue(v.entries))) else Err(BadField(Meta))
    case Nonce => if v.Bytes? then Ok(Some(BytesValue(v.bytes))) else Err(BadField(Nonce))
    case _ => Err(UnknownField(KeyText(k)))
  }

  function Reader(codec: TextCodec): PayloadWire.Reader {
    (k, v) => Read(codec, k, v)
  }

  function SubjectAt(m: map<Key, Value>): Option<Subject> {
    if Sub in m && m[Sub].SubjectValue? then Some(m[Sub].subject) else None
  }

  function PolicyAt(m: map<Key, Value>): Option<seq<Predicates.Predicate>> {
    if Pol in m && m[Pol].PolicyValue? then Some(m[Pol].policy) else None
  }

  // ----- The locals the decoder fills -----

  datatype Fields = Fields(
    issuer: Option<Did>,
    audience: Option<Did>,
    subject: Option<Subject>,
    command: Option<Commands.Command>,
    policy: Option<seq<Predicates.Predicate>>,
    expiration: Option<Option<Timestamp>>,
    notBefore: Option<Timestamp>,
    notBeforeSeen: bool,
    meta: seq<Entry>,
    metaSeen: bool,
    nonce: Option<seq<Byte>>
  )

  const NO_FIELDS := Fields(None, None, None, None, None, None, None, false, [], false, None)

  predicate Seen(f: Fields, k: Key) {
    match k
    case Iss => f.issuer.Some?
    case Aud => f.audience.Some?
    case Sub => f.subject.Some?
    case Cmd => f.command.Some?
    case Pol => f.policy.Some?
    case Exp => f.expiration.Some?
    case Nbf => f.notBeforeSeen
    case Meta => f.metaSeen
    case Nonce => f.nonce.Some?
    case _ => false
  }

  function Fill(f: Fields, k: Key, w: Value): Fields {
    match (k, w)
    case (Iss, DidValue(d)) => f.(issuer := Some(d))
    case (Aud, DidValue(d)) => f.(audience := Some(d))
    case (Sub, SubjectValue(s)) => f.(subject := Some(s))
    case (Cmd, CommandValue(c)) => f.(command := Some(c))
    case (Pol, PolicyValue(ps)) => f.(policy := Some(ps))
    case (Exp, TimeValue(t)) => f.(expiration := Some(t))
    case (Nbf, TimeValue(t)) => f.(notBefore := t, notBeforeSeen := true)
    case (Meta, MapValue(es)) => f.(meta := es, metaSeen := true)
    case (Nonce, BytesValue(bs)) => f.(nonce := Some(bs))
    case _ => f
  }

  /** The payload made of the filled locals, or the first required field that is missing. */
  function Assemble(f: Fields): Result<DelegationPayload, WireError> {
    if f.issuer.None? then Err(MissingField(Iss))
    else if f.audience.None? then Err(MissingField(Aud))
    else if f.subject.None? then Err(MissingField(Sub))
    else if f.command.None? then Err(MissingField(Cmd))
    else if f.policy.None? then Err(MissingField(Pol))
    else if f.expiration.None? then Err(MissingField(Exp))
    else if f.nonce.None? then Err(MissingField(Nonce))
    else Ok(DelegationPayload(f.issuer.value, f.audience.value, f.subject.value, f.command.value, f.policy.value,
                              f.expiration.value, f.notBefore, f.meta, f.nonce.value, f.metaSeen))
  }

  /** The locals that a table of collected fields stands for. */
  function FieldsOf(m: map<Key, Value>): Fields {
    Fields(DidAt(m, Iss), DidAt(m, Aud), SubjectAt(m), CommandAt(m), PolicyAt(m), TimeAt(m, Exp),
           if TimeAt(m, Nbf).Some? then TimeAt(m, Nbf).value else None, TimeAt(m, Nbf).Some?,
           if MapAt(m, Meta).Some? then MapAt(m, Meta).value else [], MapAt(m, Meta).Some?, NonceAt(m))
  }

  function Decode(codec: TextCodec, i: Ipld): Result<DelegationPayload, WireError> {
    if !i.Map? then Err(ExpectedMap)
    else match Collect(i.entries, Reader(codec))
      case Err(e) => Err(e)
      case Ok(m) => Assemble(FieldsOf(m))
  }

  /** The type of value each field is read at. */
  predicate Fits(k: Key, w: Value) {
    match k
    case Iss => w.DidValue?
    case Aud => w.DidValue?
    case Sub => w.SubjectValue?
    case Cmd => w.CommandValue?
    case Pol => w.PolicyValue?
    case Exp => w.TimeValue?
    case Nbf => w.TimeValue?
    case Meta => w.MapValue?
    case Nonce => w.BytesValue?
    case _ => false
  }

  predicate WellTyped(m: map<Key, Value>) {
    forall k :: k in m ==> Fits(k, m[k])
  }

  lemma {:induction false} ReadFits(codec: TextCodec, k: Key, v: Ipld)
    ensures Read(codec, k, v).Ok? ==> Read(codec, k, v).value.Some? && Fits(k, Read(codec, k, v).value.value)
  {
    hide ReadDid, ReadCommand, ReadTimestamp, PredicateWire.IpldToPredicates, KeyText;
  }

  lemma {:induction false} SeenIsPresent(m: map<Key, Value>, k: Key)
    requires WellTyped(m)
    ensures Seen(FieldsOf(m), k) <==> k in m
  {
    assert k in m ==> Fits(k, m[k]);
  }

  lemma {:induction false} FillPutsInTable(m: map<Key, Value>, k: Key, w: Value)
    requires WellTyped(m) && Fits(k, w)
    ensures WellTyped(m[k := w]) && FieldsOf(m[k := w]) == Fill(FieldsOf(m), k, w)
  {
  }

  /** `ipldToDelegationPayload`: one pass over the entries, filling locals. */
  method DecodeLoop(codec: TextCodec, i: Ipld) returns (r: Result<DelegationPayload, WireError>)
    ensures r == Decode(codec, i)
  {
    if !i.Map? { return Err(ExpectedMap); }
    hide KeyOf, WellTyped, FieldsOf, Fill, Seen, Read;
    var entries, fields := i.entries, NO_FIELDS;
    EmptyTable();
    ghost var m: map<Key, Value> := map[];
    assert entries[..0] == [];
    for j := 0 to |entries|
      invariant Collect(entries[..j], Reader(codec)) == Ok(m) && WellTyped(m) && fields == FieldsOf(m)
    {
      var k, v := KeyOf(entries[j].key), entries[j].value;
      CollectNext(entries, j, Reader(codec));
      SeenIsPresent(m, k);
      if Seen(fields, k) { return Err(DuplicateField(k)); }
      ReadFits(codec, k, v);
      var got := Read(codec, k, v);
      if got.Err? { return Err(got.error); }
      FillPutsInTable(m, k, got.value.value);
      fields := Fill(fields, k, got.value.value);
      m := m[k := got.value.value];
    }
    assert entries[..|entries|] == entries;
    return Assemble(fields);
  }

  lemma {:induction false} EmptyTable()
    ensures WellTyped(map[]) && FieldsOf(map[]) == NO_FIELDS
  {
  }

  // ----- The rows of an encoded payload -----

  lemma {:induction false} RowsAreProper(codec: TextCodec, p: DelegationPayload)
    ensures ProperRows(Rows(codec, p))
  {
    hide PredicateWire.PredicatesToIpld, Commands.Print, TimestampToIpld, SubjectToIpld, OptionalTime;
  }

  /** The rows, one by one. */
  lemma {:induction false} RowsAt(codec: TextCodec, p: DelegationPayload)
    ensures var rows := Rows(codec, p);
            && |rows| >= 7
            && rows[0] == Row(Iss, String(codec.printDid(p.issuer)))
            && rows[1] == Row(Aud, String(codec.printDid(p.audience)))
            && rows[2] == Row(Sub, SubjectToIpld(codec, p.subject))
            && rows[3] == Row(Cmd, String(Commands.Print(p.command)))
            && rows[4] == Row(Pol, List(PredicateWire.PredicatesToIpld(p.policy)))
            && rows[5] == Row(Exp, OptionalTime(p.expiration))
            && rows[6] == Row(Nonce, Bytes(p.nonce))
    ensures var rows := Rows(codec, p);
            if HasMeta(p) then |rows| > 7 && rows[7] == Row(Meta, Map(p.meta))
            else forall i :: 0 <= i < |rows| ==> !rows[i].key.Meta?
    ensures var rows := Rows(codec, p);
            if p.notBefore.Some? then rows[|rows| - 1] == Row(Nbf, OptionalTime(p.notBefore))
            else forall i :: 0 <= i < |rows| ==> !rows[i].key.Nbf?
  {
    hide PredicateWire.PredicatesToIpld, Commands.Print, TimestampToIpld, SubjectToIpld;
  }

  lemma {:induction false} RowForms(codec: TextCodec, p: DelegationPayload, i: nat)
    requires i < |Rows(codec, p)|
    ensures var row := Rows(codec, p)[i];
            || row == Row(Iss, String(codec.printDid(p.issuer)))
            || row == Row(Aud, String(codec.printDid(p.audience)))
            || row == Row(Sub, SubjectToIpld(codec, p.subject))
            || row == Row(Cmd, String(Commands.Print(p.command)))
            || row == Row(Pol, List(PredicateWire.PredicatesToIpld(p.policy)))
            || row == Row(Exp, OptionalTime(p.expiration))
            || row == Row(Nonce, Bytes(p.nonce))
            || row == Row(Meta, Map(p.meta))
            || (p.notBefore.Some? && row == Row(Nbf, TimestampToIpld(p.notBefore.value)))
  {
    hide PredicateWire.PredicatesToIpld, Commands.Print, TimestampToIpld, SubjectToIpld, OptionalTime;
  }

  /** The encoded form is a map: no key twice. */
  lemma {:induction false} EncodeIsAMap(codec: TextCodec, p: DelegationPayload)
    ensures UniqueKeys(Encode(codec, p).entries)
  {
    RowsAreProper(codec, p);
    RowsAreAMap(Rows(codec, p));
  }

  // ----- What is decoded, name by name -----

  /** Null stands for any subject. */
  predicate SubjectIn(codec: TextCodec, v: Option<Ipld>, s: Subject) {
    if s.AnySubject? then v == Some(Null) else DidIn(codec, v, s.did)
  }

  predicate PolicyIn(v: Option<Ipld>, policy: seq<Predicates.Predicate>) {
    v.Some? && v.value.List? && PredicateWire.IpldToPredicates(v.value.items) == Ok(policy)
  }

  const NAMES: set<Key> := {Iss, Aud, Sub, Cmd, Pol, Exp, Nbf, Meta, Nonce}

  /** Every name is one of a delegation's. */
  predicate OnlyNames(entries: seq<Entry>) {
    forall i :: 0 <= i < |entries| ==> KeyOf(entries[i].key) in NAMES
  }

  /** The entries spell out the payload: each field under its own name, and nothing else. */
  predicate Says(codec: TextCodec, entries: seq<Entry>, p: DelegationPayload) {
    && OnlyNames(entries)
    && DidIn(codec, Get(entries, "iss"), p.issuer)
    && DidIn(codec, Get(entries, "aud"), p.audience)
    && SubjectIn(codec, Get(entries, "sub"), p.subject)
    && CommandIn(codec, Get(entries, "cmd"), p.command)
    && PolicyIn(Get(entries, "pol"), p.policy)
    && NullableTimeIn(Get(entries, "exp"), p.expiration)
    && OptionalTimeIn(Get(entries, "nbf"), p.notBefore)
    && (if Get(entries, "meta").None? then p.meta == [] && !p.metaPresent
        else Get(entries, "meta") == Some(Map(p.meta)) && p.metaPresent)
    && Get(entries, "nonce") == Some(Bytes(p.nonce))
  }

  /** How each field reads. */
  lemma {:induction false} ReadExact(codec: TextCodec, v: Ipld, d: Did, c: Commands.Command, t: Timestamp)
    ensures forall k | k in {Iss, Aud} :: Read(codec, k, v) == Ok(Some(DidValue(d))) <==> DidIn(codec, Some(v), d)
    ensures Read(codec, Cmd, v) == Ok(Some(CommandValue(c))) <==> CommandIn(codec, Some(v), c)
    ensures forall k | k in {Exp, Nbf} :: Read(codec, k, v) == Ok(Some(TimeValue(Some(t)))) <==> TimeIn(Some(v), t)
  {
    ReadersExact(codec, Iss, v, d, c, t);
    ReadersExact(codec, Aud, v, d, c, t);
    ReadersExact(codec, Exp, v, d, c, t);
    ReadersExact(codec, Nbf, v, d, c, t);
    hide ReadDid, ReadCommand, ReadTimestamp, DidIn, CommandIn;
  }

  lemma {:induction false} ReadSubject(codec: TextCodec, v: Ipld, s: Subject)
    ensures Read(codec, Sub, v) == Ok(Some(SubjectValue(s))) <==> SubjectIn(codec, Some(v), s)
  {
    if s.Specific? { ReadersExact(codec, Sub, v, s.did, Commands.Command([]), 0); }
    hide ReadDid;
  }

  /** The fields whose values need no foreign code. */
  lemma {:induction false} ReadPlain(codec: TextCodec, v: Ipld, policy: seq<Predicates.Predicate>)
    ensures Read(codec, Meta, v) == if v.Map? then Ok(Some(MapValue(v.entries))) else Err(BadField(Meta))
    ensures Read(codec, Nonce, v) == if v.Bytes? then Ok(Some(BytesValue(v.bytes))) else Err(BadField(Nonce))
    ensures Read(codec, Pol, v) == Ok(Some(PolicyValue(policy))) <==> PolicyIn(Some(v), policy)
    ensures Read(codec, Exp, v) == Ok(Some(TimeValue(None))) <==> v.Null?
    ensures Read(codec, Nbf, v) != Ok(Some(TimeValue(None)))
  {
    hide PredicateWire.IpldToPredicates, ReadTimestamp;
  }

  lemma {:induction false} AbsentSaysNothing(codec: TextCodec, d: Did, s: Subject, c: Commands.Command, t: Timestamp)
    ensures !DidIn(codec, None, d) && !SubjectIn(codec, None, s) && !CommandIn(codec, None, c) && !TimeIn(None, t)
  {
  }

  lemma {:induction false} FieldSaid(codec: TextCodec, entries: seq<Entry>, m: map<Key, Value>, k: Key, d: Did,
                                     c: Commands.Command, t: Timestamp)
    requires UniqueKeys(entries) && TableOf(m, entries, Reader(codec))
    ensures var v := Lookup(entries, KeyText(k));
            && (k in {Iss, Aud} ==> (DidAt(m, k) == Some(d) <==> DidIn(codec, v, d)))
            && (k in {Iss, Aud} ==> (DidAt(m, k).None? <==> v.None?))
            && (k == Cmd ==> (CommandAt(m) == Some(c) <==> CommandIn(codec, v, c)))
            && (k == Cmd ==> (CommandAt(m).None? <==> v.None?))
            && (k in {Exp, Nbf} ==> (TimeAt(m, k) == Some(Some(t)) <==> TimeIn(v, t)))
            && (k in {Exp, Nbf} ==> (TimeAt(m, k).None? <==> v.None?))
            && (k == Exp ==> (TimeAt(m, k) == Some(None) <==> v == Some(Null)))
            && (k == Nbf ==> TimeAt(m, k) != Some(None))
  {
    var v := Lookup(entries, KeyText(k));
    if k in {Iss, Aud, Cmd, Exp, Nbf} {
      TableField(m, entries, Reader(codec), k);
      if v.Some? {
        ReadExact(codec, v.value, d, c, t);
        ReadPlain(codec, v.value, []);
        ReadFits(codec, k, v.value);
      }
    }
    hide TableOf, KeyText, Read, Lookup, TimeIn, PolicyIn, DidIn, CommandIn;
    AbsentSaysNothing(codec, d, AnySubject, c, t);
  }

  lemma {:induction false} ValueSaid(codec: TextCodec, entries: seq<Entry>, m: map<Key, Value>, k: Key, s: Subject,
                                     es: seq<Entry>, policy: seq<Predicates.Predicate>)
    requires UniqueKeys(entries) && TableOf(m, entries, Reader(codec))
    ensures var v := Lookup(entries, KeyText(k));
            && (k == Sub ==> (SubjectAt(m) == Some(s) <==> SubjectIn(codec, v, s)))
            && (k == Sub ==> (SubjectAt(m).None? <==> v.None?))
            && (k == Pol ==> (PolicyAt(m) == Some(policy) <==> PolicyIn(v, policy)))
            && (k == Pol ==> (PolicyAt(m).None? <==> v.None?))
            && (k == Meta ==> (MapAt(m, k) == Some(es) <==> v == Some(Map(es))))
            && (k == Meta ==> (MapAt(m, k).None? <==> v.None?))
            && (k == Nonce ==> NonceAt(m) == match v case Some(Bytes(bs)) => Some(bs) case _ => None)
            && (k == Nonce ==> (NonceAt(m).None? <==> v.None?))
  {
    var v := Lookup(entries, KeyText(k));
    if k in {Sub, Pol, Meta, Nonce} {
      TableField(m, entries, Reader(codec), k);
      if v.Some? {
        ReadPlain(codec, v.value, policy);
        ReadSubject(codec, v.value, s);
        ReadFits(codec, k, v.value);
      }
    }
    hide TableOf, KeyText, Read, Lookup, DidIn, PredicateWire.IpldToPredicates;
    AbsentSaysNothing(codec, Did([]), s, Commands.Command([]), 0);
  }

  /** The locals say what the entries say, field by field. */
  lemma {:induction false} TermsSaid(codec: TextCodec, entries: seq<Entry>, m: map<Key, Value>, p: DelegationPayload)
    requires UniqueKeys(entries) && TableOf(m, entries, Reader(codec))
    ensures FieldsOf(m).issuer == Some(p.issuer) <==> DidIn(codec, Get(entries, "iss"), p.issuer)
    ensures FieldsOf(m).audience == Some(p.audience) <==> DidIn(codec, Get(entries, "aud"), p.audience)
    ensures FieldsOf(m).subject == Some(p.subject) <==> SubjectIn(codec, Get(entries, "sub"), p.subject)
    ensures FieldsOf(m).command == Some(p.command) <==> CommandIn(codec, Get(entries, "cmd"), p.command)
    ensures FieldsOf(m).policy == Some(p.policy) <==> PolicyIn(Get(entries, "pol"), p.policy)
    ensures FieldsOf(m).nonce == Some(p.nonce) <==> Get(entries, "nonce") == Some(Bytes(p.nonce))
  {
    hide TableOf, KeyText, DidIn, CommandIn, SubjectIn, PolicyIn, Read, Lookup, Get, DidAt, CommandAt, SubjectAt,
         PolicyAt, NonceAt;
    GetField(entries);
    FieldSaid(codec, entries, m, Iss, p.issuer, p.command, 0);
    FieldSaid(codec, entries, m, Aud, p.audience, p.command, 0);
    FieldSaid(codec, entries, m, Cmd, p.issuer, p.command, 0);
    ValueSaid(codec, entries, m, Sub, p.subject, p.meta, p.policy);
    ValueSaid(codec, entries, m, Pol, p.subject, p.meta, p.policy);
    ValueSaid(codec, entries, m, Nonce, p.subject, p.meta, p.policy);
  }

  lemma {:induction false} TimesSaid(codec: TextCodec, entries: seq<Entry>, m: map<Key, Value>, p: DelegationPayload)
    requires UniqueKeys(entries) && TableOf(m, entries, Reader(codec))
    ensures FieldsOf(m).expiration == Some(p.expiration) <==> NullableTimeIn(Get(entries, "exp"), p.expiration)
    ensures FieldsOf(m).notBefore == p.notBefore <==> OptionalTimeIn(Get(entries, "nbf"), p.notBefore)
  {
    hide TableOf, KeyText, TimeIn, Read, Lookup, Get, TimeAt, NullableTimeIn, OptionalTimeIn;
    GetField(entries);
    TimeSaid(codec, entries, m, Exp, p.expiration);
    TimeSaid(codec, entries, m, Nbf, p.notBefore);
  }

  lemma {:induction false} TimeSaid(codec: TextCodec, entries: seq<Entry>, m: map<Key, Value>, k: Key,
                                    t: Option<Timestamp>)
    requires UniqueKeys(entries) && TableOf(m, entries, Reader(codec)) && k in {Exp, Nbf}
    ensures k == Exp ==> (TimeAt(m, k) == Some(t) <==> NullableTimeIn(Lookup(entries, KeyText(k)), t))
    ensures k == Nbf ==>
              ((if TimeAt(m, k).Some? then TimeAt(m, k).value else None) == t
               <==> OptionalTimeIn(Lookup(entries, KeyText(k)), t))
  {
    hide TableOf, KeyText, TimeIn, Read, Lookup, TimeAt;
    FieldSaid(codec, entries, m, k, Did([]), Commands.Command([]), if t.Some? then t.value else 0);
  }

  lemma {:induction false} MetaSaid(codec: TextCodec, entries: seq<Entry>, m: map<Key, Value>, p: DelegationPayload)
    requires UniqueKeys(entries) && TableOf(m, entries, Reader(codec))
    ensures FieldsOf(m).metaSeen <==> Get(entries, "meta").Some?
    ensures FieldsOf(m).meta == p.meta
            <==> if Get(entries, "meta").None? then p.meta == [] else Get(entries, "meta") == Some(Map(p.meta))
  {
    hide TableOf, KeyText, Read, Lookup, Get, TimeAt, MapAt;
    GetField(entries);
    ValueSaid(codec, entries, m, Meta, p.subject, p.meta, p.policy);
  }

  /** Everything the payload says is readable. */
  lemma {:induction false} SaidIsRead(codec: TextCodec, entries: seq<Entry>, p: DelegationPayload)
    requires UniqueKeys(entries) && Says(codec, entries, p)
    ensures AllRead(entries, Reader(codec))
  {
    hide KeyText, KeyOf;
    forall i | 0 <= i < |entries| ensures Reader(codec)(KeyOf(entries[i].key), entries[i].value).Ok? {
      var k, v := KeyOf(entries[i].key), entries[i].value;
      LookupAt(entries, i);
      assert Lookup(entries, KeyText(k)) == Some(v);
      SaidFieldIsRead(codec, entries, p, k, v);
    }
  }

  lemma {:induction false} SaidFieldIsRead(codec: TextCodec, entries: seq<Entry>, p: DelegationPayload, k: Key, v: Ipld)
    requires Says(codec, entries, p) && Lookup(entries, KeyText(k)) == Some(v) && k in NAMES
    ensures Read(codec, k, v).Ok?
  {
    hide KeyText, Lookup, Read, Says;
    if k in {Iss, Aud, Sub, Cmd} {
      SaidTermIsRead(codec, entries, p, k, v);
    } else {
      SaidRestIsRead(codec, entries, p, k, v);
    }
  }

  lemma {:induction false} SaidTermIsRead(codec: TextCodec, entries: seq<Entry>, p: DelegationPayload, k: Key, v: Ipld)
    requires Says(codec, entries, p) && Lookup(entries, KeyText(k)) == Some(v) && k in {Iss, Aud, Sub, Cmd}
    ensures Read(codec, k, v).Ok?
  {
    hide KeyText, Lookup, Get, OnlyNames, Read, DidIn, CommandIn, SubjectIn, PolicyIn, NullableTimeIn, OptionalTimeIn;
    GetField(entries);
    ReadExact(codec, v, if k.Iss? then p.issuer else p.audience, p.command, 0);
    ReadSubject(codec, v, p.subject);
  }

  lemma {:induction false} SaidRestIsRead(codec: TextCodec, entries: seq<Entry>, p: DelegationPayload, k: Key, v: Ipld)
    requires Says(codec, entries, p) && Lookup(entries, KeyText(k)) == Some(v) && k in {Pol, Exp, Nbf, Meta, Nonce}
    ensures Read(codec, k, v).Ok?
  {
    hide KeyText, Lookup, Get, OnlyNames, Read, DidIn, CommandIn, TimeIn, SubjectIn, PolicyIn;
    GetField(entries);
    var at := if k.Exp? then p.expiration else p.notBefore;
    ReadExact(codec, v, p.issuer, p.command, if at.Some? then at.value else 0);
    ReadPlain(codec, v, p.policy);
  }

  lemma {:induction false} ReadIsNamed(codec: TextCodec, entries: seq<Entry>)
    requires AllRead(entries, Reader(codec))
    ensures OnlyNames(entries)
  {
    hide KeyOf, KeyText;
    forall i | 0 <= i < |entries| ensures KeyOf(entries[i].key) in NAMES {
      assert Reader(codec)(KeyOf(entries[i].key), entries[i].value).Ok?;
      ReadFits(codec, KeyOf(entries[i].key), entries[i].value);
    }
  }

  /**
   * The decoder accepts exactly the maps that say a payload, each field under its own name, in any order and with no
   * other name beside them; and what it returns is that payload.
   */
  lemma {:induction false} DecodesExactly(codec: TextCodec, entries: seq<Entry>, p: DelegationPayload)
    requires UniqueKeys(entries)
    ensures Decode(codec, Map(entries)) == Ok(p) <==> Says(codec, entries, p)
  {
    hide Collect, AllRead, TableOf, FieldsOf, Says, Read, Lookup;
    CollectExact(entries, Reader(codec), 0);
    if Says(codec, entries, p) { SaidIsRead(codec, entries, p); }
    if Collect(entries, Reader(codec)).Ok? {
      ReadIsNamed(codec, entries);
      AssemblesSaid(codec, entries, Collect(entries, Reader(codec)).value, p);
    }
  }

  lemma {:induction false} AssemblesSaid(codec: TextCodec, entries: seq<Entry>, m: map<Key, Value>,
                                         p: DelegationPayload)
    requires UniqueKeys(entries) && TableOf(m, entries, Reader(codec)) && OnlyNames(entries)
    ensures Assemble(FieldsOf(m)) == Ok(p) <==> Says(codec, entries, p)
  {
    hide TableOf, FieldsOf, DidIn, CommandIn, NullableTimeIn, OptionalTimeIn, SubjectIn, PolicyIn, Get, OnlyNames;
    TermsSaid(codec, entries, m, p);
    TimesSaid(codec, entries, m, p);
    MetaSaid(codec, entries, m, p);
  }

  /** A map whose fields can all be read is refused only for the first required field it does not have. */
  lemma {:induction false} RefusedFor(codec: TextCodec, entries: seq<Entry>)
    requires UniqueKeys(entries) && AllRead(entries, Reader(codec))
    ensures var r := Decode(codec, Map(entries));
            if Get(entries, "iss").None? then r == Err(MissingField(Iss))
            else if Get(entries, "aud").None? then r == Err(MissingField(Aud))
            else if Get(entries, "sub").None? then r == Err(MissingField(Sub))
            else if Get(entries, "cmd").None? then r == Err(MissingField(Cmd))
            else if Get(entries, "pol").None? then r == Err(MissingField(Pol))
            else if Get(entries, "exp").None? then r == Err(MissingField(Exp))
            else if Get(entries, "nonce").None? then r == Err(MissingField(Nonce))
            else r.Ok?
  {
    CollectExact(entries, Reader(codec), 0);
    var m := Collect(entries, Reader(codec)).value;
    hide TableOf, KeyText, Lookup, Read, Get, DidAt, CommandAt, SubjectAt, PolicyAt, TimeAt, NonceAt, Collect, AllRead;
    GetField(entries);
    FieldSaid(codec, entries, m, Iss, Did([]), Commands.Command([]), 0);
    FieldSaid(codec, entries, m, Aud, Did([]), Commands.Command([]), 0);
    FieldSaid(codec, entries, m, Cmd, Did([]), Commands.Command([]), 0);
    FieldSaid(codec, entries, m, Exp, Did([]), Commands.Command([]), 0);
    ValueSaid(codec, entries, m, Sub, AnySubject, [], []);
    ValueSaid(codec, entries, m, Pol, AnySubject, [], []);
    ValueSaid(codec, entries, m, Nonce, AnySubject, [], []);
  }

  /** The error of a field that cannot be read names it, or says what is wrong with the command or the policy. */
  lemma {:induction false} UnreadableNamed(codec: TextCodec, k: Key, v: Ipld)
    requires Read(codec, k, v).Err?
    ensures Read(codec, k, v).error
            == if k !in NAMES then UnknownField(KeyText(k))
               else if k == Cmd && v.String? then BadCommand(Commands.Parse(v.s, codec.lower).error)
               else if k == Pol && v.List? then BadPolicy(PredicateWire.IpldToPredicates(v.items).error)
               else BadField(k)
  {
    hide Commands.Parse, PredicateWire.IpldToPredicates, KeyText;
  }

  // ----- What is encoded, name by name -----

  /** What the encoder writes under each name, ... */
  lemma {:induction false} EncodesExactly(codec: TextCodec, p: DelegationPayload)
    ensures var es := Encode(codec, p).entries;
            && Get(es, "iss") == Some(String(codec.printDid(p.issuer)))
            && Get(es, "aud") == Some(String(codec.printDid(p.audience)))
            && Get(es, "sub") == (match p.subject
                                  case Specific(did) => Some(String(codec.printDid(did)))
                                  case AnySubject => Some(Null))
            && Get(es, "cmd") == Some(String(Commands.Print(p.command)))
            && Get(es, "pol") == Some(List(PredicateWire.PredicatesToIpld(p.policy)))
            && TimeWritten(Get(es, "exp"), p.expiration, Some(Null)) && TimeWritten(Get(es, "nbf"), p.notBefore, None)
            && Get(es, "meta") == (if p.metaPresent || p.meta != [] then Some(Map(p.meta)) else None)
            && Get(es, "nonce") == Some(Bytes(p.nonce))
  {
    EncodesTerms(codec, p);
    EncodesContents(codec, p);
    hide Get, Encode, TimeWritten, Commands.Print, PredicateWire.PredicatesToIpld;
  }

  lemma {:induction false} EncodesTerms(codec: TextCodec, p: DelegationPayload)
    ensures var es := Encode(codec, p).entries;
            && Get(es, "iss") == Some(String(codec.printDid(p.issuer)))
            && Get(es, "aud") == Some(String(codec.printDid(p.audience)))
            && Get(es, "sub") == (match p.subject
                                  case Specific(did) => Some(String(codec.printDid(did)))
                                  case AnySubject => Some(Null))
            && Get(es, "cmd") == Some(String(Commands.Print(p.command)))
            && Get(es, "pol") == Some(List(PredicateWire.PredicatesToIpld(p.policy)))
  {
    hide KeyText, Lookup, Encode, Commands.Print, Get, PredicateWire.PredicatesToIpld;
    GetField(Encode(codec, p).entries);
    WrittenUnder(codec, p, Iss);
    WrittenUnder(codec, p, Aud);
    WrittenUnder(codec, p, Sub);
    WrittenUnder(codec, p, Cmd);
    WrittenUnder(codec, p, Pol);
  }

  lemma {:induction false} EncodesContents(codec: TextCodec, p: DelegationPayload)
    ensures var es := Encode(codec, p).entries;
            && TimeWritten(Get(es, "exp"), p.expiration, Some(Null)) && TimeWritten(Get(es, "nbf"), p.notBefore, None)
            && Get(es, "meta") == (if p.metaPresent || p.meta != [] then Some(Map(p.meta)) else None)
            && Get(es, "nonce") == Some(Bytes(p.nonce))
  {
    TimesWritten(codec, p);
    ContentsWritten(codec, p);
    GetField(Encode(codec, p).entries);
    hide KeyText, Lookup, Encode, Written, TimeWritten, Get;
    WrittenUnder(codec, p, Exp);
    WrittenUnder(codec, p, Nbf);
    WrittenUnder(codec, p, Meta);
    WrittenUnder(codec, p, Nonce);
  }

  lemma {:induction false} ContentsWritten(codec: TextCodec, p: DelegationPayload)
    ensures Written(codec, p, Meta) == if p.metaPresent || p.meta != [] then Some(Map(p.meta)) else None
    ensures Written(codec, p, Nonce) == Some(Bytes(p.nonce))
  {
    hide PredicateWire.PredicatesToIpld, TimestampToIpld, OptionalTime, Commands.Print;
  }

  lemma {:induction false} TimesWritten(codec: TextCodec, p: DelegationPayload)
    ensures TimeWritten(Written(codec, p, Exp), p.expiration, Some(Null))
    ensures TimeWritten(Written(codec, p, Nbf), p.notBefore, None)
  {
  }

  /** ... and that it writes no other. */
  lemma {:induction false} EncodesNoOther(codec: TextCodec, p: DelegationPayload)
    ensures OnlyNames(Encode(codec, p).entries)
  {
    RowsAreProper(codec, p);
    RowsAreAMap(Rows(codec, p));
    hide Rows, KeyText, KeyOf, ProperRows;
    forall i | 0 <= i < |Rows(codec, p)| ensures KeyOf(Encode(codec, p).entries[i].key) in NAMES {
      RowNamed(codec, p, i);
    }
  }

  /** The value of each field, if it is written. */
  function Written(codec: TextCodec, p: DelegationPayload, k: Key): Option<Ipld> {
    match k
    case Iss => Some(String(codec.printDid(p.issuer)))
    case Aud => Some(String(codec.printDid(p.audience)))
    case Sub => Some(SubjectToIpld(codec, p.subject))
    case Cmd => Some(String(Commands.Print(p.command)))
    case Pol => Some(List(PredicateWire.PredicatesToIpld(p.policy)))
    case Exp => Some(OptionalTime(p.expiration))
    case Nbf => if p.notBefore.Some? then Some(OptionalTime(p.notBefore)) else None
    case Meta => if HasMeta(p) then Some(Map(p.meta)) else None
    case Nonce => Some(Bytes(p.nonce))
    case _ => None
  }

  /** Each row is that of its field. */
  lemma {:induction false} RowNamed(codec: TextCodec, p: DelegationPayload, i: nat)
    requires i < |Rows(codec, p)|
    ensures Rows(codec, p)[i].key in NAMES && Written(codec, p, Rows(codec, p)[i].key) == Some(Rows(codec, p)[i].value)
  {
    RowsAt(codec, p);
    RowForms(codec, p, i);
    hide Rows, PredicateWire.PredicatesToIpld, Commands.Print, TimestampToIpld, SubjectToIpld;
  }

  lemma {:induction false} RowOf(codec: TextCodec, p: DelegationPayload, k: Key) returns (i: nat)
    requires Written(codec, p, k).Some?
    ensures i < |Rows(codec, p)| && Rows(codec, p)[i].key == k
  {
    RowsAt(codec, p);
    hide Rows, PredicateWire.PredicatesToIpld, Commands.Print, TimestampToIpld, SubjectToIpld, OptionalTime;
    i := if k == Iss then 0 else if k == Aud then 1 else if k == Sub then 2 else if k == Cmd then 3
         else if k == Pol then 4 else if k == Exp then 5 else if k == Nonce then 6 else if k == Meta then 7
         else |Rows(codec, p)| - 1;
  }

  lemma {:induction false} WrittenUnder(codec: TextCodec, p: DelegationPayload, k: Key)
    requires !k.Unknown?
    ensures Lookup(Encode(codec, p).entries, KeyText(k)) == Written(codec, p, k)
  {
    var es := Encode(codec, p).entries;
    RowsAreProper(codec, p);
    RowsAreAMap(Rows(codec, p));
    KeyOfText(k);
    hide Rows, KeyText, KeyOf, Written, ProperRows;
    var found := Lookup(es, KeyText(k));
    if Written(codec, p, k).Some? {
      var i := RowOf(codec, p, k);
      RowNamed(codec, p, i);
      LookupAt(es, i);
    } else if found.Some? {
      var i :| 0 <= i < |es| && es[i] == Entry(KeyText(k), found.value);
      RowNamed(codec, p, i);
    }
  }

  // ----- Decoding inverts encoding, in every visiting order -----

  /** Presence of `meta` is recorded from the wire. */
  function Normal(p: DelegationPayload): DelegationPayload {
    p.(metaPresent := HasMeta(p))
  }

  /** What the wire form can carry: principals, commands and policies that read back, timestamps up to 2^53-1. */
  predicate Carriable(codec: TextCodec, p: DelegationPayload) {
    && DidReadsBack(codec, p.issuer) && DidReadsBack(codec, p.audience)
    && (p.subject.Specific? ==> DidReadsBack(codec, p.subject.did))
    && Commands.WellFormed(p.command)
    && (p.command.segments != [] ==> codec.lower(Commands.Print(p.command)) == Commands.Print(p.command))
    && (forall k :: 0 <= k < |p.policy| ==> PredicateWire.Canonical(p.policy[k]))
    && TimeFits(p.expiration) && TimeFits(p.notBefore)
  }

  /** Each part of what is written says the payload's own part exactly when that can be carried. */
  lemma {:induction false} WrittenTerms(codec: TextCodec, p: DelegationPayload)
    requires forall k :: 0 <= k < |p.policy| ==> PredicateWire.SafeSelectors(p.policy[k])
    ensures var es := Encode(codec, p).entries;
            && (DidIn(codec, Get(es, "iss"), p.issuer) <==> DidReadsBack(codec, p.issuer))
            && (DidIn(codec, Get(es, "aud"), p.audience) <==> DidReadsBack(codec, p.audience))
            && (SubjectIn(codec, Get(es, "sub"), p.subject)
                <==> (p.subject.Specific? ==> DidReadsBack(codec, p.subject.did)))
            && (CommandIn(codec, Get(es, "cmd"), p.command)
                <==> Commands.WellFormed(p.command)
                     && (p.command.segments != [] ==>
                           codec.lower(Commands.Print(p.command)) == Commands.Print(p.command)))
            && (PolicyIn(Get(es, "pol"), p.policy)
                <==> forall k :: 0 <= k < |p.policy| ==> PredicateWire.Canonical(p.policy[k]))
  {
    EncodesTerms(codec, p);
    Commands.PrintParse(p.command, codec.lower);
    PredicateWire.PolicyRoundTrip(p.policy);
    hide Encode, Get, Commands.Print, Commands.Parse, Commands.WellFormed, PredicateWire.PredicatesToIpld,
         PredicateWire.IpldToPredicates, PredicateWire.Canonical, PredicateWire.SafeSelectors;
  }

  lemma {:induction false} SaysWritten(codec: TextCodec, p: DelegationPayload)
    requires forall k :: 0 <= k < |p.policy| ==> PredicateWire.SafeSelectors(p.policy[k])
    ensures Says(codec, Encode(codec, p).entries, Normal(p)) <==> Carriable(codec, p)
  {
    hide Encode, Get, DidReadsBack, DidIn, SubjectIn, CommandIn, PolicyIn, NullableTimeIn, OptionalTimeIn, TimeWritten,
         TimeFits, Commands.WellFormed, Commands.Print, PredicateWire.Canonical, PredicateWire.SafeSelectors, OnlyNames;
    var es := Encode(codec, p).entries;
    WrittenTerms(codec, p);
    EncodesContents(codec, p);
    EncodesNoOther(codec, p);
    WrittenTimes(Get(es, "exp"), p.expiration);
    WrittenTimes(Get(es, "nbf"), p.notBefore);
  }

  /** What the entries say does not depend on their order. */
  lemma {:induction false} SaysInAnyOrder(codec: TextCodec, a: seq<Entry>, b: seq<Entry>, p: DelegationPayload)
    requires SameMap(a, b)
    ensures Says(codec, a, p) <==> Says(codec, b, p)
  {
    assert OnlyNames(a) <==> OnlyNames(b) by { NamesInAnyOrder(a, b); }
    hide Get, SameMap, DidIn, SubjectIn, CommandIn, PolicyIn, NullableTimeIn, OptionalTimeIn, OnlyNames;
    SameGets(a, b, "iss");
    SameGets(a, b, "aud");
    SameGets(a, b, "sub");
    SameGets(a, b, "cmd");
    SameGets(a, b, "pol");
    SameGets(a, b, "exp");
    SameGets(a, b, "nbf");
    SameGets(a, b, "meta");
    SameGets(a, b, "nonce");
  }

  lemma {:induction false} NamesInAnyOrder(a: seq<Entry>, b: seq<Entry>)
    requires SameMap(a, b)
    ensures OnlyNames(a) <==> OnlyNames(b)
  {
    hide KeyOf;
    forall i | 0 <= i < |a| ensures a[i] in b { assert a[i] in a; }
    forall i | 0 <= i < |b| ensures b[i] in a { assert b[i] in b; }
  }

  /**
   * Decoding the wire map of a delegation, in whatever order its entries are visited, gives the payload back
   * exactly when the payload is carriable.
   */
  lemma {:induction false} DelegationRoundTrip(codec: TextCodec, p: DelegationPayload, entries: seq<Entry>)
    requires forall k :: 0 <= k < |p.policy| ==> PredicateWire.SafeSelectors(p.policy[k])
    requires SameMap(entries, Encode(codec, p).entries)
    ensures Decode(codec, Map(entries)) == Ok(Normal(p)) <==> Carriable(codec, p)
  {
    hide Decode, Encode, Says, Carriable, PredicateWire.SafeSelectors;
    DecodesExactly(codec, entries, Normal(p));
    SaysInAnyOrder(codec, entries, Encode(codec, p).entries, Normal(p));
    SaysWritten(codec, p);
  }
}
