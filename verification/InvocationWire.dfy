/** The wire map of an invocation payload (invocation/index.ts). */
module InvocationWire {
  import opened Wrappers
  import opened IpldModel
  import opened Tokens
  import opened PayloadWire
  import Commands
  import Text

  function LinksToIpld(links: seq<Cid>): (r: seq<Ipld>)
    ensures |r| == |links|
  {
    if links == [] then [] else [Link(links[0])] + LinksToIpld(links[1..])
  }

  /** `invocationPayloadToIpld`, entry by entry: `aud` is left out when it equals `sub`. */
  function Rows(codec: TextCodec, p: InvocationPayload): seq<Row> {
    [Row(Iss, String(codec.printDid(p.issuer)))]
    + (if p.audience != p.subject then [Row(Aud, String(codec.printDid(p.audience)))] else [])
    + [Row(Sub, String(codec.printDid(p.subject))),
       Row(Cmd, String(Commands.Print(p.command))),
       Row(Args, Map(p.arguments)),
       Row(Prf, List(LinksToIpld(p.proofs))),
       Row(Exp, OptionalTime(p.expiration)),
       Row(Nonce, Bytes(p.nonce))]
    + (if p.cause.Some? then [Row(Cause, Link(p.cause.value))] else [])
    + (if p.issuedAt.Some? then [Row(Iat, TimestampToIpld(p.issuedAt.value))] else [])
    + (if |p.meta| > 0 then [Row(Meta, Map(p.meta))] else [])
  }

  function Encode(codec: TextCodec, p: InvocationPayload): (r: Ipld)
    ensures r.Map?
  {
    Map(ToEntries(Rows(codec, p)))
  }

  function ReadLinks(items: seq<Ipld>): Option<seq<Cid>> {
    if items == [] then Some([])
    else if !items[0].Link? then None
    else match ReadLinks(items[1..])
      case None => None
      case Some(rest) => Some([items[0].cid] + rest)
  }

  lemma {:induction false} LinksReadBack(links: seq<Cid>)
    ensures ReadLinks(LinksToIpld(links)) == Some(links)
  {
    if links != [] {
      LinksReadBack(links[1..]);
      assert LinksToIpld(links)[1..] == LinksToIpld(links[1..]);
      assert [links[0]] + links[1..] == links;
    }
  }

  /** How the decoder reads one field; every other name is skipped. */
  function Read(codec: TextCodec, k: Key, v: Ipld): Result<Option<Value>, WireError> {
    match k
    case Iss => Typed(ReadDid(codec, Iss, v), (d: Did) => DidValue(d))
    case Aud => Typed(ReadDid(codec, Aud, v), (d: Did) => DidValue(d))
    case Sub => Typed(ReadDid(codec, Sub, v), (d: Did) => DidValue(d))
    case Cmd => Typed(ReadCommand(codec, v), (c: Commands.Command) => CommandValue(c))
    case Args => if v.Map? then Ok(Some(MapValue(v.entries))) else Err(BadField(Args))
    case Prf =>
      if !v.List? || ReadLinks(v.items).None? then Err(BadField(Prf))
      else Ok(Some(LinksValue(ReadLinks(v.items).value)))
    case Cause => if v.Link? then Ok(Some(LinkValue(v.cid))) else Err(BadField(Cause))
    case Iat => Typed(ReadTimestamp(Iat, v), (t: Timestamp) => TimeValue(Some(t)))
    case Exp =>
      if v.Null? then Ok(Some(TimeValue(None)))
      else Typed(ReadTimestamp(Exp, v), (t: Timestamp) => TimeValue(Some(t)))
    case Meta => if v.Map? then Ok(Some(MapValue(v.entries))) else Err(BadField(Meta))
    case Nonce => if v.Bytes? then Ok(Some(BytesValue(v.bytes))) else Err(BadField(Nonce))
    case _ => Ok(None)
  }

  function Reader(codec: TextCodec): PayloadWire.Reader {
    (k, v) => Read(codec, k, v)
  }

  // ----- The locals the decoder fills -----

  datatype Fields = Fields(
    issuer: Option<Did>,
    audience: Option<Did>,
    subject: Option<Did>,
    command: Option<Commands.Command>,
    arguments: Option<seq<Entry>>,
    proofs: Option<seq<Cid>>,
    cause: Option<Cid>,
    issuedAt: Option<Option<Timestamp>>,
    expiration: Option<Option<Timestamp>>,
    meta: Option<seq<Entry>>,
    nonce: Option<seq<Byte>>
  )

  const NO_FIELDS := Fields(None, None, None, None, None, None, None, None, None, None, None)

  predicate Seen(f: Fields, k: Key) {
    match k
    case Iss => f.issuer.Some?
    case Aud => f.audience.Some?
    case Sub => f.subject.Some?
    case Cmd => f.command.Some?
    case Args => f.arguments.Some?
    case Prf => f.proofs.Some?
    case Cause => f.cause.Some?
    case Iat => f.issuedAt.Some?
    case Exp => f.expiration.Some?
    case Meta => f.meta.Some?
    case Nonce => f.nonce.Some?
    case _ => false
  }

  function Fill(f: Fields, k: Key, w: Value): Fields {
    match (k, w)
    case (Iss, DidValue(d)) => f.(issuer := Some(d))
    case (Aud, DidValue(d)) => f.(audience := Some(d))
    case (Sub, DidValue(d)) => f.(subject := Some(d))
    case (Cmd, CommandValue(c)) => f.(command := Some(c))
    case (Args, MapValue(es)) => f.(arguments := Some(es))
    case (Prf, LinksValue(ls)) => f.(proofs := Some(ls))
    case (Cause, LinkValue(l)) => f.(cause := Some(l))
    case (Iat, TimeValue(t)) => f.(issuedAt := Some(t))
    case (Exp, TimeValue(t)) => f.(expiration := Some(t))
    case (Meta, MapValue(es)) => f.(meta := Some(es))
    case (Nonce, BytesValue(bs)) => f.(nonce := Some(bs))
    case _ => f
  }

  function OrElse<T>(o: Option<T>, default: T): T {
    if o.Some? then o.value else default
  }

  /** The payload made of the filled locals; an audience that repeats the subject is refused. */
  function Assemble(f: Fields): Result<InvocationPayload, WireError> {
    if f.issuer.None? then Err(MissingField(Iss))
    else if f.subject.None? then Err(MissingField(Sub))
    else if f.audience == f.subject then Err(AudienceEqualsSubject)
    else if f.command.None? then Err(MissingField(Cmd))
    else if f.arguments.None? then Err(MissingField(Args))
    else if f.proofs.None? then Err(MissingField(Prf))
    else if f.expiration.None? then Err(MissingField(Exp))
    else if f.nonce.None? then Err(MissingField(Nonce))
    else Ok(InvocationPayload(f.issuer.value, OrElse(f.audience, f.subject.value), f.subject.value, f.command.value,
                              f.arguments.value, f.proofs.value, f.cause, OrElse(f.issuedAt, None),
                              f.expiration.value, OrElse(f.meta, []), f.nonce.value))
  }

  function LinksAt(m: map<Key, Value>): Option<seq<Cid>> {
    if Prf in m && m[Prf].LinksValue? then Some(m[Prf].links) else None
  }

  function LinkAt(m: map<Key, Value>): Option<Cid> {
    if Cause in m && m[Cause].LinkValue? then Some(m[Cause].link) else None
  }

  /** The locals that a table of collected fields stands for. */
  function FieldsOf(m: map<Key, Value>): Fields {
    Fields(DidAt(m, Iss), DidAt(m, Aud), DidAt(m, Sub), CommandAt(m), MapAt(m, Args), LinksAt(m), LinkAt(m),
           TimeAt(m, Iat), TimeAt(m, Exp), MapAt(m, Meta), NonceAt(m))
  }

  function Decode(codec: TextCodec, i: Ipld): Result<InvocationPayload, WireError> {
    if !i.Map? then Err(ExpectedMap)
    else match Collect(i.entries, Reader(codec))
      case Err(e) => Err(e)
      case Ok(m) => Assemble(FieldsOf(m))
  }

  /** The type of value each field is read at. */
  predicate Fits(k: Key, w: Value) {
    match k
    case Iss => w.DidValue?
    case Aud => w.DidValue?
    case Sub => w.DidValue?
    case Cmd => w.CommandValue?
    case Args => w.MapValue?
    case Prf => w.LinksValue?
    case Cause => w.LinkValue?
    case Iat => w.TimeValue?
    case Exp => w.TimeValue?
    case Meta => w.MapValue?
    case Nonce => w.BytesValue?
    case _ => false
  }

  predicate WellTyped(m: map<Key, Value>) {
    forall k :: k in m ==> Fits(k, m[k])
  }

  lemma {:induction false} ReadFits(codec: TextCodec, k: Key, v: Ipld)
    ensures Read(codec, k, v).Ok? && Read(codec, k, v).value.Some? ==> Fits(k, Read(codec, k, v).value.value)
    ensures Read(codec, k, v).Ok? && Read(codec, k, v).value.None? ==> k.Pol? || k.Nbf? || k.Unknown?
  {
    hide ReadDid, ReadCommand, ReadTimestamp, KeyText;
  }

  lemma {:induction false} SeenIsPresent(m: map<Key, Value>, k: Key)
    requires WellTyped(m)
    ensures Seen(FieldsOf(m), k) <==> k in m
  {
    assert k in m ==> Fits(k, m[k]);
  }

  lemma {:induction false} FillPutsInTable(m: map<Key, Value>, k: Key, w: Value)
    requires WellTyped(m) && Fits(k, w)
    ensures WellTyped(m[k := w]) && FieldsOf(m[k := w]) == Fill(FieldsOf(m), k, w)
  {
  }

  /** `ipldToInvocationPayload`: one pass over the entries, filling locals. */
  method DecodeLoop(codec: TextCodec, i: Ipld) returns (r: Result<InvocationPayload, WireError>)
    ensures r == Decode(codec, i)
  {
    if !i.Map? { return Err(ExpectedMap); }
    hide KeyOf, WellTyped, FieldsOf, Fill, Seen, Read;
    var entries, fields := i.entries, NO_FIELDS;
    EmptyTable();
    ghost var m: map<Key, Value> := map[];
    assert entries[..0] == [];
    for j := 0 to |entries|
      invariant Collect(entries[..j], Reader(codec)) == Ok(m) && WellTyped(m) && fields == FieldsOf(m)
    {
      var k, v := KeyOf(entries[j].key), entries[j].value;
      CollectNext(entries, j, Reader(codec));
      SeenIsPresent(m, k);
      if Seen(fields, k) { return Err(DuplicateField(k)); }
      ReadFits(codec, k, v);
      var got := Read(codec, k, v);
      if got.Err? { return Err(got.error); }
      if got.value.Some? {
        FillPutsInTable(m, k, got.value.value);
        fields := Fill(fields, k, got.value.value);
        m := m[k := got.value.value];
      }
    }
    assert entries[..|entries|] == entries;
    return Assemble(fields);
  }

  lemma {:induction false} EmptyTable()
    ensures WellTyped(map[]) && FieldsOf(map[]) == NO_FIELDS
  {
  }

  // ----- The rows of an encoded payload -----

  lemma {:induction false} RowsAreProper(codec: TextCodec, p: InvocationPayload)
    ensures ProperRows(Rows(codec, p))
  {
    hide Commands.Print, TimestampToIpld, OptionalTime, LinksToIpld;
    var first := [Row(Iss, String(codec.printDid(p.issuer)))];
    var aud := if p.audience != p.subject then [Row(Aud, String(codec.printDid(p.audience)))] else [];
    var fixed := [Row(Sub, String(codec.printDid(p.subject))),
                  Row(Cmd, String(Commands.Print(p.command))),
                  Row(Args, Map(p.arguments)),
                  Row(Prf, List(LinksToIpld(p.proofs))),
                  Row(Exp, OptionalTime(p.expiration)),
                  Row(Nonce, Bytes(p.nonce))];
    var cause := if p.cause.Some? then [Row(Cause, Link(p.cause.value))] else [];
    var iat := if p.issuedAt.Some? then [Row(Iat, TimestampToIpld(p.issuedAt.value))] else [];
    var meta := if |p.meta| > 0 then [Row(Meta, Map(p.meta))] else [];
    assert Rows(codec, p) == first + aud + fixed + cause + iat + meta;
    hide Rows, ProperRows;
    FixedAreProper(fixed);
    PartsAreProper(first, aud, fixed, cause, iat, meta);
  }

  predicate AtMostOne(rows: seq<Row>, k: Key) { |rows| <= 1 && (rows != [] ==> rows[0].key == k) }

  lemma {:induction false} PartsAreProper(first: seq<Row>, aud: seq<Row>, fixed: seq<Row>, cause: seq<Row>,
                                          iat: seq<Row>, meta: seq<Row>)
    requires AtMostOne(first, Iss) && AtMostOne(aud, Aud) && ProperRows(fixed) && KeysIn(fixed, FIXED)
    requires AtMostOne(cause, Cause) && AtMostOne(iat, Iat) && AtMostOne(meta, Meta)
    ensures ProperRows(first + aud + fixed + cause + iat + meta)
  {
    hide ProperRows, KeysIn, AtMostOne;
    SingleIsProper(first, Iss);
    AddOne(first, {Iss}, aud, Aud);
    assert {Iss} + {Aud} !! FIXED;
    ProperConcat(first + aud, {Iss} + {Aud}, fixed, FIXED);
    var keys := {Iss} + {Aud} + FIXED;
    AddOne(first + aud + fixed, keys, cause, Cause);
    AddOne(first + aud + fixed + cause, keys + {Cause}, iat, Iat);
    AddOne(first + aud + fixed + cause + iat, keys + {Cause} + {Iat}, meta, Meta);
  }

  lemma {:induction false} AddOne(rows: seq<Row>, keys: set<Key>, more: seq<Row>, k: Key)
    requires ProperRows(rows) && KeysIn(rows, keys) && AtMostOne(more, k) && k !in keys && !k.Unknown?
    ensures ProperRows(rows + more) && KeysIn(rows + more, keys + {k})
  {
    SingleIsProper(more, k);
    hide ProperRows, KeysIn;
    ProperConcat(rows, keys, more, {k});
  }

  const FIXED: set<Key> := {Sub, Cmd, Args, Prf, Exp, Nonce}

  lemma {:induction false} SingleIsProper(rows: seq<Row>, k: Key)
    requires AtMostOne(rows, k) && !k.Unknown?
    ensures ProperRows(rows) && KeysIn(rows, {k})
  {
  }

  lemma {:induction false} FixedAreProper(rows: seq<Row>)
    requires |rows| == 6 && rows[0].key == Sub && rows[1].key == Cmd && rows[2].key == Args
    requires rows[3].key == Prf && rows[4].key == Exp && rows[5].key == Nonce
    ensures ProperRows(rows) && KeysIn(rows, FIXED)
  {
  }

  /** Which rows there are. */
  lemma {:induction false} RowForms(codec: TextCodec, p: InvocationPayload, i: nat)
    requires i < |Rows(codec, p)|
    ensures var row := Rows(codec, p)[i];
            || row == Row(Iss, String(codec.printDid(p.issuer)))
            || (p.audience != p.subject && row == Row(Aud, String(codec.printDid(p.audience))))
            || row == Row(Sub, String(codec.printDid(p.subject)))
            || row == Row(Cmd, String(Commands.Print(p.command)))
            || row == Row(Args, Map(p.arguments))
            || row == Row(Prf, List(LinksToIpld(p.proofs)))
            || row == Row(Exp, OptionalTime(p.expiration))
            || row == Row(Nonce, Bytes(p.nonce))
            || (p.cause.Some? && row == Row(Cause, Link(p.cause.value)))
            || (p.issuedAt.Some? && row == Row(Iat, TimestampToIpld(p.issuedAt.value)))
            || (|p.meta| > 0 && row == Row(Meta, Map(p.meta)))
  {
    hide Commands.Print, TimestampToIpld, OptionalTime;
  }

  predicate HasRow(codec: TextCodec, p: InvocationPayload, row: Row) {
    exists i :: 0 <= i < |Rows(codec, p)| && Rows(codec, p)[i] == row
  }

  /** ... and that each of them is there. */
  lemma {:induction false} RowsPresent(codec: TextCodec, p: InvocationPayload)
    ensures HasRow(codec, p, Row(Iss, String(codec.printDid(p.issuer))))
    ensures p.audience != p.subject ==> HasRow(codec, p, Row(Aud, String(codec.printDid(p.audience))))
    ensures HasRow(codec, p, Row(Sub, String(codec.printDid(p.subject))))
    ensures HasRow(codec, p, Row(Cmd, String(Commands.Print(p.command))))
    ensures HasRow(codec, p, Row(Args, Map(p.arguments)))
    ensures HasRow(codec, p, Row(Prf, List(LinksToIpld(p.proofs))))
    ensures HasRow(codec, p, Row(Exp, OptionalTime(p.expiration)))
    ensures HasRow(codec, p, Row(Nonce, Bytes(p.nonce)))
  {
    hide Commands.Print, TimestampToIpld, OptionalTime;
    var rows, a := Rows(codec, p), if p.audience != p.subject then 2 else 1;
    assert rows[0].key == Iss && (p.audience != p.subject ==> rows[1].key == Aud);
    assert rows[a].key == Sub && rows[a + 1].key == Cmd && rows[a + 2].key == Args;
    assert rows[a + 3].key == Prf && rows[a + 4].key == Exp && rows[a + 5].key == Nonce;
  }

  lemma {:induction false} OptionalRowsPresent(codec: TextCodec, p: InvocationPayload)
    ensures p.cause.Some? ==> HasRow(codec, p, Row(Cause, Link(p.cause.value)))
    ensures p.issuedAt.Some? ==> HasRow(codec, p, Row(Iat, TimestampToIpld(p.issuedAt.value)))
    ensures |p.meta| > 0 ==> HasRow(codec, p, Row(Meta, Map(p.meta)))
  {
    hide Commands.Print, TimestampToIpld, OptionalTime;
    var rows, a := Rows(codec, p), if p.audience != p.subject then 8 else 7;
    var b := if p.cause.Some? then a + 1 else a;
    if p.cause.Some? { assert rows[a].key == Cause; }
    if p.issuedAt.Some? { assert rows[b].key == Iat; }
    if |p.meta| > 0 { assert rows[|rows| - 1].key == Meta; }
  }

  /** The encoded form is a map: no key twice. */
  lemma {:induction false} EncodeIsAMap(codec: TextCodec, p: InvocationPayload)
    ensures UniqueKeys(Encode(codec, p).entries)
  {
    RowsAreProper(codec, p);
    RowsAreAMap(Rows(codec, p));
  }

  // ----- What is decoded, name by name -----

  predicate LinksIn(v: Option<Ipld>, links: seq<Cid>) {
    && v.Some? && v.value.List? && |v.value.items| == |links|
    && forall k :: 0 <= k < |links| ==> v.value.items[k] == Link(links[k])
  }

  lemma {:induction false} LinksExact(items: seq<Ipld>, links: seq<Cid>)
    ensures ReadLinks(items) == Some(links) <==> LinksIn(Some(List(items)), links)
    decreases items
  {
    if items != [] && links != [] {
      LinksExact(items[1..], links[1..]);
      assert links == [links[0]] + links[1..];
      assert forall k :: 0 < k < |items| ==> items[k] == items[1..][k - 1];
      assert forall k :: 0 < k < |links| ==> links[k] == links[1..][k - 1];
      assert forall k :: 0 <= k < |links| - 1 ==> links[1..][k] == links[k + 1];
    }
  }

  /** The entries spell out the payload: each field under its own name, and an audience only if it differs. */
  predicate Says(codec: TextCodec, entries: seq<Entry>, p: InvocationPayload) {
    && DidIn(codec, Get(entries, "iss"), p.issuer)
    && DidIn(codec, Get(entries, "sub"), p.subject)
    && (if Get(entries, "aud").None? then p.audience == p.subject
        else DidIn(codec, Get(entries, "aud"), p.audience) && p.audience != p.subject)
    && CommandIn(codec, Get(entries, "cmd"), p.command)
    && Get(entries, "args") == Some(Map(p.arguments))
    && LinksIn(Get(entries, "prf"), p.proofs)
    && Get(entries, "cause") == (if p.cause.Some? then Some(Link(p.cause.value)) else None)
    && OptionalTimeIn(Get(entries, "iat"), p.issuedAt)
    && NullableTimeIn(Get(entries, "exp"), p.expiration)
    && (if Get(entries, "meta").None? then p.meta == [] else Get(entries, "meta") == Some(Map(p.meta)))
    && Get(entries, "nonce") == Some(Bytes(p.nonce))
  }

  /** How each field reads. */
  lemma {:induction false} ReadExact(codec: TextCodec, v: Ipld, d: Did, c: Commands.Command, t: Timestamp)
    ensures forall k | k in {Iss, Aud, Sub} :: Read(codec, k, v) == Ok(Some(DidValue(d))) <==> DidIn(codec, Some(v), d)
    ensures Read(codec, Cmd, v) == Ok(Some(CommandValue(c))) <==> CommandIn(codec, Some(v), c)
    ensures forall k | k in {Exp, Iat} :: Read(codec, k, v) == Ok(Some(TimeValue(Some(t)))) <==> TimeIn(Some(v), t)
  {
    ReadersExact(codec, Iss, v, d, c, t);
    ReadersExact(codec, Aud, v, d, c, t);
    ReadersExact(codec, Sub, v, d, c, t);
    ReadersExact(codec, Exp, v, d, c, t);
    ReadersExact(codec, Iat, v, d, c, t);
    hide ReadDid, ReadCommand, ReadTimestamp, DidIn, CommandIn;
  }

  /** The fields whose values need no foreign code. */
  lemma {:induction false} ReadPlain(codec: TextCodec, v: Ipld, links: seq<Cid>)
    ensures forall k | k in {Args, Meta} ::
              Read(codec, k, v) == if v.Map? then Ok(Some(MapValue(v.entries))) else Err(BadField(k))
    ensures Read(codec, Cause, v) == if v.Link? then Ok(Some(LinkValue(v.cid))) else Err(BadField(Cause))
    ensures Read(codec, Nonce, v) == if v.Bytes? then Ok(Some(BytesValue(v.bytes))) else Err(BadField(Nonce))
    ensures Read(codec, Prf, v) == Ok(Some(LinksValue(links))) <==> LinksIn(Some(v), links)
    ensures Read(codec, Exp, v) == Ok(Some(TimeValue(None))) <==> v.Null?
    ensures Read(codec, Iat, v) != Ok(Some(TimeValue(None)))
  {
    if v.List? { LinksExact(v.items, links); }
    hide ReadLinks, ReadTimestamp;
  }

  /** The locals say what the entries say, field by field. */
  lemma {:induction false} PrincipalsSaid(codec: TextCodec, entries: seq<Entry>, m: map<Key, Value>, d: Did,
                                          c: Commands.Command)
    requires UniqueKeys(entries) && TableOf(m, entries, Reader(codec))
    ensures FieldsOf(m).issuer == Some(d) <==> DidIn(codec, Get(entries, "iss"), d)
    ensures FieldsOf(m).subject == Some(d) <==> DidIn(codec, Get(entries, "sub"), d)
    ensures FieldsOf(m).audience == Some(d) <==> DidIn(codec, Get(entries, "aud"), d)
    ensures FieldsOf(m).audience.None? <==> Get(entries, "aud").None?
    ensures FieldsOf(m).command == Some(c) <==> CommandIn(codec, Get(entries, "cmd"), c)
  {
    NamesSpelled();
    hide TableOf, KeyText, DidIn, CommandIn, Read, Lookup, Text.Ascii;
    FieldSaid(codec, entries, m, Iss, d, c, 0);
    FieldSaid(codec, entries, m, Sub, d, c, 0);
    FieldSaid(codec, entries, m, Aud, d, c, 0);
    FieldSaid(codec, entries, m, Cmd, d, c, 0);
  }

  lemma {:induction false} FieldSaid(codec: TextCodec, entries: seq<Entry>, m: map<Key, Value>, k: Key, d: Did,
                                     c: Commands.Command, t: Timestamp)
    requires UniqueKeys(entries) && TableOf(m, entries, Reader(codec))
    ensures k in {Iss, Aud, Sub} ==> (DidAt(m, k) == Some(d) <==> DidIn(codec, Lookup(entries, KeyText(k)), d))
    ensures k in {Iss, Aud, Sub} ==> (DidAt(m, k).None? <==> Lookup(entries, KeyText(k)).None?)
    ensures k == Cmd ==> (CommandAt(m) == Some(c) <==> CommandIn(codec, Lookup(entries, KeyText(k)), c))
    ensures k in {Exp, Iat} ==> (TimeAt(m, k) == Some(Some(t)) <==> TimeIn(Lookup(entries, KeyText(k)), t))
    ensures k in {Exp, Iat} ==> (TimeAt(m, k).None? <==> Lookup(entries, KeyText(k)).None?)
    ensures k == Exp ==> (TimeAt(m, k) == Some(None) <==> Lookup(entries, KeyText(k)) == Some(Null))
    ensures k == Iat ==> TimeAt(m, k) != Some(None)
  {
    if k in {Iss, Aud, Sub, Cmd, Exp, Iat} {
      TableField(m, entries, Reader(codec), k);
      var v := Lookup(entries, KeyText(k));
      if v.Some? {
        ReadExact(codec, v.value, d, c, t);
        ReadPlain(codec, v.value, []);
        ReadFits(codec, k, v.value);
      }
    }
    hide TableOf, KeyText, Read, Lookup, TimeIn, LinksIn, DidIn, CommandIn;
    var v := Lookup(entries, KeyText(k));
    AbsentSaysNothing(codec, d, c, t);
  }

  lemma {:induction false} AbsentSaysNothing(codec: TextCodec, d: Did, c: Commands.Command, t: Timestamp)
    ensures !DidIn(codec, None, d) && !CommandIn(codec, None, c) && !TimeIn(None, t)
  {
  }

  lemma {:induction false} TimesSaid(codec: TextCodec, entries: seq<Entry>, m: map<Key, Value>, t: Option<Timestamp>)
    requires UniqueKeys(entries) && TableOf(m, entries, Reader(codec))
    ensures FieldsOf(m).expiration == Some(t) <==> NullableTimeIn(Get(entries, "exp"), t)
    ensures OrElse(FieldsOf(m).issuedAt, None) == t <==> OptionalTimeIn(Get(entries, "iat"), t)
  {
    NamesSpelled();
    hide TableOf, KeyText, TimeIn, Read, Lookup, Text.Ascii;
    var now := if t.Some? then t.value else 0;
    FieldSaid(codec, entries, m, Exp, Did([]), Commands.Command([]), now);
    FieldSaid(codec, entries, m, Iat, Did([]), Commands.Command([]), now);
  }

  lemma {:induction false} ValueSaid(codec: TextCodec, entries: seq<Entry>, m: map<Key, Value>, k: Key, es: seq<Entry>,
                                     links: seq<Cid>)
    requires UniqueKeys(entries) && TableOf(m, entries, Reader(codec))
    ensures var v := Lookup(entries, KeyText(k));
            && (k in {Args, Meta} ==> (MapAt(m, k) == Some(es) <==> v == Some(Map(es))))
            && (k == Meta ==> (MapAt(m, k).None? <==> v.None?))
            && (k == Cause ==> LinkAt(m) == match v case Some(Link(cid)) => Some(cid) case _ => None)
            && (k == Cause ==> (LinkAt(m).None? <==> v.None?))
            && (k == Prf ==> (LinksAt(m) == Some(links) <==> LinksIn(v, links)))
            && (k == Nonce ==> NonceAt(m) == match v case Some(Bytes(bs)) => Some(bs) case _ => None)
  {
    if k in {Args, Meta, Cause, Prf, Nonce} {
      TableField(m, entries, Reader(codec), k);
      var v := Lookup(entries, KeyText(k));
      if v.Some? {
        ReadPlain(codec, v.value, links);
        ReadFits(codec, k, v.value);
      }
    }
    hide TableOf, KeyText, Read, Lookup;
  }

  lemma {:induction false} ContentsSaid(codec: TextCodec, entries: seq<Entry>, m: map<Key, Value>, p: InvocationPayload)
    requires UniqueKeys(entries) && TableOf(m, entries, Reader(codec))
    ensures FieldsOf(m).arguments == Some(p.arguments) <==> Get(entries, "args") == Some(Map(p.arguments))
    ensures FieldsOf(m).proofs == Some(p.proofs) <==> LinksIn(Get(entries, "prf"), p.proofs)
    ensures FieldsOf(m).cause == p.cause
            <==> Get(entries, "cause") == if p.cause.Some? then Some(Link(p.cause.value)) else None
    ensures OrElse(FieldsOf(m).meta, []) == p.meta
            <==> if Get(entries, "meta").None? then p.meta == [] else Get(entries, "meta") == Some(Map(p.meta))
    ensures FieldsOf(m).nonce == Some(p.nonce) <==> Get(entries, "nonce") == Some(Bytes(p.nonce))
  {
    NamesSpelled();
    hide TableOf, KeyText, Read, Lookup, Text.Ascii, LinksIn, MapAt, LinkAt, LinksAt, NonceAt;
    ValueSaid(codec, entries, m, Args, p.arguments, p.proofs);
    ValueSaid(codec, entries, m, Prf, p.arguments, p.proofs);
    ValueSaid(codec, entries, m, Cause, p.arguments, p.proofs);
    ValueSaid(codec, entries, m, Meta, p.meta, p.proofs);
    ValueSaid(codec, entries, m, Nonce, p.arguments, p.proofs);
  }

  /** Everything the payload says is readable, whatever other names there are. */
  lemma {:induction false} SaidIsRead(codec: TextCodec, entries: seq<Entry>, p: InvocationPayload)
    requires UniqueKeys(entries) && Says(codec, entries, p)
    ensures AllRead(entries, Reader(codec))
  {
    NamesSpelled();
    hide KeyText, KeyOf, Text.Ascii;
    forall i | 0 <= i < |entries| ensures Reader(codec)(KeyOf(entries[i].key), entries[i].value).Ok? {
      var k, v := KeyOf(entries[i].key), entries[i].value;
      LookupAt(entries, i);
      assert Lookup(entries, KeyText(k)) == Some(v);
      SaidFieldIsRead(codec, entries, p, k, v);
    }
  }

  lemma {:induction false} SaidFieldIsRead(codec: TextCodec, entries: seq<Entry>, p: InvocationPayload, k: Key, v: Ipld)
    requires Says(codec, entries, p) && Lookup(entries, KeyText(k)) == Some(v)
    ensures Read(codec, k, v).Ok?
  {
    NamesSpelled();
    hide KeyText, Text.Ascii, Lookup;
    var c, at := p.command, if k.Exp? then p.expiration else p.issuedAt;
    var d := if k.Iss? then p.issuer else if k.Aud? then p.audience else p.subject;
    ReadExact(codec, v, d, c, if at.Some? then at.value else 0);
    ReadPlain(codec, v, p.proofs);
    hide DidIn, CommandIn, TimeIn, LinksIn;
    match k
    case Unknown(_) => assert Read(codec, k, v) == Ok(None);
    case Pol => assert Read(codec, k, v) == Ok(None);
    case Nbf => assert Read(codec, k, v) == Ok(None);
    case _ => hide Read;
  }

  /**
   * The decoder accepts exactly the maps that say a payload, each field under its own name and in any order, with any
   * other names beside them; and what it returns is that payload.
   */
  lemma {:induction false} DecodesExactly(codec: TextCodec, entries: seq<Entry>, p: InvocationPayload)
    requires UniqueKeys(entries)
    ensures Decode(codec, Map(entries)) == Ok(p) <==> Says(codec, entries, p)
  {
    hide Collect, AllRead, TableOf, FieldsOf, Says, Read, Lookup;
    CollectExact(entries, Reader(codec), 0);
    if Says(codec, entries, p) { SaidIsRead(codec, entries, p); }
    if Collect(entries, Reader(codec)).Ok? { AssemblesSaid(codec, entries, Collect(entries, Reader(codec)).value, p); }
  }

  lemma {:induction false} AssemblesSaid(codec: TextCodec, entries: seq<Entry>, m: map<Key, Value>,
                                         p: InvocationPayload)
    requires UniqueKeys(entries) && TableOf(m, entries, Reader(codec))
    ensures Assemble(FieldsOf(m)) == Ok(p) <==> Says(codec, entries, p)
  {
    hide TableOf, FieldsOf, DidIn, CommandIn, NullableTimeIn, OptionalTimeIn, LinksIn, Get;
    PrincipalsSaid(codec, entries, m, p.issuer, p.command);
    PrincipalsSaid(codec, entries, m, p.subject, p.command);
    PrincipalsSaid(codec, entries, m, p.audience, p.command);
    TimesSaid(codec, entries, m, p.expiration);
    TimesSaid(codec, entries, m, p.issuedAt);
    ContentsSaid(codec, entries, m, p);
  }

  /** A map whose fields can all be read is refused for the first of these reasons, and for no other. */
  lemma {:induction false} RefusedFor(codec: TextCodec, entries: seq<Entry>, d: Did)
    requires UniqueKeys(entries) && AllRead(entries, Reader(codec))
    ensures Get(entries, "iss").None? ==> Decode(codec, Map(entries)) == Err(MissingField(Iss))
    ensures var r := Decode(codec, Map(entries));
            Get(entries, "iss").Some? ==>
              if Get(entries, "sub").None? then r == Err(MissingField(Sub))
              else if DidIn(codec, Get(entries, "sub"), d) && DidIn(codec, Get(entries, "aud"), d) then
                r == Err(AudienceEqualsSubject)
              else if DidIn(codec, Get(entries, "sub"), d) then
                if Get(entries, "cmd").None? then r == Err(MissingField(Cmd))
                else if Get(entries, "args").None? then r == Err(MissingField(Args))
                else if Get(entries, "prf").None? then r == Err(MissingField(Prf))
                else if Get(entries, "exp").None? then r == Err(MissingField(Exp))
                else if Get(entries, "nonce").None? then r == Err(MissingField(Nonce))
                else r.Ok?
              else true
    ensures Get(entries, "sub").Some? ==> exists d :: DidIn(codec, Get(entries, "sub"), d)
  {
    CollectExact(entries, Reader(codec), 0);
    var m := Collect(entries, Reader(codec)).value;
    PrincipalsSaid(codec, entries, m, d, Commands.Command([]));
    RequiredSaid(codec, entries, m);
    hide Collect, AllRead, TableOf, FieldsOf, Read, DidIn, Get;
  }

  lemma {:induction false} RequiredSaid(codec: TextCodec, entries: seq<Entry>, m: map<Key, Value>)
    requires UniqueKeys(entries) && TableOf(m, entries, Reader(codec))
    ensures FieldsOf(m).issuer.None? <==> Get(entries, "iss").None?
    ensures FieldsOf(m).subject.None? <==> Get(entries, "sub").None?
    ensures Get(entries, "sub").Some? ==> exists d :: DidIn(codec, Get(entries, "sub"), d)
    ensures FieldsOf(m).command.None? <==> Get(entries, "cmd").None?
    ensures FieldsOf(m).arguments.None? <==> Get(entries, "args").None?
    ensures FieldsOf(m).proofs.None? <==> Get(entries, "prf").None?
    ensures FieldsOf(m).expiration.None? <==> Get(entries, "exp").None?
    ensures FieldsOf(m).nonce.None? <==> Get(entries, "nonce").None?
  {
    hide TableOf, KeyText, Lookup, Read, DidIn, Get, DidAt, CommandAt, MapAt, LinksAt, TimeAt, NonceAt;
    GetField(entries);
    Required(codec, entries, m, Iss);
    Required(codec, entries, m, Sub);
    Required(codec, entries, m, Cmd);
    Required(codec, entries, m, Args);
    Required(codec, entries, m, Prf);
    Required(codec, entries, m, Exp);
    Required(codec, entries, m, Nonce);
    var sub := FieldsOf(m).subject;
    if sub.Some? { PrincipalsSaid(codec, entries, m, sub.value, Commands.Command([])); }
  }

  lemma {:induction false} Required(codec: TextCodec, entries: seq<Entry>, m: map<Key, Value>, k: Key)
    requires UniqueKeys(entries) && TableOf(m, entries, Reader(codec))
    requires k in {Iss, Sub, Cmd, Args, Prf, Exp, Nonce}
    ensures var absent := Lookup(entries, KeyText(k)).None?;
            && (k in {Iss, Sub} ==> (DidAt(m, k).None? <==> absent))
            && (k == Cmd ==> (CommandAt(m).None? <==> absent)) && (k == Args ==> (MapAt(m, k).None? <==> absent))
            && (k == Prf ==> (LinksAt(m).None? <==> absent)) && (k == Exp ==> (TimeAt(m, k).None? <==> absent))
            && (k == Nonce ==> (NonceAt(m).None? <==> absent))
  {
    TableField(m, entries, Reader(codec), k);
    var v := Lookup(entries, KeyText(k));
    if v.Some? { ReadFits(codec, k, v.value); }
    hide TableOf, KeyText, Lookup, Read;
  }

  /** The error of a field that cannot be read names that field, or says what is wrong with the command. */
  lemma {:induction false} UnreadableNamed(codec: TextCodec, k: Key, v: Ipld)
    requires Read(codec, k, v).Err?
    ensures Read(codec, k, v).error
            == if k == Cmd && v.String? then BadCommand(Commands.Parse(v.s, codec.lower).error) else BadField(k)
  {
    hide Commands.Parse;
  }

  const NAMES: set<Key> := {Iss, Aud, Sub, Cmd, Args, Prf, Cause, Iat, Exp, Meta, Nonce}

  /** What the encoder writes under each name, ... */
  lemma {:induction false} EncodesExactly(codec: TextCodec, p: InvocationPayload)
    ensures var es := Encode(codec, p).entries;
            && Get(es, "iss") == Some(String(codec.printDid(p.issuer)))
            && Get(es, "aud") == (if p.audience != p.subject then Some(String(codec.printDid(p.audience))) else None)
            && Get(es, "sub") == Some(String(codec.printDid(p.subject)))
            && Get(es, "cmd") == Some(String(Commands.Print(p.command)))
            && Get(es, "args") == Some(Map(p.arguments)) && LinksIn(Get(es, "prf"), p.proofs)
            && Get(es, "cause") == (if p.cause.Some? then Some(Link(p.cause.value)) else None)
            && TimeWritten(Get(es, "iat"), p.issuedAt, None) && TimeWritten(Get(es, "exp"), p.expiration, Some(Null))
            && Get(es, "meta") == (if p.meta != [] then Some(Map(p.meta)) else None)
            && Get(es, "nonce") == Some(Bytes(p.nonce))
  {
    EncodesTerms(codec, p);
    EncodesContents(codec, p);
    hide Get, Encode, LinksIn, TimeWritten, Commands.Print;
  }

  lemma {:induction false} EncodesTerms(codec: TextCodec, p: InvocationPayload)
    ensures var es := Encode(codec, p).entries;
            && Get(es, "iss") == Some(String(codec.printDid(p.issuer)))
            && Get(es, "aud") == (if p.audience != p.subject then Some(String(codec.printDid(p.audience))) else None)
            && Get(es, "sub") == Some(String(codec.printDid(p.subject)))
            && Get(es, "cmd") == Some(String(Commands.Print(p.command)))
            && Get(es, "args") == Some(Map(p.arguments))
            && Get(es, "cause") == (if p.cause.Some? then Some(Link(p.cause.value)) else None)
  {
    TermsWritten(codec, p);
    GetField(Encode(codec, p).entries);
    hide KeyText, Lookup, Encode, Commands.Print, Get, Written;
    WrittenUnder(codec, p, Iss);
    WrittenUnder(codec, p, Aud);
    WrittenUnder(codec, p, Sub);
    WrittenUnder(codec, p, Cmd);
    WrittenUnder(codec, p, Args);
    WrittenUnder(codec, p, Cause);
  }

  lemma {:induction false} TermsWritten(codec: TextCodec, p: InvocationPayload)
    ensures Written(codec, p, Iss) == Some(String(codec.printDid(p.issuer)))
    ensures Written(codec, p, Aud)
            == if p.audience != p.subject then Some(String(codec.printDid(p.audience))) else None
    ensures Written(codec, p, Sub) == Some(String(codec.printDid(p.subject)))
    ensures Written(codec, p, Cmd) == Some(String(Commands.Print(p.command)))
    ensures Written(codec, p, Args) == Some(Map(p.arguments))
    ensures Written(codec, p, Cause) == if p.cause.Some? then Some(Link(p.cause.value)) else None
  {
    hide LinksToIpld, TimestampToIpld, OptionalTime, Commands.Print;
  }

  lemma {:induction false} EncodesContents(codec: TextCodec, p: InvocationPayload)
    ensures var es := Encode(codec, p).entries;
            && LinksIn(Get(es, "prf"), p.proofs)
            && TimeWritten(Get(es, "iat"), p.issuedAt, None) && TimeWritten(Get(es, "exp"), p.expiration, Some(Null))
            && Get(es, "meta") == (if p.meta != [] then Some(Map(p.meta)) else None)
            && Get(es, "nonce") == Some(Bytes(p.nonce))
  {
    TimesAndProofsWritten(codec, p);
    GetField(Encode(codec, p).entries);
    ContentsWritten(codec, p);
    hide KeyText, Lookup, Encode, LinksIn, Written, TimeWritten, Get;
    WrittenUnder(codec, p, Prf);
    WrittenUnder(codec, p, Iat);
    WrittenUnder(codec, p, Exp);
    WrittenUnder(codec, p, Meta);
    WrittenUnder(codec, p, Nonce);
  }

  lemma {:induction false} ContentsWritten(codec: TextCodec, p: InvocationPayload)
    ensures Written(codec, p, Meta) == if p.meta != [] then Some(Map(p.meta)) else None
    ensures Written(codec, p, Nonce) == Some(Bytes(p.nonce))
  {
    hide LinksToIpld, TimestampToIpld, OptionalTime, Commands.Print;
  }

  /** ... and that it writes no other. */
  lemma {:induction false} EncodesNoOther(codec: TextCodec, p: InvocationPayload, i: nat)
    requires i < |Encode(codec, p).entries|
    ensures exists k :: k in NAMES && Encode(codec, p).entries[i].key == KeyText(k)
  {
    hide Rows, KeyText, Written;
    RowNamed(codec, p, i);
  }

  lemma {:induction false} TimesAndProofsWritten(codec: TextCodec, p: InvocationPayload)
    ensures TimeWritten(Written(codec, p, Iat), p.issuedAt, None)
    ensures TimeWritten(Written(codec, p, Exp), p.expiration, Some(Null))
    ensures LinksIn(Written(codec, p, Prf), p.proofs)
  {
    LinksReadBack(p.proofs);
    LinksExact(LinksToIpld(p.proofs), p.proofs);
    hide LinksToIpld, ReadLinks;
  }

  /** The value of each field, if it is written. */
  function Written(codec: TextCodec, p: InvocationPayload, k: Key): Option<Ipld> {
    match k
    case Iss => Some(String(codec.printDid(p.issuer)))
    case Aud => if p.audience != p.subject then Some(String(codec.printDid(p.audience))) else None
    case Sub => Some(String(codec.printDid(p.subject)))
    case Cmd => Some(String(Commands.Print(p.command)))
    case Args => Some(Map(p.arguments))
    case Prf => Some(List(LinksToIpld(p.proofs)))
    case Cause => if p.cause.Some? then Some(Link(p.cause.value)) else None
    case Iat => if p.issuedAt.Some? then Some(TimestampToIpld(p.issuedAt.value)) else None
    case Exp => Some(OptionalTime(p.expiration))
    case Meta => if |p.meta| > 0 then Some(Map(p.meta)) else None
    case Nonce => Some(Bytes(p.nonce))
    case _ => None
  }

  lemma {:induction false} WrittenUnder(codec: TextCodec, p: InvocationPayload, k: Key)
    requires !k.Unknown?
    ensures Lookup(Encode(codec, p).entries, KeyText(k)) == Written(codec, p, k)
  {
    RowsPresent(codec, p);
    OptionalRowsPresent(codec, p);
    hide Rows, HasRow, KeyText, Lookup, Encode, LinksToIpld, Commands.Print, TimestampToIpld, OptionalTime;
    var w := Written(codec, p, k);
    if w.Some? { RowWritten(codec, p, Row(k, w.value)); } else { NotWritten(codec, p, k); }
  }

  lemma {:induction false} RowNamed(codec: TextCodec, p: InvocationPayload, i: nat)
    requires i < |Rows(codec, p)|
    ensures Rows(codec, p)[i].key in NAMES && Written(codec, p, Rows(codec, p)[i].key).Some?
    ensures Encode(codec, p).entries[i].key == KeyText(Rows(codec, p)[i].key)
  {
    RowForms(codec, p, i);
    hide Rows, KeyText, LinksToIpld, Commands.Print, TimestampToIpld, OptionalTime;
  }

  lemma {:induction false} RowWritten(codec: TextCodec, p: InvocationPayload, row: Row)
    requires HasRow(codec, p, row)
    ensures Lookup(Encode(codec, p).entries, KeyText(row.key)) == Some(row.value)
  {
    RowsAreProper(codec, p);
    RowsAreAMap(Rows(codec, p));
    hide Rows, KeyText, ProperRows;
    var i :| 0 <= i < |Rows(codec, p)| && Rows(codec, p)[i] == row;
    LookupAt(Encode(codec, p).entries, i);
  }

  lemma {:induction false} NotWritten(codec: TextCodec, p: InvocationPayload, k: Key)
    requires !k.Unknown? && Written(codec, p, k).None?
    ensures Lookup(Encode(codec, p).entries, KeyText(k)).None?
  {
    var es := Encode(codec, p).entries;
    RowsAreProper(codec, p);
    RowsAreAMap(Rows(codec, p));
    KeyOfText(k);
    hide Rows, KeyText, KeyOf, Written, ProperRows;
    if Lookup(es, KeyText(k)).Some? {
      var i :| 0 <= i < |es| && es[i] == Entry(KeyText(k), Lookup(es, KeyText(k)).value);
      RowNamed(codec, p, i);
    }
  }

  // ----- Decoding inverts encoding, in every visiting order -----

  /** What the wire form can carry: principals and commands that read back, timestamps up to 2^53-1. */
  predicate Carriable(codec: TextCodec, p: InvocationPayload) {
    && DidReadsBack(codec, p.issuer) && DidReadsBack(codec, p.audience) && DidReadsBack(codec, p.subject)
    && Commands.WellFormed(p.command)
    && (p.command.segments != [] ==> codec.lower(Commands.Print(p.command)) == Commands.Print(p.command))
    && TimeFits(p.expiration) && TimeFits(p.issuedAt)
  }

  /** Each part of what is written says the payload's own part exactly when that can be carried. */
  lemma {:induction false} WrittenTerms(codec: TextCodec, p: InvocationPayload)
    ensures var es := Encode(codec, p).entries;
            && (DidIn(codec, Get(es, "iss"), p.issuer) <==> DidReadsBack(codec, p.issuer))
            && (DidIn(codec, Get(es, "sub"), p.subject) <==> DidReadsBack(codec, p.subject))
            && (Get(es, "aud").None? <==> p.audience == p.subject)
            && (p.audience != p.subject ==>
                  (DidIn(codec, Get(es, "aud"), p.audience) <==> DidReadsBack(codec, p.audience)))
            && (CommandIn(codec, Get(es, "cmd"), p.command)
                <==> Commands.WellFormed(p.command)
                     && (p.command.segments != [] ==>
                           codec.lower(Commands.Print(p.command)) == Commands.Print(p.command)))
  {
    EncodesTerms(codec, p);
    Commands.PrintParse(p.command, codec.lower);
    hide Encode, Get, Commands.Print, Commands.Parse, Commands.WellFormed;
  }

  lemma {:induction false} SaysWritten(codec: TextCodec, p: InvocationPayload)
    ensures Says(codec, Encode(codec, p).entries, p) <==> Carriable(codec, p)
  {
    hide Encode, Get, DidReadsBack, DidIn, CommandIn, LinksIn, NullableTimeIn, OptionalTimeIn, TimeWritten, TimeFits,
         Commands.WellFormed, Commands.Print;
    var es := Encode(codec, p).entries;
    WrittenTerms(codec, p);
    EncodesTerms(codec, p);
    EncodesContents(codec, p);
    WrittenTimes(Get(es, "exp"), p.expiration);
    WrittenTimes(Get(es, "iat"), p.issuedAt);
  }

  /** What the entries say does not depend on their order. */
  lemma {:induction false} SaysInAnyOrder(codec: TextCodec, a: seq<Entry>, b: seq<Entry>, p: InvocationPayload)
    requires SameMap(a, b)
    ensures Says(codec, a, p) <==> Says(codec, b, p)
  {
    hide Get, SameMap, DidIn, CommandIn, LinksIn, NullableTimeIn, OptionalTimeIn;
    SameGets(a, b, "iss");
    SameGets(a, b, "sub");
    SameGets(a, b, "aud");
    SameGets(a, b, "cmd");
    SameGets(a, b, "args");
    SameGets(a, b, "prf");
    SameGets(a, b, "cause");
    SameGets(a, b, "iat");
    SameGets(a, b, "exp");
    SameGets(a, b, "meta");
    SameGets(a, b, "nonce");
  }

  /**
   * Decoding the wire map of an invocation, in whatever order its entries are visited, gives the payload back
   * exactly when the payload is carriable; an omitted audience comes back as the subject.
   */
  lemma {:induction false} InvocationRoundTrip(codec: TextCodec, p: InvocationPayload, entries: seq<Entry>)
    requires SameMap(entries, Encode(codec, p).entries)
    ensures Decode(codec, Map(entries)) == Ok(p) <==> Carriable(codec, p)
  {
    hide Decode, Encode, Says, Carriable;
    DecodesExactly(codec, entries, p);
    SaysInAnyOrder(codec, entries, Encode(codec, p).entries, p);
    SaysWritten(codec, p);
  }

  /** A timestamp past 2^53-1 makes the decoder refuse the payload, in whatever order the entries are visited. */
  lemma {:induction false} LateTimestampRefused(codec: TextCodec, p: InvocationPayload, entries: seq<Entry>)
    requires SameMap(entries, Encode(codec, p).entries) && !(TimeFits(p.expiration) && TimeFits(p.issuedAt))
    ensures Decode(codec, Map(entries)).Err?
  {
    hide Decode, Encode, Says;
    var r, es := Decode(codec, Map(entries)), Encode(codec, p).entries;
    if r.Ok? {
      DecodesExactly(codec, entries, r.value);
      SaysInAnyOrder(codec, entries, es, r.value);
      TimesSay(codec, es, r.value);
      EncodesContents(codec, p);
      WrittenTimes(Get(es, "exp"), p.expiration);
      WrittenTimes(Get(es, "iat"), p.issuedAt);
    }
    hide Get, NullableTimeIn, OptionalTimeIn, TimeWritten, LinksIn, TimeFits;
  }

  lemma {:induction false} TimesSay(codec: TextCodec, entries: seq<Entry>, p: InvocationPayload)
    requires Says(codec, entries, p)
    ensures NullableTimeIn(Get(entries, "exp"), p.expiration) && OptionalTimeIn(Get(entries, "iat"), p.issuedAt)
  {
    hide Get, DidIn, CommandIn, LinksIn, NullableTimeIn, OptionalTimeIn;
  }
}
