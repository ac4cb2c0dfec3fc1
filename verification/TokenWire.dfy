/** Invocation envelopes as bytes: `encode` and `decode` around DAG-CBOR (envelope/index.ts, invocation/index.ts). */
module TokenWire {
  import opened Text
  import opened Wrappers
  import opened IpldModel
  import opened PayloadWire
  import opened Envelopes
  import opened Revocations
  import Commands
  import InvocationWire

  /** Foreign code: DAG-CBOR in both directions, and varsig headers. */
  datatype Codec = Codec(
    text: TextCodec,
    toBytes: Ipld -> Encoded,
    fromBytes: Encoded -> Option<Ipld>,
    readHeader: seq<Byte> -> Option<seq<Byte>>,        // `Varsig.decode`, then encoded again
    signatureFits: (seq<Byte>, seq<Byte>) -> bool,     // `tryDecodeSignature` of the header's verifier
    selectsDagCbor: seq<Byte> -> bool
  )

  const H: Str := [0x68]                               // "h"
  const TAG: Str := [0x75, 0x63, 0x61, 0x6E, 0x2F, 0x69, 0x6E, 0x76, 0x40, 0x31, 0x2E, 0x30, 0x2E, 0x30]
                                                       // "ucan/inv@1.0.0"

  // ----- Envelopes -----

  function EnvelopeToIpld(codec: Codec, v: Invocation): Ipld {
    List([Bytes(v.seal.signature),
          Map([Entry(H, Bytes(v.seal.header)), Entry(TAG, InvocationWire.Encode(codec.text, v.payload))])])
  }

  /** The two fields of the signed part, from the first entry on, given those already seen. */
  function Fields(entries: seq<Entry>, header: Option<seq<Byte>>, payload: Option<Ipld>): Option<(seq<Byte>, Ipld)> {
    if entries == [] then
      if header.Some? && payload.Some? then Some((header.value, payload.value)) else None
    else
      var (key, value) := (entries[0].key, entries[0].value);
      if key == H then
        if header.Some? || !value.Bytes? then None else Fields(entries[1..], Some(value.bytes), payload)
      else if key != TAG || payload.Some? then None
      else Fields(entries[1..], header, Some(value))
  }

  method FieldsLoop(entries: seq<Entry>) returns (r: Option<(seq<Byte>, Ipld)>)
    ensures r == Fields(entries, None, None)
  {
    var header: Option<seq<Byte>>, payload: Option<Ipld> := None, None;
    assert entries[0..] == entries;
    for i := 0 to |entries|
      invariant Fields(entries, None, None) == Fields(entries[i..], header, payload)
    {
      assert entries[i..][1..] == entries[i + 1..];
      var key, value := entries[i].key, entries[i].value;
      if key == H {
        if header.Some? || !value.Bytes? { return None; }
        header := Some(value.bytes);
        continue;
      }
      if key != TAG || payload.Some? { return None; }
      payload := Some(value);
    }
    return if header.Some? && payload.Some? then Some((header.value, payload.value)) else None;
  }

  predicate AreNamedFields(entries: seq<Entry>, header: seq<Byte>, payload: Ipld) {
    || entries == [Entry(Ascii("h"), Bytes(header)), Entry(Ascii("ucan/inv@1.0.0"), payload)]
    || entries == [Entry(Ascii("ucan/inv@1.0.0"), payload), Entry(Ascii("h"), Bytes(header))]
  }

  /** Accepted are exactly the two orders of a header and a payload, each once, and nothing beside them. */
  lemma {:induction false} FieldsExact(entries: seq<Entry>, header: seq<Byte>, payload: Ipld)
    ensures Fields(entries, None, None) == Some((header, payload)) <==> AreNamedFields(entries, header, payload)
  {
    assert H == Ascii("h") && TAG == Ascii("ucan/inv@1.0.0");
    assert H != TAG by { assert |H| != |TAG|; }
    hide Fields, Ascii;
    FieldsRead(entries, header, payload);
  }

  lemma {:induction false} FieldsRead(entries: seq<Entry>, header: seq<Byte>, payload: Ipld)
    requires H != TAG
    ensures Fields(entries, None, None) == Some((header, payload))
            <==> || entries == [Entry(H, Bytes(header)), Entry(TAG, payload)]
                 || entries == [Entry(TAG, payload), Entry(H, Bytes(header))]
  {
    if entries != [] {
      var rest := entries[1..];
      OneSeen(rest);
      assert |rest| == 1 ==> entries == [entries[0], rest[0]];
    }
  }

  /** Once one is seen, exactly the other must follow. */
  lemma {:induction false} OneSeen(entries: seq<Entry>)
    requires H != TAG
    ensures forall h :: Fields(entries, Some(h), None)
                        == if |entries| == 1 && entries[0].key == TAG then Some((h, entries[0].value)) else None
    ensures forall p :: Fields(entries, None, Some(p))
                        == if |entries| == 1 && entries[0].key == H && entries[0].value.Bytes?
                           then Some((entries[0].value.bytes, p)) else None
  {
    if entries != [] { BothSeen(entries[1..]); }
  }

  /** Once both are seen, nothing may follow; before that, something must. */
  lemma {:induction false} BothSeen(entries: seq<Entry>)
    ensures forall h, p :: Fields(entries, Some(h), Some(p)) == if entries == [] then Some((h, p)) else None
  {
  }

  /** `envelopeFromIpld`, with `None` for anything thrown. */
  function EnvelopeFromIpld(codec: Codec, i: Ipld): Option<Invocation> {
    if !i.List? || |i.items| != 2 || !i.items[0].Bytes? || !i.items[1].Map? then None
    else match Fields(i.items[1].entries, None, None)
      case None => None
      case Some((headerBytes, payload)) =>
        match codec.readHeader(headerBytes)
        case None => None
        case Some(header) =>
          if !codec.signatureFits(header, i.items[0].bytes) then None
          else match InvocationWire.Decode(codec.text, payload)
            case Err(_) => None
            case Ok(p) => Some(Invocation(p, Seal(i.items[0].bytes, header)))
  }

  /** Which values are envelopes, and of what: two items, the signature and the two named fields in either order. */
  lemma {:induction false} EnvelopeExact(codec: Codec, i: Ipld, v: Invocation)
    ensures EnvelopeFromIpld(codec, i) == Some(v)
            <==> exists raw, payload :: IsEnvelope(i, v.seal.signature, raw, payload) && Opens(codec, raw, payload, v)
  {
    hide InvocationWire.Decode, Fields, AreNamedFields;
    if i.List? && |i.items| == 2 && i.items[0].Bytes? && i.items[1].Map? {
      var fields := Fields(i.items[1].entries, None, None);
      if fields.Some? { FieldsExact(i.items[1].entries, fields.value.0, fields.value.1); }
      if EnvelopeFromIpld(codec, i) == Some(v) {
        assert IsEnvelope(i, v.seal.signature, fields.value.0, fields.value.1);
        assert Opens(codec, fields.value.0, fields.value.1, v);
      }
    }
    forall raw, payload | IsEnvelope(i, v.seal.signature, raw, payload) && Opens(codec, raw, payload, v)
      ensures EnvelopeFromIpld(codec, i) == Some(v)
    {
      FieldsExact(i.items[1].entries, raw, payload);
    }
  }

  predicate IsEnvelope(i: Ipld, signature: seq<Byte>, header: seq<Byte>, payload: Ipld) {
    && i.List? && |i.items| == 2 && i.items[0] == Bytes(signature)
    && i.items[1].Map? && AreNamedFields(i.items[1].entries, header, payload)
  }

  /** The header is a varsig whose kind the signature fits, and the payload decodes. */
  predicate Opens(codec: Codec, header: seq<Byte>, payload: Ipld, v: Invocation) {
    && codec.readHeader(header) == Some(v.seal.header) && codec.signatureFits(v.seal.header, v.seal.signature)
    && InvocationWire.Decode(codec.text, payload) == Ok(v.payload)
  }

  /** What is written is such an envelope. */
  lemma {:induction false} EnvelopeWritten(codec: Codec, v: Invocation)
    ensures IsEnvelope(EnvelopeToIpld(codec, v), v.seal.signature, v.seal.header,
                       InvocationWire.Encode(codec.text, v.payload))
  {
    assert H == Ascii("h") && TAG == Ascii("ucan/inv@1.0.0");
  }

  // ----- Bytes -----

  function EncodeInvocation(codec: Codec, v: Invocation): Encoded {
    codec.toBytes(EnvelopeToIpld(codec, v))
  }

  /** `Invocation.decode`: bytes that are not what the result encodes to are refused. */
  function DecodeInvocation(codec: Codec, bytes: Encoded): Option<Invocation> {
    match codec.fromBytes(bytes)
    case None => None
    case Some(i) =>
      match EnvelopeFromIpld(codec, i)
      case None => None
      case Some(v) =>
        if EncodeInvocation(codec, v) != bytes || !codec.selectsDagCbor(v.seal.header) then None else Some(v)
  }

  /** The remaining foreign functions with this `encode` and `decode`. */
  function WithCodec(foreign: Primitives, codec: Codec): Primitives {
    foreign.(encodeInvocation := (v: Invocation) => EncodeInvocation(codec, v),
             decodeInvocation := (bytes: Encoded) => DecodeInvocation(codec, bytes))
  }

  /** The law the verification results assume is what the decoder checks. */
  lemma {:induction false} CodecIsCanonical(foreign: Primitives, codec: Codec)
    ensures DecodingIsCanonical(WithCodec(foreign, codec))
  {
    var prims := WithCodec(foreign, codec);
    forall b | prims.decodeInvocation(b).Some? ensures prims.encodeInvocation(prims.decodeInvocation(b).value) == b {
      hide EnvelopeFromIpld, EncodeInvocation;
    }
  }

  /** Which bytes decode to an invocation: those of one of its envelopes, encoded as it encodes, for DAG-CBOR. */
  lemma {:induction false} DecodeExact(codec: Codec, bytes: Encoded, v: Invocation)
    ensures DecodeInvocation(codec, bytes) == Some(v)
            <==> && codec.fromBytes(bytes).Some? && EnvelopeFromIpld(codec, codec.fromBytes(bytes).value) == Some(v)
                 && codec.toBytes(EnvelopeToIpld(codec, v)) == bytes && codec.selectsDagCbor(v.seal.header)
  {
    hide EnvelopeFromIpld, EnvelopeToIpld;
  }

  // ----- Which invocations read back -----

  /** DAG-CBOR brings the envelope back, up to the order of the entries of its two maps. */
  ghost predicate Carried(codec: Codec, v: Invocation) {
    exists i :: codec.fromBytes(EncodeInvocation(codec, v)) == Some(i) && Reordered(codec, v, i)
  }

  ghost predicate Reordered(codec: Codec, v: Invocation, i: Ipld) {
    && i.List? && |i.items| == 2 && i.items[0] == Bytes(v.seal.signature) && i.items[1].Map?
    && var entries := i.items[1].entries;
       && |entries| == 2
       && ((entries[0].key == H && entries[1].key == TAG) || (entries[0].key == TAG && entries[1].key == H))
       && forall k :: 0 <= k < 2 ==>
            if entries[k].key == H then entries[k].value == Bytes(v.seal.header)
            else entries[k].value.Map?
                 && SameMap(entries[k].value.entries, InvocationWire.Encode(codec.text, v.payload).entries)
  }

  /** A header in its canonical encoding, for DAG-CBOR, with a signature of its kind. */
  predicate ProperSeal(codec: Codec, seal: Seal) {
    && codec.readHeader(seal.header) == Some(seal.header) && codec.signatureFits(seal.header, seal.signature)
    && codec.selectsDagCbor(seal.header)
  }

  lemma {:induction false} ReorderedFields(codec: Codec, v: Invocation, i: Ipld) returns (payload: Ipld)
    requires Reordered(codec, v, i)
    ensures Fields(i.items[1].entries, None, None) == Some((v.seal.header, payload))
    ensures payload.Map? && SameMap(payload.entries, InvocationWire.Encode(codec.text, v.payload).entries)
  {
    hide SameMap, InvocationWire.Encode;
    var entries := i.items[1].entries;
    var k := if entries[0].key == TAG then 0 else 1;
    payload := entries[k].value;
    assert H != TAG by { assert |H| != |TAG|; }
    var rest := entries[1..];
    assert rest == [entries[1]] && rest[1..] == [];
    assert Fields(rest[1..], Some(v.seal.header), Some(payload)) == Some((v.seal.header, payload));
    if k == 0 {
      assert Fields(rest, None, Some(payload)) == Some((v.seal.header, payload));
    } else {
      assert Fields(rest, Some(v.seal.header), None) == Some((v.seal.header, payload));
    }
  }

  /** An invocation reads back from its own bytes exactly when its seal is proper and its payload carriable. */
  lemma {:induction false} ReadsBackExactly(foreign: Primitives, codec: Codec, v: Invocation)
    requires Carried(codec, v)
    ensures ReadsBack(WithCodec(foreign, codec), v)
            <==> ProperSeal(codec, v.seal) && InvocationWire.Carriable(codec.text, v.payload)
  {
    hide InvocationWire.Decode, InvocationWire.Carriable, InvocationWire.Encode, Fields, SameMap;
    var i :| codec.fromBytes(EncodeInvocation(codec, v)) == Some(i) && Reordered(codec, v, i);
    var payload := ReorderedFields(codec, v, i);
    InvocationWire.InvocationRoundTrip(codec.text, v.payload, payload.entries);
  }

  /** One whose expiration or issuing time is past 2^53-1 does not decode at all. */
  lemma {:induction false} LateInvocationUnreadable(foreign: Primitives, codec: Codec, v: Invocation)
    requires Carried(codec, v) && !(TimeFits(v.payload.expiration) && TimeFits(v.payload.issuedAt))
    ensures var prims := WithCodec(foreign, codec);
            prims.decodeInvocation(prims.encodeInvocation(v)).None?
  {
    hide InvocationWire.Decode, InvocationWire.Encode, Fields, SameMap;
    var i :| codec.fromBytes(EncodeInvocation(codec, v)) == Some(i) && Reordered(codec, v, i);
    var payload := ReorderedFields(codec, v, i);
    InvocationWire.LateTimestampRefused(codec.text, v.payload, payload.entries);
  }

  /**
   * The revocation store validates the live object, whatever its times. So a revocation that passes and whose
   * expiration or issuing time is past 2^53-1 is stored, is not an authentic record, and makes every later lookup of
   * its target throw.
   */
  lemma {:induction false} LateRevocationPoisons(foreign: Primitives, codec: Codec, records: Records, revoked: Cid,
                                                 v: Invocation, later: Records)
    requires Carried(codec, v) && !(TimeFits(v.payload.expiration) && TimeFits(v.payload.issuedAt))
    requires var prims := WithCodec(foreign, codec);
             && ValidRevocation(prims, revoked, v)
             && Grows(InsertResult(prims, records, revoked, v), later)
    ensures var prims := WithCodec(foreign, codec);
            SharedAnswer(prims, later, revoked) == Threw && !AuthenticRecords(prims, later)
  {
    LateInvocationUnreadable(foreign, codec, v);
    UnreadablePoisons(WithCodec(foreign, codec), records, revoked, v, later);
  }

  /** The revocation command is well formed and in lower case. */
  predicate RevokeCommandPrints(codec: Codec) {
    codec.text.lower(Ascii("/ucan/revoke")) == Ascii("/ucan/revoke")
  }

  lemma {:induction false} RevokeCommandSpelled(v: Invocation)
    requires IsRevokeCommand(v)
    ensures Commands.Print(v.payload.command) == Ascii("/ucan/revoke") && Commands.WellFormed(v.payload.command)
  {
    var parts := [Ascii("ucan"), Ascii("revoke")];
    assert parts[1..] == [Ascii("revoke")] && Commands.Join([Ascii("revoke")]) == Ascii("revoke");
    assert Commands.Join(parts) == Ascii("ucan") + [Commands.SLASH] + Ascii("revoke");
    assert Commands.Print(v.payload.command) == [Commands.SLASH] + Commands.Join(parts);
    assert [Commands.SLASH] + (Ascii("ucan") + [Commands.SLASH] + Ascii("revoke")) == Ascii("/ucan/revoke");
  }

  /** A sealed revocation by principals whose DIDs read back is carriable exactly when its two times are. */
  lemma {:induction false} RevocationCarriable(codec: Codec, v: Invocation)
    requires IsRevokeCommand(v) && RevokeCommandPrints(codec)
    requires PrincipalsRead(codec, v)
    ensures InvocationWire.Carriable(codec.text, v.payload)
            <==> TimeFits(v.payload.expiration) && TimeFits(v.payload.issuedAt)
  {
    RevokeCommandSpelled(v);
    hide Commands.Print, Commands.WellFormed, Ascii;
  }

  predicate PrincipalsRead(codec: Codec, v: Invocation) {
    && DidReadsBack(codec.text, v.payload.issuer) && DidReadsBack(codec.text, v.payload.audience)
    && DidReadsBack(codec.text, v.payload.subject)
  }

  /**
   * When the records stay authentic: inserting a properly sealed invocation keeps them so exactly when it is refused,
   * or its expiration and its issuing time are at most 2^53-1.
   */
  lemma {:induction false} InsertAuthenticWhenInTime(foreign: Primitives, codec: Codec, records: Records, revoked: Cid,
                                                     v: Invocation)
    requires Carried(codec, v) && ProperSeal(codec, v.seal) && PrincipalsRead(codec, v) && RevokeCommandPrints(codec)
    requires AuthenticRecords(WithCodec(foreign, codec), records)
    ensures var prims := WithCodec(foreign, codec);
            AuthenticRecords(prims, InsertResult(prims, records, revoked, v))
            <==> !ValidRevocation(prims, revoked, v)
                 || (TimeFits(v.payload.expiration) && TimeFits(v.payload.issuedAt))
  {
    hide Carried, AuthenticRecords, InsertResult, InvocationWire.Carriable, WithCodec, RevokeCommandPrints,
         PrincipalsRead, ProperSeal;
    var prims := WithCodec(foreign, codec);
    InsertAuthenticExactly(prims, records, revoked, v);
    if ValidRevocation(prims, revoked, v) {
      RevocationCarriable(codec, v);
      ReadsBackExactly(foreign, codec, v);
      if TimeFits(v.payload.expiration) && TimeFits(v.payload.issuedAt) {
        ReadBackIsAuthentic(prims, revoked, v);
      } else {
        LateInvocationUnreadable(foreign, codec, v);
      }
    }
  }
}
