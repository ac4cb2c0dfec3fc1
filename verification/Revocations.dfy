/** Revocation records and the revocation check (revocation/index.ts). */
module Revocations {
  import opened Text
  import opened Wrappers
  import opened IpldModel
  import opened Commands
  import opened Tokens
  import opened Envelopes
  import Chain

  const UCAN: Str := [0x75, 0x63, 0x61, 0x6E]               // "ucan"
  const REVOKE: Str := [0x72, 0x65, 0x76, 0x6F, 0x6B, 0x65] // "revoke"
  const REVOKE_COMMAND := Command([UCAN, REVOKE])

  datatype InvalidRevocation = InvalidSignature | NotRevokeCommand | TargetMismatch

  /** `assertValidRevocation`: `None` when nothing is thrown. */
  function RevocationFault(prims: Primitives, revoked: Cid, revocation: Invocation): Option<InvalidRevocation> {
    if !prims.invocationSigned(revocation) then Some(InvalidSignature)
    else if revocation.payload.command != REVOKE_COMMAND then Some(NotRevokeCommand)
    else if Lookup(revocation.payload.arguments, REVOKE) != Some(Link(revoked)) then Some(TargetMismatch)
    else None
  }

  /** Signed, for the command `/ucan/revoke`, with a link to the revoked delegation as its `revoke` argument. */
  predicate ValidRevocation(prims: Primitives, revoked: Cid, revocation: Invocation) {
    && prims.invocationSigned(revocation) && IsRevokeCommand(revocation) && HasTarget(revocation, revoked)
  }

  predicate IsRevokeCommand(revocation: Invocation) {
    revocation.payload.command.segments == [Ascii("ucan"), Ascii("revoke")]
  }

  predicate HasTarget(revocation: Invocation, revoked: Cid) {
    Holds(revocation.payload.arguments, Ascii("revoke"), Link(revoked))
  }

  /** Which objects pass, and the fault of each that does not: the signature, then the command, then the target. */
  lemma {:induction false} FaultExact(prims: Primitives, revoked: Cid, revocation: Invocation)
    ensures RevocationFault(prims, revoked, revocation).None? <==> ValidRevocation(prims, revoked, revocation)
    ensures RevocationFault(prims, revoked, revocation)
            == if !prims.invocationSigned(revocation) then Some(InvalidSignature)
               else if !IsRevokeCommand(revocation) then Some(NotRevokeCommand)
               else if !HasTarget(revocation, revoked) then Some(TargetMismatch)
               else None
    ensures UniqueKeys(revocation.payload.arguments) ==>
              (HasTarget(revocation, revoked)
               <==> Entry(Ascii("revoke"), Link(revoked)) in revocation.payload.arguments)
  {
    assert UCAN == Ascii("ucan") && REVOKE == Ascii("revoke");
    assert revocation.payload.command == REVOKE_COMMAND <==> revocation.payload.command.segments == [UCAN, REVOKE];
    LookupExact(revocation.payload.arguments, REVOKE, Link(revoked));
    hide Lookup, Holds, Ascii;
  }

  /** The bytes are an authentic revocation of `revoked` issued by `issuer`. */
  predicate IsRevocation(prims: Primitives, revoked: Cid, bytes: Encoded, issuer: Did) {
    match prims.decodeInvocation(bytes)
    case None => false
    case Some(r) => ValidRevocation(prims, revoked, r) && r.payload.issuer == issuer
  }

  // ----- The append-only store -----

  type Records = map<Cid, seq<Encoded>>

  function RecordsFor(records: Records, revoked: Cid): seq<Encoded> {
    if revoked in records then records[revoked] else []
  }

  /** `insert` after validation: append unless the same bytes are already there. */
  function Inserted(records: Records, revoked: Cid, snapshot: Encoded): Records {
    var existing := RecordsFor(records, revoked);
    if snapshot in existing then records else records[revoked := existing + [snapshot]]
  }

  function InsertResult(prims: Primitives, records: Records, revoked: Cid, revocation: Invocation): Records {
    if RevocationFault(prims, revoked, revocation).Some? then records
    else Inserted(records, revoked, prims.encodeInvocation(revocation))
  }

  /** The bytes decode to a valid revocation of `c`. */
  predicate Authentic(prims: Primitives, c: Cid, bytes: Encoded) {
    prims.decodeInvocation(bytes).Some? && ValidRevocation(prims, c, prims.decodeInvocation(bytes).value)
  }

  predicate NoRepeats(list: seq<Encoded>) { forall i, j :: 0 <= i < j < |list| ==> list[i] != list[j] }

  predicate AllAuthentic(prims: Primitives, c: Cid, list: seq<Encoded>) {
    forall i :: 0 <= i < |list| ==> Authentic(prims, c, list[i])
  }

  /** No record twice. */
  predicate DuplicateFree(records: Records) { forall c :: c in records ==> NoRepeats(records[c]) }

  /** Every record an authentic revocation of its key. */
  predicate AuthenticRecords(prims: Primitives, records: Records) {
    forall c :: c in records ==> AllAuthentic(prims, c, records[c])
  }

  /** Records are only ever appended. */
  ghost predicate Grows(before: Records, after: Records) {
    forall c :: RecordsFor(before, c) <= RecordsFor(after, c)
  }

  /** Whatever is inserted, no record is kept twice. */
  lemma {:induction false} InsertKeepsDuplicateFree(prims: Primitives, records: Records, revoked: Cid,
                                                    revocation: Invocation)
    requires DuplicateFree(records)
    ensures DuplicateFree(InsertResult(prims, records, revoked, revocation))
  {
    hide RevocationFault;
  }

  lemma {:induction false} AppendAuthentic(prims: Primitives, c: Cid, list: seq<Encoded>, snapshot: Encoded)
    requires AllAuthentic(prims, c, list)
    ensures AllAuthentic(prims, c, list + [snapshot]) <==> Authentic(prims, c, snapshot)
  {
    hide Authentic;
    var longer := list + [snapshot];
    assert longer[|list|] == snapshot;
    assert forall i :: 0 <= i < |list| ==> longer[i] == list[i];
  }

  /**
   * The live object is validated, its bytes are stored: the store stays authentic exactly when the object is refused,
   * or its bytes decode to an authentic revocation too.
   */
  lemma {:induction false} InsertAuthenticExactly(prims: Primitives, records: Records, revoked: Cid,
                                                  revocation: Invocation)
    requires AuthenticRecords(prims, records)
    ensures AuthenticRecords(prims, InsertResult(prims, records, revoked, revocation))
            <==> !ValidRevocation(prims, revoked, revocation)
                 || Authentic(prims, revoked, prims.encodeInvocation(revocation))
  {
    var snapshot, existing := prims.encodeInvocation(revocation), RecordsFor(records, revoked);
    var after := InsertResult(prims, records, revoked, revocation);
    FaultExact(prims, revoked, revocation);
    hide Authentic, RevocationFault, ValidRevocation;
    assert AllAuthentic(prims, revoked, existing);
    AppendAuthentic(prims, revoked, existing, snapshot);
    hide AllAuthentic;
    if ValidRevocation(prims, revoked, revocation) {
      if snapshot in existing {
        StoredIsAuthentic(prims, revoked, existing, snapshot);
      } else {
        assert after[revoked] == existing + [snapshot];
        assert forall c :: c in after && c != revoked ==> c in records && after[c] == records[c];
      }
    }
  }

  lemma {:induction false} StoredIsAuthentic(prims: Primitives, c: Cid, list: seq<Encoded>, snapshot: Encoded)
    requires AllAuthentic(prims, c, list) && snapshot in list
    ensures Authentic(prims, c, snapshot)
  {
    hide Authentic;
  }

  /** What decoding could have returned always does. */
  lemma {:induction false} ReadBackIsAuthentic(prims: Primitives, revoked: Cid, revocation: Invocation)
    requires ReadsBack(prims, revocation) && ValidRevocation(prims, revoked, revocation)
    ensures Authentic(prims, revoked, prims.encodeInvocation(revocation))
  {
    hide ValidRevocation;
  }

  lemma {:induction false} InsertGrows(prims: Primitives, records: Records, revoked: Cid, revocation: Invocation)
    ensures Grows(records, InsertResult(prims, records, revoked, revocation))
  {
  }

  /** What is stored afterwards: a valid revocation's bytes, after the records of its key unless they are among them. */
  lemma {:induction false} InsertExact(prims: Primitives, records: Records, revoked: Cid, revocation: Invocation,
                                       c: Cid)
    ensures var snapshot, before := prims.encodeInvocation(revocation), RecordsFor(records, c);
            RecordsFor(InsertResult(prims, records, revoked, revocation), c)
            == if c == revoked && ValidRevocation(prims, revoked, revocation) && snapshot !in before
               then before + [snapshot] else before
  {
    FaultExact(prims, revoked, revocation);
    hide RevocationFault, ValidRevocation;
  }

  lemma {:induction false} InsertStores(prims: Primitives, records: Records, revoked: Cid, revocation: Invocation)
    requires ValidRevocation(prims, revoked, revocation)
    ensures prims.encodeInvocation(revocation)
            in RecordsFor(InsertResult(prims, records, revoked, revocation), revoked)
  {
    FaultExact(prims, revoked, revocation);
    hide RevocationFault, ValidRevocation;
  }

  /** What a store's `lookup` gives: it throws, or objects that encode to some bytes or refuse to. */
  datatype Answer = Threw | Found(records: seq<Option<Encoded>>)

  /** What the store's own `lookup` answers: fresh objects decoded from the stored bytes, if they all decode. */
  function SharedAnswer(prims: Primitives, records: Records, revoked: Cid): Answer {
    var list := RecordsFor(records, revoked);
    if Unreadable(prims, list) then Threw else Found(Reencoded(prims, list))
  }

  /** Some record does not decode. */
  predicate Unreadable(prims: Primitives, list: seq<Encoded>) {
    exists i :: 0 <= i < |list| && prims.decodeInvocation(list[i]).None?
  }

  function Reencoded(prims: Primitives, list: seq<Encoded>): (r: seq<Option<Encoded>>)
    requires forall i :: 0 <= i < |list| ==> prims.decodeInvocation(list[i]).Some?
    ensures |r| == |list|
    ensures forall i :: 0 <= i < |r| ==>
              r[i] == Some(prims.encodeInvocation(prims.decodeInvocation(list[i]).value))
  {
    if list == [] then []
    else [Some(prims.encodeInvocation(prims.decodeInvocation(list[0]).value))] + Reencoded(prims, list[1..])
  }

  /** The answer is a failure if some record does not decode, and otherwise one object per record, in order. */
  lemma {:induction false} AnswerIsTheRecords(prims: Primitives, records: Records, revoked: Cid)
    requires DecodingIsCanonical(prims)
    ensures var list, answer := RecordsFor(records, revoked), SharedAnswer(prims, records, revoked);
            && (answer.Found? <==> !Unreadable(prims, list))
            && (answer.Found? ==> |answer.records| == |list|
                                  && forall i :: 0 <= i < |list| ==> answer.records[i] == Some(list[i]))
  {
    hide RecordsFor;
  }

  lemma {:induction false} AuthenticIsReadable(prims: Primitives, records: Records, revoked: Cid)
    requires AuthenticRecords(prims, records)
    ensures !Unreadable(prims, RecordsFor(records, revoked))
  {
    assert AllAuthentic(prims, revoked, RecordsFor(records, revoked));
    hide RecordsFor, ValidRevocation;
  }

  /** An accepted revocation whose bytes do not decode makes every later lookup of its target throw. */
  lemma {:induction false} UnreadablePoisons(prims: Primitives, records: Records, revoked: Cid, revocation: Invocation,
                                             later: Records)
    requires ValidRevocation(prims, revoked, revocation)
    requires prims.decodeInvocation(prims.encodeInvocation(revocation)).None?
    requires Grows(InsertResult(prims, records, revoked, revocation), later)
    ensures SharedAnswer(prims, later, revoked) == Threw
    ensures !AuthenticRecords(prims, later)
  {
    InsertStores(prims, records, revoked, revocation);
    var before, list := RecordsFor(InsertResult(prims, records, revoked, revocation), revoked),
                        RecordsFor(later, revoked);
    assert before <= list;
    var i :| 0 <= i < |before| && before[i] == prims.encodeInvocation(revocation);
    assert list[i] == before[i];
    assert Unreadable(prims, list);
    assert !Authentic(prims, revoked, list[i]);
  }

  /** `existing.some(...)`. */
  method SomeEqual(existing: seq<Encoded>, snapshot: Encoded) returns (found: bool)
    ensures found <==> snapshot in existing
  {
    for i := 0 to |existing|
      invariant snapshot !in existing[..i]
    {
      var same := BytesEqual(existing[i], snapshot);
      if same { return true; }
    }
    return false;
  }

  class MapRevocationStore {
    const prims: Primitives
    var records: Records

    constructor (prims: Primitives)
      ensures this.prims == prims && records == map[]
    {
      this.prims := prims;
      this.records := map[];
    }

    method Insert(revoked: Cid, revocation: Invocation) returns (fault: Option<InvalidRevocation>)
      modifies this`records
      ensures fault == RevocationFault(prims, revoked, revocation)
      ensures fault.None? <==> ValidRevocation(prims, revoked, revocation)
      ensures records == InsertResult(prims, old(records), revoked, revocation)
      ensures Grows(old(records), records)
      ensures DuplicateFree(old(records)) ==> DuplicateFree(records)
      ensures AuthenticRecords(prims, old(records)) ==>
                (AuthenticRecords(prims, records)
                 <==> !ValidRevocation(prims, revoked, revocation)
                      || Authentic(prims, revoked, prims.encodeInvocation(revocation)))
    {
      FaultExact(prims, revoked, revocation);
      if DuplicateFree(records) { InsertKeepsDuplicateFree(prims, records, revoked, revocation); }
      if AuthenticRecords(prims, records) { InsertAuthenticExactly(prims, records, revoked, revocation); }
      InsertGrows(prims, records, revoked, revocation);
      hide DuplicateFree, AuthenticRecords, Authentic, Grows, RevocationFault, ValidRevocation;
      fault := RevocationFault(prims, revoked, revocation);
      if fault.Some? { return; }
      var snapshot := prims.encodeInvocation(revocation);
      if revoked !in records {
        records := records[revoked := [snapshot]];
        assert [] + [snapshot] == [snapshot];
      } else {
        var known := SomeEqual(records[revoked], snapshot);
        if !known { records := records[revoked := records[revoked] + [snapshot]]; }
      }
    }

    /** Objects decoded from copies, so they share nothing with the store. */
    method LookupRecords(revoked: Cid) returns (answer: Answer)
      ensures answer == SharedAnswer(prims, records, revoked)
    {
      var snapshots := RecordsFor(records, revoked);
      var objects: seq<Option<Encoded>> := [];
      for i := 0 to |snapshots|
        invariant |objects| == i
        invariant forall k :: 0 <= k < i ==>
                    && prims.decodeInvocation(snapshots[k]).Some?
                    && objects[k] == Some(prims.encodeInvocation(prims.decodeInvocation(snapshots[k]).value))
      {
        var decoded := prims.decodeInvocation(snapshots[i]);
        if decoded.None? { return Threw; }
        objects := objects + [Some(prims.encodeInvocation(decoded.value))];
      }
      assert objects == Reencoded(prims, snapshots);
      return Found(objects);
    }
  }

  // ----- The check -----

  /** The principals with authority over link i: the issuers of the links up to and including it. */
  predicate HasAuthority(proofs: seq<Delegation>, i: nat, did: Did) {
    exists j :: 0 <= j <= i && j < |proofs| && proofs[j].payload.issuer == did
  }

  /** A returned object counts when it encodes to an authentic revocation by someone with authority over link i. */
  predicate Revokes(prims: Primitives, proofs: seq<Delegation>, i: nat, target: Cid, record: Option<Encoded>) {
    record.Some? && prims.decodeInvocation(record.value).Some?
    && ValidRevocation(prims, target, prims.decodeInvocation(record.value).value)
    && HasAuthority(proofs, i, prims.decodeInvocation(record.value).value.payload.issuer)
  }

  datatype Revoked = NotRevoked | RevokedBy(target: Cid, revoker: Did) | LookupThrew

  /** One lookup's records, first effective one first. */
  function Scan(prims: Primitives, proofs: seq<Delegation>, i: nat, target: Cid,
                records: seq<Option<Encoded>>): Revoked
  {
    if records == [] then NotRevoked
    else if Revokes(prims, proofs, i, target, records[0]) then
      RevokedBy(target, prims.decodeInvocation(records[0].value).value.payload.issuer)
    else Scan(prims, proofs, i, target, records[1..])
  }

  function Judge(prims: Primitives, proofs: seq<Delegation>, i: nat, target: Cid, answer: Answer): Revoked {
    match answer
    case Threw => LookupThrew
    case Found(records) => Scan(prims, proofs, i, target, records)
  }

  /** `ancestorsInclusive.some(...)`. */
  method SomeIssuer(proofs: seq<Delegation>, i: nat, did: Did) returns (found: bool)
    requires i < |proofs|
    ensures found <==> HasAuthority(proofs, i, did)
  {
    for j := 0 to i + 1
      invariant forall k :: 0 <= k < j ==> proofs[k].payload.issuer != did
    {
      if proofs[j].payload.issuer == did { return true; }
    }
    return false;
  }

  /** The inner loop: the records one lookup returned. */
  method ScanRecords(prims: Primitives, proofs: seq<Delegation>, i: nat, target: Cid, records: seq<Option<Encoded>>)
    returns (r: Revoked)
    requires i < |proofs|
    ensures r == Scan(prims, proofs, i, target, records)
  {
    hide RevocationFault, ValidRevocation, HasAuthority;
    assert records[0..] == records;
    for k := 0 to |records|
      invariant Scan(prims, proofs, i, target, records) == Scan(prims, proofs, i, target, records[k..])
    {
      assert records[k..][1..] == records[k + 1..];
      var record := records[k];
      if record.None? { continue; }
      var snap := prims.decodeInvocation(record.value);
      if snap.None? { continue; }
      FaultExact(prims, target, snap.value);
      if RevocationFault(prims, target, snap.value).Some? { continue; }
      var authorised := SomeIssuer(proofs, i, snap.value.payload.issuer);
      if authorised { return RevokedBy(target, snap.value.payload.issuer); }
    }
    return NotRevoked;
  }

  /** The whole check from link i on, when the lookup for link k answers `answers[k]`. */
  function CheckFrom(prims: Primitives, cids: seq<Cid>, proofs: seq<Delegation>, answers: seq<Answer>, i: nat): Revoked
    requires i <= |cids| == |proofs| == |answers|
    decreases |cids| - i
  {
    if i == |cids| then NotRevoked else
      var r := Judge(prims, proofs, i, cids[i], answers[i]);
      if r.NotRevoked? then CheckFrom(prims, cids, proofs, answers, i + 1) else r
  }

  /** `checkRevocations` on authenticated proofs. */
  method CheckRevocations(prims: Primitives, cids: seq<Cid>, proofs: seq<Delegation>, answers: seq<Answer>)
    returns (r: Revoked)
    requires |cids| == |proofs| == |answers|
    ensures r == CheckFrom(prims, cids, proofs, answers, 0)
  {
    for i := 0 to |cids|
      invariant CheckFrom(prims, cids, proofs, answers, 0) == CheckFrom(prims, cids, proofs, answers, i)
    {
      if answers[i].Threw? { return LookupThrew; }
      r := ScanRecords(prims, proofs, i, cids[i], answers[i].records);
      if r != NotRevoked { return r; }
    }
    return NotRevoked;
  }

  // ----- What the check decides -----

  lemma {:induction false} ScanExact(prims: Primitives, proofs: seq<Delegation>, i: nat, target: Cid,
                                     records: seq<Option<Encoded>>)
    ensures !Scan(prims, proofs, i, target, records).LookupThrew?
    ensures Scan(prims, proofs, i, target, records).RevokedBy?
            <==> exists k :: 0 <= k < |records| && Revokes(prims, proofs, i, target, records[k])
  {
    if records != [] {
      hide HasAuthority, ValidRevocation;
      ScanExact(prims, proofs, i, target, records[1..]);
      assert forall k :: 0 < k < |records| ==> records[k] == records[1..][k - 1];
      assert forall k :: 0 <= k < |records| - 1 ==> records[1..][k] == records[k + 1];
    }
  }

  /** Whom the error names: the issuer of an authentic revocation of the link it names, with authority over it. */
  lemma {:induction false} ErrorNamesRevoker(prims: Primitives, proofs: seq<Delegation>, i: nat, target: Cid,
                                             records: seq<Option<Encoded>>)
    requires Scan(prims, proofs, i, target, records).RevokedBy?
    ensures var r := Scan(prims, proofs, i, target, records);
            r.target == target && HasAuthority(proofs, i, r.revoker)
    ensures var r := Scan(prims, proofs, i, target, records);
            exists bytes :: Some(bytes) in records && IsRevocation(prims, target, bytes, r.revoker)
  {
    hide HasAuthority, ValidRevocation;
    if Revokes(prims, proofs, i, target, records[0]) {
      assert Some(records[0].value) in records;
    } else {
      ErrorNamesRevoker(prims, proofs, i, target, records[1..]);
    }
  }

  /** Some link has an effective revocation among the records its lookup returned. */
  predicate SomeLinkRevoked(prims: Primitives, cids: seq<Cid>, proofs: seq<Delegation>, answers: seq<Answer>)
    requires |cids| == |proofs| == |answers|
  {
    exists i :: 0 <= i < |cids| && LinkRevoked(prims, cids, proofs, answers, i)
  }

  predicate LinkRevoked(prims: Primitives, cids: seq<Cid>, proofs: seq<Delegation>, answers: seq<Answer>, i: nat)
    requires i < |cids| == |proofs| == |answers|
  {
    && answers[i].Found?
    && exists k :: 0 <= k < |answers[i].records| && Revokes(prims, proofs, i, cids[i], answers[i].records[k])
  }

  lemma {:induction false} JudgeExact(prims: Primitives, cids: seq<Cid>, proofs: seq<Delegation>,
                                      answers: seq<Answer>, i: nat)
    requires i < |cids| == |proofs| == |answers|
    ensures Judge(prims, proofs, i, cids[i], answers[i]).LookupThrew? <==> answers[i].Threw?
    ensures Judge(prims, proofs, i, cids[i], answers[i]).RevokedBy? <==> LinkRevoked(prims, cids, proofs, answers, i)
  {
    if answers[i].Found? { ScanExact(prims, proofs, i, cids[i], answers[i].records); }
  }

  lemma {:induction false} CheckFromExact(prims: Primitives, cids: seq<Cid>, proofs: seq<Delegation>,
                                          answers: seq<Answer>, i: nat)
    requires i <= |cids| == |proofs| == |answers|
    ensures CheckFrom(prims, cids, proofs, answers, i).NotRevoked?
            <==> forall k :: i <= k < |cids| ==> answers[k].Found? && !LinkRevoked(prims, cids, proofs, answers, k)
    ensures CheckFrom(prims, cids, proofs, answers, i).LookupThrew? ==> exists k :: i <= k < |cids| && answers[k].Threw?
    decreases |cids| - i
  {
    hide Judge, LinkRevoked;
    if i < |cids| {
      JudgeExact(prims, cids, proofs, answers, i);
      CheckFromExact(prims, cids, proofs, answers, i + 1);
    }
  }

  /** A chain passes exactly when no lookup throws and no link has an effective revocation. */
  lemma {:induction false} RejectedIffRevoked(prims: Primitives, cids: seq<Cid>, proofs: seq<Delegation>,
                                              answers: seq<Answer>)
    requires |cids| == |proofs| == |answers|
    ensures CheckFrom(prims, cids, proofs, answers, 0).NotRevoked?
            <==> (forall k :: 0 <= k < |cids| ==> answers[k].Found?) && !SomeLinkRevoked(prims, cids, proofs, answers)
    ensures (forall k :: 0 <= k < |cids| ==> answers[k].Found?) ==>
              (CheckFrom(prims, cids, proofs, answers, 0).RevokedBy? <==> SomeLinkRevoked(prims, cids, proofs, answers))
  {
    CheckFromExact(prims, cids, proofs, answers, 0);
  }

  /** Whom the error of the whole check names: the revoker of the first link that is revoked, and that link. */
  lemma {:induction false} ErrorNamesFirstRevoked(prims: Primitives, cids: seq<Cid>, proofs: seq<Delegation>,
                                                  answers: seq<Answer>, i: nat)
    returns (k: nat)
    requires i <= |cids| == |proofs| == |answers| && CheckFrom(prims, cids, proofs, answers, i).RevokedBy?
    ensures i <= k < |cids| && LinkRevoked(prims, cids, proofs, answers, k)
    ensures forall j :: i <= j < k ==> answers[j].Found? && !LinkRevoked(prims, cids, proofs, answers, j)
    ensures var r := CheckFrom(prims, cids, proofs, answers, i);
            && r.target == cids[k] && HasAuthority(proofs, k, r.revoker)
            && exists bytes :: Some(bytes) in answers[k].records && IsRevocation(prims, cids[k], bytes, r.revoker)
    decreases |cids| - i
  {
    hide LinkRevoked, HasAuthority, Scan, IsRevocation;
    JudgeExact(prims, cids, proofs, answers, i);
    if Judge(prims, proofs, i, cids[i], answers[i]).NotRevoked? {
      k := ErrorNamesFirstRevoked(prims, cids, proofs, answers, i + 1);
    } else {
      k := i;
      ErrorNamesRevoker(prims, proofs, i, cids[i], answers[i].records);
    }
  }

  // ----- What the check decides with the store's own answers -----

  /** Some record stored for link i is an authentic revocation of it by someone with authority over it. */
  ghost predicate LinkRevokedIn(prims: Primitives, records: Records, cids: seq<Cid>, proofs: seq<Delegation>, i: nat)
    requires i < |cids| == |proofs|
  {
    exists bytes, issuer ::
      bytes in RecordsFor(records, cids[i]) && IsRevocation(prims, cids[i], bytes, issuer)
      && HasAuthority(proofs, i, issuer)
  }

  lemma {:induction false} LinkRevokedStored(prims: Primitives, records: Records, cids: seq<Cid>,
                                             proofs: seq<Delegation>, answers: seq<Answer>, i: nat)
    requires i < |cids| == |proofs| == |answers| && answers[i] == SharedAnswer(prims, records, cids[i])
    requires DecodingIsCanonical(prims)
    ensures answers[i].Found? <==> !Unreadable(prims, RecordsFor(records, cids[i]))
    ensures answers[i].Found? ==>
              (LinkRevoked(prims, cids, proofs, answers, i) <==> LinkRevokedIn(prims, records, cids, proofs, i))
  {
    AnswerIsTheRecords(prims, records, cids[i]);
    hide SharedAnswer, Unreadable, RecordsFor, HasAuthority, ValidRevocation;
    if answers[i].Found? {
      var list, found := RecordsFor(records, cids[i]), answers[i].records;
      if LinkRevoked(prims, cids, proofs, answers, i) {
        var k :| 0 <= k < |found| && Revokes(prims, proofs, i, cids[i], found[k]);
        var issuer := prims.decodeInvocation(list[k]).value.payload.issuer;
        assert list[k] in list && IsRevocation(prims, cids[i], list[k], issuer);
      }
      if bytes, issuer :| bytes in list && IsRevocation(prims, cids[i], bytes, issuer)
                          && HasAuthority(proofs, i, issuer) {
        var k :| 0 <= k < |list| && list[k] == bytes;
        assert Revokes(prims, proofs, i, cids[i], found[k]);
      }
    }
  }

  /**
   * Against what the store holds: a chain passes exactly when every record of its proofs decodes and no proof i has a
   * stored authentic revocation whose issuer issued one of the proofs 0 to i. With authentic records, it is rejected
   * as revoked exactly when some proof has one.
   */
  lemma {:induction false} RejectedIffStored(prims: Primitives, records: Records, cids: seq<Cid>,
                                             proofs: seq<Delegation>, answers: seq<Answer>)
    requires |cids| == |proofs| == |answers| && DecodingIsCanonical(prims)
    requires forall k :: 0 <= k < |cids| ==> answers[k] == SharedAnswer(prims, records, cids[k])
    ensures CheckFrom(prims, cids, proofs, answers, 0).NotRevoked?
            <==> forall i :: 0 <= i < |cids| ==>
                   && !Unreadable(prims, RecordsFor(records, cids[i]))
                   && !LinkRevokedIn(prims, records, cids, proofs, i)
    ensures AuthenticRecords(prims, records) ==>
              (CheckFrom(prims, cids, proofs, answers, 0).RevokedBy?
               <==> exists i :: 0 <= i < |cids| && LinkRevokedIn(prims, records, cids, proofs, i))
  {
    hide SharedAnswer, AuthenticRecords, LinkRevokedIn, LinkRevoked, CheckFrom, DecodingIsCanonical, Unreadable,
         RecordsFor;
    forall i | 0 <= i < |cids|
      ensures answers[i].Found? <==> !Unreadable(prims, RecordsFor(records, cids[i]))
      ensures answers[i].Found? ==>
                (LinkRevoked(prims, cids, proofs, answers, i) <==> LinkRevokedIn(prims, records, cids, proofs, i))
      ensures AuthenticRecords(prims, records) ==> answers[i].Found?
    {
      LinkRevokedStored(prims, records, cids, proofs, answers, i);
      if AuthenticRecords(prims, records) { AuthenticIsReadable(prims, records, cids[i]); }
    }
    CheckFromExact(prims, cids, proofs, answers, 0);
  }

  /** Revoking a chain revokes every extension of it, with the same error. */
  lemma {:induction false} ExtensionsStayRevoked(
    prims: Primitives, cids: seq<Cid>, proofs: seq<Delegation>, answers: seq<Answer>, i: nat,
    moreCids: seq<Cid>, moreProofs: seq<Delegation>, moreAnswers: seq<Answer>)
    requires i <= |cids| == |proofs| == |answers|
    requires |moreCids| == |moreProofs| == |moreAnswers|
    requires CheckFrom(prims, cids, proofs, answers, i) != NotRevoked
    ensures CheckFrom(prims, cids + moreCids, proofs + moreProofs, answers + moreAnswers, i)
            == CheckFrom(prims, cids, proofs, answers, i)
    decreases |cids| - i
  {
    hide Judge;
    if i < |cids| {
      JudgeIgnoresLater(prims, proofs, moreProofs, i, cids[i], answers[i]);
      if Judge(prims, proofs, i, cids[i], answers[i]).NotRevoked? {
        ExtensionsStayRevoked(prims, cids, proofs, answers, i + 1, moreCids, moreProofs, moreAnswers);
      }
    }
  }

  lemma {:induction false} ScanIgnoresLater(prims: Primitives, proofs: seq<Delegation>, more: seq<Delegation>, i: nat,
                                            target: Cid, records: seq<Option<Encoded>>)
    requires i < |proofs|
    ensures Scan(prims, proofs + more, i, target, records) == Scan(prims, proofs, i, target, records)
  {
    if records != [] {
      ScanIgnoresLater(prims, proofs, more, i, target, records[1..]);
      assert forall did :: HasAuthority(proofs + more, i, did) <==> HasAuthority(proofs, i, did) by {
        assert forall j :: 0 <= j <= i ==> (proofs + more)[j] == proofs[j];
      }
      hide HasAuthority;
    }
  }

  /** Authority over link i does not depend on the links after it. */
  lemma {:induction false} JudgeIgnoresLater(prims: Primitives, proofs: seq<Delegation>, more: seq<Delegation>,
                                             i: nat, target: Cid, answer: Answer)
    requires i < |proofs|
    ensures Judge(prims, proofs + more, i, target, answer) == Judge(prims, proofs, i, target, answer)
  {
    if answer.Found? { ScanIgnoresLater(prims, proofs, more, i, target, answer.records); }
  }

  function Payloads(proofs: seq<Delegation>): (r: seq<DelegationPayload>)
    ensures |r| == |proofs| && forall i :: 0 <= i < |r| ==> r[i] == proofs[i].payload
  {
    if proofs == [] then [] else [proofs[0].payload] + Payloads(proofs[1..])
  }

  /** On an accepted chain, authority over link i is exactly the subject's and that of the audiences before i. */
  lemma {:induction false} AuthorityOnAcceptedChain(payload: InvocationPayload, proofs: seq<Delegation>, i: nat,
                                                    did: Did)
    requires Chain.WellLinked(payload, Payloads(proofs)) && i < |proofs|
    ensures HasAuthority(proofs, i, did)
            <==> did == payload.subject || exists j :: 0 <= j < i && proofs[j].payload.audience == did
  {
    var ps := Payloads(proofs);
    assert ps[0].issuer == payload.subject;
    if HasAuthority(proofs, i, did) {
      var j :| 0 <= j <= i && j < |proofs| && proofs[j].payload.issuer == did;
      if j > 0 { assert ps[j].issuer == ps[j - 1].audience; }
    }
    if j :| 0 <= j < i && proofs[j].payload.audience == did {
      assert ps[j + 1].issuer == ps[j].audience;
    }
    if did == payload.subject { assert proofs[0].payload.issuer == did; }
  }
}
