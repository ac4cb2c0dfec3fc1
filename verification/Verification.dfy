/** `verifyInvocation` and the replay store, one call at a time (invocation/verify.ts). */
module Verification {
  import opened Text
  import opened Wrappers
  import opened IpldModel
  import opened Tokens
  import opened Envelopes
  import opened Revocations
  import Chain

  datatype Reason =
    | InvalidInvocationSignature
    | AudienceMismatch(executor: Did, found: Did)
    | GetError
    | ProofCountMismatch(requested: nat, returned: nat)
    | InvalidProofSignature(cid: Cid)
    | ProofCidMismatch(wanted: Cid, actual: Cid)
    | CheckFailed(failure: Chain.Failure)
    | ProofRevoked(target: Cid, revoker: Did)
    | LookupFailed
    | Replay(cid: Cid)

  // ----- The replay store -----

  class MapReplayStore {
    var seen: set<Cid>

    constructor ()
      ensures seen == {}
    {
      seen := {};
    }

    method Claim(cid: Cid) returns (accepted: bool)
      modifies this`seen
      ensures accepted <==> cid !in old(seen)
      ensures seen == old(seen) + {cid}
    {
      if cid in seen { return false; }
      seen := seen + {cid};
      return true;
    }
  }

  // ----- Up to the first await -----

  datatype RevocationStore = NoStore | SharedStore | ForeignStore

  /** The caller's options; `sharedReplay` says whether the replay store is the shared in-memory one. */
  datatype Options = Options(
    executor: Did,
    sharedReplay: bool,
    revocation: RevocationStore,
    now: Option<Timestamp>,
    leeway: int
  )

  /** The caller's object encodes to `input` at the call, or refuses to; what is authenticated is decoded from that. */
  function Authenticate(prims: Primitives, input: Option<Encoded>, executor: Did): Result<Invocation, Reason> {
    if input.None? || prims.decodeInvocation(input.value).None? then Err(InvalidInvocationSignature)
    else
      var verified := prims.decodeInvocation(input.value).value;
      if !prims.invocationSigned(verified) then Err(InvalidInvocationSignature)
      else if verified.payload.audience != executor then Err(AudienceMismatch(executor, verified.payload.audience))
      else Ok(verified)
  }

  // ----- From the proofs' arrival to the next await -----

  /** What `getAll` gives: it throws, or an array-like of some length whose items encode to some bytes or refuse to. */
  datatype FetchAnswer = FetchThrew | Fetched(count: nat, items: seq<Option<Encoded>>)

  function ItemAt(items: seq<Option<Encoded>>, i: nat): Option<Encoded> {
    if i < |items| then items[i] else None
  }

  function VerifyProof(prims: Primitives, wanted: Cid, item: Option<Encoded>): Result<Delegation, Reason> {
    if item.None? || prims.decodeDelegation(item.value).None? then Err(InvalidProofSignature(wanted))
    else
      var snap := prims.decodeDelegation(item.value).value;
      if prims.delegationCid(snap) != wanted then Err(ProofCidMismatch(wanted, prims.delegationCid(snap)))
      else if !prims.delegationSigned(snap) then Err(InvalidProofSignature(wanted))
      else Ok(snap)
  }

  /** The proofs from position i on. */
  function ProofsFrom(prims: Primitives, wanted: seq<Cid>, items: seq<Option<Encoded>>, i: nat)
    : (r: Result<seq<Delegation>, Reason>)
    requires i <= |wanted|
    ensures if r.Ok? then |r.value| == |wanted| - i else !r.error.ProofRevoked? && !r.error.Replay?
    decreases |wanted| - i
  {
    if i == |wanted| then Ok([]) else
      match VerifyProof(prims, wanted[i], ItemAt(items, i))
      case Err(e) => Err(e)
      case Ok(snap) =>
        match ProofsFrom(prims, wanted, items, i + 1)
        case Err(e) => Err(e)
        case Ok(rest) => Ok([snap] + rest)
  }

  function ProofsOf(prims: Primitives, wanted: seq<Cid>, answer: FetchAnswer): (r: Result<seq<Delegation>, Reason>)
    ensures if r.Ok? then |r.value| == |wanted| else !r.error.ProofRevoked? && !r.error.Replay?
  {
    match answer
    case FetchThrew => Err(GetError)
    case Fetched(count, items) =>
      if count != |wanted| then Err(ProofCountMismatch(|wanted|, count)) else ProofsFrom(prims, wanted, items, 0)
  }

  function Prepend(done: seq<Delegation>, rest: Result<seq<Delegation>, Reason>): Result<seq<Delegation>, Reason> {
    if rest.Ok? then Ok(done + rest.value) else rest
  }

  lemma {:induction false} NextProof(prims: Primitives, wanted: seq<Cid>, items: seq<Option<Encoded>>, i: nat,
                                     done: seq<Delegation>)
    requires i < |wanted|
    ensures Prepend(done, ProofsFrom(prims, wanted, items, i))
            == match VerifyProof(prims, wanted[i], ItemAt(items, i))
               case Err(e) => Err(e)
               case Ok(snap) => Prepend(done + [snap], ProofsFrom(prims, wanted, items, i + 1))
  {
    hide VerifyProof;
    var proof, rest := VerifyProof(prims, wanted[i], ItemAt(items, i)), ProofsFrom(prims, wanted, items, i + 1);
    if proof.Ok? && rest.Ok? { Reassociate(done, [proof.value], rest.value); }
  }

  lemma {:induction false} NoMoreProofs(prims: Primitives, wanted: seq<Cid>, items: seq<Option<Encoded>>,
                                        done: seq<Delegation>, all: Result<seq<Delegation>, Reason>)
    ensures Prepend(done, ProofsFrom(prims, wanted, items, |wanted|)) == Ok(done)
    ensures Prepend([], all) == all
  {
    EmptyFront(done);
    if all.Ok? { EmptyFront(all.value); }
  }

  /** The loop that detaches, checks and pushes each fetched proof. */
  method VerifyProofs(prims: Primitives, wanted: seq<Cid>, answer: FetchAnswer)
    returns (r: Result<seq<Delegation>, Reason>)
    ensures r == ProofsOf(prims, wanted, answer)
  {
    if answer.FetchThrew? { return Err(GetError); }
    if answer.count != |wanted| { return Err(ProofCountMismatch(|wanted|, answer.count)); }
    hide ProofsFrom, Prepend;
    var verifiedProofs: seq<Delegation> := [];
    ghost var all := ProofsFrom(prims, wanted, answer.items, 0);
    NoMoreProofs(prims, wanted, answer.items, verifiedProofs, all);
    for i := 0 to |wanted|
      invariant all == Prepend(verifiedProofs, ProofsFrom(prims, wanted, answer.items, i))
    {
      NextProof(prims, wanted, answer.items, i, verifiedProofs);
      if i >= |answer.items| || answer.items[i].None? { return Err(InvalidProofSignature(wanted[i])); }
      var snap := prims.decodeDelegation(answer.items[i].value);
      if snap.None? { return Err(InvalidProofSignature(wanted[i])); }
      var actual := prims.delegationCid(snap.value);
      if actual != wanted[i] { return Err(ProofCidMismatch(wanted[i], actual)); }
      if !prims.delegationSigned(snap.value) { return Err(InvalidProofSignature(wanted[i])); }
      verifiedProofs := verifiedProofs + [snap.value];
    }
    NoMoreProofs(prims, wanted, answer.items, verifiedProofs, all);
    return Ok(verifiedProofs);
  }

  /** The proof is what the i-th item decodes to, hashes to the requested CID, and is signed. */
  predicate ProofMatches(prims: Primitives, wanted: Cid, items: seq<Option<Encoded>>, i: nat, proof: Delegation) {
    && i < |items| && items[i].Some? && prims.decodeDelegation(items[i].value) == Some(proof)
    && prims.delegationCid(proof) == wanted && prims.delegationSigned(proof)
  }

  predicate ProofsMatch(prims: Primitives, wanted: seq<Cid>, answer: FetchAnswer, proofs: seq<Delegation>) {
    && answer.Fetched? && answer.count == |wanted| == |proofs|
    && forall i :: 0 <= i < |wanted| ==> ProofMatches(prims, wanted[i], answer.items, i, proofs[i])
  }

  lemma {:induction false} ProofsFromExact(prims: Primitives, wanted: seq<Cid>, items: seq<Option<Encoded>>, i: nat,
                                           proofs: seq<Delegation>)
    requires i <= |wanted|
    ensures ProofsFrom(prims, wanted, items, i) == Ok(proofs)
            <==> |proofs| == |wanted| - i
                 && forall k :: i <= k < |wanted| ==> ProofMatches(prims, wanted[k], items, k, proofs[k - i])
    decreases |wanted| - i
  {
    if i < |wanted| && |proofs| == |wanted| - i {
      ProofsFromExact(prims, wanted, items, i + 1, proofs[1..]);
      assert VerifyProof(prims, wanted[i], ItemAt(items, i)) == Ok(proofs[0])
             <==> ProofMatches(prims, wanted[i], items, i, proofs[0]);
      assert proofs == [proofs[0]] + proofs[1..];
      hide VerifyProof, ProofMatches, ItemAt;
      assert ProofsFrom(prims, wanted, items, i) == Ok(proofs)
             <==> VerifyProof(prims, wanted[i], ItemAt(items, i)) == Ok(proofs[0])
                  && ProofsFrom(prims, wanted, items, i + 1) == Ok(proofs[1..]);
    }
  }

  /** The loop accepts exactly the detached list that matches the requested CIDs in order and number, all signed. */
  lemma {:induction false} ProofsExact(prims: Primitives, wanted: seq<Cid>, answer: FetchAnswer,
                                       proofs: seq<Delegation>)
    ensures ProofsOf(prims, wanted, answer) == Ok(proofs) <==> ProofsMatch(prims, wanted, answer, proofs)
  {
    if answer.Fetched? { ProofsFromExact(prims, wanted, answer.items, 0, proofs); }
  }

  /** The instant the checks use: the option captured at the call, or else the clock when they run. */
  function CheckedAt(options: Options, clock: Timestamp): Timestamp {
    if options.now.Some? then options.now.value else clock
  }

  function Receive(prims: Primitives, verified: Invocation, options: Options, answer: FetchAnswer, clock: Timestamp)
    : (r: Result<seq<Delegation>, Reason>)
    ensures if r.Ok? then |r.value| == |verified.payload.proofs| else !r.error.ProofRevoked? && !r.error.Replay?
  {
    match ProofsOf(prims, verified.payload.proofs, answer)
    case Err(e) => Err(e)
    case Ok(proofs) =>
      match Chain.CheckResolved(verified.payload, Payloads(proofs), CheckedAt(options, clock), options.leeway)
      case Failed(f) => Err(CheckFailed(f))
      case Passed => Ok(proofs)
  }

  // ----- A whole call -----

  function FirstAnswers(lookups: nat -> Answer, n: nat): (r: seq<Answer>)
    ensures |r| == n && forall i :: 0 <= i < n ==> r[i] == lookups(i)
  {
    seq(n, (i: nat) => lookups(i))
  }

  function Fault(revoked: Revoked): Option<Reason> {
    match revoked
    case NotRevoked => None
    case RevokedBy(target, revoker) => Some(ProofRevoked(target, revoker))
    case LookupThrew => Some(LookupFailed)
  }

  /** How a call ends, short of the replay claim, when the store's answers are these. */
  function Outcome(prims: Primitives, input: Option<Encoded>, options: Options, answer: FetchAnswer, clock: Timestamp,
                   lookups: nat -> Answer): Result<Invocation, Reason>
  {
    match Authenticate(prims, input, options.executor)
    case Err(e) => Err(e)
    case Ok(verified) =>
      match Receive(prims, verified, options, answer, clock)
      case Err(e) => Err(e)
      case Ok(proofs) =>
        if options.revocation.NoStore? then Ok(verified) else
          var fault := Fault(CheckFrom(prims, verified.payload.proofs, proofs, FirstAnswers(lookups, |proofs|), 0));
          if fault.Some? then Err(fault.value) else Ok(verified)
  }

  /** `verifyInvocation` when nothing else runs between its awaits. */
  method VerifyInvocation(prims: Primitives, input: Option<Encoded>, options: Options, answer: FetchAnswer,
                          clock: Timestamp, lookups: nat -> Answer, replay: MapReplayStore)
    returns (r: Result<Invocation, Reason>)
    modifies replay`seen
    ensures var outcome := Outcome(prims, input, options, answer, clock, lookups);
            if outcome.Err? then r == outcome && replay.seen == old(replay.seen) else
              var cid := prims.invocationCid(outcome.value);
              && r == (if cid in old(replay.seen) then Err(Replay(cid)) else outcome)
              && replay.seen == old(replay.seen) + {cid}
  {
    if input.None? { return Err(InvalidInvocationSignature); }
    var snapshot := prims.decodeInvocation(input.value);
    if snapshot.None? || !prims.invocationSigned(snapshot.value) { return Err(InvalidInvocationSignature); }
    var verified := snapshot.value;
    if verified.payload.audience != options.executor {
      return Err(AudienceMismatch(options.executor, verified.payload.audience));
    }
    var invocationCid := prims.invocationCid(verified);
    var requested := verified.payload.proofs;
    var fetched := VerifyProofs(prims, requested, answer);
    if fetched.Err? { return Err(fetched.error); }
    var verifiedProofs := fetched.value;
    var payloads := Payloads(verifiedProofs);
    var now := if options.now.Some? then options.now.value else clock;
    var times := Chain.TimeBoundChecks(verified.payload, payloads, now, options.leeway);
    if times.Failed? { return Err(CheckFailed(times.failure)); }
    var links := Chain.SyntacticChecks(verified.payload, payloads);
    if links.Failed? { return Err(CheckFailed(links.failure)); }
    if !options.revocation.NoStore? {
      var revoked := CheckRevocations(prims, requested, verifiedProofs, FirstAnswers(lookups, |verifiedProofs|));
      if revoked.RevokedBy? { return Err(ProofRevoked(revoked.target, revoked.revoker)); }
      if revoked.LookupThrew? { return Err(LookupFailed); }
    }
    var accepted := replay.Claim(invocationCid);
    if !accepted { return Err(Replay(invocationCid)); }
    return Ok(verified);
  }

  /** Everything a successful call has established about what it returns. */
  ghost predicate Accepted(prims: Primitives, input: Option<Encoded>, options: Options, answer: FetchAnswer,
                           clock: Timestamp, lookups: nat -> Answer, verified: Invocation, proofs: seq<Delegation>)
  {
    && input.Some? && prims.decodeInvocation(input.value) == Some(verified) && prims.invocationSigned(verified)
    && verified.payload.audience == options.executor
    && ProofsMatch(prims, verified.payload.proofs, answer, proofs)
    && (match options.now
        case Some(instant) => Chain.InTime(verified.payload, Payloads(proofs), instant, options.leeway)
        case None => Chain.InTime(verified.payload, Payloads(proofs), clock, options.leeway))
    && Chain.WellLinked(verified.payload, Payloads(proofs))
    && (options.revocation.NoStore? || Unrevoked(prims, verified.payload.proofs, proofs, lookups))
  }

  ghost predicate Unrevoked(prims: Primitives, cids: seq<Cid>, proofs: seq<Delegation>, lookups: nat -> Answer)
    requires |cids| == |proofs|
  {
    && (forall k: nat :: k < |cids| ==> lookups(k).Found?)
    && !SomeLinkRevoked(prims, cids, proofs, FirstAnswers(lookups, |proofs|))
  }

  lemma {:induction false} ReceiveExact(prims: Primitives, verified: Invocation, options: Options,
                                        answer: FetchAnswer, clock: Timestamp, proofs: seq<Delegation>)
    ensures Receive(prims, verified, options, answer, clock) == Ok(proofs)
            <==> ProofsMatch(prims, verified.payload.proofs, answer, proofs)
                 && Chain.InTime(verified.payload, Payloads(proofs), CheckedAt(options, clock), options.leeway)
                 && Chain.WellLinked(verified.payload, Payloads(proofs))
  {
    hide Chain.WellLinked, Chain.InTime, Chain.CheckResolved, ProofsOf, ProofsMatch;
    ProofsExact(prims, verified.payload.proofs, answer, proofs);
    Chain.CheckResolvedExact(verified.payload, Payloads(proofs), CheckedAt(options, clock), options.leeway);
  }

  /** The call passes with these proofs. */
  predicate PassesWith(prims: Primitives, input: Option<Encoded>, options: Options, answer: FetchAnswer,
                       clock: Timestamp, lookups: nat -> Answer, verified: Invocation, proofs: seq<Delegation>)
  {
    && Authenticate(prims, input, options.executor) == Ok(verified)
    && Receive(prims, verified, options, answer, clock) == Ok(proofs)
    && (options.revocation.NoStore?
        || CheckFrom(prims, verified.payload.proofs, proofs, FirstAnswers(lookups, |proofs|), 0).NotRevoked?)
  }

  lemma {:induction false} PassesExact(prims: Primitives, input: Option<Encoded>, options: Options,
                                       answer: FetchAnswer, clock: Timestamp, lookups: nat -> Answer,
                                       verified: Invocation, proofs: seq<Delegation>)
    ensures PassesWith(prims, input, options, answer, clock, lookups, verified, proofs)
            <==> Accepted(prims, input, options, answer, clock, lookups, verified, proofs)
  {
    ReceiveExact(prims, verified, options, answer, clock, proofs);
    hide Chain.WellLinked, Chain.InTime, Receive, ProofMatches, CheckFrom, SomeLinkRevoked;
    if |proofs| == |verified.payload.proofs| {
      RejectedIffRevoked(prims, verified.payload.proofs, proofs, FirstAnswers(lookups, |proofs|));
      assert (forall k: nat :: k < |proofs| ==> lookups(k).Found?)
             <==> forall k :: 0 <= k < |proofs| ==> FirstAnswers(lookups, |proofs|)[k].Found?;
    }
  }

  /** A call passes exactly when it has established all of it. */
  lemma {:induction false} OutcomeExact(prims: Primitives, input: Option<Encoded>, options: Options,
                                        answer: FetchAnswer, clock: Timestamp, lookups: nat -> Answer,
                                        verified: Invocation)
    ensures Outcome(prims, input, options, answer, clock, lookups) == Ok(verified)
            <==> exists proofs :: Accepted(prims, input, options, answer, clock, lookups, verified, proofs)
  {
    hide Accepted, Authenticate, Receive, CheckFrom;
    if Outcome(prims, input, options, answer, clock, lookups) == Ok(verified) {
      var proofs := Receive(prims, verified, options, answer, clock).value;
      PassesExact(prims, input, options, answer, clock, lookups, verified, proofs);
    }
    if proofs :| Accepted(prims, input, options, answer, clock, lookups, verified, proofs) {
      PassesExact(prims, input, options, answer, clock, lookups, verified, proofs);
    }
  }

  /** The caller's instant stands in for the clock, and without one the clock decides. */
  lemma {:induction false} CallerInstantDecides(prims: Primitives, input: Option<Encoded>, options: Options,
                                                answer: FetchAnswer, clock: Timestamp, t: Timestamp,
                                                lookups: nat -> Answer)
    ensures Outcome(prims, input, options.(now := Some(t)), answer, clock, lookups)
            == Outcome(prims, input, options.(now := None), answer, t, lookups)
  {
    hide Authenticate, CheckFrom, ProofsOf, Chain.CheckResolved;
  }
}
