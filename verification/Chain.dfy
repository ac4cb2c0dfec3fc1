/** The semantic checks on a proof chain (invocation/index.ts). */
module Chain {
  import opened Wrappers
  import opened IpldModel
  import opened Commands
  import opened Predicates
  import opened Tokens

  datatype Failure =
    | InvocationExpired
    | ProofNotYetValid(proof: DelegationPayload)
    | ProofExpired(proof: DelegationPayload)
    | RootProofIssuerIsNotSubject(proof: DelegationPayload)
    | SubjectNotAllowedByProof(proof: DelegationPayload)
    | InvalidProofIssuerChain(expectedIssuer: Did, found: Did)
    | CommandMismatch(wanted: Command, given: Command)
    | PredicateRunError(error: RunError)
    | PredicateFailed(rejecting: Predicate)
    | TimestampOutOfRange

  datatype Verdict = Passed | Failed(failure: Failure)

  // ----- Chain, command and policy -----

  predicate SubjectAllows(s: Subject, subject: Did) {
    s.AnySubject? || s.did == subject
  }

  function CheckPolicy(policy: seq<Predicate>, args: Ipld): Verdict {
    if policy == [] then Passed
    else match Run(policy[0], args)
      case Err(e) => Failed(PredicateRunError(e))
      case Ok(passed) => if passed then CheckPolicy(policy[1..], args) else Failed(PredicateFailed(policy[0]))
  }

  method CheckPolicyLoop(policy: seq<Predicate>, args: Ipld) returns (v: Verdict)
    ensures v == CheckPolicy(policy, args)
  {
    assert policy[0..] == policy;
    for i := 0 to |policy|
      invariant CheckPolicy(policy, args) == CheckPolicy(policy[i..], args)
    {
      assert policy[i..][1..] == policy[i + 1..];
      var passed := Run(policy[i], args);
      match passed
      case Err(e) => return Failed(PredicateRunError(e));
      case Ok(b) => if !b { return Failed(PredicateFailed(policy[i])); }
    }
    return Passed;
  }

  /** One link, given who must have issued it and the link before it. */
  function CheckLink(payload: InvocationPayload, proof: DelegationPayload, expectedIssuer: Did,
                     previous: Option<DelegationPayload>): Verdict {
    if previous.None? && proof.subject.AnySubject? then Failed(RootProofIssuerIsNotSubject(proof))
    else if !SubjectAllows(proof.subject, payload.subject) then Failed(SubjectNotAllowedByProof(proof))
    else if proof.issuer != expectedIssuer then Failed(InvalidProofIssuerChain(expectedIssuer, proof.issuer))
    else if previous.Some? && !StartsWith(proof.command, previous.value.command) then
      Failed(CommandMismatch(previous.value.command, proof.command))
    else if !StartsWith(payload.command, proof.command) then Failed(CommandMismatch(payload.command, proof.command))
    else CheckPolicy(proof.policy, Map(payload.arguments))
  }

  /** Who must issue link i, or the invocation when i is past the last link. */
  function Holder(payload: InvocationPayload, proofs: seq<DelegationPayload>, i: nat): Did
    requires i <= |proofs|
  {
    if i == 0 then payload.subject else proofs[i - 1].audience
  }

  function Before(proofs: seq<DelegationPayload>, i: nat): Option<DelegationPayload>
    requires i <= |proofs|
  {
    if i == 0 then None else Some(proofs[i - 1])
  }

  function ChecksFrom(payload: InvocationPayload, proofs: seq<DelegationPayload>, i: nat): Verdict
    requires i <= |proofs|
    decreases |proofs| - i
  {
    var expectedIssuer := Holder(payload, proofs, i);
    if i == |proofs| then
      if expectedIssuer == payload.issuer then Passed
      else Failed(InvalidProofIssuerChain(expectedIssuer, payload.issuer))
    else
      var link := CheckLink(payload, proofs[i], expectedIssuer, Before(proofs, i));
      if link.Failed? then link else ChecksFrom(payload, proofs, i + 1)
  }

  /** `syntaticChecks`. */
  method SyntacticChecks(payload: InvocationPayload, proofs: seq<DelegationPayload>) returns (v: Verdict)
    ensures v == ChecksFrom(payload, proofs, 0)
    ensures v.Passed? <==> WellLinked(payload, proofs)
  {
    AcceptedIffWellLinked(payload, proofs);
    var args := Map(payload.arguments);
    var expectedIssuer, previous: Option<DelegationPayload> := payload.subject, None;
    for i := 0 to |proofs|
      invariant expectedIssuer == Holder(payload, proofs, i) && previous == Before(proofs, i)
      invariant ChecksFrom(payload, proofs, 0) == ChecksFrom(payload, proofs, i)
    {
      var proof := proofs[i];
      if previous.None? && proof.subject.AnySubject? { return Failed(RootProofIssuerIsNotSubject(proof)); }
      if !SubjectAllows(proof.subject, payload.subject) { return Failed(SubjectNotAllowedByProof(proof)); }
      if proof.issuer != expectedIssuer { return Failed(InvalidProofIssuerChain(expectedIssuer, proof.issuer)); }
      if previous.Some? && !StartsWith(proof.command, previous.value.command) {
        return Failed(CommandMismatch(previous.value.command, proof.command));
      }
      if !StartsWith(payload.command, proof.command) { return Failed(CommandMismatch(payload.command, proof.command)); }
      var policy := CheckPolicyLoop(proof.policy, args);
      if policy.Failed? { return policy; }
      expectedIssuer := proof.audience;
      previous := Some(proof);
    }
    if expectedIssuer != payload.issuer { return Failed(InvalidProofIssuerChain(expectedIssuer, payload.issuer)); }
    return Passed;
  }

  // ----- What an accepted chain is -----

  predicate PolicyHolds(policy: seq<Predicate>, args: Ipld) {
    forall k :: 0 <= k < |policy| ==> Run(policy[k], args) == Ok(true)
  }

  /** The root names its subject, principals link from subject to invoker, commands only narrow, every policy holds. */
  predicate WellLinked(payload: InvocationPayload, proofs: seq<DelegationPayload>) {
    && (proofs != [] ==> proofs[0].subject.Specific?)
    && (forall i :: 0 <= i < |proofs| ==> proofs[i].subject in {AnySubject, Specific(payload.subject)})
    && (proofs != [] ==> proofs[0].issuer == payload.subject)
    && (forall i :: 0 < i < |proofs| ==> proofs[i].issuer == proofs[i - 1].audience)
    && payload.issuer == (if proofs == [] then payload.subject else proofs[|proofs| - 1].audience)
    && (forall i, j :: 0 <= i < j < |proofs| ==> StartsWith(proofs[j].command, proofs[i].command))
    && (forall i :: 0 <= i < |proofs| ==> StartsWith(payload.command, proofs[i].command))
    && (forall i :: 0 <= i < |proofs| ==> PolicyHolds(proofs[i].policy, Map(payload.arguments)))
  }

  lemma {:induction false} PolicyPasses(policy: seq<Predicate>, args: Ipld)
    ensures CheckPolicy(policy, args).Passed? <==> PolicyHolds(policy, args)
  {
    hide Run;
    if policy != [] {
      PolicyPasses(policy[1..], args);
      assert forall k :: 0 < k < |policy| ==> policy[k] == policy[1..][k - 1];
      assert forall k :: 0 <= k < |policy| - 1 ==> policy[1..][k] == policy[k + 1];
    }
  }

  /** The conditions on link i alone. */
  predicate LinkHolds(payload: InvocationPayload, proofs: seq<DelegationPayload>, i: nat)
    requires i < |proofs|
  {
    && (i == 0 ==> proofs[i].subject.Specific?)
    && proofs[i].subject in {AnySubject, Specific(payload.subject)}
    && proofs[i].issuer == Holder(payload, proofs, i)
    && (i > 0 ==> StartsWith(proofs[i].command, proofs[i - 1].command))
    && StartsWith(payload.command, proofs[i].command)
    && PolicyHolds(proofs[i].policy, Map(payload.arguments))
  }

  lemma {:induction false} ChecksPass(payload: InvocationPayload, proofs: seq<DelegationPayload>, i: nat)
    requires i <= |proofs|
    ensures ChecksFrom(payload, proofs, i).Passed?
            <==> (forall k :: i <= k < |proofs| ==> LinkHolds(payload, proofs, k))
                 && payload.issuer == Holder(payload, proofs, |proofs|)
    decreases |proofs| - i
  {
    if i < |proofs| {
      LinkPasses(payload, proofs, i);
      hide LinkHolds, CheckLink;
      ChecksPass(payload, proofs, i + 1);
    }
  }

  /** A rejected chain is rejected at its first link that does not hold, for the first reason that link gives. */
  lemma {:induction false} RejectedAtFirstBadLink(payload: InvocationPayload, proofs: seq<DelegationPayload>, k: nat)
    requires k < |proofs| && !LinkHolds(payload, proofs, k)
    requires forall j :: 0 <= j < k ==> LinkHolds(payload, proofs, j)
    ensures ChecksFrom(payload, proofs, 0)
            == CheckLink(payload, proofs[k], Holder(payload, proofs, k), Before(proofs, k))
    ensures ChecksFrom(payload, proofs, 0).Failed?
  {
    SkipGoodLinks(payload, proofs, 0, k);
    LinkPasses(payload, proofs, k);
    hide LinkHolds, CheckLink;
  }

  lemma {:induction false} LinkPasses(payload: InvocationPayload, proofs: seq<DelegationPayload>, k: nat)
    requires k < |proofs|
    ensures CheckLink(payload, proofs[k], Holder(payload, proofs, k), Before(proofs, k)).Passed?
            <==> LinkHolds(payload, proofs, k)
  {
    PolicyPasses(proofs[k].policy, Map(payload.arguments));
    hide PolicyHolds, CheckPolicy;
  }

  lemma {:induction false} SkipGoodLinks(payload: InvocationPayload, proofs: seq<DelegationPayload>, i: nat, k: nat)
    requires i <= k <= |proofs| && forall j :: i <= j < k ==> LinkHolds(payload, proofs, j)
    ensures ChecksFrom(payload, proofs, i) == ChecksFrom(payload, proofs, k)
    decreases k - i
  {
    if i < k {
      LinkPasses(payload, proofs, i);
      hide LinkHolds, CheckLink;
      SkipGoodLinks(payload, proofs, i + 1, k);
    }
  }

  lemma {:induction false} CommandsNarrow(proofs: seq<DelegationPayload>, i: nat, j: nat)
    requires i < j < |proofs|
    requires forall k :: 0 < k < |proofs| ==> StartsWith(proofs[k].command, proofs[k - 1].command)
    ensures StartsWith(proofs[j].command, proofs[i].command)
  {
    if i < j - 1 { CommandsNarrow(proofs, i, j - 1); }
  }

  /** The loop accepts exactly the well-linked chains; the empty chain only for the subject itself. */
  lemma {:induction false} AcceptedIffWellLinked(payload: InvocationPayload, proofs: seq<DelegationPayload>)
    ensures ChecksFrom(payload, proofs, 0).Passed? <==> WellLinked(payload, proofs)
  {
    ChecksPass(payload, proofs, 0);
    hide LinkHolds, WellLinked;
    if ChecksFrom(payload, proofs, 0).Passed? { LinksMakeChain(payload, proofs); }
    if WellLinked(payload, proofs) { ChainHasLinks(payload, proofs); }
  }

  lemma {:induction false} LinksMakeChain(payload: InvocationPayload, proofs: seq<DelegationPayload>)
    requires forall k :: 0 <= k < |proofs| ==> LinkHolds(payload, proofs, k)
    requires payload.issuer == Holder(payload, proofs, |proofs|)
    ensures WellLinked(payload, proofs)
  {
    hide PolicyHolds, Commands.StartsWith;
    forall k | 0 < k < |proofs|
      ensures StartsWith(proofs[k].command, proofs[k - 1].command) && proofs[k].issuer == proofs[k - 1].audience
    {
      assert LinkHolds(payload, proofs, k);
    }
    forall i, j | 0 <= i < j < |proofs| ensures StartsWith(proofs[j].command, proofs[i].command) {
      CommandsNarrow(proofs, i, j);
    }
    forall k | 0 <= k < |proofs|
      ensures proofs[k].subject in {AnySubject, Specific(payload.subject)}
              && StartsWith(payload.command, proofs[k].command)
              && PolicyHolds(proofs[k].policy, Map(payload.arguments))
    {
      assert LinkHolds(payload, proofs, k);
    }
    if proofs != [] { assert LinkHolds(payload, proofs, 0); }
  }

  lemma {:induction false} ChainHasLinks(payload: InvocationPayload, proofs: seq<DelegationPayload>)
    requires WellLinked(payload, proofs)
    ensures forall k :: 0 <= k < |proofs| ==> LinkHolds(payload, proofs, k)
    ensures payload.issuer == Holder(payload, proofs, |proofs|)
  {
    hide PolicyHolds, Commands.StartsWith;
    forall k | 0 <= k < |proofs| ensures LinkHolds(payload, proofs, k) {
      assert k > 0 ==> StartsWith(proofs[k].command, proofs[k - 1].command);
    }
  }

  // ----- Time bounds -----

  /** `shiftSeconds`: clamped at the epoch, out of range beyond 2^53-1. */
  function ShiftSeconds(t: Timestamp, delta: int): Option<Timestamp> {
    var shifted := if t + delta < 0 then 0 else t + delta;
    if shifted > MAX_SAFE then None else Some(shifted)
  }

  predicate ExpiredBy(expiration: Option<Timestamp>, earliest: Timestamp) {
    expiration.Some? && expiration.value < earliest
  }

  function CheckTimes(proofs: seq<DelegationPayload>, earliest: Timestamp, latest: Timestamp): Verdict {
    if proofs == [] then Passed
    else if proofs[0].notBefore.Some? && proofs[0].notBefore.value > latest then Failed(ProofNotYetValid(proofs[0]))
    else if ExpiredBy(proofs[0].expiration, earliest) then Failed(ProofExpired(proofs[0]))
    else CheckTimes(proofs[1..], earliest, latest)
  }

  /** The instants the bounds are compared with, when they can be represented. */
  function Window(now: Timestamp, leeway: int): Option<(Timestamp, Timestamp)> {
    if leeway > 0 then
      var earliest, latest := ShiftSeconds(now, -leeway), ShiftSeconds(now, leeway);
      if earliest.Some? && latest.Some? then Some((earliest.value, latest.value)) else None
    else Some((now, now))
  }

  function TimeChecks(payload: InvocationPayload, proofs: seq<DelegationPayload>, now: Timestamp,
                      leeway: int): Verdict
  {
    match Window(now, leeway)
    case None => Failed(TimestampOutOfRange)
    case Some((earliest, latest)) =>
      if ExpiredBy(payload.expiration, earliest) then Failed(InvocationExpired)
      else CheckTimes(proofs, earliest, latest)
  }

  /** `timeBoundChecks`. */
  method TimeBoundChecks(payload: InvocationPayload, proofs: seq<DelegationPayload>, now: Timestamp, leeway: int)
    returns (v: Verdict)
    ensures v == TimeChecks(payload, proofs, now, leeway)
    ensures v.Passed? <==> InTime(payload, proofs, now, leeway)
  {
    TimeChecksExact(payload, proofs, now, leeway);
    var window := Window(now, leeway);
    if window.None? { return Failed(TimestampOutOfRange); }
    var (earliest, latest) := window.value;
    if ExpiredBy(payload.expiration, earliest) { return Failed(InvocationExpired); }
    assert proofs[0..] == proofs;
    for i := 0 to |proofs|
      invariant CheckTimes(proofs, earliest, latest) == CheckTimes(proofs[i..], earliest, latest)
    {
      var proof := proofs[i];
      assert proofs[i..][1..] == proofs[i + 1..];
      if proof.notBefore.Some? && proof.notBefore.value > latest { return Failed(ProofNotYetValid(proof)); }
      if ExpiredBy(proof.expiration, earliest) { return Failed(ProofExpired(proof)); }
    }
    return Passed;
  }

  /** Each bound holds once `leeway` seconds of clock drift are forgiven either way. */
  predicate InTime(payload: InvocationPayload, proofs: seq<DelegationPayload>, now: Timestamp, leeway: int) {
    var slack := if leeway > 0 then leeway else 0;
    && (leeway > 0 ==> now + leeway <= MAX_SAFE)
    && (payload.expiration.Some? ==> now <= payload.expiration.value + slack)
    && forall i :: 0 <= i < |proofs| ==> ProofInTime(proofs[i], now, slack)
  }

  predicate ProofInTime(proof: DelegationPayload, now: Timestamp, slack: nat) {
    && (proof.notBefore.Some? ==> proof.notBefore.value <= now + slack)
    && (proof.expiration.Some? ==> now <= proof.expiration.value + slack)
  }

  lemma {:induction false} CheckTimesExact(proofs: seq<DelegationPayload>, now: Timestamp, slack: nat)
    ensures CheckTimes(proofs, if now < slack then 0 else now - slack, now + slack).Passed?
            <==> forall i :: 0 <= i < |proofs| ==> ProofInTime(proofs[i], now, slack)
  {
    if proofs != [] {
      CheckTimesExact(proofs[1..], now, slack);
      assert forall k :: 0 < k < |proofs| ==> proofs[k] == proofs[1..][k - 1];
      assert forall k :: 0 <= k < |proofs| - 1 ==> proofs[1..][k] == proofs[k + 1];
    }
  }

  lemma {:induction false} TimeChecksExact(payload: InvocationPayload, proofs: seq<DelegationPayload>,
                                           now: Timestamp, leeway: int)
    ensures TimeChecks(payload, proofs, now, leeway).Passed? <==> InTime(payload, proofs, now, leeway)
  {
    CheckTimesExact(proofs, now, if leeway > 0 then leeway else 0);
  }

  // ----- Both checks -----

  /** `checkResolved`: time bounds first, then the chain. */
  function CheckResolved(payload: InvocationPayload, proofs: seq<DelegationPayload>, now: Timestamp,
                         leeway: int): Verdict
  {
    var times := TimeChecks(payload, proofs, now, leeway);
    if times.Failed? then times else ChecksFrom(payload, proofs, 0)
  }

  lemma {:induction false} CheckResolvedExact(payload: InvocationPayload, proofs: seq<DelegationPayload>,
                                              now: Timestamp, leeway: int)
    ensures CheckResolved(payload, proofs, now, leeway).Passed?
            <==> InTime(payload, proofs, now, leeway) && WellLinked(payload, proofs)
  {
    TimeChecksExact(payload, proofs, now, leeway);
    AcceptedIffWellLinked(payload, proofs);
  }

  // ----- Attenuation -----

  /**
   * No delegation grants more than its issuer held: whatever a chain authorises, each of its prefixes authorises
   * at the same instant and leeway when invoked by the principal that prefix ends at.
   */
  lemma {:induction false} Attenuation(payload: InvocationPayload, proofs: seq<DelegationPayload>, k: nat,
                                       now: Timestamp, leeway: int)
    requires k <= |proofs| && CheckResolved(payload, proofs, now, leeway).Passed?
    ensures CheckResolved(payload.(issuer := Holder(payload, proofs, k)), proofs[..k], now, leeway).Passed?
    ensures k < |proofs| ==> Holder(payload, proofs, k) == proofs[k].issuer
  {
    CheckResolvedExact(payload, proofs, now, leeway);
    CheckResolvedExact(payload.(issuer := Holder(payload, proofs, k)), proofs[..k], now, leeway);
    hide PolicyHolds, Commands.StartsWith;
  }

  /** The single-step form: dropping the last delegation leaves its issuer with the same authority. */
  lemma {:induction false} DelegateGrantsNoMore(payload: InvocationPayload, ps: seq<DelegationPayload>,
                                                d: DelegationPayload,
                             now: Timestamp, leeway: int)
    requires CheckResolved(payload, ps + [d], now, leeway).Passed?
    ensures CheckResolved(payload.(issuer := d.issuer), ps, now, leeway).Passed?
  {
    Attenuation(payload, ps + [d], |ps|, now, leeway);
    assert (ps + [d])[..|ps|] == ps;
  }

  /** A chain that authorises a command authorises every command below it. */
  lemma {:induction false} NarrowerCommandAuthorised(payload: InvocationPayload, proofs: seq<DelegationPayload>,
                                                     c: Command,
                                  now: Timestamp, leeway: int)
    requires CheckResolved(payload, proofs, now, leeway).Passed? && StartsWith(c, payload.command)
    ensures CheckResolved(payload.(command := c), proofs, now, leeway).Passed?
  {
    CheckResolvedExact(payload, proofs, now, leeway);
    CheckResolvedExact(payload.(command := c), proofs, now, leeway);
    hide PolicyHolds;
  }
}
