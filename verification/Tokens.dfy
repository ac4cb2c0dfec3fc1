/** Delegation and invocation payloads (delegation/index.ts, invocation/index.ts, did.ts, timestamp.ts). */
module Tokens {
  import opened Wrappers
  import opened IpldModel
  import opened Commands
  import opened Predicates

  /** An Ed25519 principal: two are equal when their public keys are. */
  datatype Did = Did(publicKey: seq<Byte>)

  datatype Subject = Specific(did: Did) | AnySubject

  /** Whole seconds since the epoch. */
  type Timestamp = nat

  datatype DelegationPayload = DelegationPayload(
    issuer: Did,
    audience: Did,
    subject: Subject,
    command: Command,
    policy: seq<Predicate>,
    expiration: Option<Timestamp>,
    notBefore: Option<Timestamp>,
    meta: seq<Entry>,
    nonce: seq<Byte>,
    metaPresent: bool
  )

  datatype InvocationPayload = InvocationPayload(
    issuer: Did,
    audience: Did,
    subject: Did,
    command: Command,
    arguments: seq<Entry>,
    proofs: seq<Cid>,
    cause: Option<Cid>,
    issuedAt: Option<Timestamp>,
    expiration: Option<Timestamp>,
    meta: seq<Entry>,
    nonce: seq<Byte>
  )
}
