/** Signed tokens and the foreign code behind them: DAG-CBOR, hashing to CIDs, Ed25519. */
module Envelopes {
  import opened Wrappers
  import opened IpldModel
  import opened Tokens

  /** What an envelope adds to its payload: the signature, and the varsig header as it is encoded. */
  datatype Seal = Seal(signature: seq<Byte>, header: seq<Byte>)

  datatype Invocation = Invocation(payload: InvocationPayload, seal: Seal)

  datatype Delegation = Delegation(payload: DelegationPayload, seal: Seal)

  type Encoded = seq<Byte>

  /** `encode`, `decode`, `toCid` and `verifySignature`; nothing is known about them but the laws below. */
  datatype Primitives = Primitives(
    encodeInvocation: Invocation -> Encoded,
    decodeInvocation: Encoded -> Option<Invocation>,
    invocationCid: Invocation -> Cid,
    invocationSigned: Invocation -> bool,
    decodeDelegation: Encoded -> Option<Delegation>,
    delegationCid: Delegation -> Cid,
    delegationSigned: Delegation -> bool
  )

  /** An object whose encoding decodes to it: anything `decode` returned is one. */
  predicate ReadsBack(prims: Primitives, v: Invocation) {
    prims.decodeInvocation(prims.encodeInvocation(v)) == Some(v)
  }

  /** `decode` refuses bytes that are not what the decoded token encodes to (invocation/index.ts). */
  ghost predicate DecodingIsCanonical(prims: Primitives) {
    forall b :: prims.decodeInvocation(b).Some? ==> prims.encodeInvocation(prims.decodeInvocation(b).value) == b
  }

  /** `bytesEqual` (ipld.ts). */
  method BytesEqual(a: Encoded, b: Encoded) returns (equal: bool)
    ensures equal <==> a == b
  {
    if |a| != |b| { return false; }
    for i := 0 to |a|
      invariant forall k :: 0 <= k < i ==> a[k] == b[k]
    {
      if a[i] != b[i] { return false; }
    }
    return true;
  }
}
