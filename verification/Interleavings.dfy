/**
 * Any number of concurrent `verifyInvocation` calls over one `MapReplayStore` and one `MapRevocationStore`, with every
 * other store free to answer anything, and everything that code outside the calls can reach free to change at any time
 * (invocation/verify.ts).
 */
module Interleavings {
  import opened Wrappers
  import opened IpldModel
  import opened Tokens
  import opened Envelopes
  import opened Revocations
  import opened Verification
  import Chain

  // ----- One call -----

  /** Where a call stands; `pending` is the shared store's answer, fixed when its `lookup` is called. */
  datatype Phase =
    | AwaitingProofs
    | BetweenLookups
    | AwaitingLookup(pending: Option<Answer>)
    | ReadyToClaim
    | Claimed
    | Returned(result: Invocation)
    | Rejected(reason: Reason)

  /** A call's own state: what it captured when it started and what it has been answered since. */
  datatype Call = Call(
    input: Option<Encoded>,
    options: Options,
    verified: Option<Invocation>,
    answer: FetchAnswer,
    clock: Timestamp,
    proofs: seq<Delegation>,
    lookups: seq<Answer>,
    phase: Phase
  )

  function Begin(prims: Primitives, input: Option<Encoded>, options: Options): Call {
    match Authenticate(prims, input, options.executor)
    case Err(e) => Call(input, options, None, FetchThrew, 0, [], [], Rejected(e))
    case Ok(verified) => Call(input, options, Some(verified), FetchThrew, 0, [], [], AwaitingProofs)
  }

  function ProofsArrive(prims: Primitives, call: Call, answer: FetchAnswer, clock: Timestamp): Call {
    if call.verified.None? || !call.phase.AwaitingProofs? then call else
      var c := call.(answer := answer, clock := clock);
      match Receive(prims, call.verified.value, call.options, answer, clock)
      case Err(e) => c.(phase := Rejected(e))
      case Ok(proofs) =>
        c.(proofs := proofs, phase := if call.options.revocation.NoStore? then ReadyToClaim else BetweenLookups)
  }

  function CallLookup(prims: Primitives, records: Records, call: Call): Call {
    if call.verified.None? || !call.phase.BetweenLookups? then call else
      var i, cids := |call.lookups|, call.verified.value.payload.proofs;
      if i >= |cids| then call.(phase := ReadyToClaim)
      else if call.options.revocation.SharedStore? then
        call.(phase := AwaitingLookup(Some(SharedAnswer(prims, records, cids[i]))))
      else call.(phase := AwaitingLookup(None))
  }

  function LookupArrives(prims: Primitives, call: Call, foreign: Answer): Call {
    if call.verified.None? || !call.phase.AwaitingLookup? || |call.lookups| >= |call.verified.value.payload.proofs|
    then call else
      var i, cids := |call.lookups|, call.verified.value.payload.proofs;
      var answer := if call.phase.pending.Some? then call.phase.pending.value else foreign;
      var c := call.(lookups := call.lookups + [answer]);
      var fault := Fault(Judge(prims, call.proofs, i, cids[i], answer));
      c.(phase := if fault.Some? then Rejected(fault.value) else BetweenLookups)
  }

  function ClaimReturns(prims: Primitives, seen: set<Cid>, call: Call, foreignAccepts: bool): Call {
    if call.verified.None? || !call.phase.ReadyToClaim? then call else
      var cid := prims.invocationCid(call.verified.value);
      var accepted := if call.options.sharedReplay then cid !in seen else foreignAccepts;
      call.(phase := if accepted then Claimed else Rejected(Replay(cid)))
  }

  function Finish(call: Call): Call {
    if call.verified.Some? && call.phase.Claimed? then call.(phase := Returned(call.verified.value)) else call
  }

  // ----- All calls -----

  /**
   * The shared stores; what code outside the calls can reach and change, namely the objects and options callers hold,
   * the CIDs each call handed to its delegation store, and the delegations stores return; and every call so far.
   */
  datatype World = World(
    seen: set<Cid>,
    records: Records,
    objects: map<nat, Option<Encoded>>,
    callerOptions: map<nat, Options>,
    handed: map<nat, seq<Cid>>,
    returned: map<nat, FetchAnswer>,
    calls: seq<Call>
  )

  /** One atomic step: of a call, of code outside the calls, or of a revoker. */
  datatype Event =
    | Mutate(objects: map<nat, Option<Encoded>>, callerOptions: map<nat, Options>, handed: map<nat, seq<Cid>>,
             returned: map<nat, FetchAnswer>)
    | Insert(revoked: Cid, revocation: Invocation)
    | Start(ref: nat, optionsRef: nat)
    | Proofs(id: nat, returnedRef: nat, clock: Timestamp)
    | Ask(id: nat)
    | Told(id: nat, foreign: Answer)
    | Claim(id: nat, foreignAccepts: bool)
    | Return(id: nat)

  /** The clones of the requested CIDs that a call hands to its delegation store. */
  function Requested(call: Call): seq<Cid> {
    if call.verified.Some? then call.verified.value.payload.proofs else []
  }

  /** The stepping call afterwards; a step its phase does not allow changes nothing. */
  function Advance(prims: Primitives, w: World, call: Call, e: Event): Call {
    match e
    case Proofs(_, r, clock) => if r in w.returned then ProofsArrive(prims, call, w.returned[r], clock) else call
    case Ask(_) => CallLookup(prims, w.records, call)
    case Told(_, foreign) => LookupArrives(prims, call, foreign)
    case Claim(_, foreignAccepts) => ClaimReturns(prims, w.seen, call, foreignAccepts)
    case Return(_) => Finish(call)
    case _ => call
  }

  /** `MapReplayStore.claim` records the CID whether or not it was there. */
  function SeenAfter(prims: Primitives, w: World, call: Call, e: Event): set<Cid> {
    if e.Claim? && call.verified.Some? && call.phase.ReadyToClaim? && call.options.sharedReplay then
      w.seen + {prims.invocationCid(call.verified.value)}
    else w.seen
  }

  function Step(prims: Primitives, w: World, e: Event): World {
    match e
    case Mutate(objects, callerOptions, handed, returned) =>
      w.(objects := objects, callerOptions := callerOptions, handed := handed, returned := returned)
    case Insert(revoked, revocation) => w.(records := InsertResult(prims, w.records, revoked, revocation))
    case Start(o, p) =>
      if o in w.objects && p in w.callerOptions then
        var call := Begin(prims, w.objects[o], w.callerOptions[p]);
        w.(calls := w.calls + [call], handed := w.handed[|w.calls| := Requested(call)])
      else w
    case _ =>
      if e.id >= |w.calls| then w else
        w.(seen := SeenAfter(prims, w, w.calls[e.id], e),
           calls := w.calls[e.id := Advance(prims, w, w.calls[e.id], e)])
  }

  /** Every sequence of events is a run: all interleavings, all answers. */
  function Run(prims: Primitives, w: World, events: seq<Event>): World
    decreases |events|
  {
    if events == [] then w else Run(prims, Step(prims, w, events[0]), events[1..])
  }

  predicate Initial(w: World) {
    w.seen == {} && w.records == map[] && w.calls == []
  }

  /** What outside code can do: replace everything it can reach, at any moment, and nothing else. */
  lemma {:induction false} MutateReaches(prims: Primitives, w: World, e: Event)
    requires e.Mutate?
    ensures Step(prims, w, e)
            == World(w.seen, w.records, e.objects, e.callerOptions, e.handed, e.returned, w.calls)
  {
  }

  /** What a revoker can do: have the bytes of a valid revocation kept, once, after the records of its key. */
  lemma {:induction false} InsertReaches(prims: Primitives, w: World, e: Event, c: Cid)
    requires e.Insert?
    ensures Step(prims, w, e) == w.(records := Step(prims, w, e).records)
    ensures var snapshot, before := prims.encodeInvocation(e.revocation), RecordsFor(w.records, c);
            RecordsFor(Step(prims, w, e).records, c)
            == if c == e.revoked && ValidRevocation(prims, e.revoked, e.revocation) && snapshot !in before
               then before + [snapshot] else before
  {
    InsertExact(prims, w.records, e.revoked, e.revocation, c);
  }

  /** What a caller starts: one more call, of the object and options as they are, with its proof CIDs handed out. */
  lemma {:induction false} StartReaches(prims: Primitives, w: World, e: Event)
    requires e.Start? && e.ref in w.objects && e.optionsRef in w.callerOptions
    ensures var w' := Step(prims, w, e);
            && |w'.calls| == |w.calls| + 1 && w'.calls[..|w.calls|] == w.calls
            && var call := w'.calls[|w.calls|];
               && call.input == w.objects[e.ref] && call.options == w.callerOptions[e.optionsRef]
               && (match Authenticate(prims, call.input, call.options.executor)
                   case Ok(v) => call.verified == Some(v) && call.phase == AwaitingProofs
                   case Err(reason) => call.verified == None && call.phase == Rejected(reason))
               && w' == w.(calls := w'.calls, handed := w'.handed)
               && (call.verified.Some? ==>
                     w'.handed == w.handed[|w.calls| := call.verified.value.payload.proofs])
  {
  }

  // ----- The replay store -----

  /** The call's claim was accepted by the shared replay store. */
  predicate PassedClaim(call: Call) {
    call.options.sharedReplay && call.verified.Some? && (call.phase.Claimed? || call.phase.Returned?)
  }

  function CidOf(prims: Primitives, call: Call): Cid
    requires call.verified.Some?
  {
    prims.invocationCid(call.verified.value)
  }

  /** Call i passed its claim, for CID c. */
  predicate Claimant(prims: Primitives, calls: seq<Call>, i: nat, c: Cid) {
    i < |calls| && PassedClaim(calls[i]) && CidOf(prims, calls[i]) == c
  }

  /** `seen` holds exactly the CIDs of the calls that passed their claim, and no two of those share a CID. */
  ghost predicate SeenExact(prims: Primitives, seen: set<Cid>, calls: seq<Call>) {
    && (forall c :: c in seen <==> exists i :: Claimant(prims, calls, i, c))
    && (forall c, i, j :: Claimant(prims, calls, i, c) && Claimant(prims, calls, j, c) ==> i == j)
  }

  /** A step makes a call pass its claim only when the CID was not there; otherwise `seen` does not change. */
  lemma {:induction false} AdvanceAndClaim(prims: Primitives, w: World, call: Call, e: Event)
    ensures Advance(prims, w, call, e).verified == call.verified
    ensures var c, seen := Advance(prims, w, call, e), SeenAfter(prims, w, call, e);
            if PassedClaim(call) || !PassedClaim(c) then PassedClaim(c) == PassedClaim(call) && seen == w.seen
            else CidOf(prims, call) !in w.seen && seen == w.seen + {CidOf(prims, call)}
  {
    hide Receive, Judge;
  }

  lemma {:induction false} UpdateKeepsSeen(prims: Primitives, seen: set<Cid>, calls: seq<Call>, id: nat, c: Call,
                                           seen': set<Cid>)
    requires id < |calls| && c.verified == calls[id].verified && SeenExact(prims, seen, calls)
    requires if PassedClaim(calls[id]) || !PassedClaim(c) then PassedClaim(c) == PassedClaim(calls[id]) && seen' == seen
             else CidOf(prims, c) !in seen && seen' == seen + {CidOf(prims, c)}
    ensures SeenExact(prims, seen', calls[id := c])
  {
    var after := calls[id := c];
    if PassedClaim(calls[id]) || !PassedClaim(c) {
      assert forall d, i :: Claimant(prims, after, i, d) <==> Claimant(prims, calls, i, d);
    } else {
      var n := CidOf(prims, c);
      assert forall d, i :: Claimant(prims, after, i, d) <==> Claimant(prims, calls, i, d) || (i == id && d == n);
      assert Claimant(prims, after, id, n);
      hide Claimant;
    }
  }

  lemma {:induction false} StartKeepsSeen(prims: Primitives, seen: set<Cid>, calls: seq<Call>, c: Call)
    requires SeenExact(prims, seen, calls) && !PassedClaim(c)
    ensures SeenExact(prims, seen, calls + [c])
  {
    forall d, i ensures Claimant(prims, calls + [c], i, d) <==> Claimant(prims, calls, i, d) {}
  }

  lemma {:induction false} StepKeepsSeen(prims: Primitives, w: World, e: Event)
    requires SeenExact(prims, w.seen, w.calls)
    ensures SeenExact(prims, Step(prims, w, e).seen, Step(prims, w, e).calls)
  {
    hide SeenExact, Claimant, Advance, SeenAfter;
    match e
    case Mutate(_, _, _, _) =>
    case Insert(_, _) =>
    case Start(o, p) =>
      if o in w.objects && p in w.callerOptions {
        StartKeepsSeen(prims, w.seen, w.calls, Begin(prims, w.objects[o], w.callerOptions[p]));
      }
    case _ =>
      if e.id < |w.calls| {
        var call := w.calls[e.id];
        AdvanceAndClaim(prims, w, call, e);
        UpdateKeepsSeen(prims, w.seen, w.calls, e.id, Advance(prims, w, call, e), SeenAfter(prims, w, call, e));
      }
  }

  lemma {:induction false} RunKeepsSeen(prims: Primitives, w: World, events: seq<Event>)
    requires SeenExact(prims, w.seen, w.calls)
    ensures SeenExact(prims, Run(prims, w, events).seen, Run(prims, w, events).calls)
    decreases |events|
  {
    hide SeenExact, Step;
    if events != [] {
      StepKeepsSeen(prims, w, events[0]);
      RunKeepsSeen(prims, Step(prims, w, events[0]), events[1..]);
    }
  }

  /**
   * In every interleaving, at most one call succeeds per invocation CID, and `seen` is exactly the CIDs of the calls
   * that passed their claim: a rejected call never burns its CID.
   */
  lemma {:induction false} AtMostOneSuccess(prims: Primitives, w: World, events: seq<Event>)
    requires Initial(w)
    ensures var calls := Run(prims, w, events).calls;
            forall i, j | 0 <= i < j < |calls| && calls[i].phase.Returned? && calls[j].phase.Returned?
                          && calls[i].options.sharedReplay && calls[j].options.sharedReplay
                          && calls[i].verified.Some? && calls[j].verified.Some? ::
              CidOf(prims, calls[i]) != CidOf(prims, calls[j])
    ensures SeenExact(prims, Run(prims, w, events).seen, Run(prims, w, events).calls)
  {
    RunKeepsSeen(prims, w, events);
    var calls := Run(prims, w, events).calls;
    hide Run;
    forall i, j | 0 <= i < j < |calls| && PassedClaim(calls[i]) && PassedClaim(calls[j])
      ensures CidOf(prims, calls[i]) != CidOf(prims, calls[j])
    {
      assert Claimant(prims, calls, i, CidOf(prims, calls[i]));
      assert Claimant(prims, calls, j, CidOf(prims, calls[j]));
    }
  }

  /** The call was refused by the shared replay store. */
  predicate Refused(call: Call) {
    call.options.sharedReplay && call.verified.Some? && call.phase.Rejected? && call.phase.reason.Replay?
  }

  predicate RefusalSeen(prims: Primitives, seen: set<Cid>, call: Call) {
    Refused(call) ==> CidOf(prims, call) in seen
  }

  predicate RefusalsSeen(prims: Primitives, w: World) {
    forall id :: 0 <= id < |w.calls| ==> RefusalSeen(prims, w.seen, w.calls[id])
  }

  /** Only the shared store's claim refuses with `Replay`, and only for a CID it holds; `seen` never shrinks. */
  lemma {:induction false} AdvanceRefusal(prims: Primitives, w: World, call: Call, e: Event)
    requires RefusalSeen(prims, w.seen, call)
    ensures w.seen <= SeenAfter(prims, w, call, e)
    ensures RefusalSeen(prims, SeenAfter(prims, w, call, e), Advance(prims, w, call, e))
  {
    hide Receive, Judge;
  }

  lemma {:induction false} StepRefusals(prims: Primitives, w: World, e: Event)
    requires RefusalsSeen(prims, w)
    ensures RefusalsSeen(prims, Step(prims, w, e))
  {
    hide Advance, SeenAfter, InsertResult, Authenticate;
    if !e.Mutate? && !e.Insert? && !e.Start? && e.id < |w.calls| { AdvanceRefusal(prims, w, w.calls[e.id], e); }
  }

  lemma {:induction false} RunRefusals(prims: Primitives, w: World, events: seq<Event>)
    requires RefusalsSeen(prims, w)
    ensures RefusalsSeen(prims, Run(prims, w, events))
    decreases |events|
  {
    hide RefusalsSeen, Step;
    if events != [] {
      StepRefusals(prims, w, events[0]);
      RunRefusals(prims, Step(prims, w, events[0]), events[1..]);
    }
  }

  /** Some other call passed its claim on the shared store with the CID of call `id`. */
  ghost predicate ClaimedByAnother(prims: Primitives, calls: seq<Call>, id: nat)
    requires id < |calls| && calls[id].verified.Some?
  {
    exists j :: j != id && Claimant(prims, calls, j, CidOf(prims, calls[id]))
  }

  /**
   * A refusal by the shared store is never unjustified: another call had claimed the CID. Since this is so after any
   * run, the claim came before the refusal.
   */
  lemma {:induction false} RefusalIsGenuine(prims: Primitives, w: World, events: seq<Event>, id: nat)
    requires Initial(w) && id < |Run(prims, w, events).calls| && Refused(Run(prims, w, events).calls[id])
    ensures ClaimedByAnother(prims, Run(prims, w, events).calls, id)
  {
    RunKeepsSeen(prims, w, events);
    RunRefusals(prims, w, events);
    hide Run;
    var calls, c := Run(prims, w, events).calls, CidOf(prims, Run(prims, w, events).calls[id]);
    var j :| Claimant(prims, calls, j, c);
  }

  // ----- A foreign replay store -----

  /** The call passed a claim, and not on the shared store. */
  predicate ClaimedElsewhere(call: Call) {
    !call.options.sharedReplay && (call.phase.Claimed? || call.phase.Returned?)
  }

  /** A claim on a foreign store goes as that store answers: on, or to a replay error; and nothing else claims there. */
  lemma {:induction false} ForeignClaim(prims: Primitives, w: World, call: Call, e: Event)
    ensures e.Claim? && call.verified.Some? && call.phase.ReadyToClaim? && !call.options.sharedReplay ==>
              Advance(prims, w, call, e).phase
              == if e.foreignAccepts then Claimed else Rejected(Replay(CidOf(prims, call)))
    ensures ClaimedElsewhere(Advance(prims, w, call, e)) ==>
              ClaimedElsewhere(call) || (e.Claim? && e.foreignAccepts)
  {
    hide Receive, Judge;
  }

  lemma {:induction false} StepClaimsElsewhere(prims: Primitives, w: World, e: Event, id: nat)
    ensures var w' := Step(prims, w, e);
            id < |w'.calls| && ClaimedElsewhere(w'.calls[id]) ==>
              (id < |w.calls| && ClaimedElsewhere(w.calls[id])) || e == Claim(id, true)
  {
    hide Advance, InsertResult, SeenAfter, Authenticate;
    if !e.Mutate? && !e.Insert? && !e.Start? && e.id < |w.calls| { ForeignClaim(prims, w, w.calls[e.id], e); }
  }

  /** A call on a foreign replay store returns only if that store accepted its claim during the run. */
  lemma {:induction false} ForeignStoreDecides(prims: Primitives, w: World, events: seq<Event>, id: nat)
    requires id < |Run(prims, w, events).calls| && ClaimedElsewhere(Run(prims, w, events).calls[id])
    ensures Claim(id, true) in events || (id < |w.calls| && ClaimedElsewhere(w.calls[id]))
    decreases |events|
  {
    hide Step;
    if events != [] {
      StepClaimsElsewhere(prims, w, events[0], id);
      ForeignStoreDecides(prims, Step(prims, w, events[0]), events[1..], id);
    }
  }

  // ----- Every interleaved call does what a call on its own does -----

  predicate Began(prims: Primitives, call: Call) {
    call.verified.Some? && Authenticate(prims, call.input, call.options.executor) == Ok(call.verified.value)
  }

  predicate Received(prims: Primitives, call: Call) {
    && Began(prims, call)
    && Receive(prims, call.verified.value, call.options, call.answer, call.clock) == Ok(call.proofs)
  }

  /** The proofs arrived and the first n lookups found nothing against them. */
  predicate Cleared(prims: Primitives, call: Call, n: nat) {
    && Received(prims, call) && !call.options.revocation.NoStore? && n <= |call.lookups| <= |call.proofs|
    && forall k :: 0 <= k < n ==>
         Judge(prims, call.proofs, k, call.verified.value.payload.proofs[k], call.lookups[k]).NotRevoked?
  }

  predicate AllClear(prims: Primitives, call: Call) {
    && Received(prims, call)
    && (call.options.revocation.NoStore? || (|call.lookups| == |call.proofs| && Cleared(prims, call, |call.proofs|)))
  }

  predicate LastLookupRejects(prims: Primitives, call: Call, e: Reason) {
    && |call.lookups| > 0 && Cleared(prims, call, |call.lookups| - 1)
    && var k := |call.lookups| - 1;
       Fault(Judge(prims, call.proofs, k, call.verified.value.payload.proofs[k], call.lookups[k])) == Some(e)
  }

  predicate RejectionExplained(prims: Primitives, call: Call, e: Reason) {
    || Authenticate(prims, call.input, call.options.executor) == Err(e)
    || (Began(prims, call)
        && Receive(prims, call.verified.value, call.options, call.answer, call.clock) == Err(e))
    || LastLookupRejects(prims, call, e)
    || (AllClear(prims, call) && e == Replay(CidOf(prims, call)))
  }

  /** The call's phase is the one its captured input and the answers it got so far lead to. */
  predicate Explained(prims: Primitives, call: Call) {
    match call.phase
    case AwaitingProofs => Began(prims, call) && call.lookups == []
    case BetweenLookups => Cleared(prims, call, |call.lookups|)
    case AwaitingLookup(_) => Cleared(prims, call, |call.lookups|) && |call.lookups| < |call.proofs|
    case ReadyToClaim => AllClear(prims, call)
    case Claimed => AllClear(prims, call)
    case Returned(result) => AllClear(prims, call) && result == call.verified.value
    case Rejected(e) => RejectionExplained(prims, call, e)
  }

  lemma {:induction false} BeginExplained(prims: Primitives, input: Option<Encoded>, options: Options)
    ensures Explained(prims, Begin(prims, input, options))
  {
    hide Authenticate;
  }

  lemma {:induction false} LookupExplained(prims: Primitives, call: Call, foreign: Answer)
    requires Explained(prims, call)
    ensures Explained(prims, LookupArrives(prims, call, foreign))
  {
    hide Receive, Judge, Authenticate;
    var c := LookupArrives(prims, call, foreign);
    if call.phase.AwaitingLookup? {
      assert forall k :: 0 <= k < |call.lookups| ==> c.lookups[k] == call.lookups[k];
      assert Cleared(prims, c, |call.lookups|);
    }
  }

  lemma {:induction false} AdvanceExplained(prims: Primitives, w: World, call: Call, e: Event)
    requires Explained(prims, call)
    ensures Explained(prims, Advance(prims, w, call, e))
  {
    hide Receive, Judge, Authenticate, LookupArrives;
    if e.Told? {
      LookupExplained(prims, call, e.foreign);
    } else if e.Claim? || e.Return? {
      hide Cleared, Began, Received;
    }
  }

  /** A started call keeps what it captured, and stays explained. */
  lemma {:induction false} StepKeepsCall(prims: Primitives, w: World, e: Event, id: nat)
    requires id < |w.calls| && Explained(prims, w.calls[id])
    ensures id < |Step(prims, w, e).calls| && Explained(prims, Step(prims, w, e).calls[id])
    ensures Same(w.calls[id], Step(prims, w, e).calls[id])
  {
    hide Advance, Explained, Begin, InsertResult, SeenAfter;
    match e
    case Mutate(_, _, _, _) =>
    case Insert(_, _) =>
    case Start(_, _) =>
    case _ =>
      AdvanceExplained(prims, w, w.calls[id], e);
      AdvanceKeepsCaptured(prims, w, w.calls[id], e);
  }

  predicate Same(before: Call, after: Call) {
    before.input == after.input && before.options == after.options && before.verified == after.verified
  }

  lemma {:induction false} AdvanceKeepsCaptured(prims: Primitives, w: World, call: Call, e: Event)
    ensures Same(call, Advance(prims, w, call, e))
  {
    hide Receive, Judge;
  }

  lemma {:induction false} RunKeepsCall(prims: Primitives, w: World, events: seq<Event>, id: nat)
    requires id < |w.calls| && Explained(prims, w.calls[id])
    ensures id < |Run(prims, w, events).calls| && Explained(prims, Run(prims, w, events).calls[id])
    ensures Same(w.calls[id], Run(prims, w, events).calls[id])
    decreases |events|
  {
    hide Explained, Step;
    if events != [] {
      StepKeepsCall(prims, w, events[0], id);
      RunKeepsCall(prims, Step(prims, w, events[0]), events[1..], id);
    }
  }

  lemma {:induction false} StepExplains(prims: Primitives, w: World, e: Event)
    requires forall id :: 0 <= id < |w.calls| ==> Explained(prims, w.calls[id])
    ensures forall id :: 0 <= id < |Step(prims, w, e).calls| ==> Explained(prims, Step(prims, w, e).calls[id])
  {
    forall id | 0 <= id < |Step(prims, w, e).calls| ensures Explained(prims, Step(prims, w, e).calls[id]) {
      if id < |w.calls| {
        StepKeepsCall(prims, w, e, id);
      } else {
        BeginExplained(prims, w.objects[e.ref], w.callerOptions[e.optionsRef]);
      }
    }
  }

  lemma {:induction false} RunExplains(prims: Primitives, w: World, events: seq<Event>)
    requires forall id :: 0 <= id < |w.calls| ==> Explained(prims, w.calls[id])
    ensures forall id :: 0 <= id < |Run(prims, w, events).calls| ==> Explained(prims, Run(prims, w, events).calls[id])
    decreases |events|
  {
    hide Explained, Step;
    if events != [] {
      StepExplains(prims, w, events[0]);
      RunExplains(prims, Step(prims, w, events[0]), events[1..]);
    }
  }

  /** Links that clear do not decide the check. */
  lemma {:induction false} SkipCleared(prims: Primitives, cids: seq<Cid>, proofs: seq<Delegation>,
                                       answers: seq<Answer>, i: nat, n: nat)
    requires i <= n <= |cids| == |proofs| == |answers|
    requires forall k :: i <= k < n ==> Judge(prims, proofs, k, cids[k], answers[k]).NotRevoked?
    ensures CheckFrom(prims, cids, proofs, answers, i) == CheckFrom(prims, cids, proofs, answers, n)
    decreases n - i
  {
    hide Judge;
    if i < n { SkipCleared(prims, cids, proofs, answers, i + 1, n); }
  }

  predicate Agrees(call: Call, lookups: nat -> Answer) {
    forall k :: 0 <= k < |call.lookups| ==> lookups(k) == call.lookups[k]
  }

  /** What a call on its own would have decided, with the input this call captured and the answers it was given. */
  function OutcomeOf(prims: Primitives, call: Call, lookups: nat -> Answer): Result<Invocation, Reason> {
    Outcome(prims, call.input, call.options, call.answer, call.clock, lookups)
  }

  lemma {:induction false} ClearOutcome(prims: Primitives, call: Call, lookups: nat -> Answer)
    requires Agrees(call, lookups) && AllClear(prims, call)
    ensures OutcomeOf(prims, call, lookups) == Ok(call.verified.value)
  {
    hide Receive, Judge, Authenticate;
    if !call.options.revocation.NoStore? {
      SkipCleared(prims, call.verified.value.payload.proofs, call.proofs, FirstAnswers(lookups, |call.proofs|), 0,
                  |call.proofs|);
    }
  }

  lemma {:induction false} LookupOutcome(prims: Primitives, call: Call, lookups: nat -> Answer, e: Reason)
    requires Agrees(call, lookups) && LastLookupRejects(prims, call, e)
    ensures OutcomeOf(prims, call, lookups) == Err(e)
  {
    hide Receive, Judge, Authenticate;
    SkipCleared(prims, call.verified.value.payload.proofs, call.proofs, FirstAnswers(lookups, |call.proofs|), 0,
                |call.lookups| - 1);
  }

  /**
   * Whatever is interleaved with it, a call that returns, returns what it would have on its own with the answers it
   * was given, and one that is rejected is rejected for the same reason, or because its CID was claimed: on the shared
   * store, by another call.
   */
  lemma {:induction false} InterleavingRefinesCall(prims: Primitives, w: World, events: seq<Event>, id: nat,
                                                   lookups: nat -> Answer)
    requires Initial(w) && id < |Run(prims, w, events).calls|
    requires Agrees(Run(prims, w, events).calls[id], lookups)
    ensures var call := Run(prims, w, events).calls[id];
            var outcome := OutcomeOf(prims, call, lookups);
            && (call.phase.Returned? ==> outcome == Ok(call.phase.result))
            && (call.phase.ReadyToClaim? || call.phase.Claimed? ==> outcome.Ok?)
            && (call.phase.Rejected? ==>
                  || outcome == Err(call.phase.reason)
                  || (outcome.Ok? && call.phase.reason == Replay(prims.invocationCid(outcome.value))
                      && (call.options.sharedReplay ==>
                            call.verified == Some(outcome.value)
                            && ClaimedByAnother(prims, Run(prims, w, events).calls, id))))
  {
    RunExplains(prims, w, events);
    if Refused(Run(prims, w, events).calls[id]) { RefusalIsGenuine(prims, w, events, id); }
    var call := Run(prims, w, events).calls[id];
    hide Run, Receive, Judge, Authenticate, CheckFrom, ClaimedByAnother;
    if AllClear(prims, call) { ClearOutcome(prims, call, lookups); }
    if call.phase.Rejected? && LastLookupRejects(prims, call, call.phase.reason) {
      LookupOutcome(prims, call, lookups, call.phase.reason);
    }
  }

  /** The answers a call was given, as if every later lookup would throw. */
  function LookupsOf(call: Call): nat -> Answer {
    (k: nat) => if k < |call.lookups| then call.lookups[k] else Threw
  }

  lemma {:induction false} ClearPasses(prims: Primitives, call: Call, lookups: nat -> Answer)
    requires Agrees(call, lookups) && AllClear(prims, call)
    ensures PassesWith(prims, call.input, call.options, call.answer, call.clock, lookups, call.verified.value,
                       call.proofs)
  {
    hide Receive, Judge, Authenticate;
    if !call.options.revocation.NoStore? {
      SkipCleared(prims, call.verified.value.payload.proofs, call.proofs, FirstAnswers(lookups, |call.proofs|), 0,
                  |call.proofs|);
    }
  }

  /** The call that an object and options start in this world, as it is once `after` has happened. */
  function Started(prims: Primitives, w: World, ref: nat, optionsRef: nat, after: seq<Event>): (call: Call)
    requires ref in w.objects && optionsRef in w.callerOptions
    ensures Explained(prims, call) && call.input == w.objects[ref] && call.options == w.callerOptions[optionsRef]
  {
    var next := Step(prims, w, Start(ref, optionsRef));
    BeginExplained(prims, w.objects[ref], w.callerOptions[optionsRef]);
    RunKeepsCall(prims, next, after, |w.calls|);
    Run(prims, next, after).calls[|w.calls|]
  }

  /**
   * Whatever happens between its awaits to the invocation, the options, or anything a store holds, a call that
   * returns, returns what the object encoded to when the call started, with everything established of that and of the
   * options as they were then.
   */
  lemma {:induction false} SuccessIsAuthentic(prims: Primitives, w: World, ref: nat, optionsRef: nat,
                                              after: seq<Event>)
    requires ref in w.objects && optionsRef in w.callerOptions
    ensures var call := Started(prims, w, ref, optionsRef, after);
            call.phase.Returned? ==>
              Accepted(prims, w.objects[ref], w.callerOptions[optionsRef], call.answer, call.clock, LookupsOf(call),
                       call.phase.result, call.proofs)
  {
    hide Started, Receive, Judge, Authenticate, CheckFrom, Accepted, PassesWith;
    var call := Started(prims, w, ref, optionsRef, after);
    if call.phase.Returned? {
      ClearPasses(prims, call, LookupsOf(call));
      PassesExact(prims, call.input, call.options, call.answer, call.clock, LookupsOf(call), call.verified.value,
                  call.proofs);
    }
  }

  // ----- The revocation store -----

  /** Over every run the records are only ever appended to, and none is ever kept twice. */
  lemma {:induction false} RecordsOnlyGrow(prims: Primitives, w: World, events: seq<Event>)
    ensures Grows(w.records, Run(prims, w, events).records)
    ensures DuplicateFree(w.records) ==> DuplicateFree(Run(prims, w, events).records)
    decreases |events|
  {
    hide DuplicateFree, Grows, Step;
    if events != [] {
      var next := Step(prims, w, events[0]);
      StepGrows(prims, w, events[0]);
      RecordsOnlyGrow(prims, next, events[1..]);
      GrowsFurther(w.records, next.records, Run(prims, next, events[1..]).records);
    } else {
      NothingGrows(w.records);
    }
  }

  lemma {:induction false} NothingGrows(records: Records)
    ensures Grows(records, records)
  {
  }

  /** The event inserts bytes that are not an authentic revocation of their key, although the object passed as one. */
  predicate InsertsUnauthentic(prims: Primitives, e: Event) {
    && e.Insert? && ValidRevocation(prims, e.revoked, e.revocation)
    && !Authentic(prims, e.revoked, prims.encodeInvocation(e.revocation))
  }

  /** Over a run the records stay authentic exactly when no event inserts bytes that are not. */
  lemma {:induction false} RecordsAuthenticExactly(prims: Primitives, w: World, events: seq<Event>)
    requires AuthenticRecords(prims, w.records)
    ensures AuthenticRecords(prims, Run(prims, w, events).records)
            <==> forall k :: 0 <= k < |events| ==> !InsertsUnauthentic(prims, events[k])
    decreases |events|
  {
    hide AuthenticRecords, Grows, Inserted;
    if events != [] {
      var e, rest, next := events[0], events[1..], Step(prims, w, events[0]);
      StepAuthentic(prims, w, e);
      hide Step, InsertsUnauthentic;
      if InsertsUnauthentic(prims, e) {
        RecordsOnlyGrow(prims, next, rest);
        StaysUnauthentic(prims, next.records, Run(prims, next, rest).records);
      } else {
        RecordsAuthenticExactly(prims, next, rest);
        assert forall k :: 0 < k < |events| ==> events[k] == rest[k - 1];
        assert forall k :: 0 <= k < |rest| ==> rest[k] == events[k + 1];
      }
    }
  }

  lemma {:induction false} StepAuthentic(prims: Primitives, w: World, e: Event)
    requires AuthenticRecords(prims, w.records)
    ensures AuthenticRecords(prims, Step(prims, w, e).records) <==> !InsertsUnauthentic(prims, e)
  {
    hide AuthenticRecords, Authentic, ValidRevocation, InsertResult;
    if e.Insert? { InsertAuthenticExactly(prims, w.records, e.revoked, e.revocation); }
  }

  lemma {:induction false} StaysUnauthentic(prims: Primitives, before: Records, after: Records)
    requires !AuthenticRecords(prims, before) && Grows(before, after)
    ensures !AuthenticRecords(prims, after)
  {
    hide Authentic;
    var c :| c in before && !AllAuthentic(prims, c, before[c]);
    var i :| 0 <= i < |before[c]| && !Authentic(prims, c, before[c][i]);
    assert RecordsFor(before, c) <= RecordsFor(after, c);
    assert after[c][i] == before[c][i];
  }

  lemma {:induction false} StepGrows(prims: Primitives, w: World, e: Event)
    ensures Grows(w.records, Step(prims, w, e).records)
    ensures DuplicateFree(w.records) ==> DuplicateFree(Step(prims, w, e).records)
  {
    hide DuplicateFree, InsertResult;
    if e.Insert? {
      InsertGrows(prims, w.records, e.revoked, e.revocation);
      if DuplicateFree(w.records) { InsertKeepsDuplicateFree(prims, w.records, e.revoked, e.revocation); }
    }
  }

  lemma {:induction false} GrowsFurther(a: Records, b: Records, c: Records)
    requires Grows(a, b) && Grows(b, c)
    ensures Grows(a, c)
  {
    hide RecordsFor;
  }

  /** A failure, or an answer that holds every record of `floor`, all readable, and nothing that is not in `now`. */
  predicate Between(prims: Primitives, floor: seq<Encoded>, answer: Answer, now: seq<Encoded>) {
    answer.Found? ==>
      && !Unreadable(prims, floor)
      && (forall b :: b in floor ==> Some(b) in answer.records)
      && (forall r :: r in answer.records ==> r.Some? && r.value in now)
  }

  /** What the shared store told a call lies between what it held when the call started and what it holds now. */
  predicate Bounded(prims: Primitives, floor: Records, now: Records, call: Call)
    requires call.verified.Some?
  {
    var cids := call.verified.value.payload.proofs;
    && |call.lookups| <= |cids|
    && (forall k :: 0 <= k < |call.lookups| ==>
          Between(prims, RecordsFor(floor, cids[k]), call.lookups[k], RecordsFor(now, cids[k])))
    && (call.phase.AwaitingLookup? ==>
          && |call.lookups| < |cids| && call.phase.pending.Some?
          && var c := cids[|call.lookups|];
             Between(prims, RecordsFor(floor, c), call.phase.pending.value, RecordsFor(now, c)))
  }

  /** The invariant for the calls that use the shared store. */
  predicate ToldFrom(prims: Primitives, floor: Records, now: Records, call: Call) {
    call.verified.Some? && call.options.revocation.SharedStore? ==> Bounded(prims, floor, now, call)
  }

  lemma {:induction false} SharedAnswerBetween(prims: Primitives, floor: Records, now: Records, c: Cid)
    requires DecodingIsCanonical(prims) && Grows(floor, now)
    ensures Between(prims, RecordsFor(floor, c), SharedAnswer(prims, now, c), RecordsFor(now, c))
  {
    var list, answer := RecordsFor(now, c), SharedAnswer(prims, now, c);
    AnswerIsTheRecords(prims, now, c);
    assert RecordsFor(floor, c) <= list;
    hide RecordsFor, SharedAnswer;
    if answer.Found? {
      assert forall i :: 0 <= i < |RecordsFor(floor, c)| ==> RecordsFor(floor, c)[i] == list[i];
      forall b | b in list ensures Some(b) in answer.records {
        var i :| 0 <= i < |list| && list[i] == b;
        assert answer.records[i] == Some(b);
      }
    }
  }

  lemma {:induction false} BetweenGrows(prims: Primitives, floor: Records, now: Records, later: Records, c: Cid,
                                        answer: Answer)
    requires Grows(now, later) && Between(prims, RecordsFor(floor, c), answer, RecordsFor(now, c))
    ensures Between(prims, RecordsFor(floor, c), answer, RecordsFor(later, c))
  {
    assert RecordsFor(now, c) <= RecordsFor(later, c);
  }

  lemma {:induction false} ToldGrows(prims: Primitives, floor: Records, now: Records, later: Records, call: Call)
    requires Grows(now, later) && ToldFrom(prims, floor, now, call)
    ensures ToldFrom(prims, floor, later, call)
  {
    hide Between, Grows, RecordsFor;
    if call.verified.Some? && call.options.revocation.SharedStore? {
      var cids := call.verified.value.payload.proofs;
      forall k | 0 <= k < |call.lookups|
        ensures Between(prims, RecordsFor(floor, cids[k]), call.lookups[k], RecordsFor(later, cids[k]))
      {
        BetweenGrows(prims, floor, now, later, cids[k], call.lookups[k]);
      }
      if call.phase.AwaitingLookup? {
        BetweenGrows(prims, floor, now, later, cids[|call.lookups|], call.phase.pending.value);
      }
    }
  }

  lemma {:induction false} AdvanceTold(prims: Primitives, floor: Records, w: World, call: Call, e: Event)
    requires DecodingIsCanonical(prims)
    requires Grows(floor, w.records) && ToldFrom(prims, floor, w.records, call)
    ensures ToldFrom(prims, floor, w.records, Advance(prims, w, call, e))
  {
    if e.Ask? && call.verified.Some? && |call.lookups| < |call.verified.value.payload.proofs| {
      SharedAnswerBetween(prims, floor, w.records, call.verified.value.payload.proofs[|call.lookups|]);
    }
    hide Between, Grows, RecordsFor, SharedAnswer, Receive, Judge;
  }

  lemma {:induction false} StepTold(prims: Primitives, floor: Records, w: World, e: Event, id: nat)
    requires DecodingIsCanonical(prims)
    requires Grows(floor, w.records) && (id < |w.calls| ==> ToldFrom(prims, floor, w.records, w.calls[id]))
    ensures var w' := Step(prims, w, e);
            Grows(floor, w'.records) && (id < |w'.calls| ==> ToldFrom(prims, floor, w'.records, w'.calls[id]))
  {
    var w' := Step(prims, w, e);
    StepGrows(prims, w, e);
    GrowsFurther(floor, w.records, w'.records);
    if id < |w.calls| {
      AdvanceTold(prims, floor, w, w.calls[id], e);
      ToldGrows(prims, floor, w.records, w'.records, w.calls[id]);
    }
    hide Grows, Bounded, Advance, InsertResult, SeenAfter, Authenticate;
  }

  lemma {:induction false} RunTold(prims: Primitives, floor: Records, w: World, events: seq<Event>, id: nat)
    requires DecodingIsCanonical(prims)
    requires Grows(floor, w.records) && (id < |w.calls| ==> ToldFrom(prims, floor, w.records, w.calls[id]))
    ensures var w' := Run(prims, w, events);
            Grows(floor, w'.records) && (id < |w'.calls| ==> ToldFrom(prims, floor, w'.records, w'.calls[id]))
    decreases |events|
  {
    hide Grows, ToldFrom, Step;
    if events != [] {
      StepTold(prims, floor, w, events[0], id);
      RunTold(prims, floor, Step(prims, w, events[0]), events[1..], id);
    }
  }

  lemma {:induction false} FloorRevokes(prims: Primitives, floor: Records, now: Records, call: Call, k: nat,
                                        record: Encoded)
    requires AllClear(prims, call) && ToldFrom(prims, floor, now, call) && call.options.revocation.SharedStore?
    requires k < |call.proofs|
    requires record in RecordsFor(floor, call.verified.value.payload.proofs[k])
    ensures !Revokes(prims, call.proofs, k, call.verified.value.payload.proofs[k], Some(record))
  {
    hide Receive, Authenticate, RecordsFor, Revokes;
    var target, answer := call.verified.value.payload.proofs[k], call.lookups[k];
    assert Between(prims, RecordsFor(floor, target), answer, RecordsFor(now, target));
    ScanExact(prims, call.proofs, k, target, answer.records);
    var i :| 0 <= i < |answer.records| && answer.records[i] == Some(record);
  }

  lemma {:induction false} StartedTold(prims: Primitives, w: World, ref: nat, optionsRef: nat, after: seq<Event>)
    returns (now: Records)
    requires DecodingIsCanonical(prims)
    requires ref in w.objects && optionsRef in w.callerOptions
    ensures ToldFrom(prims, w.records, now, Started(prims, w, ref, optionsRef, after))
  {
    var next := Step(prims, w, Start(ref, optionsRef));
    BeginExplained(prims, w.objects[ref], w.callerOptions[optionsRef]);
    RunKeepsCall(prims, next, after, |w.calls|);
    RunTold(prims, w.records, next, after, |w.calls|);
    now := Run(prims, next, after).records;
    hide ToldFrom, Run, Explained;
  }

  /** A call that is past every check. */
  predicate Through(call: Call) {
    call.phase.ReadyToClaim? || call.phase.Claimed? || call.phase.Returned?
  }

  /**
   * A record in the shared store when a call using it starts, that revokes one of the proofs the call goes on to
   * verify, makes success of that call impossible: it never claims and never returns.
   */
  lemma {:induction false} PresentRevocationBlocks(prims: Primitives, w: World, ref: nat, optionsRef: nat,
                                                   after: seq<Event>, k: nat, record: Encoded)
    requires DecodingIsCanonical(prims)
    requires ref in w.objects && optionsRef in w.callerOptions
    requires w.callerOptions[optionsRef].revocation.SharedStore?
    requires var call := Started(prims, w, ref, optionsRef, after);
             && call.verified.Some? && k < |call.proofs| == |call.verified.value.payload.proofs|
             && var target := call.verified.value.payload.proofs[k];
                record in RecordsFor(w.records, target) && Revokes(prims, call.proofs, k, target, Some(record))
    ensures !Through(Started(prims, w, ref, optionsRef, after))
  {
    hide Started, AllClear, ToldFrom, Revokes, RecordsFor, Run, Step;
    var call := Started(prims, w, ref, optionsRef, after);
    var now := StartedTold(prims, w, ref, optionsRef, after);
    if AllClear(prims, call) { FloorRevokes(prims, w.records, now, call, k, record); }
  }

  /** The requested CID of some proof has a record that does not decode. */
  predicate SomeUnreadable(prims: Primitives, records: Records, cids: seq<Cid>) {
    exists k :: 0 <= k < |cids| && Unreadable(prims, RecordsFor(records, cids[k]))
  }

  /**
   * If bytes that do not decode are stored under one of the proof CIDs of a call that uses the shared store, when the
   * call starts, it never claims and never returns: such a record fails closed.
   */
  lemma {:induction false} UnreadableRecordBlocks(prims: Primitives, w: World, ref: nat, optionsRef: nat,
                                                  after: seq<Event>)
    requires DecodingIsCanonical(prims)
    requires ref in w.objects && optionsRef in w.callerOptions
    requires w.callerOptions[optionsRef].revocation.SharedStore?
    requires var call := Started(prims, w, ref, optionsRef, after);
             call.verified.Some? && SomeUnreadable(prims, w.records, call.verified.value.payload.proofs)
    ensures !Through(Started(prims, w, ref, optionsRef, after))
  {
    hide Started, AllClear, ToldFrom, Unreadable, RecordsFor, Run, Step;
    var call := Started(prims, w, ref, optionsRef, after);
    var now := StartedTold(prims, w, ref, optionsRef, after);
    var cids := call.verified.value.payload.proofs;
    var k :| 0 <= k < |cids| && Unreadable(prims, RecordsFor(w.records, cids[k]));
    if AllClear(prims, call) { ClearIsReadable(prims, w.records, now, call, k); }
  }

  lemma {:induction false} ClearIsReadable(prims: Primitives, floor: Records, now: Records, call: Call, k: nat)
    requires AllClear(prims, call) && ToldFrom(prims, floor, now, call) && call.options.revocation.SharedStore?
    requires k < |call.verified.value.payload.proofs|
    ensures !Unreadable(prims, RecordsFor(floor, call.verified.value.payload.proofs[k]))
  {
    hide Receive, Authenticate, RecordsFor, Unreadable;
    var target, answer := call.verified.value.payload.proofs[k], call.lookups[k];
    assert Between(prims, RecordsFor(floor, target), answer, RecordsFor(now, target));
  }

  /** The chain a rejected call was revoked by is still in the store. */
  lemma {:induction false} RejectionWitness(prims: Primitives, floor: Records, now: Records, call: Call)
    returns (k: nat, record: Encoded)
    requires Explained(prims, call) && ToldFrom(prims, floor, now, call) && call.options.revocation.SharedStore?
    requires call.phase.Rejected? && call.phase.reason.ProofRevoked?
    ensures Received(prims, call) && k < |call.proofs|
    ensures record in RecordsFor(now, call.verified.value.payload.proofs[k])
    ensures Revokes(prims, call.proofs, k, call.verified.value.payload.proofs[k], Some(record))
  {
    assert LastLookupRejects(prims, call, call.phase.reason);
    hide Receive, Authenticate, RecordsFor, Revokes;
    k := |call.lookups| - 1;
    var target, answer := call.verified.value.payload.proofs[k], call.lookups[k];
    assert Between(prims, RecordsFor(floor, target), answer, RecordsFor(now, target));
    ScanExact(prims, call.proofs, k, target, answer.records);
    var i :| 0 <= i < |answer.records| && Revokes(prims, call.proofs, k, target, answer.records[i]);
    assert answer.records[i] in answer.records;
    record := answer.records[i].value;
  }

  /** No proof of the one call and proof of the other are different delegations with one CID. */
  predicate NoCollision(prims: Primitives, ps: seq<Delegation>, qs: seq<Delegation>) {
    forall i, j | 0 <= i < |ps| && 0 <= j < |qs| ::
      prims.delegationCid(ps[i]) == prims.delegationCid(qs[j]) ==> ps[i] == qs[j]
  }

  /** Unless CIDs collide between the two, the proofs of a chain fix the proofs of everything that extends it. */
  lemma {:induction false} SameProofs(prims: Primitives, a: Call, b: Call)
    requires NoCollision(prims, a.proofs, b.proofs) && Received(prims, a) && Received(prims, b)
    requires a.verified.value.payload.proofs <= b.verified.value.payload.proofs
    ensures a.proofs <= b.proofs
    ensures |a.proofs| == |a.verified.value.payload.proofs| && |b.proofs| == |b.verified.value.payload.proofs|
  {
    hide Authenticate, Chain.WellLinked, Chain.InTime;
    ReceiveExact(prims, a.verified.value, a.options, a.answer, a.clock, a.proofs);
    ReceiveExact(prims, b.verified.value, b.options, b.answer, b.clock, b.proofs);
    hide Receive;
    forall k | 0 <= k < |a.proofs| ensures a.proofs[k] == b.proofs[k] {
      assert prims.delegationCid(a.proofs[k]) == a.verified.value.payload.proofs[k];
      assert prims.delegationCid(b.proofs[k]) == b.verified.value.payload.proofs[k];
    }
  }

  lemma {:induction false} RevokesExtension(prims: Primitives, ps: seq<Delegation>, qs: seq<Delegation>, k: nat,
                                            target: Cid, record: Option<Encoded>)
    requires ps <= qs && k < |ps| && Revokes(prims, ps, k, target, record)
    ensures Revokes(prims, qs, k, target, record)
  {
    hide ValidRevocation;
    assert forall j :: 0 <= j < |ps| ==> ps[j] == qs[j];
  }

  /** A call rejected because its chain is revoked, by a record that is in the shared store. */
  predicate RejectedAsRevoked(call: Call) {
    call.options.revocation.SharedStore? && call.phase.Rejected? && call.phase.reason.ProofRevoked?
  }

  lemma {:induction false} RevokedChainBlocks(prims: Primitives, w: World, a: Call, ref: nat, optionsRef: nat,
                                              after: seq<Event>)
    requires DecodingIsCanonical(prims)
    requires Explained(prims, a) && ToldFrom(prims, map[], w.records, a) && RejectedAsRevoked(a)
    requires ref in w.objects && optionsRef in w.callerOptions
    requires w.callerOptions[optionsRef].revocation.SharedStore?
    requires var call := Started(prims, w, ref, optionsRef, after);
             && a.verified.Some? && call.verified.Some? && NoCollision(prims, a.proofs, call.proofs)
             && a.verified.value.payload.proofs <= call.verified.value.payload.proofs
    ensures !Through(Started(prims, w, ref, optionsRef, after))
  {
    hide Started, Received, Authenticate, ToldFrom, Revokes, RecordsFor;
    var call := Started(prims, w, ref, optionsRef, after);
    if Through(call) {
      var k, record := RejectionWitness(prims, map[], w.records, a);
      SameProofs(prims, a, call);
      RevokesExtension(prims, a.proofs, call.proofs, k, call.verified.value.payload.proofs[k], Some(record));
      PresentRevocationBlocks(prims, w, ref, optionsRef, after, k, record);
    }
  }

  /**
   * Once a call using the shared store was rejected because its chain is revoked, no call using it that starts later
   * with that chain, or with any extension of it, can succeed.
   */
  lemma {:induction false} OnceRevokedStaysRevoked(prims: Primitives, first: World, before: seq<Event>, a: nat,
                                                   ref: nat, optionsRef: nat, after: seq<Event>)
    requires DecodingIsCanonical(prims)
    requires Initial(first)
    requires var w := Run(prims, first, before);
             && a < |w.calls| && RejectedAsRevoked(w.calls[a]) && w.calls[a].verified.Some?
             && ref in w.objects && optionsRef in w.callerOptions
             && w.callerOptions[optionsRef].revocation.SharedStore?
             && var call := Started(prims, w, ref, optionsRef, after);
                && call.verified.Some? && NoCollision(prims, w.calls[a].proofs, call.proofs)
                && w.calls[a].verified.value.payload.proofs <= call.verified.value.payload.proofs
    ensures !Through(Started(prims, Run(prims, first, before), ref, optionsRef, after))
  {
    RunExplains(prims, first, before);
    RunTold(prims, map[], first, before, a);
    hide Run, Started, Explained, ToldFrom;
    var w := Run(prims, first, before);
    RevokedChainBlocks(prims, w, w.calls[a], ref, optionsRef, after);
  }
}
