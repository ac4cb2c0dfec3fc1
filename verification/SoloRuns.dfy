/** The state machine, with one call stepping alone, computes what `verifyInvocation` returns on its own. */
module SoloRuns {
  import opened Wrappers
  import opened IpldModel
  import opened Tokens
  import opened Envelopes
  import opened Revocations
  import opened Verification
  import opened Interleavings

  /** A step of call `id` itself. */
  predicate StepOf(e: Event, id: nat) {
    !e.Mutate? && !e.Insert? && !e.Start? && e.id == id
  }

  predicate StepsOf(events: seq<Event>, id: nat) {
    forall k :: 0 <= k < |events| ==> StepOf(events[k], id)
  }

  /** Where a call ends that has passed or failed its checks, when nobody else claims in between. */
  function FinalPhase(prims: Primitives, seen: set<Cid>, call: Call, fault: Option<Reason>): Phase
    requires call.verified.Some?
  {
    if fault.Some? then Rejected(fault.value)
    else if call.options.sharedReplay && CidOf(prims, call) in seen then Rejected(Replay(CidOf(prims, call)))
    else Returned(call.verified.value)
  }

  function FinalSeen(prims: Primitives, seen: set<Cid>, call: Call, fault: Option<Reason>): set<Cid>
    requires call.verified.Some?
  {
    if fault.Some? || !call.options.sharedReplay then seen else seen + {CidOf(prims, call)}
  }

  /** The run ends there, by steps of the call, and changes nothing but the call and the replay store. */
  predicate EndsWith(prims: Primitives, w: World, id: nat, events: seq<Event>, fault: Option<Reason>)
    requires id < |w.calls| && w.calls[id].verified.Some?
  {
    var w' := Run(prims, w, events);
    && StepsOf(events, id) && |w'.calls| == |w.calls|
    && w'.calls[id].phase == FinalPhase(prims, w.seen, w.calls[id], fault)
    && w' == w.(seen := FinalSeen(prims, w.seen, w.calls[id], fault), calls := w.calls[id := w'.calls[id]])
  }

  lemma {:induction false} OwnStep(prims: Primitives, w: World, e: Event, id: nat)
    requires id < |w.calls| && StepOf(e, id)
    ensures var w' := Step(prims, w, e);
            && |w'.calls| == |w.calls|
            && w'.calls[id] == Advance(prims, w, w.calls[id], e)
            && w' == w.(seen := SeenAfter(prims, w, w.calls[id], e), calls := w.calls[id := w'.calls[id]])
  {
    hide Advance, SeenAfter;
  }

  /** Prefixing a step that leaves `seen` and what the call captured alone. */
  lemma {:induction false} AfterStep(prims: Primitives, w: World, id: nat, e: Event, rest: seq<Event>,
                                     fault: Option<Reason>)
    requires id < |w.calls| && w.calls[id].verified.Some? && StepOf(e, id)
    requires var w' := Step(prims, w, e);
             && |w'.calls| == |w.calls| && Same(w.calls[id], w'.calls[id])
             && w' == w.(calls := w.calls[id := w'.calls[id]])
             && EndsWith(prims, w', id, rest, fault)
    ensures EndsWith(prims, w, id, [e] + rest, fault)
  {
    hide Step;
    assert ([e] + rest)[1..] == rest;
  }

  lemma {:induction false} ClaimAlone(prims: Primitives, w: World, id: nat) returns (events: seq<Event>)
    requires id < |w.calls| && w.calls[id].verified.Some? && w.calls[id].phase.ReadyToClaim?
    ensures EndsWith(prims, w, id, events, None)
  {
    var claim, finish := Claim(id, true), Return(id);
    events := [claim, finish];
    OwnStep(prims, w, claim, id);
    var claimed := Step(prims, w, claim);
    OwnStep(prims, claimed, finish, id);
    assert events[1..] == [finish] && [finish][1..] == [];
    assert Run(prims, w, events) == Step(prims, claimed, finish) by {
      hide Step;
      assert Run(prims, claimed, [finish]) == Step(prims, claimed, finish);
    }
  }

  /** The answers are those the shared store gives, if the call uses it. */
  predicate TrueAnswers(prims: Primitives, w: World, call: Call, lookups: nat -> Answer)
    requires call.verified.Some?
  {
    call.options.revocation.SharedStore? ==>
      forall k: nat :: k < |call.verified.value.payload.proofs| ==>
        lookups(k) == SharedAnswer(prims, w.records, call.verified.value.payload.proofs[k])
  }

  lemma {:induction false} LookupsAlone(prims: Primitives, w: World, id: nat, lookups: nat -> Answer)
    returns (events: seq<Event>)
    requires id < |w.calls| && w.calls[id].verified.Some? && w.calls[id].phase.BetweenLookups?
    requires |w.calls[id].lookups| <= |w.calls[id].proofs| == |w.calls[id].verified.value.payload.proofs|
    requires TrueAnswers(prims, w, w.calls[id], lookups)
    ensures var call := w.calls[id];
            EndsWith(prims, w, id, events,
                     Fault(CheckFrom(prims, call.verified.value.payload.proofs, call.proofs,
                                     FirstAnswers(lookups, |call.proofs|), |call.lookups|)))
    decreases |w.calls[id].proofs| - |w.calls[id].lookups|
  {
    hide Step, Judge, EndsWith;
    var call := w.calls[id];
    var i := |call.lookups|;
    OwnStep(prims, w, Ask(id), id);
    var asked := Step(prims, w, Ask(id));
    if i == |call.proofs| {
      var rest := ClaimAlone(prims, asked, id);
      events := [Ask(id)] + rest;
      AfterStep(prims, w, id, Ask(id), rest, None);
    } else {
      var told := Told(id, lookups(i));
      OwnStep(prims, asked, told, id);
      var next := Step(prims, asked, told);
      var fault := Fault(CheckFrom(prims, call.verified.value.payload.proofs, call.proofs,
                                   FirstAnswers(lookups, |call.proofs|), i));
      var rest: seq<Event> := [];
      if next.calls[id].phase.Rejected? {
        EndedAlready(prims, next, id, fault);
      } else {
        rest := LookupsAlone(prims, next, id, lookups);
      }
      AfterStep(prims, asked, id, told, rest, fault);
      AfterStep(prims, w, id, Ask(id), [told] + rest, fault);
      events := [Ask(id)] + ([told] + rest);
    }
  }

  lemma {:induction false} EndedAlready(prims: Primitives, w: World, id: nat, fault: Option<Reason>)
    requires id < |w.calls| && w.calls[id].verified.Some? && fault.Some?
    requires w.calls[id].phase == Rejected(fault.value)
    ensures EndsWith(prims, w, id, [], fault)
  {
  }

  /**
   * From its start, and whatever the world looks like by then, a call can run to its end by its own steps, and it ends
   * as the call on its own would with these answers, the replay store included.
   */
  lemma {:induction false} CallAloneEndsAsOutcome(prims: Primitives, w: World, id: nat, returnedRef: nat,
                                                  clock: Timestamp, lookups: nat -> Answer)
    returns (events: seq<Event>)
    requires id < |w.calls| && w.calls[id].phase.AwaitingProofs? && Explained(prims, w.calls[id])
    requires returnedRef in w.returned && TrueAnswers(prims, w, w.calls[id], lookups)
    ensures var call := w.calls[id];
            var outcome := Outcome(prims, call.input, call.options, w.returned[returnedRef], clock, lookups);
            EndsWith(prims, w, id, events, if outcome.Err? then Some(outcome.error) else None)
  {
    hide Step, Receive, Judge, Authenticate, CheckFrom, EndsWith;
    var call := w.calls[id];
    var arrive := Proofs(id, returnedRef, clock);
    OwnStep(prims, w, arrive, id);
    var next := Step(prims, w, arrive);
    var outcome := Outcome(prims, call.input, call.options, w.returned[returnedRef], clock, lookups);
    var fault := if outcome.Err? then Some(outcome.error) else None;
    var rest: seq<Event> := [];
    if next.calls[id].phase.Rejected? {
      EndedAlready(prims, next, id, fault);
    } else if call.options.revocation.NoStore? {
      rest := ClaimAlone(prims, next, id);
    } else {
      rest := LookupsAlone(prims, next, id, lookups);
    }
    AfterStep(prims, w, id, arrive, rest, fault);
    events := [arrive] + rest;
  }
}
