/** The flows of an email change from start to end: their ordered reads and writes,
    each of them a step of the machine in `EmailChange`, and what a successful
    reconcile leaves. */
module EmailReconciling {
  import opened Lists
  import opened EmailChange

  // ----- what may stay -----

  /** The request waits for its proof: its exact pending address is unverified and
      young enough, or no matching address is pending and it is younger still. */
  predicate Waiting(s: State, r: Request) {
    && s.identity.Some? && s.identity.value.current == r.previous && r.previous != r.requested
    && if s.identity.value.pending == r.requested
       then !HasVerified(s.identity.value, r.requested) && Age(s, r) < PENDING_LIFETIME
       else Age(s, r) < PROOF_GRACE
  }

  /** The canonical address is the requested one but unverified, or another address is
      pending beside it: the flow reports an error. */
  predicate Stuck(s: State, r: Request) {
    && s.identity.Some? && s.identity.value.current == r.requested
    && (!HasVerified(s.identity.value, r.requested) ||
        (s.identity.value.pending != NO_EMAIL && s.identity.value.pending != r.requested))
  }

  /** A reconcile ends at its first look exactly when the request waits or is stuck. */
  lemma {:induction false} DecidedIdleIff(s: State, r: Request)
    ensures Decided(s, r).flow.Idle? <==> Waiting(s, r) || Stuck(s, r)
    ensures Decided(s, r).flow.Idle? ==> Decided(s, r) == At(s, Idle)
  {
  }

  /** The request waits while the canonical email is the one it replaces: unproven as
      the pending address for up to seven days, otherwise for up to fifteen minutes. It
      is stuck when the canonical email is the requested one, unproven or beside
      another pending one. */
  lemma WaitsOrStuckIff(s: State, r: Request, i: Identity)
    requires s.identity == Some(i) && r.requested != NO_EMAIL
    ensures Waiting(s, r) <==>
              (i.current == r.previous != r.requested
              && (i.pending == r.requested ==> Address(r.requested, true) !in i.addresses && s.clock - r.createdAt < 7 * 24 * 60 * 60)
              && (i.pending != r.requested ==> s.clock - r.createdAt < 15 * 60))
    ensures Stuck(s, r) <==>
              i.current == r.requested && (Address(r.requested, true) !in i.addresses || i.pending !in {NO_EMAIL, r.requested})
  {
  }

  // ----- what releasing an address changes -----

  lemma {:induction false} KeptAddresses(addresses: seq<Address>, e: Email, a: Address)
    ensures a in WithoutAddress(addresses, e) <==> a in addresses && a.email != e
  {
  }

  lemma {:induction false} NothingToDrop(addresses: seq<Address>, e: Email)
    ensures WithoutAddress(addresses, e) == addresses <==> forall a :: a in addresses ==> a.email != e
  {
    if addresses != [] && addresses[0].email != e {
      NothingToDrop(addresses[1..], e);
      assert forall a :: a in addresses <==> a == addresses[0] || a in addresses[1..];
    }
    if addresses != [] && addresses[0].email == e {
      assert addresses[0] in addresses;
      assert addresses[0] !in WithoutAddress(addresses, e);
    }
  }

  /** Dropping a request releases its address, touches neither the canonical email nor
      any other address, and writes only when there is something to release. */
  lemma {:induction false} ClearedFrame(i: Identity, requested: Email, e: Email)
    requires requested != NO_EMAIL && i.current != requested
    ensures var c := Cleared(i, i, requested);
            && c.current == i.current
            && c.pending != requested && (i.pending != requested ==> c.pending == i.pending)
            && !HasVerified(c, requested) && (forall a :: a in c.addresses <==> a in i.addresses && a.email != requested)
            && (e != requested ==> (HasVerified(c, e) <==> HasVerified(i, e)))
            && (NeedsClearing(i, requested) <==> i.pending == requested || exists a :: a in i.addresses && a.email == requested)
            && (NeedsClearing(i, requested) <==> c != i)
  {
    NothingToDrop(i.addresses, requested);
    forall a ensures a in WithoutAddress(i.addresses, requested) <==> a in i.addresses && a.email != requested {
      KeptAddresses(i.addresses, requested, a);
    }
  }

  // ----- the flow -----

  lemma RunExtends(first: State, events: seq<Event>, e: Event)
    ensures Run(first, events + [e]) == Next(Run(first, events), e)
    decreases |events|
  {
    if events == [] {
      assert [e][1..] == [];
      assert [] + [e] == [e];
    } else {
      assert (events + [e])[1..] == events[1..] + [e];
      RunExtends(Next(first, events[0]), events[1..], e);
    }
  }

  /** How each call to the outside ends. */
  datatype Answers = Answers(
    load: Outcome, find: Outcome, usedElsewhere: bool, write: Outcome, reload: Outcome,
    release: Outcome, verify: Outcome, publish: Outcome, delete: Outcome)

  datatype Result = Ok | Error | ConflictError

  /** How the call at this step ends. */
  function AnswerAt(flow: Flow, answers: Answers): Outcome {
    match flow
    case ReconcileLoad(_) => answers.load
    case CheckUsed(_, _) => answers.find
    case ClearPending(_) => answers.write
    case ApplyWrite(_, _) => answers.write
    case ProvenWrite(_, _) => answers.write
    case ConflictReload(_) => answers.reload
    case ClearAddress(_, _) => answers.release
    case CompleteLoad(_) => answers.verify
    case Publish(_) => answers.publish
    case Finish(_) => answers.delete
    case _ => Done
  }

  /** How many steps are left at most. */
  function StepsLeft(flow: Flow): nat {
    match flow
    case Idle => 0
    case Finish(_) => 1
    case Publish(_) => 2
    case CompleteLoad(_) => 3
    case ClearAddress(_, _) => 4
    case ConflictReload(_) => 5
    case ApplyWrite(_, _) => 6
    case CheckUsed(_, _) => 7
    case ClearPending(_) => 8
    case ProvenWrite(_, _) => 9
    case ReconcileLoad(_) => 10
    case ProvenStage(_, _) => 11
    case StagePersist(_, _) => 12
  }

  /** Where the running flow ends when its calls end as `answers` say. */
  function Drive(s: State, answers: Answers): (end: State)
    ensures end.flow.Idle?
    decreases StepsLeft(s.flow)
  {
    if s.flow.Idle? then s else Drive(Advanced(s, AnswerAt(s.flow, answers), answers.usedElsewhere, 0), answers)
  }

  /** The exact proven pending address turned out to belong to another identity. */
  predicate Clashes(s: State, r: Request, answers: Answers) {
    && s.identity.Some? && s.identity.value.current == r.previous && s.identity.value.pending == r.requested
    && r.previous != r.requested && HasVerified(s.identity.value, r.requested)
    && (answers.usedElsewhere || answers.write.Conflict?)
  }

  /** The result of a reconcile that started at `s` and left `row`. */
  function EndResult(s: State, r: Request, answers: Answers, row: Option<Request>): Result {
    if row.None? then if Clashes(s, r, answers) then ConflictError else Ok
    else if Waiting(s, r) && !answers.load.Failed? then Ok
    else Error
  }

  class EmailChangeLifecycle {
    const answers: Answers
    var identity: Option<Identity>
    var row: Option<Request>
    var notices: set<Request>
    var clock: int
    ghost var flow: Flow
    ghost var issued: set<Request>
    ghost var applied: set<Request>
    ghost var proven: set<Email>
    /** The run so far, from `first`. */
    ghost var first: State
    ghost var events: seq<Event>

    ghost function Now(): State
      reads this
    {
      State(identity, row, clock, flow, issued, applied, notices, proven)
    }

    /** What the fields hold is what the machine reaches. */
    ghost predicate Valid()
      reads this
    {
      Now() == Run(first, events)
    }

    constructor (s: State, answers: Answers)
      ensures Now() == s && first == s && Valid() && this.answers == answers
    {
      this.answers := answers;
      identity, row, notices, clock := s.identity, s.row, s.notices, s.clock;
      flow, issued, applied, proven := s.flow, s.issued, s.applied, s.proven;
      first, events := s, [];
    }

    /** Records that the fields took the next step of the flow. */
    ghost method Record(before: State, e: Event)
      requires before == Run(first, events) && Now() == Next(before, e)
      modifies this`events
      ensures Valid() && events == old(events) + [e]
    {
      RunExtends(first, events, e);
      events := events + [e];
    }

    /** Records a step of the running flow that its call ended as the answers say. */
    ghost method Answered(before: State)
      requires before == Run(first, events) && !before.flow.Idle? && !Issues(before.flow)
      requires Now() == Advanced(before, AnswerAt(before.flow, answers), answers.usedElsewhere, 0)
      modifies this`events
      ensures Valid() && old(events) <= events
      ensures Drive(Now(), answers) == Drive(before, answers)
    {
      Record(before, Advance(AnswerAt(before.flow, answers), answers.usedElsewhere, 0));
    }

    /** Ends as the calls say. It succeeds when there is no such request, when the
        request still waits, or when it is gone and no other identity had the address;
        in that last case the result is a conflict. */
    method ReconcileRequest(id: nat) returns (result: Result)
      requires Valid() && flow.Idle?
      modifies this
      ensures Valid() && flow.Idle? && first == old(first) && old(events) <= events && clock == old(clock)
      ensures result.Ok? ==> row.None? || row.value.id != id || Waiting(Now(), row.value)
      ensures old(row).None? || old(row).value.id != id || (Waiting(old(Now()), old(row).value) && !answers.load.Failed?) ==>
                result.Ok? && Now() == old(Now())
      ensures old(row).Some? && old(row).value.id == id ==>
                && Now() == Drive(At(old(Now()), ReconcileLoad(old(row).value)), answers)
                && var r, i := old(row).value, old(identity);
                   var clash := i.Some? && i.value.current == r.previous && i.value.pending == r.requested && r.previous != r.requested
                                && HasVerified(i.value, r.requested) && (answers.usedElsewhere || answers.write.Conflict?);
                   && (result.ConflictError? <==> row.None? && clash)
                   && (result.Ok? <==> (row.None? && !clash) || (Waiting(old(Now()), r) && !answers.load.Failed?))
    {
      if row.None? || row.value.id != id {
        return Ok;
      }
      var request := row.value;
      ghost var before := Now();
      flow := ReconcileLoad(request);
      Record(before, BeginReconcile(id));
      result := Reconcile(request);
    }

    /** After Kratos stored a verification: as above for the request of that pair. With
        no such request, the change must be over already. */
    method VerifyAndReconcile(previous: Email, requested: Email) returns (result: Result)
      requires Valid() && flow.Idle?
      modifies this
      ensures Valid() && flow.Idle? && first == old(first) && old(events) <= events && clock == old(clock)
      ensures previous == NO_EMAIL || requested == NO_EMAIL ==> result.Error? && Now() == old(Now())
      ensures previous != NO_EMAIL && requested != NO_EMAIL ==>
                if old(row).Some? && old(row).value.previous == previous && old(row).value.requested == requested
                then && Now() == Drive(At(old(Now()), ReconcileLoad(old(row).value)), answers)
                     && result == EndResult(old(Now()), old(row).value, answers, row)
                else && Now() == old(Now())
                     && (result.Ok? <==> !answers.load.Failed? && identity.Some? && identity.value.current == requested
                                         && HasVerified(identity.value, requested))
    {
      if previous == NO_EMAIL || requested == NO_EMAIL {
        return Error;
      }
      if row.Some? && row.value.previous == previous && row.value.requested == requested {
        var request := row.value;
        ghost var before := Now();
        flow := ReconcileLoad(request);
        Record(before, BeginVerify(previous, requested));
        result := Reconcile(request);
        return;
      }
      if !answers.load.Failed? && identity.Some? && identity.value.current == requested && HasVerified(identity.value, requested) {
        return Ok;
      }
      return Error;
    }

    method Reconcile(request: Request) returns (result: Result)
      requires Valid() && flow == ReconcileLoad(request) && row == Some(request)
      modifies this
      ensures Valid() && flow.Idle? && first == old(first) && old(events) <= events && clock == old(clock)
      ensures Now() == Drive(old(Now()), answers)
      ensures result == EndResult(old(Now()), request, answers, row)
    {
      ghost var before := Now();
      if answers.load.Failed? {
        flow := Idle;
        Answered(before);
        return Error;
      }
      flow := Decided(before, request).flow;
      Answered(before);
      DecidedIdleIff(before, request);
      if identity.None? {
        var ok := Delete(request);
        return if ok then Ok else Error;
      }
      var i := identity.value;
      if i.current == request.requested {
        result := CanonicalRequested(request, i);
      } else if i.current != request.previous {
        result := Drop(request, Some(i));
      } else if i.pending == request.requested && HasVerified(i, request.requested) {
        result := VerifiedPending(request, i);
      } else if i.pending == request.requested {
        if clock - request.createdAt < PENDING_LIFETIME {
          return Ok;
        }
        result := Drop(request, Some(i));
      } else if clock - request.createdAt < PROOF_GRACE {
        return Ok;
      } else {
        result := Drop(request, Some(i));
      }
    }

    method CanonicalRequested(request: Request, i: Identity) returns (result: Result)
      requires Valid() && identity == Some(i) && i.current == request.requested && row == Some(request)
      requires flow == if Stuck(Now(), request) then Idle else if i.pending == NO_EMAIL then CompleteLoad(request) else ClearPending(request)
      modifies this
      ensures Valid() && flow.Idle? && first == old(first) && old(events) <= events && clock == old(clock)
      ensures Now() == Drive(old(Now()), answers)
      ensures result == if row.None? then Ok else Error
    {
      if !HasVerified(i, request.requested) || (i.pending != NO_EMAIL && i.pending != request.requested) {
        return Error;
      }
      if i.pending != NO_EMAIL {
        ghost var before := Now();
        if answers.write.Done? || answers.write.DoneButFailed? {
          identity := Some(i.(pending := NO_EMAIL));
        }
        flow := if answers.write.Done? then CompleteLoad(request) else Idle;
        Answered(before);
        if !answers.write.Done? {
          return Error;
        }
      }
      var ok := Complete(request);
      result := if ok then Ok else Error;
    }

    method VerifiedPending(request: Request, i: Identity) returns (result: Result)
      requires Valid() && identity == Some(i) && HasVerified(i, request.requested) && flow == CheckUsed(request, i) && row == Some(request)
      modifies this
      ensures Valid() && flow.Idle? && first == old(first) && old(events) <= events && clock == old(clock)
      ensures Now() == Drive(old(Now()), answers)
      ensures result == if row.Some? then Error else if answers.usedElsewhere || answers.write.Conflict? then ConflictError else Ok
    {
      ghost var before := Now();
      if answers.find.Failed? {
        flow := Idle;
        Answered(before);
        return Error;
      }
      flow := if answers.usedElsewhere then ClearAddress(request, Some(i)) else ApplyWrite(request, i);
      Answered(before);
      if answers.usedElsewhere {
        result := Drop(request, Some(i));
        return if result.Ok? then ConflictError else result;
      }
      before := Now();
      if answers.write.Done? || answers.write.DoneButFailed? {
        identity := Some(i.(current := request.requested, pending := NO_EMAIL));
        applied := applied + {request};
      }
      flow := Applied(before, request, i, answers.write).flow;
      Answered(before);
      match answers.write {
        case Done =>
          var ok := Complete(request);
          result := if ok then Ok else Error;
        case Conflict => result := ResolveConflict(request);
        case _ => result := Error;
      }
    }

    /** Another identity took the address: it is released and the request dropped. */
    method ResolveConflict(request: Request) returns (result: Result)
      requires Valid() && flow == ConflictReload(request) && row == Some(request)
      modifies this
      ensures Valid() && flow.Idle? && first == old(first) && old(events) <= events && clock == old(clock)
      ensures Now() == Drive(old(Now()), answers)
      ensures result == if row.None? then ConflictError else Error
    {
      ghost var before := Now();
      if answers.reload.Failed? {
        flow := Idle;
        Answered(before);
        return Error;
      }
      flow := ClearAddress(request, identity);
      Answered(before);
      result := Drop(request, identity);
      return if result.Ok? then ConflictError else result;
    }

    /** Releases the requested address, then deletes the request. */
    method Drop(request: Request, snapshot: Option<Identity>) returns (result: Result)
      requires Valid() && flow == ClearAddress(request, snapshot) && snapshot == identity && row == Some(request)
      modifies this
      ensures Valid() && flow.Idle? && first == old(first) && old(events) <= events && clock == old(clock)
      ensures Now() == Drive(old(Now()), answers)
      ensures result == if row.None? then Ok else Error
    {
      ghost var before := Now();
      if snapshot.None? || !NeedsClearing(snapshot.value, request.requested) {
        flow := Finish(request);
        Answered(before);
      } else {
        if answers.release.Done? || answers.release.DoneButFailed? {
          identity := Some(Cleared(identity.value, snapshot.value, request.requested));
        }
        flow := if answers.release.Done? then Finish(request) else Idle;
        Answered(before);
        if !answers.release.Done? {
          return Error;
        }
      }
      var ok := Delete(request);
      result := if ok then Ok else Error;
    }

    /** Checks that the identity converged, publishes the notice, deletes the request. */
    method Complete(request: Request) returns (ok: bool)
      requires Valid() && flow == CompleteLoad(request) && row == Some(request)
      modifies this
      ensures Valid() && flow.Idle? && first == old(first) && old(events) <= events && clock == old(clock)
      ensures Now() == Drive(old(Now()), answers)
      ensures ok <==> row.None?
    {
      ghost var before := Now();
      if answers.verify.Failed? || identity.None? || !Converged(identity.value, request) {
        flow := Idle;
        Answered(before);
        return false;
      }
      flow := Publish(request);
      Answered(before);
      before := Now();
      if answers.publish.Done? || answers.publish.DoneButFailed? {
        notices := notices + {request};
      }
      flow := if answers.publish.Done? then Finish(request) else Idle;
      Answered(before);
      if !answers.publish.Done? {
        return false;
      }
      ok := Delete(request);
    }

    method Delete(request: Request) returns (ok: bool)
      requires Valid() && flow == Finish(request) && row == Some(request)
      modifies this
      ensures Valid() && flow.Idle? && first == old(first) && old(events) <= events && clock == old(clock)
      ensures Now() == Drive(old(Now()), answers)
      ensures ok <==> row.None?
    {
      ghost var before := Now();
      ok := !answers.delete.Failed?;
      if ok {
        row := None;
      }
      flow := Idle;
      Answered(before);
    }

    // ----- asking for a change -----

    /** The settings hook: records the request before Kratos may store the pending
        address, or cancels it. */
    method StageOrCancel(stage: Stage, freshId: nat) returns (result: Result)
      requires Valid() && flow.Idle? && Fresh(Now(), freshId)
      modifies this
      ensures Valid() && flow.Idle? && first == old(first) && old(events) <= events
      ensures Now() == old(Now()).(row := row, issued := issued)
      ensures !result.Ok? ==> result.Error? && Now() == old(Now())
      ensures var cancel := stage.candidate == NO_EMAIL || stage.candidate == stage.current;
              var same := old(row).Some? && old(row).value.previous == stage.current && old(row).value.requested == stage.candidate;
              && (result.Ok? <==>
                    && identity.Some? && stage.current != NO_EMAIL
                    && identity.value.current == stage.current && identity.value.pending == stage.currentPending
                    && var inFlight := old(row).Some? &&
                         (HasVerified(identity.value, old(row).value.requested) ||
                          if stage.currentPending != NO_EMAIL then HasVerified(identity.value, stage.currentPending) else stage.pendingVerified);
                       if cancel then !inFlight else !HasVerified(identity.value, stage.candidate) && (same || !inFlight))
              && (result.Ok? ==> row == if cancel then None else if same then old(row)
                                        else Some(Request(freshId, stage.current, stage.candidate, clock)))
    {
      if identity.None? || !StageMatches(identity.value, stage) {
        return Error;
      }
      var seen := identity.value;
      ghost var before := Now();
      flow := StagePersist(stage, seen);
      Record(before, BeginStage(stage));
      before := Now();
      var pendingVerified := stage.pendingVerified;
      if stage.currentPending != NO_EMAIL {
        pendingVerified := HasVerified(seen, stage.currentPending);
      }
      result := Ok;
      if stage.candidate == NO_EMAIL || stage.candidate == stage.current {
        result := CancelStage(seen, pendingVerified);
      } else if HasVerified(seen, stage.candidate) {
        result := Error;
      } else {
        result := ReplaceStage(stage, seen, pendingVerified, freshId);
      }
      flow := Idle;
      Record(before, Advance(Done, false, freshId));
    }

    method CancelStage(seen: Identity, pendingVerified: bool) returns (result: Result)
      modifies this`row
      ensures row == if old(row).Some? && !pendingVerified && !HasVerified(seen, old(row).value.requested) then None else old(row)
      ensures result == if row.None? then Ok else Error
    {
      result := Ok;
      if row.Some? {
        if pendingVerified || HasVerified(seen, row.value.requested) {
          result := Error;
        } else {
          row := None;
        }
      }
    }

    method ReplaceStage(stage: Stage, seen: Identity, pendingVerified: bool, freshId: nat) returns (result: Result)
      modifies this`row, this`issued
      ensures var r := Request(freshId, stage.current, stage.candidate, clock);
              var same := old(row).Some? && old(row).value.previous == stage.current && old(row).value.requested == stage.candidate;
              var refused := old(row).Some? && (pendingVerified || HasVerified(seen, old(row).value.requested));
              if same || refused then row == old(row) && issued == old(issued) && result == (if same then Ok else Error)
              else row == Some(r) && issued == old(issued) + {r} && result.Ok?
    {
      if row.Some? {
        if row.value.previous == stage.current && row.value.requested == stage.candidate {
          return Ok;
        }
        if pendingVerified || HasVerified(seen, row.value.requested) {
          return Error;
        }
        row := None;
      }
      row := Some(Request(freshId, stage.current, stage.candidate, clock));
      issued := issued + {row.value};
      return Ok;
    }

    /** Makes an address canonical that is proven already: the request is committed
        first, then the identity is written, then the change is completed. */
    method ApplyProvenCandidate(target: Email, usable: bool, freshId: nat) returns (result: Result)
      requires Valid() && flow.Idle? && Fresh(Now(), freshId)
      modifies this
      ensures Valid() && flow.Idle? && first == old(first) && old(events) <= events && clock == old(clock)
      ensures var i := old(identity);
              if i.None? || !usable || target == NO_EMAIL || i.value.current == NO_EMAIL then result.Error? && Now() == old(Now())
              else && Now() == Drive(ProvenStaged(old(Now()).(proven := old(proven) + {target}), target, i.value, freshId), answers)
                   && result == if row.Some? then Error
                                else if i.value.current != target && answers.write.Conflict? then ConflictError else Ok
    {
      if identity.None? || !usable || target == NO_EMAIL || identity.value.current == NO_EMAIL {
        return Error;
      }
      var seen := identity.value;
      ghost var before := Now();
      proven := proven + {target};
      flow := ProvenStage(target, seen);
      Record(before, BeginProven(target, usable));
      if seen.current == target {
        result := KeepCanonical(target, seen, freshId);
        return;
      }
      result := StageProven(target, seen, freshId);
      if result.Ok? {
        result := WriteProven(row.value, seen);
      }
    }

    /** Commits the request of a proven address, unless another one's proof is in flight. */
    method StageProven(target: Email, seen: Identity, freshId: nat) returns (result: Result)
      requires Valid() && flow == ProvenStage(target, seen) && seen.current != target && identity == Some(seen) && Fresh(Now(), freshId)
      modifies this
      ensures Valid() && first == old(first) && old(events) <= events && clock == old(clock) && identity == old(identity)
      ensures Now() == ProvenStaged(old(Now()), target, seen, freshId)
      ensures row.Some? && if result.Ok? then flow == ProvenWrite(row.value, seen) else result.Error? && flow.Idle?
    {
      ghost var before := Now();
      result := Ok;
      var same := row.Some? && row.value.previous == seen.current && row.value.requested == target;
      if row.Some? && !same && HasVerified(seen, row.value.requested) {
        result := Error;
        flow := Idle;
      } else {
        if !same {
          row := Some(Request(freshId, seen.current, target, clock));
          issued := issued + {row.value};
        }
        flow := ProvenWrite(row.value, seen);
      }
      Record(before, Advance(Done, false, freshId));
    }

    /** The address is canonical already: an active request for it is completed, and
        one for another address is dropped unless its proof is in flight. */
    method KeepCanonical(target: Email, seen: Identity, ghost freshId: nat) returns (result: Result)
      requires Valid() && flow == ProvenStage(target, seen) && seen.current == target && Fresh(Now(), freshId)
      modifies this
      ensures Valid() && flow.Idle? && first == old(first) && old(events) <= events && clock == old(clock)
      ensures Now() == Drive(ProvenStaged(old(Now()), target, seen, freshId), answers)
      ensures result == if row.None? then Ok else Error
    {
      ghost var before := Now();
      if row.Some? && row.value.requested == target {
        flow := CompleteLoad(row.value);
        Record(before, Advance(Done, false, freshId));
        var ok := Complete(row.value);
        return if ok then Ok else Error;
      }
      result := Ok;
      if row.Some? {
        if HasVerified(seen, row.value.requested) {
          result := Error;
        } else {
          row := None;
        }
      }
      flow := Idle;
      Record(before, Advance(Done, false, freshId));
    }

    method WriteProven(request: Request, seen: Identity) returns (result: Result)
      requires Valid() && flow == ProvenWrite(request, seen) && row == Some(request) && identity == Some(seen)
      modifies this
      ensures Valid() && flow.Idle? && first == old(first) && old(events) <= events && clock == old(clock)
      ensures Now() == Drive(old(Now()), answers)
      ensures result == if row.Some? then Error else if answers.write.Conflict? then ConflictError else Ok
    {
      ghost var before := Now();
      if answers.write.Done? || answers.write.DoneButFailed? {
        identity := Some(seen.(current := request.requested, pending := NO_EMAIL,
                               addresses := Materialized(seen.addresses, request.requested)));
        applied := applied + {request};
      }
      flow := ProvenWritten(before, request, seen, answers.write).flow;
      Answered(before);
      match answers.write {
        case Done =>
          var ok := Complete(request);
          result := if ok then Ok else Error;
        case Conflict =>
          var ok := Delete(request);
          result := if ok then ConflictError else Error;
        case _ => result := Error;
      }
    }
  }
}
