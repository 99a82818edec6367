/** How the flows of an email change end: what is left of the identity, the request
    and the notices, for every way the calls to Kratos, the mailer and the table end. */
module EmailOutcomes {
  import opened Lists
  import opened EmailChange
  import opened EmailReconciling

  /** One step, then the rest. */
  lemma DriveStep(s: State, answers: Answers)
    requires !s.flow.Idle?
    ensures Drive(s, answers) == Drive(Advanced(s, AnswerAt(s.flow, answers), answers.usedElsewhere, 0), answers)
  {
  }

  lemma DriveIdle(s: State, answers: Answers)
    requires s.flow.Idle?
    ensures Drive(s, answers) == s
  {
  }

  predicate TookEffect(o: Outcome) { o.Done? || o.DoneButFailed? }

  // ----- the ends of all flows -----

  /** The request goes unless its deletion fails. */
  lemma DeleteEnds(s: State, r: Request, answers: Answers)
    requires s.flow == Finish(r) && s.row == Some(r)
    ensures Drive(s, answers) == s.(flow := Idle, row := if answers.delete.Failed? then Some(r) else None)
  {
    DriveStep(s, answers);
  }

  /** A converged identity: the notice is published, and the request deleted after it. */
  lemma CompleteEnds(s: State, r: Request, i: Identity, answers: Answers)
    requires s.flow == CompleteLoad(r) && s.row == Some(r) && s.identity == Some(i)
    requires i.current == r.requested && i.pending == NO_EMAIL && HasVerified(i, r.requested)
    ensures Drive(s, answers) == s.(flow := Idle,
              notices := if !answers.verify.Failed? && TookEffect(answers.publish) then s.notices + {r} else s.notices,
              row := if !answers.verify.Failed? && answers.publish.Done? && !answers.delete.Failed? then None else Some(r))
  {
    DriveStep(s, answers);
    if !answers.verify.Failed? {
      var t := At(s, Publish(r));
      DriveStep(t, answers);
      if answers.publish.Done? {
        DeleteEnds(s.(flow := Finish(r), notices := s.notices + {r}), r, answers);
      }
    }
  }

  /** The requested address is pending, or listed at all. */
  ghost predicate Holds(i: Identity, e: Email) {
    i.pending == e || exists a :: a in i.addresses && a.email == e
  }

  /** The address is neither pending nor listed; nothing else of the identity changed. */
  ghost predicate Released(before: Identity, after: Identity, e: Email) {
    && after.current == before.current
    && after.pending == (if before.pending == e then NO_EMAIL else before.pending)
    && forall a :: a in after.addresses <==> a in before.addresses && a.email != e
  }

  /** The request is dropped: its address is released where the identity holds it, and
      only then is the request deleted. */
  ghost predicate Dropped(s: State, r: Request, i: Identity, answers: Answers, end: State) {
    && end.identity.Some? && end == s.(flow := Idle, identity := end.identity, row := end.row)
    && (if Holds(i, r.requested) && !TookEffect(answers.release) then end.identity == Some(i)
        else Released(i, end.identity.value, r.requested))
    && end.row == if (Holds(i, r.requested) ==> answers.release.Done?) && !answers.delete.Failed? then None else Some(r)
  }

  lemma {:induction false} DropEnds(s: State, r: Request, i: Identity, answers: Answers)
    requires s.flow == ClearAddress(r, Some(i)) && s.row == Some(r) && s.identity == Some(i)
    requires i.current != r.requested && r.requested != NO_EMAIL
    ensures Dropped(s, r, i, answers, Drive(s, answers))
  {
    DriveStep(s, answers);
    ClearedFrame(i, r.requested, i.current);
    var c := Cleared(i, i, r.requested);
    assert NeedsClearing(i, r.requested) <==> Holds(i, r.requested);
    if !Holds(i, r.requested) {
      assert c == i;
      DeleteEnds(At(s, Finish(r)), r, answers);
    } else if answers.release.Done? {
      DeleteEnds(s.(flow := Finish(r), identity := Some(c)), r, answers);
    }
  }

  // ----- reconciling a request -----

  ghost function Reconciled(s: State, r: Request, answers: Answers): State {
    Drive(At(s, ReconcileLoad(r)), answers)
  }

  /** Nothing changes when the identity cannot be read, while the request waits for
      its proof, and when the change is stuck. */
  lemma {:induction false} NothingChanges(s: State, r: Request, answers: Answers)
    requires answers.load.Failed? || Waiting(s, r) || Stuck(s, r)
    ensures Reconciled(s, r, answers) == At(s, Idle)
  {
    DriveStep(At(s, ReconcileLoad(r)), answers);
    DecidedIdleIff(At(s, ReconcileLoad(r)), r);
  }

  /** The identity is gone: so is the request. */
  lemma {:induction false} GoneEnds(s: State, r: Request, answers: Answers)
    requires s.row == Some(r) && s.identity.None? && !answers.load.Failed?
    ensures Reconciled(s, r, answers) == s.(flow := Idle, row := if answers.delete.Failed? then Some(r) else None)
  {
    DriveStep(At(s, ReconcileLoad(r)), answers);
    DeleteEnds(At(s, Finish(r)), r, answers);
  }

  /** The requested address is canonical and verified already: a pending copy of it is
      cleared, then the notice is published and the request deleted. */
  lemma {:induction false} CanonicalEnds(s: State, r: Request, i: Identity, answers: Answers)
    requires s.row == Some(r) && s.identity == Some(i) && !answers.load.Failed?
    requires i.current == r.requested && HasVerified(i, r.requested) && (i.pending == NO_EMAIL || i.pending == r.requested)
    ensures var cleared := i.pending == NO_EMAIL || answers.write.Done?;
            var told := cleared && !answers.verify.Failed?;
            Reconciled(s, r, answers) == s.(flow := Idle,
              identity := Some(if TookEffect(answers.write) then i.(pending := NO_EMAIL) else i),
              notices := if told && TookEffect(answers.publish) then s.notices + {r} else s.notices,
              row := if told && answers.publish.Done? && !answers.delete.Failed? then None else Some(r))
  {
    DriveStep(At(s, ReconcileLoad(r)), answers);
    if i.pending == NO_EMAIL {
      CompleteEnds(At(s, CompleteLoad(r)), r, i, answers);
    } else {
      DriveStep(At(s, ClearPending(r)), answers);
      if answers.write.Done? {
        var j := i.(pending := NO_EMAIL);
        CompleteEnds(s.(flow := CompleteLoad(r), identity := Some(j)), r, j, answers);
      }
    }
  }

  /** The address waits, proven, to become canonical. */
  predicate ProvenPending(i: Identity, r: Request) {
    i.current == r.previous && i.pending == r.requested && r.previous != r.requested && HasVerified(i, r.requested)
  }

  /** No other identity has the proven address and the write goes through: the address
      becomes canonical, the notice is published, the request deleted, in this order.
      An error after the write leaves the request for the next reconcile. */
  lemma {:induction false} ProvenBecomesCanonical(s: State, r: Request, i: Identity, answers: Answers)
    requires s.row == Some(r) && s.identity == Some(i) && !answers.load.Failed?
    requires ProvenPending(i, r) && !answers.find.Failed? && !answers.usedElsewhere && TookEffect(answers.write)
    ensures var told := answers.write.Done? && !answers.verify.Failed?;
            Reconciled(s, r, answers) == s.(flow := Idle,
              identity := Some(Identity(r.requested, NO_EMAIL, i.addresses)),
              applied := s.applied + {r},
              notices := if told && TookEffect(answers.publish) then s.notices + {r} else s.notices,
              row := if told && answers.publish.Done? && !answers.delete.Failed? then None else Some(r))
  {
    DriveStep(At(s, ReconcileLoad(r)), answers);
    DriveStep(At(s, CheckUsed(r, i)), answers);
    DriveStep(At(s, ApplyWrite(r, i)), answers);
    var j := i.(current := r.requested, pending := NO_EMAIL);
    if answers.write.Done? {
      CompleteEnds(Written(At(s, CompleteLoad(r)), r, j), r, j, answers);
    }
  }

  /** Another identity has the proven address, found before the write or by it: the
      canonical email stays, the address is released and the request dropped. */
  lemma {:induction false} ProvenConflicts(s: State, r: Request, i: Identity, answers: Answers)
    requires s.row == Some(r) && s.identity == Some(i) && !answers.load.Failed?
    requires ProvenPending(i, r) && !answers.find.Failed?
    requires answers.usedElsewhere || (answers.write.Conflict? && !answers.reload.Failed?)
    ensures Dropped(s, r, i, answers, Reconciled(s, r, answers))
  {
    DriveStep(At(s, ReconcileLoad(r)), answers);
    DriveStep(At(s, CheckUsed(r, i)), answers);
    if !answers.usedElsewhere {
      DriveStep(At(s, ApplyWrite(r, i)), answers);
      DriveStep(At(s, ConflictReload(r)), answers);
    }
    DropEnds(At(s, ClearAddress(r, Some(i))), r, i, answers);
  }

  /** The search or the write fails, or the identity cannot be read after a conflict:
      nothing changes. */
  lemma {:induction false} ProvenFails(s: State, r: Request, i: Identity, answers: Answers)
    requires s.identity == Some(i) && ProvenPending(i, r)
    requires answers.find.Failed? ||
             (!answers.usedElsewhere && (answers.write.Failed? || (answers.write.Conflict? && answers.reload.Failed?)))
    ensures Reconciled(s, r, answers) == At(s, Idle)
  {
    DriveStep(At(s, ReconcileLoad(r)), answers);
    if !answers.load.Failed? {
      DriveStep(At(s, CheckUsed(r, i)), answers);
      if !answers.find.Failed? {
        DriveStep(At(s, ApplyWrite(r, i)), answers);
        if answers.write.Conflict? {
          DriveStep(At(s, ConflictReload(r)), answers);
        }
      }
    }
  }

  /** The canonical email is a third one, or the request outlived its time unproven:
      the address is released and the request dropped. */
  lemma {:induction false} OutdatedEnds(s: State, r: Request, i: Identity, answers: Answers)
    requires s.row == Some(r) && s.identity == Some(i) && !answers.load.Failed? && r.requested != NO_EMAIL
    requires i.current != r.requested && !ProvenPending(i, r)
    requires i.current == r.previous ==> s.clock - r.createdAt >= if i.pending == r.requested then 7 * 24 * 60 * 60 else 15 * 60
    ensures Dropped(s, r, i, answers, Reconciled(s, r, answers))
  {
    DriveStep(At(s, ReconcileLoad(r)), answers);
    DropEnds(At(s, ClearAddress(r, Some(i))), r, i, answers);
  }

  // ----- selecting a proven address -----

  /** One verified entry of the address, in place of the first one or at the end;
      every other entry stays where it is. */
  lemma {:induction false} MaterializedFrame(addresses: seq<Address>, e: Email) returns (at: nat)
    ensures at <= |addresses| && forall k :: 0 <= k < at ==> addresses[k].email != e
    ensures at < |addresses| ==> addresses[at].email == e
    ensures Materialized(addresses, e) == if at < |addresses| then addresses[at := Address(e, true)] else addresses + [Address(e, true)]
  {
    if addresses == [] || addresses[0].email == e {
      at := 0;
    } else {
      var k := MaterializedFrame(addresses[1..], e);
      at := k + 1;
      forall j | 0 <= j < at ensures addresses[j].email != e {
        assert j > 0 ==> addresses[1..][j - 1].email != e;
      }
    }
  }

  /** The request selecting a proven address commits: the active one when it is for the
      same change, else a new one. */
  function Selecting(s: State, i: Identity, target: Email, freshId: nat): Request {
    if s.row.Some? && s.row.value.previous == i.current && s.row.value.requested == target then s.row.value
    else Request(freshId, i.current, target, s.clock)
  }

  /** A proof in flight for another address is not overtaken. */
  lemma {:induction false} SelectRefused(s: State, i: Identity, target: Email, freshId: nat, answers: Answers)
    requires s.row.Some? && HasVerified(i, s.row.value.requested) && s.row.value.requested != target
    ensures Drive(ProvenStaged(s, target, i, freshId), answers) == At(s, Idle)
  {
    DriveIdle(At(s, Idle), answers);
  }

  /** The proven address becomes canonical and is listed as verified; then the notice
      is published and the request deleted. The request is committed in any case. */
  lemma {:induction false} SelectEnds(s: State, i: Identity, target: Email, freshId: nat, answers: Answers)
    requires s.identity == Some(i) && target != NO_EMAIL && i.current != target
    requires s.row.Some? && HasVerified(i, s.row.value.requested) ==> s.row.value.previous == i.current && s.row.value.requested == target
    ensures var r := Selecting(s, i, target, freshId);
            var end := Drive(ProvenStaged(s, target, i, freshId), answers);
            var told := answers.write.Done? && !answers.verify.Failed?;
            && end == s.(flow := Idle, row := end.row, identity := end.identity, notices := end.notices,
                         issued := if s.row == Some(r) then s.issued else s.issued + {r},
                         applied := if TookEffect(answers.write) then s.applied + {r} else s.applied)
            && end.identity == Some(if TookEffect(answers.write) then Identity(target, NO_EMAIL, Materialized(i.addresses, target)) else i)
            && end.notices == (if told && TookEffect(answers.publish) then s.notices + {r} else s.notices)
            && end.row == if !answers.delete.Failed? && (answers.write.Conflict? || (told && answers.publish.Done?)) then None else Some(r)
  {
    var r := Selecting(s, i, target, freshId);
    var t := ProvenStaged(s, target, i, freshId);
    assert t == s.(flow := ProvenWrite(r, i), row := Some(r), issued := if s.row == Some(r) then s.issued else s.issued + {r});
    DriveStep(t, answers);
    var j := i.(current := target, pending := NO_EMAIL, addresses := Materialized(i.addresses, target));
    MaterializedHas(i.addresses, target);
    if answers.write.Done? {
      CompleteEnds(Written(At(t, CompleteLoad(r)), r, j), r, j, answers);
    } else if answers.write.Conflict? {
      DeleteEnds(At(t, Finish(r)), r, answers);
    }
  }

  /** The address is canonical already: an active request for it is completed, one for
      an unproven other address is dropped. */
  lemma {:induction false} SelectCanonicalEnds(s: State, i: Identity, freshId: nat, answers: Answers)
    requires s.identity == Some(i) && (s.row.Some? && s.row.value.requested != i.current ==> !HasVerified(i, s.row.value.requested))
    ensures var end := Drive(ProvenStaged(s, i.current, i, freshId), answers);
            if s.row.None? || s.row.value.requested != i.current then end == s.(flow := Idle, row := None)
            else
              var told := !answers.verify.Failed? && i.pending == NO_EMAIL && HasVerified(i, i.current);
              end == s.(flow := Idle,
                notices := if told && TookEffect(answers.publish) then s.notices + {s.row.value} else s.notices,
                row := if told && answers.publish.Done? && !answers.delete.Failed? then None else s.row)
  {
    if s.row.Some? && s.row.value.requested == i.current {
      var r := s.row.value;
      if i.pending == NO_EMAIL && HasVerified(i, i.current) {
        CompleteEnds(At(s, CompleteLoad(r)), r, i, answers);
      } else {
        DriveStep(At(s, CompleteLoad(r)), answers);
      }
    } else {
      DriveIdle(ProvenStaged(s, i.current, i, freshId), answers);
    }
  }
}
