/** What every interleaving of account flows keeps: an effective administrator, no
    activation while a deletion is pending, and deletion commands enqueued once. */
module AccountSafety {
  import opened Lists
  import opened AccountLifecycle

  // ----- what a flow has established -----

  ghost predicate RoleInv(w: World, f: Flow)
    requires f.task.ReplaceRole?
  {
    var ReplaceRole(_, target, role) := f.task;
    match f.pc
    case Checked(previous) => previous == RoleOf(w, target) && (role == Admin || previous == Admin ==> OtherAdmin(w, target))
    case Written(previous) => role == RoleOf(w, target) && (role == Admin || previous == Admin ==> OtherAdmin(w, target))
    case _ => true
  }

  ghost predicate FlowInv(w: World, f: Flow) {
    && Known(w, f.task)
    && (f.pc.Locked? ||
        match f.task
        case ReplaceRole(_, _, _) => RoleInv(w, f)
        case Confirm(target, request) =>
          && IsRequest(w.accounts[target], request) && w.accounts[target].deletion.value.life.ConfirmationPending?
          && (f.pc.Fenced? || RemovalAllowed(w, target))
        case Immediate(target) => f.pc.Fenced? || RemovalAllowed(w, target)
        case Dispatch(target, request) =>
          IsRequest(w.accounts[target], request) && Pending(w.accounts[target])
        case Deactivate(target, _) => Pending(w.accounts[target])
        case Activate(target, _) => !Pending(w.accounts[target])
        case Ban(target) => RoleOf(w, target) != Admin
        case Unban(target) => !Pending(w.accounts[target])
        case ExpireBan(target) => !Pending(w.accounts[target])
        case _ => true)
  }

  /** Only account `id` changed. */
  ghost predicate SameElsewhere(w: World, v: World, id: AccountId) {
    && v.accounts.Keys == w.accounts.Keys
    && forall x :: x != id ==> RoleOf(v, x) == RoleOf(w, x) && (x in w.accounts ==> v.accounts[x] == w.accounts[x])
  }

  /** No effective administrator is lost. */
  ghost predicate KeepsAdmins(w: World, v: World) {
    forall x :: Effective(w, x) ==> Effective(v, x)
  }

  lemma {:induction false} OthersStay(w: World, v: World, id: AccountId)
    requires SameElsewhere(w, v, id)
    ensures OtherAdmin(w, id) ==> OtherAdmin(v, id) && HasAdmin(v)
  {
    if OtherAdmin(w, id) {
      var x :| x in w.accounts && x != id && Effective(w, x);
      assert Effective(v, x);
    }
  }

  lemma {:induction false} OtherOf(w: World, id: AccountId)
    requires HasAdmin(w)
    ensures Effective(w, id) || OtherAdmin(w, id)
  {
    var x :| Effective(w, x);
  }

  /** A change at `id` that may lose it keeps an administrator if another one is there,
      or if `id` was not effective. */
  lemma {:induction false} AdminStays(w: World, v: World, id: AccountId)
    requires HasAdmin(w) && SameElsewhere(w, v, id) && (OtherAdmin(w, id) || !Effective(w, id) || Effective(v, id))
    ensures HasAdmin(v)
  {
    OtherOf(w, id);
    OthersStay(w, v, id);
  }

  lemma {:induction false} LocalKeeps(w: World, v: World, id: AccountId)
    requires SameElsewhere(w, v, id) && (Effective(w, id) ==> Effective(v, id))
    ensures KeepsAdmins(w, v)
  {
  }

  // ----- a flow's own step -----

  /** What a step owes: it changes its target only, keeps an administrator, loses none
      unless the flow holds the administrator fence, and carries on what it established. */
  ghost predicate StepKeeps(w: World, f: Flow, adminFree: bool, after: After) {
    && SameElsewhere(w, after.world, f.task.target) && HasAdmin(after.world)
    && (!HoldsAdminFence(f) ==> KeepsAdmins(w, after.world))
    && (after.flow.Some? ==>
          && after.flow.value.task == f.task && FlowInv(after.world, after.flow.value)
          && (HoldsAdminFence(after.flow.value) ==> HoldsAdminFence(f) || adminFree))
  }

  lemma {:induction false} RoleStepKeeps(w: World, f: Flow, adminFree: bool, ok: bool)
    requires FlowInv(w, f) && HasAdmin(w) && f.task.ReplaceRole?
    ensures StepKeeps(w, f, adminFree, RoleStep(w, f, adminFree, ok))
  {
    var after := RoleStep(w, f, adminFree, ok);
    var target := f.task.target;
    OtherOf(w, target);
    OthersStay(w, after.world, target);
    AdminStays(w, after.world, target);
  }

  lemma {:induction false} DeletionStepKeeps(w: World, f: Flow, adminFree: bool, ok: bool, freshId: nat)
    requires FlowInv(w, f) && HasAdmin(w) && (f.task.Confirm? || f.task.Immediate? || f.task.Dispatch?)
    ensures StepKeeps(w, f, adminFree, StepOf(w, f, adminFree, ok, false, freshId))
  {
    var after := StepOf(w, f, adminFree, ok, false, freshId);
    AdminStays(w, after.world, f.task.target);
  }

  lemma {:induction false} RequestStepKeeps(w: World, f: Flow, ok: bool, freshId: nat)
    requires FlowInv(w, f) && HasAdmin(w)
    requires f.task.RequestDeletion? || f.task.StartRecovery? || f.task.Cancel? || f.task.Recover?
    ensures StepKeeps(w, f, false, End(RequestStep(w, f.task, ok, freshId)))
  {
    var v := RequestStep(w, f.task, ok, freshId);
    LocalKeeps(w, v, f.task.target);
    AdminStays(w, v, f.task.target);
  }

  lemma {:induction false} IdentityStepKeeps(w: World, f: Flow, ok: bool, ready: bool)
    requires FlowInv(w, f) && HasAdmin(w)
    requires f.task.Deactivate? || f.task.Activate? || f.task.Ban? || f.task.Unban? || f.task.ExpireBan?
    ensures StepKeeps(w, f, false, IdentityStep(w, f, ok, ready))
  {
    var v := IdentityStep(w, f, ok, ready).world;
    LocalKeeps(w, v, f.task.target);
    AdminStays(w, v, f.task.target);
  }

  lemma {:induction false} OwnStep(w: World, f: Flow, adminFree: bool, ok: bool, ready: bool, freshId: nat)
    requires FlowInv(w, f) && HasAdmin(w)
    ensures StepKeeps(w, f, adminFree, StepOf(w, f, adminFree, ok, ready, freshId))
  {
    match f.task
    case ReplaceRole(_, _, _) => RoleStepKeeps(w, f, adminFree, ok);
    case Confirm(_, _) => DeletionStepKeeps(w, f, adminFree, ok, freshId);
    case Immediate(_) => DeletionStepKeeps(w, f, adminFree, ok, freshId);
    case Dispatch(_, _) => DeletionStepKeeps(w, f, adminFree, ok, freshId);
    case RequestDeletion(_) => RequestStepKeeps(w, f, ok, freshId);
    case StartRecovery(_) => RequestStepKeeps(w, f, ok, freshId);
    case Cancel(_, _) => RequestStepKeeps(w, f, ok, freshId);
    case Recover(_, _) => RequestStepKeeps(w, f, ok, freshId);
    case _ => IdentityStepKeeps(w, f, ok, ready);
  }

  // ----- the other flows -----

  lemma {:induction false} AdminsMonotone(w: World, v: World, id: AccountId)
    requires KeepsAdmins(w, v)
    ensures OtherAdmin(w, id) ==> OtherAdmin(v, id)
    ensures HasAdmin(w) ==> HasAdmin(v)
  {
    if OtherAdmin(w, id) {
      var x :| x in w.accounts && x != id && Effective(w, x);
      assert Effective(v, x);
    }
    if HasAdmin(w) {
      var x :| Effective(w, x);
      assert Effective(v, x);
    }
  }

  /** A flow keeps what it established while another account changes, as long as a
      flow that holds the administrator fence loses no administrator to others. */
  lemma {:induction false} OtherStep(w: World, v: World, id: AccountId, g: Flow)
    requires FlowInv(w, g) && SameElsewhere(w, v, id) && id !in Locks(g.task)
    requires HoldsAdminFence(g) ==> KeepsAdmins(w, v)
    ensures FlowInv(v, g)
  {
    var target := g.task.target;
    assert target in Locks(g.task);
    if HoldsAdminFence(g) {
      AdminsMonotone(w, v, target);
    }
  }

  // ----- every run -----

  ghost predicate Exclusive(flows: map<nat, Flow>) {
    && (forall j, k :: j in flows && k in flows && j != k ==> Locks(flows[j].task) !! Locks(flows[k].task))
    && (forall j, k :: j in flows && k in flows && j != k ==> !(HoldsAdminFence(flows[j]) && HoldsAdminFence(flows[k])))
  }

  ghost predicate Safe(s: State) {
    && HasAdmin(s.world) && Exclusive(s.flows)
    && forall k :: k in s.flows ==> FlowInv(s.world, s.flows[k])
  }

  /** A step keeps the fences exclusive: it takes the administrator fence only when
      that is free. */
  lemma {:induction false} ExclusiveStep(flows: map<nat, Flow>, k: nat, next: Option<Flow>)
    requires Exclusive(flows) && k in flows
    requires next.Some? ==>
               next.value.task == flows[k].task && (HoldsAdminFence(next.value) ==> HoldsAdminFence(flows[k]) || AdminFree(flows))
    ensures Exclusive(if next.Some? then flows[k := next.value] else flows - {k})
  {
  }

  lemma {:induction false} StepSafe(s: State, k: nat, ok: bool, ready: bool, freshId: nat)
    requires Safe(s)
    ensures Safe(Next(s, Step(k, ok, ready, freshId)))
  {
    if k in s.flows && Known(s.world, s.flows[k].task) && (Issues(s.flows[k].task) ==> freshId !in s.world.issued) {
      var f, free := s.flows[k], AdminFree(s.flows);
      var after := StepOf(s.world, f, free, ok, ready, freshId);
      OwnStep(s.world, f, free, ok, ready, freshId);
      ExclusiveStep(s.flows, k, after.flow);
      var t := Next(s, Step(k, ok, ready, freshId));
      forall j | j in t.flows ensures FlowInv(t.world, t.flows[j]) {
        if j != k {
          assert f.task.target in Locks(f.task);
          OtherStep(s.world, after.world, f.task.target, s.flows[j]);
        }
      }
    }
  }

  /** The account is as it was, but for onboarding. */
  ghost predicate SameAccount(w: World, v: World, id: AccountId)
    requires id in w.accounts
  {
    id in v.accounts && RoleOf(v, id) == RoleOf(w, id) && v.accounts[id].(onboarded := true) == w.accounts[id].(onboarded := true)
  }

  /** The environment only registers and onboards. */
  lemma {:induction false} EnvironmentSafe(s: State, w: World)
    requires Safe(s) && KeepsAdmins(s.world, w)
    requires forall id :: id in s.world.accounts ==> SameAccount(s.world, w, id)
    ensures Safe(s.(world := w))
  {
    var x :| Effective(s.world, x);
    assert Effective(w, x);
    forall k | k in s.flows ensures FlowInv(w, s.flows[k]) {
      var target := s.flows[k].task.target;
      AdminsMonotone(s.world, w, target);
      SameButOnboarded(s.world.accounts[target], w.accounts[target]);
    }
  }

  lemma SameButOnboarded(a: Account, b: Account)
    requires b.(onboarded := true) == a.(onboarded := true)
    ensures b.active == a.active && b.banned == a.banned && b.deletion == a.deletion
  {
    assert b.(onboarded := true).active == a.(onboarded := true).active;
    assert b.(onboarded := true).banned == a.(onboarded := true).banned;
    assert b.(onboarded := true).deletion == a.(onboarded := true).deletion;
  }

  lemma {:induction false} NextSafe(s: State, e: Event)
    requires Safe(s)
    ensures Safe(Next(s, e))
  {
    match e
    case Step(k, ok, ready, freshId) => StepSafe(s, k, ok, ready, freshId);
    case Begin(k, task) =>
    case Crash(k) =>
    case Tick(seconds) => EnvironmentSafe(s, Next(s, e).world);
    case Register(id) => EnvironmentSafe(s, Next(s, e).world);
    case Onboard(id) => EnvironmentSafe(s, Next(s, e).world);
  }

  lemma {:induction false} RunSafe(s: State, events: seq<Event>)
    requires Safe(s)
    ensures Safe(Run(s, events))
    decreases |events|
  {
    if events != [] {
      NextSafe(s, events[0]);
      RunSafe(Next(s, events[0]), events[1..]);
    }
  }

  /** Across any interleaving, with failures and crashes between steps, the effective
      administrators never run out once there is one. */
  lemma {:induction false} AdminsNeverRunOut(first: State, events: seq<Event>)
    requires Initial(first) && HasAdmin(first.world)
    ensures HasAdmin(Run(first, events).world)
  {
    RunSafe(first, events);
  }

  // ----- what may interleave -----

  /** A task touches its target, and a role change its actor too. */
  predicate Touches(task: Task, id: AccountId) {
    id == task.target || (task.ReplaceRole? && id == task.actor)
  }

  /** Any number of flows run at once: a task starts when no running one touches its
      accounts, running flows take steps in any order, any of them may crash, and only
      two flows past their first step contend for the administrator fence. */
  lemma {:induction false} FlowsInterleave(s: State, k: nat, task: Task, j: nat, seconds: nat)
    requires task.target in s.world.accounts
    requires forall i, id :: i in s.flows && Touches(s.flows[i].task, id) ==> !Touches(task, id)
    ensures k !in s.flows ==> Next(s, Begin(k, task)) == s.(flows := s.flows[k := Flow(task, Locked)])
    ensures Next(s, Crash(j)) == s.(flows := s.flows - {j})
    ensures Next(s, Tick(seconds)) == s.(world := s.world.(clock := s.world.clock + seconds))
    ensures AdminFree(s.flows) <==>
              forall i :: i in s.flows && s.flows[i].pc != Locked ==>
                var task := s.flows[i].task;
                !task.ReplaceRole? && !task.Confirm? && !task.Immediate? && !task.Dispatch?
  {
    forall i | i in s.flows ensures Locks(s.flows[i].task) !! Locks(task) {
      forall id | id in Locks(s.flows[i].task) ensures id !in Locks(task) {
        assert Touches(s.flows[i].task, id) && !Touches(task, id);
      }
    }
  }

  // ----- deletion requests, in every run -----

  /** What a flow has read of its target's deletion still holds. */
  ghost predicate ReadInv(w: World, f: Flow) {
    && Known(w, f.task)
    && (f.pc.Locked? ||
        match f.task
        case Confirm(target, request) =>
          IsRequest(w.accounts[target], request) && w.accounts[target].deletion.value.life.ConfirmationPending?
        case Dispatch(target, request) => IsRequest(w.accounts[target], request) && Due(w, target)
        case Activate(target, _) => !Pending(w.accounts[target])
        case Unban(target) => !Pending(w.accounts[target])
        case ExpireBan(target) => !Pending(w.accounts[target])
        case _ => true)
  }

  /** The account's deletion is pending and its deadline has come. */
  predicate Due(w: World, id: AccountId) {
    && id in w.accounts && Pending(w.accounts[id])
    && w.accounts[id].deletion.value.dueAt.Some? && w.accounts[id].deletion.value.dueAt.value <= w.clock
  }

  ghost predicate HasRequest(w: World, id: AccountId, request: nat) {
    id in w.accounts && IsRequest(w.accounts[id], request)
  }

  /** Requests have identifiers of their own; one whose commands were enqueued is gone
      and never was cancelled or recovered; one that was is not pending again. */
  ghost predicate RequestInv(w: World) {
    && (forall id, r :: HasRequest(w, id, r) ==> r in w.issued)
    && (forall a, b, r :: HasRequest(w, a, r) && HasRequest(w, b, r) ==> a == b)
    && (forall r :: r in w.enqueued ==> r in w.issued)
    && (forall i, j :: 0 <= i < j < |w.enqueued| ==> w.enqueued[i] != w.enqueued[j])
    && (forall r :: r in w.ended ==> r in w.issued && r !in w.enqueued)
    && (forall id, r :: HasRequest(w, id, r) ==> r !in w.enqueued)
    && (forall id, r :: HasRequest(w, id, r) && r in w.ended ==> Terminal(w.accounts[id].deletion.value.life))
  }

  predicate Terminal(life: Life) {
    life.Cancelled? || life.Recovered?
  }

  ghost predicate Orderly(s: State) {
    && Exclusive(s.flows) && RequestInv(s.world)
    && forall k :: k in s.flows ==> ReadInv(s.world, s.flows[k])
  }

  /** What a step owes here. */
  ghost predicate StepReads(w: World, f: Flow, adminFree: bool, after: After) {
    && SameElsewhere(w, after.world, f.task.target) && RequestInv(after.world) && after.world.clock == w.clock
    && (after.flow.Some? ==>
          && after.flow.value.task == f.task && ReadInv(after.world, after.flow.value)
          && (HoldsAdminFence(after.flow.value) ==> HoldsAdminFence(f) || adminFree))
  }

  /** A change of one account's request to another of the same identifier. */
  lemma {:induction false} SameRequest(w: World, v: World, id: AccountId)
    requires RequestInv(w) && id in w.accounts && SameElsewhere(w, v, id)
    requires v.issued == w.issued && v.enqueued == w.enqueued && v.ended == w.ended
    requires v.accounts[id].deletion.Some? ==>
               w.accounts[id].deletion.Some? && v.accounts[id].deletion.value.id == w.accounts[id].deletion.value.id
    requires v.accounts[id].deletion.Some? && v.accounts[id].deletion.value.id in w.ended ==> Terminal(v.accounts[id].deletion.value.life)
    ensures RequestInv(v)
  {
    forall x, r | HasRequest(v, x, r) ensures HasRequest(w, x, r) {
    }
  }

  lemma {:induction false} NewRequest(w: World, id: AccountId, d: Deletion)
    requires RequestInv(w) && id in w.accounts && d.id !in w.issued
    ensures RequestInv(Stored(w, id, w.accounts[id], d))
  {
    var v := Stored(w, id, w.accounts[id], d);
    forall x, r | HasRequest(v, x, r) ensures if x == id then r == d.id else HasRequest(w, x, r) {
    }
  }

  lemma {:induction false} EndedRequest(w: World, id: AccountId, life: Life)
    requires RequestInv(w) && id in w.accounts && w.accounts[id].deletion.Some? && Terminal(life)
    ensures RequestInv(Ended(w, id, w.accounts[id], life))
  {
    var v := Ended(w, id, w.accounts[id], life);
    var gone := w.accounts[id].deletion.value.id;
    assert HasRequest(w, id, gone);
    forall x, r | HasRequest(v, x, r) ensures HasRequest(w, x, r) {
    }
  }

  lemma {:induction false} EnqueuedRequest(w: World, id: AccountId, request: nat)
    requires RequestInv(w) && HasRequest(w, id, request) && Pending(w.accounts[id])
    ensures RequestInv(Put(w, id, w.accounts[id].(deletion := None)).(enqueued := w.enqueued + [request]))
  {
    var v := Put(w, id, w.accounts[id].(deletion := None)).(enqueued := w.enqueued + [request]);
    forall x, r | HasRequest(v, x, r) ensures HasRequest(w, x, r) && x != id {
    }
    assert forall r :: r in v.enqueued <==> r in w.enqueued || r == request;
  }

  lemma {:induction false} ConfirmStepReads(w: World, f: Flow, adminFree: bool, ok: bool)
    requires ReadInv(w, f) && RequestInv(w) && f.task.Confirm?
    ensures StepReads(w, f, adminFree, ConfirmStep(w, f, adminFree, ok))
  {
    assert f.pc.Locked? || HasRequest(w, f.task.target, f.task.request);
    SameRequest(w, ConfirmStep(w, f, adminFree, ok).world, f.task.target);
  }

  lemma {:induction false} ImmediateStepReads(w: World, f: Flow, adminFree: bool, ok: bool, freshId: nat)
    requires ReadInv(w, f) && RequestInv(w) && freshId !in w.issued && f.task.Immediate?
    ensures StepReads(w, f, adminFree, ImmediateStep(w, f, adminFree, ok, freshId))
  {
    NewRequest(w, f.task.target, Deletion(freshId, Scheduled, Some(w.clock)));
  }

  lemma {:induction false} DispatchStepReads(w: World, f: Flow, adminFree: bool, ok: bool)
    requires ReadInv(w, f) && RequestInv(w) && f.task.Dispatch?
    ensures StepReads(w, f, adminFree, DispatchStep(w, f, adminFree, ok))
  {
    if !f.pc.Locked? {
      EnqueuedRequest(w, f.task.target, f.task.request);
    }
  }

  lemma {:induction false} RequestStepReads(w: World, f: Flow, ok: bool, freshId: nat)
    requires ReadInv(w, f) && RequestInv(w) && (Issues(f.task) ==> freshId !in w.issued)
    requires f.task.RequestDeletion? || f.task.StartRecovery? || f.task.Cancel? || f.task.Recover?
    ensures StepReads(w, f, false, End(RequestStep(w, f.task, ok, freshId)))
  {
    var v := RequestStep(w, f.task, ok, freshId);
    var target := f.task.target;
    var a := w.accounts[target];
    match f.task
    case RequestDeletion(_) => NewRequest(w, target, Deletion(freshId, ConfirmationPending, None));
    case StartRecovery(_) =>
      assert Pending(a) ==> HasRequest(w, target, a.deletion.value.id);
      SameRequest(w, v, target);
    case Cancel(_, _) =>
      if a.deletion.Some? {
        EndedRequest(w, target, Cancelled);
      }
    case Recover(_, _) =>
      if a.deletion.Some? {
        EndedRequest(w, target, Recovered);
      }
  }

  lemma {:induction false} IdentityStepReads(w: World, f: Flow, ok: bool, ready: bool)
    requires ReadInv(w, f) && RequestInv(w)
    requires f.task.Deactivate? || f.task.Activate? || f.task.Ban? || f.task.Unban? || f.task.ExpireBan?
    ensures StepReads(w, f, false, IdentityStep(w, f, ok, ready))
  {
    var target := f.task.target;
    assert w.accounts[target].deletion.Some? ==> HasRequest(w, target, w.accounts[target].deletion.value.id);
    SameRequest(w, IdentityStep(w, f, ok, ready).world, target);
  }

  lemma {:induction false} RoleStepReads(w: World, f: Flow, adminFree: bool, ok: bool)
    requires ReadInv(w, f) && RequestInv(w) && f.task.ReplaceRole?
    ensures StepReads(w, f, adminFree, RoleStep(w, f, adminFree, ok))
  {
    var target := f.task.target;
    assert w.accounts[target].deletion.Some? ==> HasRequest(w, target, w.accounts[target].deletion.value.id);
    SameRequest(w, RoleStep(w, f, adminFree, ok).world, target);
  }

  lemma {:induction false} OwnStepReads(w: World, f: Flow, adminFree: bool, ok: bool, ready: bool, freshId: nat)
    requires ReadInv(w, f) && RequestInv(w) && (Issues(f.task) ==> freshId !in w.issued)
    ensures StepReads(w, f, adminFree, StepOf(w, f, adminFree, ok, ready, freshId))
  {
    match f.task
    case ReplaceRole(_, _, _) => RoleStepReads(w, f, adminFree, ok);
    case Confirm(_, _) => ConfirmStepReads(w, f, adminFree, ok);
    case Immediate(_) => ImmediateStepReads(w, f, adminFree, ok, freshId);
    case Dispatch(_, _) => DispatchStepReads(w, f, adminFree, ok);
    case RequestDeletion(_) => RequestStepReads(w, f, ok, freshId);
    case StartRecovery(_) => RequestStepReads(w, f, ok, freshId);
    case Cancel(_, _) => RequestStepReads(w, f, ok, freshId);
    case Recover(_, _) => RequestStepReads(w, f, ok, freshId);
    case _ => IdentityStepReads(w, f, ok, ready);
  }

  lemma {:induction false} StepOrderly(s: State, k: nat, ok: bool, ready: bool, freshId: nat)
    requires Orderly(s)
    ensures Orderly(Next(s, Step(k, ok, ready, freshId)))
  {
    if k in s.flows && Known(s.world, s.flows[k].task) && (Issues(s.flows[k].task) ==> freshId !in s.world.issued) {
      var f, free := s.flows[k], AdminFree(s.flows);
      var after := StepOf(s.world, f, free, ok, ready, freshId);
      OwnStepReads(s.world, f, free, ok, ready, freshId);
      ExclusiveStep(s.flows, k, after.flow);
      assert f.task.target in Locks(f.task);
      var t := Next(s, Step(k, ok, ready, freshId));
      forall j | j in t.flows ensures ReadInv(t.world, t.flows[j]) {
        if j != k {
          OtherStepReads(s.world, after.world, f.task.target, s.flows[j]);
        }
      }
    }
  }

  lemma {:induction false} OtherStepReads(w: World, v: World, id: AccountId, g: Flow)
    requires ReadInv(w, g) && SameElsewhere(w, v, id) && v.clock == w.clock && id !in Locks(g.task)
    ensures ReadInv(v, g)
  {
    assert g.task.target in Locks(g.task);
  }

  lemma {:induction false} EnvironmentOrderly(s: State, w: World)
    requires Orderly(s) && w.clock >= s.world.clock
    requires w.issued == s.world.issued && w.enqueued == s.world.enqueued && w.ended == s.world.ended
    requires forall id :: id in s.world.accounts ==> SameAccount(s.world, w, id)
    requires forall id :: id in w.accounts && id !in s.world.accounts ==> w.accounts[id].deletion.None?
    ensures Orderly(s.(world := w))
  {
    forall id | id in s.world.accounts ensures w.accounts[id].deletion == s.world.accounts[id].deletion {
      SameButOnboarded(s.world.accounts[id], w.accounts[id]);
    }
    forall id, r ensures HasRequest(w, id, r) <==> HasRequest(s.world, id, r) {
    }
  }

  lemma {:induction false} NextOrderly(s: State, e: Event)
    requires Orderly(s)
    ensures Orderly(Next(s, e))
  {
    match e
    case Step(k, ok, ready, freshId) => StepOrderly(s, k, ok, ready, freshId);
    case Begin(k, task) =>
    case Crash(k) =>
    case Tick(seconds) => EnvironmentOrderly(s, Next(s, e).world);
    case Register(id) => EnvironmentOrderly(s, Next(s, e).world);
    case Onboard(id) => EnvironmentOrderly(s, Next(s, e).world);
  }

  lemma {:induction false} RunOrderly(s: State, events: seq<Event>)
    requires Orderly(s)
    ensures Orderly(Run(s, events))
    decreases |events|
  {
    if events != [] {
      NextOrderly(s, events[0]);
      RunOrderly(Next(s, events[0]), events[1..]);
    }
  }

  lemma {:induction false} InitialOrderly(s: State)
    requires Initial(s)
    ensures Orderly(s)
  {
  }

  /** In every interleaving, no step activates an identity whose deletion is scheduled
      or in recovery confirmation, before the step or after it. */
  lemma {:induction false} ActivationRespectsDeletion(first: State, events: seq<Event>, e: Event, id: AccountId)
    requires Initial(first)
    ensures var s, t := Run(first, events), Next(Run(first, events), e);
            id in s.world.accounts && id in t.world.accounts && !s.world.accounts[id].active && t.world.accounts[id].active ==>
              !Pending(s.world.accounts[id]) && !Pending(t.world.accounts[id])
  {
    InitialOrderly(first);
    RunOrderly(first, events);
    var s := Run(first, events);
    if e.Step? && e.flow in s.flows && Known(s.world, s.flows[e.flow].task) && id in s.world.accounts && !s.world.accounts[id].active {
      StepActivates(s.world, s.flows[e.flow], AdminFree(s.flows), e.ok, e.ready, e.freshId, id);
    }
  }

  lemma {:induction false} StepActivates(w: World, f: Flow, adminFree: bool, ok: bool, ready: bool, freshId: nat, id: AccountId)
    requires ReadInv(w, f) && id in w.accounts && !w.accounts[id].active
    ensures var v := StepOf(w, f, adminFree, ok, ready, freshId).world;
            id in v.accounts && v.accounts[id].active ==> !Pending(w.accounts[id]) && !Pending(v.accounts[id])
  {
  }

  /** In every interleaving, the commands of a request are enqueued at most once, and
      never for one that was cancelled or recovered, before or after. */
  lemma {:induction false} EnqueuedOnce(first: State, events: seq<Event>)
    requires Initial(first)
    ensures var w := Run(first, events).world;
            && (forall i, j :: 0 <= i < j < |w.enqueued| ==> w.enqueued[i] != w.enqueued[j])
            && (forall r :: r in w.ended ==> r !in w.enqueued)
  {
    InitialOrderly(first);
    RunOrderly(first, events);
  }

  /** What is enqueued is a due request of an inactive identity, and the step that
      enqueues it removes it. */
  lemma {:induction false} EnqueuedWhenDue(first: State, events: seq<Event>, e: Event, r: nat)
    requires Initial(first)
    ensures var s, t := Run(first, events), Next(Run(first, events), e);
            r in t.world.enqueued && r !in s.world.enqueued ==>
              exists id :: HasRequest(s.world, id, r) && Due(s.world, id) && !s.world.accounts[id].active && !HasRequest(t.world, id, r)
  {
    InitialOrderly(first);
    RunOrderly(first, events);
    var s := Run(first, events);
    if e.Step? && e.flow in s.flows && Known(s.world, s.flows[e.flow].task) {
      StepEnqueues(s.world, s.flows[e.flow], AdminFree(s.flows), e.ok, e.ready, e.freshId, r);
    }
  }

  lemma {:induction false} StepEnqueues(w: World, f: Flow, adminFree: bool, ok: bool, ready: bool, freshId: nat, r: nat)
    requires ReadInv(w, f)
    ensures var v := StepOf(w, f, adminFree, ok, ready, freshId).world;
            var id := f.task.target;
            r in v.enqueued && r !in w.enqueued ==>
              HasRequest(w, id, r) && Due(w, id) && !w.accounts[id].active && !HasRequest(v, id, r)
  {
  }
}
