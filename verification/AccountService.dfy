/** The account operations as they change the stores, run without interference. Each
    is a run of the machine in `AccountLifecycle`, so what `AccountSafety` proves of
    every run holds of it. */
module AccountService {
  import opened Lists
  import opened AccountLifecycle
  import opened AccountSafety

  // ----- a flow alone -----

  function Rank(pc: Pc): nat {
    match pc
    case Locked => 3
    case Fenced => 2
    case Checked(_) => 1
    case Written(_) => 0
  }

  /** A step with the administrator fence free moves on or ends, and stays local. */
  lemma {:induction false} StepAdvances(w: World, f: Flow, ready: bool, freshId: nat)
    requires Known(w, f.task)
    ensures var after := StepOf(w, f, true, true, ready, freshId);
            && SameElsewhere(w, after.world, f.task.target)
            && (after.flow.Some? ==>
                  after.flow.value.task == f.task && Rank(after.flow.value.pc) < Rank(f.pc) && after.world.issued == w.issued)
  {
  }

  /** The world after a flow ran to its end alone, with every call answered. */
  function Alone(w: World, f: Flow, ready: bool, freshId: nat): World
    requires Known(w, f.task)
    decreases Rank(f.pc)
  {
    StepAdvances(w, f, ready, freshId);
    var after := StepOf(w, f, true, true, ready, freshId);
    if after.flow.None? then after.world else Alone(after.world, after.flow.value, ready, freshId)
  }

  /** The fence matters only to the step that takes it. */
  lemma {:induction false} FenceMatters(w: World, f: Flow, adminFree: bool, ready: bool, freshId: nat)
    requires Known(w, f.task) && (f.pc.Locked? ==> adminFree)
    ensures StepOf(w, f, adminFree, true, ready, freshId) == StepOf(w, f, true, true, ready, freshId)
  {
  }

  /** A flow alone is a run of the machine. */
  lemma {:induction false} AloneSteps(w: World, f: Flow, ready: bool, freshId: nat) returns (events: seq<Event>)
    requires Known(w, f.task) && (Issues(f.task) ==> freshId !in w.issued)
    ensures Run(State(w, map[0 := f]), events) == State(Alone(w, f, ready, freshId), map[])
    decreases Rank(f.pc)
  {
    var s, e := State(w, map[0 := f]), Step(0, true, ready, freshId);
    assert f.pc.Locked? ==> AdminFree(s.flows);
    FenceMatters(w, f, AdminFree(s.flows), ready, freshId);
    StepAdvances(w, f, ready, freshId);
    var after := StepOf(w, f, true, true, ready, freshId);
    if after.flow.None? {
      events := [e];
      assert Next(s, e).flows == map[];
      assert events[1..] == [];
    } else {
      var rest := AloneSteps(after.world, after.flow.value, ready, freshId);
      events := [e] + rest;
      assert events[1..] == rest;
      assert Next(s, e).flows == map[0 := after.flow.value];
    }
  }

  /** Starting a task and letting it run alone is a run of the machine from rest. */
  lemma {:induction false} AloneIsRun(w: World, task: Task, ready: bool, freshId: nat) returns (events: seq<Event>)
    requires Known(w, task) && (Issues(task) ==> freshId !in w.issued)
    ensures events != [] && events[0] == Begin(0, task)
    ensures Run(State(w, map[]), events) == State(Alone(w, Flow(task, Locked), ready, freshId), map[])
  {
    var rest := AloneSteps(w, Flow(task, Locked), ready, freshId);
    events := [Begin(0, task)] + rest;
    assert events[1..] == rest;
    assert Next(State(w, map[]), Begin(0, task)) == State(w, map[0 := Flow(task, Locked)]);
  }

  /** What every operation keeps: all accounts but its target, an effective
      administrator, and the order of deletion requests. */
  ghost predicate Kept(w: World, v: World, target: AccountId) {
    && SameElsewhere(w, v, target)
    && (HasAdmin(w) ==> HasAdmin(v))
    && (RequestInv(w) ==> RequestInv(v))
  }

  lemma {:induction false} AloneLocal(w: World, f: Flow, ready: bool, freshId: nat)
    requires Known(w, f.task)
    ensures SameElsewhere(w, Alone(w, f, ready, freshId), f.task.target)
    decreases Rank(f.pc)
  {
    StepAdvances(w, f, ready, freshId);
    var after := StepOf(w, f, true, true, ready, freshId);
    if after.flow.Some? {
      AloneLocal(after.world, after.flow.value, ready, freshId);
    }
  }

  /** The theorems about runs, for an operation alone. */
  lemma {:induction false} AloneKeeps(w: World, task: Task, ready: bool, freshId: nat)
    requires Known(w, task) && (Issues(task) ==> freshId !in w.issued)
    ensures Kept(w, Alone(w, Flow(task, Locked), ready, freshId), task.target)
  {
    AloneLocal(w, Flow(task, Locked), ready, freshId);
    var events := AloneIsRun(w, task, ready, freshId);
    if HasAdmin(w) {
      RunSafe(State(w, map[]), events);
    }
    if RequestInv(w) {
      RunOrderly(State(w, map[]), events);
    }
  }

  lemma AloneStep(w: World, f: Flow, ready: bool, freshId: nat)
    requires Known(w, f.task)
    ensures var after := StepOf(w, f, true, true, ready, freshId);
            && (after.flow.Some? ==> Known(after.world, after.flow.value.task) && Rank(after.flow.value.pc) < Rank(f.pc))
            && Alone(w, f, ready, freshId) ==
               if after.flow.None? then after.world else Alone(after.world, after.flow.value, ready, freshId)
  {
    StepAdvances(w, f, ready, freshId);
  }

  /** The steps of a flow, one after another. */
  lemma {:induction false} AloneUnrolled(w: World, task: Task, ready: bool, freshId: nat)
    requires Known(w, task)
    ensures var f := Flow(task, Locked);
            var one := StepOf(w, f, true, true, ready, freshId);
            Alone(w, f, ready, freshId) ==
              if one.flow.None? then one.world
              else
                var two := StepOf(one.world, one.flow.value, true, true, ready, freshId);
                if two.flow.None? then two.world
                else
                  var three := StepOf(two.world, two.flow.value, true, true, ready, freshId);
                  if three.flow.None? then three.world
                  else StepOf(three.world, three.flow.value, true, true, ready, freshId).world
  {
    AloneStep(w, Flow(task, Locked), ready, freshId);
    var one := StepOf(w, Flow(task, Locked), true, true, ready, freshId);
    if one.flow.Some? {
      AloneStep(one.world, one.flow.value, ready, freshId);
      var two := StepOf(one.world, one.flow.value, true, true, ready, freshId);
      if two.flow.Some? {
        AloneStep(two.world, two.flow.value, ready, freshId);
        var three := StepOf(two.world, two.flow.value, true, true, ready, freshId);
        if three.flow.Some? {
          AloneStep(three.world, three.flow.value, ready, freshId);
        }
      }
    }
  }

  // ----- a role change that fails -----

  /** The world when the first `steps` calls of a flow alone succeed and the next fails. */
  function FailingAt(w: World, f: Flow, steps: nat, ready: bool, freshId: nat): World
    requires Known(w, f.task)
    decreases steps
  {
    StepAdvances(w, f, ready, freshId);
    var after := StepOf(w, f, true, steps > 0, ready, freshId);
    if steps == 0 || after.flow.None? then after.world
    else FailingAt(after.world, after.flow.value, steps - 1, ready, freshId)
  }

  lemma {:induction false} FailingStep(w: World, f: Flow, steps: nat)
    requires Known(w, f.task) && f.task.ReplaceRole? && steps > 0
    ensures var after := StepOf(w, f, true, true, false, 0);
            && (after.flow.Some? ==> Known(after.world, after.flow.value.task))
            && FailingAt(w, f, steps, false, 0) ==
               if after.flow.None? then after.world else FailingAt(after.world, after.flow.value, steps - 1, false, 0)
  {
    StepAdvances(w, f, false, 0);
  }

  /** A role change whose checks, write or commit fails leaves every role as it was:
      the write is taken back when the commit behind it fails. */
  lemma {:induction false} FailedRoleChange(w: World, actor: AccountId, target: AccountId, role: Role, steps: nat, id: AccountId)
    requires target in w.accounts && steps <= 3
    ensures var v := FailingAt(w, Flow(ReplaceRole(actor, target, role), Locked), steps, false, 0);
            v.(roles := w.roles) == w && RoleOf(v, id) == RoleOf(w, id)
  {
    var task := ReplaceRole(actor, target, role);
    var f := Flow(task, Locked);
    if steps > 0 {
      FailingStep(w, f, steps);
      var fenced := Flow(task, Fenced);
      if steps > 1 {
        FailingStep(w, fenced, steps - 1);
        var checked := Flow(task, Checked(RoleOf(w, target)));
        if steps > 2 {
          FailingStep(w, checked, steps - 2);
        }
      }
    }
  }

  class Service {
    var accounts: map<AccountId, Account>
    var roles: map<AccountId, Role>
    var clock: int
    var enqueued: seq<nat>
    ghost var issued: set<nat>
    ghost var ended: set<nat>

    ghost function Now(): World
      reads this
    {
      World(accounts, roles, clock, issued, enqueued, ended)
    }

    constructor (w: World)
      ensures Now() == w
    {
      accounts, roles, clock, enqueued, issued, ended := w.accounts, w.roles, w.clock, w.enqueued, w.issued, w.ended;
    }

    /** The identities that hold the admin role, each once. */
    ghost predicate AreAdmins(admins: seq<AccountId>)
      reads this
    {
      forall id :: id in admins <==> RoleOf(Now(), id) == Admin
    }

    /** How many of the identities are effective administrators' accounts. */
    method ActiveAdminCount(ids: seq<AccountId>) returns (count: nat)
      requires forall i :: 0 <= i < |ids| ==> RoleOf(Now(), ids[i]) == Admin
      ensures count > 0 <==> exists i :: 0 <= i < |ids| && Effective(Now(), ids[i])
    {
      count := 0;
      for k := 0 to |ids|
        invariant count > 0 <==> exists i :: 0 <= i < k && Effective(Now(), ids[i])
      {
        if ids[k] in accounts {
          var a := accounts[ids[k]];
          if a.onboarded && a.active && !a.banned && !Pending(a) {
            count := count + 1;
          }
        }
      }
    }

    /** The final-admin decision, over the admins the authority lists. */
    method ValidateLastActiveAdminDeletion(admins: seq<AccountId>, target: AccountId) returns (ok: bool)
      requires AreAdmins(admins)
      ensures ok <==> RemovalAllowed(Now(), target)
      ensures ok <==> !(target in roles && roles[target] == Admin) ||
                      exists x :: x in admins && x != target && x in accounts
                        && accounts[x].onboarded && accounts[x].active && !accounts[x].banned
                        && (accounts[x].deletion.Some? ==> accounts[x].deletion.value.life !in {Scheduled, RecoveryPending})
    {
      if target !in admins {
        return true;
      }
      var others: seq<AccountId> := [];
      for k := 0 to |admins|
        invariant forall id :: id in others <==> id in admins[..k] && id != target
      {
        assert admins[..k + 1] == admins[..k] + [admins[k]];
        if admins[k] != target {
          others := others + [admins[k]];
        }
      }
      assert admins[..|admins|] == admins;
      assert forall i :: 0 <= i < |others| ==> others[i] in others;
      var remaining := ActiveAdminCount(others);
      ok := remaining > 0;
      if OtherAdmin(Now(), target) {
        var x :| x in accounts && x != target && Effective(Now(), x);
        assert x in others;
        var i :| 0 <= i < |others| && others[i] == x;
      }
    }

    method Store(target: AccountId, d: Deletion)
      requires target in accounts
      modifies this`accounts, this`issued
      ensures Now() == Stored(old(Now()), target, old(accounts)[target], d)
    {
      accounts := accounts[target := accounts[target].(deletion := Some(d))];
      issued := issued + {d.id};
    }

    /** A role is replaced only when another administrator remains. */
    method ReplaceAccountRole(actor: AccountId, target: AccountId, role: Role, admins: seq<AccountId>) returns (changed: bool)
      requires AreAdmins(admins) && target in accounts
      modifies this`roles
      ensures Now() == Alone(old(Now()), Flow(ReplaceRole(actor, target, role), Locked), false, 0)
      ensures Kept(old(Now()), Now(), target)
      ensures changed <==> RoleOf(old(Now()), actor) == Admin && RoleOf(old(Now()), target) != role
                             && (role == Admin || RemovalAllowed(old(Now()), target))
      ensures RoleOf(Now(), target) == if changed then role else RoleOf(old(Now()), target)
      ensures Now() == if changed then old(Now()).(roles := old(roles)[target := role]) else old(Now())
    {
      ghost var before := Now();
      AloneUnrolled(before, ReplaceRole(actor, target, role), false, 0);
      AloneKeeps(before, ReplaceRole(actor, target, role), false, 0);
      if actor !in roles || roles[actor] != Admin {
        return false;
      }
      var previous := if target in roles then roles[target] else NoRole;
      if previous == role {
        return false;
      }
      if role != Admin {
        var ok := ValidateLastActiveAdminDeletion(admins, target);
        if !ok {
          return false;
        }
      }
      roles := roles[target := role];
      changed := true;
    }

    /** Stores a request for confirmation, which by itself leaves no deletion pending;
        one that is pending already stays as it is. */
    method StoreDeletionRequest(target: AccountId, freshId: nat) returns (alreadyScheduled: bool)
      requires target in accounts && freshId !in issued
      modifies this`accounts, this`issued
      ensures Now() == Alone(old(Now()), Flow(RequestDeletion(target), Locked), false, freshId)
      ensures Kept(old(Now()), Now(), target) && KeepsAdmins(old(Now()), Now())
      ensures target in accounts && Pending(accounts[target]) == Pending(old(accounts)[target]) == alreadyScheduled
      ensures !alreadyScheduled ==> IsRequest(accounts[target], freshId) && !Due(Now(), target)
      ensures alreadyScheduled <==>
                (old(accounts)[target].deletion.Some? &&
                 (old(accounts)[target].deletion.value.life.Scheduled? || old(accounts)[target].deletion.value.life.RecoveryPending?))
      ensures !alreadyScheduled ==> Now() == old(Now()).(issued := old(issued) + {freshId},
                accounts := old(accounts)[target := old(accounts)[target].(deletion := Some(Deletion(freshId, ConfirmationPending, None)))])
      ensures alreadyScheduled ==> Now() == old(Now())
    {
      ghost var before := Now();
      AloneUnrolled(before, RequestDeletion(target), false, freshId);
      AloneKeeps(before, RequestDeletion(target), false, freshId);
      alreadyScheduled := Pending(accounts[target]);
      if !alreadyScheduled {
        Store(target, Deletion(freshId, ConfirmationPending, None));
      }
      LocalKeeps(before, Now(), target);
    }

    /** Schedules a confirmed deletion for the end of the grace period, so it is not
        due before, and only while another administrator remains. */
    method ScheduleConfirmedDeletion(target: AccountId, request: nat, admins: seq<AccountId>) returns (scheduled: bool)
      requires AreAdmins(admins) && target in accounts
      modifies this`accounts
      ensures Now() == Alone(old(Now()), Flow(Confirm(target, request), Locked), false, 0)
      ensures Kept(old(Now()), Now(), target)
      ensures target in accounts && (scheduled ==> Pending(accounts[target]) && !Due(Now(), target) && !Effective(Now(), target))
      ensures scheduled ==> !Pending(old(accounts)[target]) && RemovalAllowed(old(Now()), target)
      ensures !scheduled ==> Now() == old(Now())
      ensures scheduled <==> IsRequest(old(accounts)[target], request) && old(accounts)[target].deletion.value.life.ConfirmationPending?
                               && RemovalAllowed(old(Now()), target)
      ensures scheduled ==> accounts == old(accounts)[target :=
                old(accounts)[target].(deletion := Some(Deletion(request, Scheduled, Some(clock + 30 * 24 * 60 * 60))))]
    {
      ghost var before := Now();
      AloneUnrolled(before, Confirm(target, request), false, 0);
      AloneKeeps(before, Confirm(target, request), false, 0);
      var a := accounts[target];
      scheduled := false;
      if !IsRequest(a, request) || !a.deletion.value.life.ConfirmationPending? {
        return;
      }
      scheduled := ValidateLastActiveAdminDeletion(admins, target);
      if scheduled {
        var confirmed := a.deletion.value.(life := Scheduled, dueAt := Some(clock + GRACE));
        accounts := accounts[target := a.(deletion := Some(confirmed))];
      }
    }

    /** Leaves the deletion of an onboarded target pending, and due if it is new, unless
        the last administrator would go. */
    method StoreImmediateDeletion(target: AccountId, freshId: nat, admins: seq<AccountId>)
      requires AreAdmins(admins) && target in accounts && freshId !in issued
      modifies this`accounts, this`issued
      ensures Now() == Alone(old(Now()), Flow(Immediate(target), Locked), false, freshId)
      ensures Kept(old(Now()), Now(), target) && target in accounts
      ensures Pending(accounts[target]) <==>
                Pending(old(accounts)[target]) || (old(accounts)[target].onboarded && RemovalAllowed(old(Now()), target))
      ensures Pending(old(accounts)[target]) ==> Now() == old(Now())
      ensures Pending(accounts[target]) && !Pending(old(accounts)[target]) ==> Due(Now(), target) && IsRequest(accounts[target], freshId)
      ensures Now() != old(Now()) ==> Now() == old(Now()).(issued := old(issued) + {freshId},
                accounts := old(accounts)[target := old(accounts)[target].(deletion := Some(Deletion(freshId, Scheduled, Some(clock))))])
    {
      ghost var before := Now();
      AloneUnrolled(before, Immediate(target), false, freshId);
      AloneKeeps(before, Immediate(target), false, freshId);
      if !accounts[target].onboarded {
        return;
      }
      var ok := ValidateLastActiveAdminDeletion(admins, target);
      if ok && !Pending(accounts[target]) {
        Store(target, Deletion(freshId, Scheduled, Some(clock)));
      }
    }

    /** Moves a pending deletion that is not due yet to recovery confirmation: it stays
        pending, keeps its deadline, and can then be recovered. */
    method StartRecovery(target: AccountId) returns (started: bool)
      requires target in accounts
      modifies this`accounts
      ensures Now() == Alone(old(Now()), Flow(AccountLifecycle.StartRecovery(target), Locked), false, 0)
      ensures Kept(old(Now()), Now(), target) && KeepsAdmins(old(Now()), Now()) && target in accounts
      ensures started <==> Pending(old(accounts)[target]) && old(accounts)[target].deletion.value.dueAt.Some?
                             && old(accounts)[target].deletion.value.dueAt.value > clock
      ensures started ==> accounts == old(accounts)[target := old(accounts)[target].(
                deletion := Some(old(accounts)[target].deletion.value.(life := RecoveryPending)))]
      ensures !started ==> Now() == old(Now())
    {
      ghost var before := Now();
      AloneUnrolled(before, AccountLifecycle.StartRecovery(target), false, 0);
      AloneKeeps(before, AccountLifecycle.StartRecovery(target), false, 0);
      var a := accounts[target];
      started := Pending(a) && a.deletion.value.dueAt.Some? && a.deletion.value.dueAt.value > clock;
      if started {
        accounts := accounts[target := a.(deletion := Some(a.deletion.value.(life := RecoveryPending)))];
      }
      LocalKeeps(before, Now(), target);
    }

    /** Cancels a scheduled deletion, or recovers one under recovery confirmation: the
        deletion is pending no more, never due again, and on record as ended. */
    method TerminalTransition(target: AccountId, request: nat, cancel: bool) returns (changed: bool)
      requires target in accounts
      modifies this`accounts, this`ended
      ensures Now() == Alone(old(Now()), Flow(if cancel then Cancel(target, request) else Recover(target, request), Locked), false, 0)
      ensures Kept(old(Now()), Now(), target) && KeepsAdmins(old(Now()), Now()) && target in accounts
      ensures changed ==> Pending(old(accounts)[target]) && !Pending(accounts[target]) && !Due(Now(), target)
      ensures changed <==>
                (IsRequest(old(accounts)[target], request) &&
                 old(accounts)[target].deletion.value.life == if cancel then Scheduled else RecoveryPending)
      ensures changed ==> Now() == old(Now()).(ended := old(ended) + {request},
                accounts := old(accounts)[target := old(accounts)[target].(
                  deletion := Some(Deletion(request, if cancel then Cancelled else Recovered, None)))])
      ensures !changed ==> Now() == old(Now())
    {
      ghost var before := Now();
      AloneUnrolled(before, if cancel then Cancel(target, request) else Recover(target, request), false, 0);
      AloneKeeps(before, if cancel then Cancel(target, request) else Recover(target, request), false, 0);
      var a := accounts[target];
      changed := false;
      if IsRequest(a, request) {
        var life := a.deletion.value.life;
        if (cancel && life.Scheduled?) || (!cancel && life.RecoveryPending?) {
          var end := a.deletion.value.(life := if cancel then Cancelled else Recovered, dueAt := None);
          accounts := accounts[target := a.(deletion := Some(end))];
          ended := ended + {request};
          changed := true;
        }
      }
      LocalKeeps(before, Now(), target);
    }

    /** Dispatches exactly a due request of an inactive identity whose removal is
        allowed; the request is gone with it. */
    method DispatchScheduledUserDeletion(target: AccountId, request: nat, admins: seq<AccountId>) returns (dispatched: bool)
      requires AreAdmins(admins) && target in accounts
      modifies this`accounts, this`enqueued
      ensures Now() == Alone(old(Now()), Flow(Dispatch(target, request), Locked), false, 0)
      ensures Kept(old(Now()), Now(), target) && target in accounts
      ensures dispatched <==> IsRequest(old(accounts)[target], request) && Due(old(Now()), target) && !old(accounts)[target].active
                                && RemovalAllowed(old(Now()), target)
      ensures dispatched ==> enqueued == old(enqueued) + [request]
      ensures dispatched ==> accounts == old(accounts)[target := old(accounts)[target].(deletion := None)]
      ensures !dispatched ==> Now() == old(Now())
    {
      ghost var before := Now();
      AloneUnrolled(before, Dispatch(target, request), false, 0);
      AloneKeeps(before, Dispatch(target, request), false, 0);
      var a := accounts[target];
      dispatched := false;
      if !IsRequest(a, request) || !Pending(a) || a.deletion.value.dueAt.None? || a.deletion.value.dueAt.value > clock {
        return;
      }
      var ok := ValidateLastActiveAdminDeletion(admins, target);
      if !ok || a.active {
        return;
      }
      enqueued := enqueued + [request];
      accounts := accounts[target := a.(deletion := None)];
      dispatched := true;
    }

    method SetState(target: AccountId, active: bool)
      requires target in accounts
      modifies this`accounts
      ensures accounts == old(accounts)[target := old(accounts)[target].(active := active)]
    {
      accounts := accounts[target := accounts[target].(active := active)];
    }

    /** Afterwards the identity of a pending deletion is inactive, which costs no
        effective administrator; any other identity keeps its state. */
    method EnsureScheduledIdentityInactive(target: AccountId, request: nat)
      requires target in accounts
      modifies this`accounts
      ensures Now() == Alone(old(Now()), Flow(Deactivate(target, request), Locked), false, 0)
      ensures Kept(old(Now()), Now(), target) && KeepsAdmins(old(Now()), Now()) && target in accounts
      ensures IsRequest(accounts[target], request) && Pending(accounts[target]) ==> !accounts[target].active
      ensures accounts[target].active != old(accounts)[target].active ==> Pending(old(accounts)[target]) && old(accounts)[target].active
      ensures Now() == if IsRequest(old(accounts)[target], request) && Pending(old(accounts)[target])
                       then old(Now()).(accounts := old(accounts)[target := old(accounts)[target].(active := false)]) else old(Now())
    {
      ghost var before := Now();
      AloneUnrolled(before, Deactivate(target, request), false, 0);
      AloneKeeps(before, Deactivate(target, request), false, 0);
      if IsRequest(accounts[target], request) && Pending(accounts[target]) {
        SetState(target, false);
      }
      LocalKeeps(before, Now(), target);
    }

    /** Activates an identity only when its deletion has ended, it is not banned and the
        request is newer; it deactivates none. */
    method EnsureTerminalIdentityActive(target: AccountId, request: nat, newer: bool)
      requires target in accounts
      modifies this`accounts
      ensures Now() == Alone(old(Now()), Flow(Activate(target, request), Locked), newer, 0)
      ensures Kept(old(Now()), Now(), target) && KeepsAdmins(old(Now()), Now()) && target in accounts
      ensures accounts[target].active && !old(accounts)[target].active <==>
                !old(accounts)[target].active && !old(accounts)[target].banned && newer &&
                IsRequest(old(accounts)[target], request) && Terminal(old(accounts)[target].deletion.value.life)
      ensures old(accounts)[target].active ==> Now() == old(Now())
      ensures Now() == old(Now()).(accounts := old(accounts)[target := old(accounts)[target].(active := accounts[target].active)])
      ensures accounts[target].active && !old(accounts)[target].active ==> !Pending(accounts[target]) && !accounts[target].banned
    {
      ghost var before := Now();
      AloneUnrolled(before, Activate(target, request), newer, 0);
      AloneKeeps(before, Activate(target, request), newer, 0);
      var a := accounts[target];
      if IsRequest(a, request) && (a.deletion.value.life.Cancelled? || a.deletion.value.life.Recovered?) {
        if !a.active && newer && !a.banned {
          SetState(target, true);
        }
      }
      LocalKeeps(before, Now(), target);
    }

    /** Deactivates and marks; an administrator is never touched, so none is lost. */
    method BanAccount(target: AccountId) returns (banned: bool)
      requires target in accounts
      modifies this`accounts
      ensures Now() == Alone(old(Now()), Flow(Ban(target), Locked), false, 0)
      ensures Kept(old(Now()), Now(), target) && KeepsAdmins(old(Now()), Now()) && target in accounts
      ensures banned <==> RoleOf(old(Now()), target) in {User, Author} && old(accounts)[target].active && !old(accounts)[target].banned
      ensures banned ==> accounts == old(accounts)[target := old(accounts)[target].(active := false, banned := true)]
      ensures !banned ==> Now() == old(Now())
    {
      ghost var before := Now();
      AloneUnrolled(before, Ban(target), false, 0);
      AloneKeeps(before, Ban(target), false, 0);
      var role := if target in roles then roles[target] else NoRole;
      banned := false;
      if role == Admin || role == NoRole || !accounts[target].active || accounts[target].banned {
        return;
      }
      SetState(target, false);
      accounts := accounts[target := accounts[target].(banned := true)];
      banned := true;
      LocalKeeps(before, Now(), target);
    }

    /** Lifts a ban, or activates an inactive identity, unless a deletion is pending. */
    method ClearUserBan(target: AccountId) returns (cleared: bool)
      requires target in accounts
      modifies this`accounts
      ensures Now() == Alone(old(Now()), Flow(Unban(target), Locked), false, 0)
      ensures Kept(old(Now()), Now(), target) && KeepsAdmins(old(Now()), Now()) && target in accounts
      ensures cleared <==> !Pending(old(accounts)[target]) && (!old(accounts)[target].active || old(accounts)[target].banned)
      ensures cleared ==> accounts == old(accounts)[target := old(accounts)[target].(active := true, banned := false)]
      ensures !cleared ==> Now() == old(Now())
    {
      ghost var before := Now();
      AloneUnrolled(before, Unban(target), false, 0);
      AloneKeeps(before, Unban(target), false, 0);
      if Pending(accounts[target]) || (accounts[target].active && !accounts[target].banned) {
        return false;
      }
      SetState(target, true);
      accounts := accounts[target := accounts[target].(banned := false)];
      cleared := true;
      LocalKeeps(before, Now(), target);
    }

    /** Lifts an expired timed ban unless a deletion is pending. */
    method ClearExpiredTimedBan(target: AccountId, expired: bool) returns (cleared: bool)
      requires target in accounts
      modifies this`accounts
      ensures Now() == Alone(old(Now()), Flow(ExpireBan(target), Locked), expired, 0)
      ensures Kept(old(Now()), Now(), target) && KeepsAdmins(old(Now()), Now()) && target in accounts
      ensures cleared <==> expired && old(accounts)[target].banned && !Pending(old(accounts)[target])
      ensures cleared ==> accounts == old(accounts)[target := old(accounts)[target].(active := true, banned := false)]
      ensures !cleared ==> Now() == old(Now())
    {
      ghost var before := Now();
      AloneUnrolled(before, ExpireBan(target), expired, 0);
      AloneKeeps(before, ExpireBan(target), expired, 0);
      if Pending(accounts[target]) || !accounts[target].banned || !expired {
        return false;
      }
      SetState(target, true);
      accounts := accounts[target := accounts[target].(banned := false)];
      cleared := true;
      LocalKeeps(before, Now(), target);
    }
  }
}
