/** Roles, bans and deletions of many accounts. Every flow holds the fence of each
    identity it changes from its first step to its last; role changes and deletions
    also take the last-administrator fence. Flows of different identities interleave
    step by step, and any of them may fail or crash between steps. */
module AccountLifecycle {
  import opened Lists

  type AccountId = nat

  const GRACE: nat := 30 * 24 * 60 * 60

  datatype Role = NoRole | User | Author | Admin

  datatype Life = ConfirmationPending | Scheduled | RecoveryPending | Cancelled | Recovered

  datatype Deletion = Deletion(id: nat, life: Life, dueAt: Option<int>)

  /** An onboarded or new member with its identity: its state, whether its metadata
      says banned, and the deletion request of the pair. */
  datatype Account = Account(onboarded: bool, active: bool, banned: bool, deletion: Option<Deletion>)

  /** The durable state, and what happened to requests: their identifiers, the ones
      whose commands were enqueued, and the ones that were cancelled or recovered. */
  datatype World = World(
    accounts: map<AccountId, Account>, roles: map<AccountId, Role>, clock: int,
    issued: set<nat>, enqueued: seq<nat>, ended: set<nat>)

  datatype Task =
    | ReplaceRole(actor: AccountId, target: AccountId, role: Role)
    | Confirm(target: AccountId, request: nat)
    | Immediate(target: AccountId)
    | RequestDeletion(target: AccountId)
    | StartRecovery(target: AccountId)
    | Cancel(target: AccountId, request: nat)
    | Recover(target: AccountId, request: nat)
    | Deactivate(target: AccountId, request: nat)
    | Activate(target: AccountId, request: nat)
    | Dispatch(target: AccountId, request: nat)
    | Ban(target: AccountId)
    | Unban(target: AccountId)
    | ExpireBan(target: AccountId)

  /** How far a flow is: its identity fences are held; the administrator fence is held
      too; its checks passed; its first outside write is done. */
  datatype Pc = Locked | Fenced | Checked(previous: Role) | Written(previous: Role)

  datatype Flow = Flow(task: Task, pc: Pc)

  datatype State = State(world: World, flows: map<nat, Flow>)

  // ----- who counts as an administrator -----

  function RoleOf(w: World, id: AccountId): Role {
    if id in w.roles then w.roles[id] else NoRole
  }

  predicate Pending(a: Account) {
    a.deletion.Some? && (a.deletion.value.life.Scheduled? || a.deletion.value.life.RecoveryPending?)
  }

  /** Active, onboarded, unbanned and not pending deletion, with the admin role. */
  predicate Effective(w: World, id: AccountId) {
    && id in w.accounts && RoleOf(w, id) == Admin
    && w.accounts[id].onboarded && w.accounts[id].active && !w.accounts[id].banned && !Pending(w.accounts[id])
  }

  /** Another effective administrator remains without `id`. */
  predicate OtherAdmin(w: World, id: AccountId) {
    exists x :: x in w.accounts && x != id && Effective(w, x)
  }

  ghost predicate HasAdmin(w: World) {
    exists x :: Effective(w, x)
  }

  /** The final-admin decision: only an administrator's removal needs another one. */
  predicate RemovalAllowed(w: World, id: AccountId) {
    RoleOf(w, id) != Admin || OtherAdmin(w, id)
  }

  // ----- fences -----

  function Locks(task: Task): set<AccountId> {
    if task.ReplaceRole? then {task.actor, task.target} else {task.target}
  }

  predicate TakesAdminFence(task: Task) {
    task.ReplaceRole? || task.Confirm? || task.Immediate? || task.Dispatch?
  }

  predicate HoldsAdminFence(f: Flow) {
    TakesAdminFence(f.task) && !f.pc.Locked?
  }

  predicate Free(flows: map<nat, Flow>, ids: set<AccountId>) {
    forall k :: k in flows ==> Locks(flows[k].task) !! ids
  }

  predicate AdminFree(flows: map<nat, Flow>) {
    forall k :: k in flows ==> !HoldsAdminFence(flows[k])
  }

  // ----- one step of one flow -----

  /** What a step makes of the world, and where the flow goes; None ends it and
      releases its fences. */
  datatype After = After(world: World, flow: Option<Flow>)

  function Put(w: World, id: AccountId, a: Account): World { w.(accounts := w.accounts[id := a]) }
  function PutRole(w: World, id: AccountId, role: Role): World { w.(roles := w.roles[id := role]) }

  function End(w: World): After { After(w, None) }
  function Go(w: World, f: Flow, pc: Pc): After { After(w, Some(f.(pc := pc))) }

  predicate IsRequest(a: Account, id: nat) {
    a.deletion.Some? && a.deletion.value.id == id
  }

  /** A step that takes the administrator fence waits until it is free. */
  function TakeFence(w: World, f: Flow, adminFree: bool): After {
    if adminFree then Go(w, f, Fenced) else After(w, Some(f))
  }

  function RoleStep(w: World, f: Flow, adminFree: bool, ok: bool): After
    requires f.task.ReplaceRole?
  {
    var ReplaceRole(actor, target, role) := f.task;
    match f.pc
    case Locked => if ok then TakeFence(w, f, adminFree) else End(w)
    case Fenced =>
      var previous := RoleOf(w, target);
      if !ok || RoleOf(w, actor) != Admin || previous == role then End(w)
      else if role != Admin && !RemovalAllowed(w, target) then End(w)
      else Go(w, f, Checked(previous))
    case Checked(previous) => if ok then Go(PutRole(w, target, role), f, Written(previous)) else End(w)
    case Written(previous) => if ok then End(w) else End(PutRole(w, target, previous))
  }

  function ConfirmStep(w: World, f: Flow, adminFree: bool, ok: bool): After
    requires f.task.Confirm? && f.task.target in w.accounts
  {
    var Confirm(target, request) := f.task;
    var a := w.accounts[target];
    match f.pc
    case Locked =>
      if ok && IsRequest(a, request) && a.deletion.value.life.ConfirmationPending? then TakeFence(w, f, adminFree) else End(w)
    case Fenced => if ok && RemovalAllowed(w, target) then Go(w, f, Checked(NoRole)) else End(w)
    case _ =>
      if !ok || a.deletion.None? then End(w)
      else End(Put(w, target, a.(deletion := Some(a.deletion.value.(life := Scheduled, dueAt := Some(w.clock + GRACE))))))
  }

  function Stored(w: World, id: AccountId, a: Account, d: Deletion): World {
    Put(w, id, a.(deletion := Some(d))).(issued := w.issued + {d.id})
  }

  function ImmediateStep(w: World, f: Flow, adminFree: bool, ok: bool, freshId: nat): After
    requires f.task.Immediate? && f.task.target in w.accounts
  {
    var target := f.task.target;
    var a := w.accounts[target];
    match f.pc
    case Locked => if ok && a.onboarded then TakeFence(w, f, adminFree) else End(w)
    case Fenced => if ok && RemovalAllowed(w, target) then Go(w, f, Checked(NoRole)) else End(w)
    case _ => if !ok || Pending(a) then End(w) else End(Stored(w, target, a, Deletion(freshId, Scheduled, Some(w.clock))))
  }

  function DispatchStep(w: World, f: Flow, adminFree: bool, ok: bool): After
    requires f.task.Dispatch? && f.task.target in w.accounts
  {
    var Dispatch(target, request) := f.task;
    var a := w.accounts[target];
    match f.pc
    case Locked =>
      if ok && IsRequest(a, request) && Pending(a) && a.deletion.value.dueAt.Some? && a.deletion.value.dueAt.value <= w.clock
      then TakeFence(w, f, adminFree) else End(w)
    case Fenced => if ok && RemovalAllowed(w, target) then Go(w, f, Checked(NoRole)) else End(w)
    case _ =>
      if !ok || a.active then End(w)
      else End(Put(w, target, a.(deletion := None)).(enqueued := w.enqueued + [request]))
  }

  /** The transitions that are one transaction under the identity fence. */
  function RequestStep(w: World, task: Task, ok: bool, freshId: nat): World
    requires task.target in w.accounts && !task.ReplaceRole?
  {
    var target := task.target;
    var a := w.accounts[target];
    if !ok then w
    else
      match task
      case RequestDeletion(_) => if Pending(a) then w else Stored(w, target, a, Deletion(freshId, ConfirmationPending, None))
      case StartRecovery(_) =>
        if Pending(a) && a.deletion.value.dueAt.Some? && a.deletion.value.dueAt.value > w.clock
        then Put(w, target, a.(deletion := Some(a.deletion.value.(life := RecoveryPending)))) else w
      case Cancel(_, request) =>
        if IsRequest(a, request) && a.deletion.value.life.Scheduled? then Ended(w, target, a, Cancelled) else w
      case Recover(_, request) =>
        if IsRequest(a, request) && a.deletion.value.life.RecoveryPending? then Ended(w, target, a, Recovered) else w
      case _ => w
  }

  function Ended(w: World, target: AccountId, a: Account, life: Life): World
    requires a.deletion.Some?
  {
    Put(w, target, a.(deletion := Some(a.deletion.value.(life := life, dueAt := None)))).(ended := w.ended + {a.deletion.value.id})
  }

  /** The flows that write the identity's state: a first step that reads both
      authorities, then one write after another. `ready` says what the flow finds that
      the model has no part of: that the request is newer than the identity, or that
      a timed ban has expired. */
  function IdentityStep(w: World, f: Flow, ok: bool, ready: bool): After
    requires f.task.target in w.accounts && !f.task.ReplaceRole?
  {
    var target := f.task.target;
    var a := w.accounts[target];
    if !ok then End(w)
    else
      match f.task
      case Deactivate(_, request) =>
        if f.pc.Locked? then (if IsRequest(a, request) && Pending(a) then Go(w, f, Checked(NoRole)) else End(w))
        else End(Put(w, target, a.(active := false)))
      case Activate(_, request) =>
        if f.pc.Locked? then
          (if IsRequest(a, request) && (a.deletion.value.life.Cancelled? || a.deletion.value.life.Recovered?)
           then Go(w, f, Checked(NoRole)) else End(w))
        else if f.pc.Checked? then (if a.active || !ready || a.banned then End(w) else Go(w, f, Written(NoRole)))
        else End(Put(w, target, a.(active := true)))
      case Ban(_) =>
        if f.pc.Locked? then
          (if RoleOf(w, target) == Admin || RoleOf(w, target) == NoRole || !a.active || a.banned then End(w) else Go(w, f, Checked(NoRole)))
        else if f.pc.Checked? then Go(Put(w, target, a.(active := false)), f, Written(NoRole))
        else End(Put(w, target, a.(banned := true)))
      case Unban(_) =>
        if f.pc.Locked? then (if Pending(a) || (a.active && !a.banned) then End(w) else Go(w, f, Checked(NoRole)))
        else ClearBan(w, f, target)
      case ExpireBan(_) =>
        if f.pc.Locked? then (if Pending(a) || !a.banned || !ready then End(w) else Go(w, f, Checked(NoRole)))
        else ClearBan(w, f, target)
      case _ => End(w)
  }

  function ClearBan(w: World, f: Flow, target: AccountId): After
    requires target in w.accounts
  {
    var a := w.accounts[target];
    if f.pc.Checked? then Go(Put(w, target, a.(active := true)), f, Written(NoRole)) else End(Put(w, target, a.(banned := false)))
  }

  /** The task may store a new request, under an identifier that none has had. */
  predicate Issues(task: Task) {
    task.Immediate? || task.RequestDeletion?
  }

  predicate Known(w: World, task: Task) {
    task.target in w.accounts
  }

  function StepOf(w: World, f: Flow, adminFree: bool, ok: bool, ready: bool, freshId: nat): After
    requires Known(w, f.task)
  {
    match f.task
    case ReplaceRole(_, _, _) => RoleStep(w, f, adminFree, ok)
    case Confirm(_, _) => ConfirmStep(w, f, adminFree, ok)
    case Immediate(_) => ImmediateStep(w, f, adminFree, ok, freshId)
    case Dispatch(_, _) => DispatchStep(w, f, adminFree, ok)
    case RequestDeletion(_) => End(RequestStep(w, f.task, ok, freshId))
    case StartRecovery(_) => End(RequestStep(w, f.task, ok, freshId))
    case Cancel(_, _) => End(RequestStep(w, f.task, ok, freshId))
    case Recover(_, _) => End(RequestStep(w, f.task, ok, freshId))
    case _ => IdentityStep(w, f, ok, ready)
  }

  // ----- the machine -----

  datatype Event =
    | Begin(flow: nat, task: Task)
    | Step(flow: nat, ok: bool, ready: bool, freshId: nat)
    | Crash(flow: nat)
    | Tick(seconds: nat)
    | Register(id: AccountId)
    | Onboard(id: AccountId)

  ghost function Next(s: State, e: Event): State {
    match e
    case Begin(k, task) =>
      if k !in s.flows && Known(s.world, task) && Free(s.flows, Locks(task)) then s.(flows := s.flows[k := Flow(task, Locked)]) else s
    case Step(k, ok, ready, freshId) =>
      if k in s.flows && Known(s.world, s.flows[k].task) && (Issues(s.flows[k].task) ==> freshId !in s.world.issued) then
        var after := StepOf(s.world, s.flows[k], AdminFree(s.flows), ok, ready, freshId);
        State(after.world, if after.flow.Some? then s.flows[k := after.flow.value] else s.flows - {k})
      else s
    case Crash(k) => s.(flows := s.flows - {k})
    case Tick(seconds) => s.(world := s.world.(clock := s.world.clock + seconds))
    case Register(id) =>
      if id !in s.world.accounts && id !in s.world.roles
      then s.(world := Put(s.world, id, Account(false, true, false, None))) else s
    case Onboard(id) =>
      if id in s.world.accounts then s.(world := Put(s.world, id, s.world.accounts[id].(onboarded := true))) else s
  }

  ghost function Run(s: State, events: seq<Event>): State
    decreases |events|
  {
    if events == [] then s else Run(Next(s, events[0]), events[1..])
  }

  ghost predicate Initial(s: State) {
    && s.flows == map[] && s.world.enqueued == [] && s.world.ended == {}
    && (forall id :: id in s.world.accounts && s.world.accounts[id].deletion.Some? ==> s.world.accounts[id].deletion.value.id in s.world.issued)
    && (forall a, b :: a in s.world.accounts && b in s.world.accounts && a != b && s.world.accounts[a].deletion.Some? && s.world.accounts[b].deletion.Some?
          ==> s.world.accounts[a].deletion.value.id != s.world.accounts[b].deletion.value.id)
  }
}
