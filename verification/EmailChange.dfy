/** Changing the canonical email of one identity. Kratos holds the identity, Postgres
    the active request; the flows run one at a time under the identity fence, each
    step commits by itself, and a crash or an error may end a flow after any step.
    Between steps the user sets a pending email, Kratos verifies addresses, the clock
    advances, and the identity may go. */
module EmailChange {
  import opened Lists

  /** A normalized address; 0 is the empty one. */
  type Email = nat

  const NO_EMAIL: Email := 0

  const PROOF_GRACE: nat := 15 * 60
  const PENDING_LIFETIME: nat := 7 * 24 * 60 * 60

  datatype Address = Address(email: Email, verified: bool)

  datatype Identity = Identity(current: Email, pending: Email, addresses: seq<Address>)

  predicate HasVerified(i: Identity, e: Email) {
    e != NO_EMAIL && Address(e, true) in i.addresses
  }

  datatype Request = Request(id: nat, previous: Email, requested: Email, createdAt: int)

  // ----- what the flows write -----

  /** The verified address put in place of the first one with that email, or added. */
  function Materialized(addresses: seq<Address>, e: Email): seq<Address> {
    if addresses == [] then [Address(e, true)]
    else if addresses[0].email == e then [Address(e, true)] + addresses[1..]
    else [addresses[0]] + Materialized(addresses[1..], e)
  }

  function WithoutAddress(addresses: seq<Address>, e: Email): seq<Address> {
    Filter(addresses, (a: Address) => a.email != e)
  }

  /** Whether releasing the requested address has anything to write, judged on the
      identity as it was read. */
  predicate NeedsClearing(seen: Identity, requested: Email) {
    seen.current != requested &&
    (seen.pending == requested || WithoutAddress(seen.addresses, requested) != seen.addresses)
  }

  /** The write that releases the requested address: what was read decides, and the
      whole address list as read is written back without it. */
  function Cleared(now: Identity, seen: Identity, requested: Email): Identity {
    var kept := WithoutAddress(seen.addresses, requested);
    now.(pending := if seen.pending == requested then NO_EMAIL else now.pending,
         addresses := if kept != seen.addresses then kept else now.addresses)
  }

  // ----- the machine -----

  datatype Stage = Stage(current: Email, currentPending: Email, candidate: Email, pendingVerified: bool)

  /** Where a fenced flow stands: the step it takes next, with what it has read. */
  datatype Flow =
    | Idle
    | StagePersist(stage: Stage, seen: Identity)
    | ProvenStage(target: Email, seen: Identity)
    | ProvenWrite(request: Request, seen: Identity)
    | ReconcileLoad(request: Request)
    | ClearPending(request: Request)
    | CheckUsed(request: Request, seen: Identity)
    | ApplyWrite(request: Request, seen: Identity)
    | ConflictReload(request: Request)
    | ClearAddress(request: Request, snapshot: Option<Identity>)
    | CompleteLoad(request: Request)
    | Publish(request: Request)
    | Finish(request: Request)

  /** The two authorities, the clock and the running flow; and, for the record, the
      requests ever issued, those the canonical email moved under, those whose notice
      was published, and the addresses that were proven when a flow asked. */
  datatype State = State(
    identity: Option<Identity>, row: Option<Request>, clock: int, flow: Flow,
    issued: set<Request>, applied: set<Request>, notices: set<Request>, proven: set<Email>)

  /** How a step ends: done; an error with no effect; an error after the effect; a
      conflict with another identity, with no effect. */
  datatype Outcome = Done | Failed | DoneButFailed | Conflict

  datatype Event =
    | Kratos(identity: Identity)
    | Gone
    | Tick(seconds: nat)
    | Crash
    | BeginStage(stage: Stage)
    | BeginProven(target: Email, usable: bool)
    | BeginVerify(previous: Email, requested: Email)
    | BeginReconcile(id: nat)
    | Advance(outcome: Outcome, usedElsewhere: bool, freshId: nat)

  /** Between reading an address as verified and writing it as canonical. */
  predicate Applying(flow: Flow) {
    flow.CheckUsed? || flow.ApplyWrite?
  }

  predicate StaysVerified(before: Identity, after: Identity, e: Email) {
    HasVerified(before, e) ==> HasVerified(after, e)
  }

  /** What Kratos and the user may do meanwhile: anything but change the canonical
      email, take its verification back, or take back that of the address a running
      flow is about to write. Other addresses come and go, verified or not. */
  predicate KratosMay(flow: Flow, before: Identity, after: Identity) {
    && after.current == before.current && StaysVerified(before, after, before.current)
    && (Applying(flow) ==> StaysVerified(before, after, flow.request.requested))
  }

  function At(s: State, flow: Flow): State { s.(flow := flow) }

  function Issue(s: State, r: Request): State {
    s.(row := Some(r), issued := s.issued + {r})
  }

  // ----- staging from the settings hook -----

  /** Stage or cancel, in one transaction. */
  function Persisted(s: State, stage: Stage, seen: Identity, freshId: nat): State {
    var pendingVerified := if stage.currentPending != NO_EMAIL then HasVerified(seen, stage.currentPending) else stage.pendingVerified;
    var refused := s.row.Some? && (pendingVerified || HasVerified(seen, s.row.value.requested));
    if stage.candidate == NO_EMAIL || stage.candidate == stage.current then
      if s.row.None? || refused then s else s.(row := None)
    else if HasVerified(seen, stage.candidate) then s
    else if s.row.Some? && s.row.value.previous == stage.current && s.row.value.requested == stage.candidate then s
    else if refused then s
    else Issue(s, Request(freshId, stage.current, stage.candidate, s.clock))
  }

  // ----- selecting a proven address -----

  /** Stages the request of a proven address, in one transaction, and goes on to the
      write, or to completion when the address is canonical already. */
  function ProvenStaged(s: State, target: Email, seen: Identity, freshId: nat): State {
    if seen.current == target then
      match s.row
      case None => At(s, Idle)
      case Some(r) =>
        if r.requested == target then At(s, CompleteLoad(r))
        else if HasVerified(seen, r.requested) then At(s, Idle)
        else At(s.(row := None), Idle)
    else if s.row.Some? && s.row.value.previous == seen.current && s.row.value.requested == target then
      At(s, ProvenWrite(s.row.value, seen))
    else if s.row.Some? && HasVerified(seen, s.row.value.requested) then At(s, Idle)
    else
      var r := Request(freshId, seen.current, target, s.clock);
      At(Issue(s, r), ProvenWrite(r, seen))
  }

  function Written(s: State, r: Request, identity: Identity): State {
    s.(identity := Some(identity), applied := s.applied + {r})
  }

  function ProvenWritten(s: State, r: Request, seen: Identity, outcome: Outcome): State {
    if s.identity.None? then At(s, Idle)
    else
      var i := s.identity.value;
      var next := Written(s, r, i.(current := r.requested, pending := NO_EMAIL, addresses := Materialized(seen.addresses, r.requested)));
      match outcome
      case Done => At(next, CompleteLoad(r))
      case DoneButFailed => At(next, Idle)
      case Conflict => At(s, Finish(r))
      case Failed => At(s, Idle)
  }

  // ----- reconciling -----

  function Age(s: State, r: Request): int { s.clock - r.createdAt }

  /** Which way a request goes, judged on the identity as read. */
  function Decided(s: State, r: Request): State {
    match s.identity
    case None => At(s, Finish(r))
    case Some(i) =>
      if i.current == r.requested then
        if !HasVerified(i, r.requested) then At(s, Idle)
        else if i.pending != NO_EMAIL && i.pending != r.requested then At(s, Idle)
        else if i.pending == NO_EMAIL then At(s, CompleteLoad(r))
        else At(s, ClearPending(r))
      else if i.current != r.previous then At(s, ClearAddress(r, Some(i)))
      else if i.pending == r.requested && HasVerified(i, r.requested) then At(s, CheckUsed(r, i))
      else if i.pending == r.requested then
        if Age(s, r) < PENDING_LIFETIME then At(s, Idle) else At(s, ClearAddress(r, Some(i)))
      else if Age(s, r) < PROOF_GRACE then At(s, Idle) else At(s, ClearAddress(r, Some(i)))
  }

  function PendingCleared(s: State, r: Request, outcome: Outcome): State {
    if s.identity.None? || outcome.Failed? || outcome.Conflict? then At(s, Idle)
    else At(s.(identity := Some(s.identity.value.(pending := NO_EMAIL))), if outcome.Done? then CompleteLoad(r) else Idle)
  }

  function Applied(s: State, r: Request, seen: Identity, outcome: Outcome): State {
    if s.identity.None? || !HasVerified(seen, r.requested) then At(s, Idle)
    else
      var next := Written(s, r, s.identity.value.(current := r.requested, pending := NO_EMAIL));
      match outcome
      case Done => At(next, CompleteLoad(r))
      case DoneButFailed => At(next, Idle)
      case Conflict => At(s, ConflictReload(r))
      case Failed => At(s, Idle)
  }

  function AddressCleared(s: State, r: Request, snapshot: Option<Identity>, outcome: Outcome): State {
    if snapshot.None? || !NeedsClearing(snapshot.value, r.requested) then At(s, Finish(r))
    else if s.identity.None? || outcome.Failed? || outcome.Conflict? then At(s, Idle)
    else At(s.(identity := Some(Cleared(s.identity.value, snapshot.value, r.requested))), if outcome.Done? then Finish(r) else Idle)
  }

  predicate Converged(i: Identity, r: Request) {
    i.current == r.requested && i.pending == NO_EMAIL && HasVerified(i, r.requested)
  }

  function Published(s: State, r: Request, outcome: Outcome): State {
    match outcome
    case Done => At(s.(notices := s.notices + {r}), Finish(r))
    case DoneButFailed => At(s.(notices := s.notices + {r}), Idle)
    case _ => At(s, Idle)
  }

  /** Deletes the row of the request, if it is still there. */
  function Finished(s: State, r: Request): State {
    At(if s.row.Some? && s.row.value.id == r.id then s.(row := None) else s, Idle)
  }

  /** The next step of the running flow. */
  function Advanced(s: State, outcome: Outcome, usedElsewhere: bool, freshId: nat): State {
    match s.flow
    case Idle => s
    case StagePersist(stage, seen) => At(if outcome.Failed? then s else Persisted(s, stage, seen, freshId), Idle)
    case ProvenStage(target, seen) => if outcome.Failed? then At(s, Idle) else ProvenStaged(s, target, seen, freshId)
    case ProvenWrite(r, seen) => ProvenWritten(s, r, seen, outcome)
    case ReconcileLoad(r) => if outcome.Failed? then At(s, Idle) else Decided(s, r)
    case ClearPending(r) => PendingCleared(s, r, outcome)
    case CheckUsed(r, seen) =>
      if outcome.Failed? then At(s, Idle)
      else if usedElsewhere then At(s, ClearAddress(r, Some(seen)))
      else At(s, ApplyWrite(r, seen))
    case ApplyWrite(r, seen) => Applied(s, r, seen, outcome)
    case ConflictReload(r) => if outcome.Failed? then At(s, Idle) else At(s, ClearAddress(r, s.identity))
    case ClearAddress(r, snapshot) => AddressCleared(s, r, snapshot, outcome)
    case CompleteLoad(r) =>
      if outcome.Failed? || s.identity.None? || !Converged(s.identity.value, r) then At(s, Idle) else At(s, Publish(r))
    case Publish(r) => Published(s, r, outcome)
    case Finish(r) => if outcome.Failed? then At(s, Idle) else Finished(s, r)
  }

  predicate StageMatches(i: Identity, stage: Stage) {
    stage.current != NO_EMAIL && i.current == stage.current && i.pending == stage.currentPending
  }

  /** Starts a flow: under the fence, on what it reads first. */
  function Begun(s: State, e: Event): State {
    match e
    case BeginStage(stage) =>
      if s.identity.Some? && StageMatches(s.identity.value, stage) then At(s, StagePersist(stage, s.identity.value)) else s
    case BeginProven(target, usable) =>
      if s.identity.Some? && usable && target != NO_EMAIL && s.identity.value.current != NO_EMAIL
      then At(s.(proven := s.proven + {target}), ProvenStage(target, s.identity.value)) else s
    case BeginVerify(previous, requested) =>
      if s.row.Some? && s.row.value.previous == previous && s.row.value.requested == requested then At(s, ReconcileLoad(s.row.value)) else s
    case BeginReconcile(id) =>
      if s.row.Some? && s.row.value.id == id then At(s, ReconcileLoad(s.row.value)) else s
    case _ => s
  }

  /** The step may issue a request. */
  predicate Issues(flow: Flow) {
    flow.StagePersist? || flow.ProvenStage?
  }

  /** New requests take an identifier that no request had. */
  predicate Fresh(s: State, id: nat) {
    forall r :: r in s.issued ==> r.id != id
  }

  /** One event; one that cannot happen here changes nothing. */
  ghost function Next(s: State, e: Event): State {
    match e
    case Kratos(identity) =>
      if s.identity.Some? && KratosMay(s.flow, s.identity.value, identity) then s.(identity := Some(identity)) else s
    case Gone => s.(identity := None)
    case Tick(seconds) => s.(clock := s.clock + seconds)
    case Crash => At(s, Idle)
    case Advance(outcome, usedElsewhere, freshId) =>
      if Issues(s.flow) && !Fresh(s, freshId) then s else Advanced(s, outcome, usedElsewhere, freshId)
    case _ => if s.flow.Idle? then Begun(s, e) else s
  }

  ghost function Run(s: State, events: seq<Event>): State
    decreases |events|
  {
    if events == [] then s else Run(Next(s, events[0]), events[1..])
  }

  /** Before any change was asked for. */
  ghost predicate Initial(s: State) {
    s.row.None? && s.flow.Idle? && s.issued == {} && s.applied == {} && s.notices == {} && s.proven == {}
  }

  // ----- what every run keeps -----

  /** The canonical email is still the one that was read. */
  ghost predicate Current(s: State, seen: Identity) {
    s.identity.Some? ==> s.identity.value.current == seen.current
  }

  /** The flow has read the requested address as verified, and it still is. */
  ghost predicate Verified(s: State, r: Request, seen: Identity) {
    HasVerified(seen, r.requested) && (s.identity.Some? ==> HasVerified(s.identity.value, r.requested))
  }

  /** The canonical email has moved under the active request exactly when it is the
      requested one, and then that address is verified. */
  ghost predicate Shows(s: State, i: Identity) {
    s.row.Some? ==>
      if s.row.value in s.applied then i.current == s.row.value.requested && HasVerified(i, s.row.value.requested)
      else i.current == s.row.value.previous
  }

  ghost predicate RowInv(s: State) {
    && (s.row.Some? ==> s.row.value in s.issued && s.row.value.previous != s.row.value.requested && s.row.value.requested != NO_EMAIL)
    && (s.identity.Some? ==> Shows(s, s.identity.value))
  }

  ghost predicate HistoryInv(s: State) {
    && (forall a, b :: a in s.issued && b in s.issued && a.id == b.id ==> a == b)
    && s.applied <= s.issued
    && s.notices <= s.applied
  }

  /** A request under which the canonical email moved stays active until its notice
      is published, unless the identity is gone. */
  ghost predicate NoticeInv(s: State) {
    forall r :: r in s.applied ==> r in s.notices || s.row == Some(r) || s.identity.None?
  }

  ghost predicate FlowInv(s: State) {
    match s.flow
    case Idle => true
    case StagePersist(stage, seen) => Current(s, seen) && Shows(s, seen) && seen.current == stage.current && stage.current != NO_EMAIL
    case ProvenStage(target, seen) => Current(s, seen) && Shows(s, seen) && target in s.proven && target != NO_EMAIL
    case ProvenWrite(r, seen) =>
      s.row == Some(r) && Current(s, seen) && seen.current == r.previous && r.requested in s.proven && r !in s.applied
    case ReconcileLoad(r) => s.row == Some(r)
    case ClearPending(r) => s.row == Some(r) && r in s.applied
    case CheckUsed(r, seen) =>
      s.row == Some(r) && Current(s, seen) && seen.current == r.previous && Verified(s, r, seen) && r !in s.applied
    case ApplyWrite(r, seen) =>
      s.row == Some(r) && Current(s, seen) && seen.current == r.previous && Verified(s, r, seen) && r !in s.applied
    case ConflictReload(r) => s.row == Some(r) && r !in s.applied
    case ClearAddress(r, snapshot) => s.row == Some(r) && (s.identity.None? || r !in s.applied)
    case CompleteLoad(r) => s.row == Some(r) && r in s.applied
    case Publish(r) => s.row == Some(r) && r in s.applied
    case Finish(r) => s.row == Some(r) && (s.identity.None? || r !in s.applied || r in s.notices)
  }

  ghost predicate Inv(s: State) {
    RowInv(s) && HistoryInv(s) && NoticeInv(s) && FlowInv(s)
  }

  lemma {:induction false} MaterializedHas(addresses: seq<Address>, e: Email)
    ensures Address(e, true) in Materialized(addresses, e)
  {
    if addresses != [] && addresses[0].email != e {
      MaterializedHas(addresses[1..], e);
    }
  }

  lemma {:induction false} PersistedKeeps(s: State, freshId: nat)
    requires Inv(s) && s.flow.StagePersist? && Fresh(s, freshId)
    ensures Inv(At(Persisted(s, s.flow.stage, s.flow.seen, freshId), Idle))
  {
  }

  lemma {:induction false} ProvenStagedKeeps(s: State, freshId: nat)
    requires Inv(s) && s.flow.ProvenStage? && Fresh(s, freshId)
    ensures Inv(ProvenStaged(s, s.flow.target, s.flow.seen, freshId))
  {
  }

  lemma {:induction false} WrittenKeeps(s: State, outcome: Outcome)
    requires Inv(s) && (s.flow.ProvenWrite? || s.flow.ApplyWrite?)
    ensures Inv(Advanced(s, outcome, false, 0))
  {
    if s.flow.ProvenWrite? {
      MaterializedHas(s.flow.seen.addresses, s.flow.request.requested);
    }
  }

  lemma {:induction false} DecidedKeeps(s: State)
    requires Inv(s) && s.flow.ReconcileLoad?
    ensures Inv(Decided(s, s.flow.request))
  {
  }

  lemma {:induction false} ClearedKeeps(s: State, outcome: Outcome)
    requires Inv(s) && (s.flow.ClearPending? || s.flow.ClearAddress?)
    ensures Inv(Advanced(s, outcome, false, 0))
  {
  }

  lemma {:induction false} CompletionKeeps(s: State, outcome: Outcome)
    requires Inv(s) && (s.flow.CompleteLoad? || s.flow.Publish? || s.flow.Finish?)
    ensures Inv(Advanced(s, outcome, false, 0))
  {
  }

  lemma {:induction false} AdvancedKeeps(s: State, outcome: Outcome, usedElsewhere: bool, freshId: nat)
    requires Inv(s) && (Issues(s.flow) ==> Fresh(s, freshId))
    ensures Inv(Advanced(s, outcome, usedElsewhere, freshId))
  {
    match s.flow
    case StagePersist(_, _) => PersistedKeeps(s, freshId);
    case ProvenStage(_, _) => ProvenStagedKeeps(s, freshId);
    case ProvenWrite(_, _) => WrittenKeeps(s, outcome);
    case ApplyWrite(_, _) => WrittenKeeps(s, outcome);
    case ReconcileLoad(_) => DecidedKeeps(s);
    case ClearPending(_) => ClearedKeeps(s, outcome);
    case ClearAddress(_, _) => ClearedKeeps(s, outcome);
    case CompleteLoad(_) => CompletionKeeps(s, outcome);
    case Publish(_) => CompletionKeeps(s, outcome);
    case Finish(_) => CompletionKeeps(s, outcome);
    case _ =>
  }

  lemma {:induction false} NextKeeps(s: State, e: Event)
    requires Inv(s)
    ensures Inv(Next(s, e))
  {
    match e
    case Advance(outcome, usedElsewhere, freshId) =>
      if !Issues(s.flow) || Fresh(s, freshId) {
        AdvancedKeeps(s, outcome, usedElsewhere, freshId);
      }
    case _ =>
  }

  lemma {:induction false} RunKeeps(s: State, events: seq<Event>)
    requires Inv(s)
    ensures Inv(Run(s, events))
    decreases |events|
  {
    if events != [] {
      NextKeeps(s, events[0]);
      RunKeeps(Next(s, events[0]), events[1..]);
    }
  }

  // ----- safety -----

  predicate CanonicalMoves(s: State, t: State) {
    s.identity.Some? && t.identity.Some? && s.identity.value.current != t.identity.value.current
  }

  /** In every run, the canonical email moves only under the committed active request
      with exactly that previous and requested address, only to an address that was
      verified, or proven when the flow asked, and it is verified afterwards. */
  lemma {:induction false} CanonicalMovesSafely(first: State, events: seq<Event>, e: Event)
    requires Initial(first)
    ensures var s := Run(first, events);
            CanonicalMoves(s, Next(s, e)) ==>
              && s.row.Some? && s.row.value in s.issued
              && s.row.value.previous == s.identity.value.current
              && s.row.value.requested == Next(s, e).identity.value.current
              && (HasVerified(s.identity.value, s.row.value.requested) || s.row.value.requested in s.proven)
              && HasVerified(Next(s, e).identity.value, s.row.value.requested)
  {
    RunKeeps(first, events);
    var s := Run(first, events);
    if s.flow.ProvenWrite? {
      MaterializedHas(s.flow.seen.addresses, s.flow.request.requested);
    }
  }

  /** In every run, while the identity is there, a request under which the canonical
      email moved leaves the table only when its notice has been published. */
  lemma {:induction false} RequestOutlivesNotice(first: State, events: seq<Event>, e: Event)
    requires Initial(first)
    ensures var s, t := Run(first, events), Next(Run(first, events), e);
            s.row.Some? && s.row.value in s.applied && t.row != s.row && t.identity.Some? ==> s.row.value in t.notices
    ensures var s := Run(first, events); s.identity.Some? ==> forall r :: r in s.applied ==> r in s.notices || s.row == Some(r)
    ensures Run(first, events).notices <= Run(first, events).applied
  {
    RunKeeps(first, events);
    NextKeeps(Run(first, events), e);
  }

  /** Meanwhile staging, cancelling and selecting another address are all refused. */
  lemma {:induction false} InFlightRefuses(first: State, events: seq<Event>, outcome: Outcome, usedElsewhere: bool, freshId: nat)
    requires Initial(first)
    ensures var s := Run(first, events);
            s.row.Some? && s.row.value in s.applied && s.identity.Some? && (s.flow.StagePersist? || s.flow.ProvenStage?) && Fresh(s, freshId) ==>
              var t := Advanced(s, outcome, usedElsewhere, freshId);
              t.row == s.row && t.identity == s.identity && t.issued == s.issued && (t.flow.Idle? || t.flow == CompleteLoad(s.row.value))
  {
    RunKeeps(first, events);
  }

  // ----- what happens in between -----

  /** Between any two steps the user and Kratos may replace the pending address and the
      listed ones at will, as long as the canonical email and its verification stay, and
      outside the window before the write; the clock may advance, the identity may go,
      the running flow may crash, and an idle one may start. */
  lemma {:induction false} WorldMoves(s: State, pending: Email, addresses: seq<Address>, seconds: nat, id: nat)
    ensures s.identity.Some? && !s.flow.CheckUsed? && !s.flow.ApplyWrite?
              && (HasVerified(s.identity.value, s.identity.value.current) ==> Address(s.identity.value.current, true) in addresses) ==>
              var i := Identity(s.identity.value.current, pending, addresses);
              Next(s, Kratos(i)) == s.(identity := Some(i))
    ensures Next(s, Gone) == s.(identity := None) && Next(s, Tick(seconds)) == s.(clock := s.clock + seconds)
    ensures Next(s, Crash) == s.(flow := Idle)
    ensures s.flow.Idle? && s.row.Some? && s.row.value.id == id ==> Next(s, BeginReconcile(id)) == s.(flow := ReconcileLoad(s.row.value))
  {
  }

  // ----- the limit of the assumption -----

  /** The write that makes a verified pending address canonical does not look again:
      the canonical email is verified afterwards exactly if it still was at the write. */
  lemma {:induction false} WriteVerifiedIff(s: State, freshId: nat)
    requires s.flow.ApplyWrite? && s.identity.Some? && HasVerified(s.flow.seen, s.flow.request.requested)
    ensures var t := Next(s, Advance(Done, false, freshId));
            && t.identity.Some? && t.identity.value.current == s.flow.request.requested
            && (HasVerified(t.identity.value, t.identity.value.current) <==> HasVerified(s.identity.value, s.flow.request.requested))
  {
  }

  const CLAIM: Request := Request(7, 1, 2, 0)

  /** One user asks to change address 1 to 2 and proves 2; reconciling reads it. */
  function Claimed(): seq<Event> {
    [BeginStage(Stage(1, NO_EMAIL, 2, false)), Advance(Done, false, 7),
     Kratos(Identity(1, 2, [Address(1, true), Address(2, true)])),
     BeginReconcile(7), Advance(Done, false, 0), Advance(Done, false, 0)]
  }

  function Beginning(): State {
    State(Some(Identity(1, NO_EMAIL, [Address(1, true)])), None, 0, Idle, {}, {}, {}, {})
  }

  lemma ClaimedReaches()
    ensures Initial(Beginning())
    ensures var s := Run(Beginning(), Claimed());
            s.flow == ApplyWrite(CLAIM, Identity(1, 2, [Address(1, true), Address(2, true)])) &&
            s.identity == Some(Identity(1, 2, [Address(1, true), Address(2, true)])) && s.row == Some(CLAIM)
  {
    var i, j := Identity(1, NO_EMAIL, [Address(1, true)]), Identity(1, 2, [Address(1, true), Address(2, true)]);
    var a := Next(Beginning(), Claimed()[0]);
    assert a == At(Beginning(), StagePersist(Stage(1, NO_EMAIL, 2, false), i));
    var b := Next(a, Claimed()[1]);
    assert !HasVerified(i, 2);
    assert b.row == Some(CLAIM) && b.flow == Idle && b.identity == Some(i);
    var c := Next(b, Claimed()[2]);
    assert Address(1, true) == j.addresses[0] && Address(2, true) == j.addresses[1];
    assert c.identity == Some(j) && c.row == Some(CLAIM) && c.flow == Idle;
    var d := Next(c, Claimed()[3]);
    assert d.flow == ReconcileLoad(CLAIM);
    var e := Next(d, Claimed()[4]);
    assert e.flow == CheckUsed(CLAIM, j);
    var f := Next(e, Claimed()[5]);
    assert f.flow == ApplyWrite(CLAIM, j);
    RunSix(Beginning(), Claimed());
  }

  lemma RunSix(s: State, events: seq<Event>)
    requires |events| == 6
    ensures Run(s, events) == Next(Next(Next(Next(Next(Next(s, events[0]), events[1]), events[2]), events[3]), events[4]), events[5])
  {
    assert Run(s, events) == Run(Next(s, events[0]), events[1..]);
    var t := Next(Next(s, events[0]), events[1]);
    assert events[1..][1..] == events[2..];
    assert Run(s, events) == Run(t, events[2..]);
    assert events[2..][1..] == events[3..] && events[3..][1..] == events[4..] && events[4..][1..] == events[5..] && events[5..][1..] == [];
    var u := Next(Next(t, events[2]), events[3]);
    assert Run(t, events[2..]) == Run(Next(t, events[2]), events[3..]) == Run(u, events[4..]);
    assert Run(u, events[4..]) == Run(Next(u, events[4]), events[5..]) == Next(Next(u, events[4]), events[5]);
  }

  /** The window is real: were the verification taken back there, with everything else
      the assumption asks for kept, the canonical email would move to an address that
      is not verified. */
  lemma WithdrawnInWindow()
    ensures var s := Run(Beginning(), Claimed());
            var withdrawn := Identity(1, NO_EMAIL, [Address(1, true)]);
            && s.identity.Some? && KratosMay(Idle, s.identity.value, withdrawn) && !KratosMay(s.flow, s.identity.value, withdrawn)
            && var t := Next(s.(identity := Some(withdrawn)), Advance(Done, false, 0));
               CanonicalMoves(s, t) && !HasVerified(t.identity.value, t.identity.value.current)
  {
    ClaimedReaches();
    var j := Identity(1, 2, [Address(1, true), Address(2, true)]);
    assert j.addresses[0] == Address(1, true) && j.addresses[1] == Address(2, true);
  }
}
