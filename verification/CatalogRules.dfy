/** The records of the p17 catalog, and the rules validate() holds each of them to. */
module CatalogRules {
  // Evidence lookups, executable targets and receipts are not part of this model.

  import opened Results
  import opened Sorting
  import opened GateProgress
  import opened CatalogGraph

  datatype GroupStatus =
    | GroupPlanned | GroupMapped | GroupReady | GroupActive | GroupReviewed | GroupSignedOff
    | GroupFailed | GroupBlocked | GroupDeferred

  datatype EntityStatus =
    | Planned | Ready | Red | Green | Reviewed | SignedOff | EntityFailed | EntityBlocked | Deferred
    | Active | Passing | Failing | SkippedRequired | Mapped | Validated

  datatype StateModel = Work | Validation | Coverage

  datatype PhaseStatus = PhasePlanned | PhaseActive | PhaseApproved | PhaseBlocked | PhaseDeferred

  /** The gates that statuses refer to, by their place in gateNames. */
  const MAPPED := 0
  const READY := 1
  const TEST_FIRST := 2
  const TARGETED_GREEN := 4
  const IMPACTED_GREEN := 5
  const ADVERSARIAL_REVIEW := 7
  const TRACEABILITY_CLOSURE := 8
  const GATES := 10

  datatype Group = Group(id: string, phase: string, dependsOn: seq<string>, status: GroupStatus,
                         gates: seq<GateStatus>, ownedFiles: seq<string>, testCommands: seq<string>,
                         implementers: seq<string>, evidence: seq<string>, integrationOwner: Option<string>,
                         reviewer: Option<string>, impacted: seq<string>, requiredNow: seq<string>,
                         downstream: seq<string>)

  /** `isValidation` tells whether the kind is one of the validation kinds. */
  datatype Entity = Entity(id: string, isValidation: bool, model: StateModel, primaryGroup: string,
                           secondaryGroups: seq<string>, status: EntityStatus, deferredTier: bool,
                           hasTarget: bool, evidence: seq<string>, ownedFiles: seq<string>,
                           testCommands: seq<string>, validations: seq<string>, contracts: seq<string>)

  datatype Phase = Phase(id: string, dependsOn: Option<string>, requiredGroups: seq<string>, status: PhaseStatus,
                         entry: GateStatus, review: GateStatus, approval: GateStatus, exit: GateStatus,
                         reviewer: Option<string>, approvedBy: Option<string>, approvalEvidence: seq<string>)

  datatype Catalog = Catalog(groups: seq<Group>, entities: seq<Entity>, phases: seq<Phase>,
                             finalReview: GateStatus, finalReviewer: Option<string>,
                             finalApproval: GateStatus, finalApprover: Option<string>,
                             finalApprovalEvidence: seq<string>, finalSignoff: GateStatus, handoffEvidence: bool)

  /** The immutable part of a group that initialize() derives from the plan. */
  datatype PlannedGroup = PlannedGroup(id: string, phase: string, dependsOn: seq<string>)

  const STANDING_AUTHORIZATION := "user-standing-authorization-2026-07-12"
  const STANDING_EVIDENCE := "projects/p17/evidence/standing-authorization.md"
  const DEFERRED_GROUP := "P17-G7-01"

  // ----- lookups

  function FindGroup(groups: seq<Group>, id: string): (r: Option<Group>)
    ensures r.Some? ==> r.value in groups && r.value.id == id
  {
    if groups == [] then None
    else if groups[|groups| - 1].id == id then Some(groups[|groups| - 1])
    else FindGroup(groups[..|groups| - 1], id)
  }

  function FindPhase(phases: seq<Phase>, id: string): (r: Option<Phase>)
    ensures r.Some? ==> r.value in phases && r.value.id == id
  {
    if phases == [] then None
    else if phases[|phases| - 1].id == id then Some(phases[|phases| - 1])
    else FindPhase(phases[..|phases| - 1], id)
  }

  function FindEntity(entities: seq<Entity>, id: string): (r: Option<Entity>)
    ensures r.Some? ==> r.value in entities && r.value.id == id
  {
    if entities == [] then None
    else if entities[|entities| - 1].id == id then Some(entities[|entities| - 1])
    else FindEntity(entities[..|entities| - 1], id)
  }

  predicate IsSignedOff(c: Catalog, id: string) {
    FindGroup(c.groups, id).Some? && FindGroup(c.groups, id).value.status == GroupSignedOff
  }

  /** The phase record a group's phase belongs to: 3A and 3B to 3, 4A and 4B to 4. */
  function PhaseOf(phaseName: string): string {
    if "3" <= phaseName then "3" else if "4" <= phaseName then "4" else phaseName
  }

  predicate EntryPassed(c: Catalog, phaseName: string) {
    FindPhase(c.phases, PhaseOf(phaseName)).Some? && FindPhase(c.phases, PhaseOf(phaseName)).value.entry == Passed
  }

  // ----- the rank of a phase

  predicate IsNumeral(text: string) {
    text != "" && forall i :: 0 <= i < |text| ==> '0' <= text[i] <= '9'
  }

  function NumeralValue(text: string): nat
    requires forall i :: 0 <= i < |text| ==> '0' <= text[i] <= '9'
  {
    if text == "" then 0
    else NumeralValue(text[..|text| - 1]) * 10 + (text[|text| - 1] as int - '0' as int)
  }

  /** phaseRank: digits and perhaps one capital letter, ranked by number and then by letter. */
  function PhaseRank(phase: string): Option<nat> {
    var lettered := phase != "" && 'A' <= phase[|phase| - 1] <= 'Z';
    var digits := if lettered then phase[..|phase| - 1] else phase;
    if !IsNumeral(digits) then None
    else Some(NumeralValue(digits) * 100 + if lettered then phase[|phase| - 1] as int - 'A' as int + 1 else 0)
  }

  /** Neither phase is malformed and the first is not the later one. */
  predicate NotLater(phase: string, other: string) {
    PhaseRank(phase).Some? && PhaseRank(other).Some? && PhaseRank(phase).value <= PhaseRank(other).value
  }

  // ----- what each record must be like

  predicate Advanced(group: Group) {
    group.status != GroupPlanned && group.status != GroupDeferred
  }

  predicate Pristine(group: Group) {
    && group.ownedFiles == [] && group.testCommands == [] && group.implementers == [] && group.evidence == []
    && group.integrationOwner == None && group.reviewer == None
  }

  /** A reviewer is named by a non-empty string. */
  predicate Independent(reviewer: Option<string>, implementers: seq<string>) {
    reviewer.Some? && reviewer.value != "" && reviewer.value !in implementers
  }

  predicate IsValidation(c: Catalog, id: string) {
    exists e :: e in c.entities && e.id == id && e.isValidation
  }

  /** The first pass over a group: identity, gate order, dependencies on groups that are no later, validations. */
  ghost predicate GroupWellFormed(c: Catalog, planned: PlannedGroup, group: Group) {
    && group.id == planned.id && group.phase == planned.phase && group.dependsOn == planned.dependsOn
    && |group.gates| == GATES && InOrder(group.gates)
    && (group.gates[ADVERSARIAL_REVIEW] == Pending ==> group.reviewer == None)
    && (forall d :: d in group.dependsOn ==> DependsOnEarlier(c, group, d))
    && forall v :: v in group.impacted ==> IsValidation(c, v)
  }

  predicate DependsOnEarlier(c: Catalog, group: Group, dependency: string) {
    FindGroup(c.groups, dependency).Some? && NotLater(FindGroup(c.groups, dependency).value.phase, group.phase)
  }

  /** modelStatuses */
  predicate StatusAllowed(model: StateModel, status: EntityStatus) {
    match model
    case Work => status in {Planned, Ready, Red, Green, Reviewed, SignedOff, EntityFailed, EntityBlocked, Deferred}
    case Validation => status in {Planned, Active, Passing, Failing, SkippedRequired, SignedOff, EntityBlocked, Deferred}
    case Coverage => status in {Planned, Mapped, Validated, SignedOff, EntityBlocked, Deferred}
  }

  predicate Untouched(entity: Entity) {
    entity.status == Planned || entity.status == Deferred
  }

  predicate PristineEntity(entity: Entity) {
    !entity.hasTarget && entity.evidence == [] && entity.ownedFiles == [] && entity.testCommands == []
  }

  predicate RelatedValidation(c: Catalog, id: string) {
    FindEntity(c.entities, id).Some? && FindEntity(c.entities, id).value.isValidation
  }

  predicate RelatedContract(c: Catalog, id: string) {
    FindEntity(c.entities, id).Some? && FindEntity(c.entities, id).value.model == Coverage
  }

  predicate TraceabilityClosed(c: Catalog, groupId: string) {
    var found := FindGroup(c.groups, groupId);
    found.Some? && |found.value.gates| == GATES && found.value.gates[TRACEABILITY_CLOSURE] == Passed
  }

  ghost predicate EntityWellFormed(c: Catalog, entity: Entity) {
    && FindGroup(c.groups, entity.primaryGroup).Some?
    && (forall s :: s in entity.secondaryGroups ==> FindGroup(c.groups, s).Some? && s != entity.primaryGroup)
    && StatusAllowed(entity.model, entity.status)
    && (entity.status == Deferred <==> entity.deferredTier)
    && (entity.deferredTier ==> entity.primaryGroup == DEFERRED_GROUP)
    && (Untouched(entity) ==> PristineEntity(entity))
    && (forall v :: v in entity.validations ==> RelatedValidation(c, v))
    && (forall k :: k in entity.contracts ==> RelatedContract(c, k))
    && (entity.status == SignedOff ==> TraceabilityClosed(c, entity.primaryGroup))
  }

  ghost predicate PhaseGatesMatch(phase: Phase) {
    var gates := [phase.entry, phase.review, phase.approval, phase.exit];
    match phase.status
    case PhasePlanned => ExactProgress(gates, 0)
    case PhaseActive => ExactProgress(gates, 1)
    case PhaseApproved => ExactProgress(gates, 4)
    case PhaseBlocked => StoppedBy(gates, Blocked) || StoppedBy(gates, Failed)
    case PhaseDeferred => ExactProgress(gates, 0)
  }

  function ImplementersOf(c: Catalog, ids: seq<string>): seq<string> {
    if ids == [] then []
    else
      var last := FindGroup(c.groups, ids[|ids| - 1]);
      ImplementersOf(c, ids[..|ids| - 1]) + (if last.Some? then last.value.implementers else [])
  }

  predicate LeftBehind(c: Catalog, phaseId: string) {
    var prior := FindPhase(c.phases, phaseId);
    prior.Some? && prior.value.exit == Passed && prior.value.approval == Passed
  }

  ghost predicate PhaseAccepted(c: Catalog, phase: Phase) {
    && (phase.review == Pending ==> phase.reviewer == None)
    && (phase.approval == Pending ==> phase.approvedBy == None)
    && (phase.id == "7" <==> phase.status == PhaseDeferred)
    && (phase.entry == Passed && phase.dependsOn.Some? ==> LeftBehind(c, phase.dependsOn.value))
    && (phase.review == Passed ==>
          && phase.entry == Passed
          && Independent(phase.reviewer, ImplementersOf(c, phase.requiredGroups))
          && forall id :: id in phase.requiredGroups ==> IsSignedOff(c, id))
    && (phase.approval == Passed ==>
          && phase.review == Passed && phase.approvedBy == Some(STANDING_AUTHORIZATION)
          && STANDING_EVIDENCE in phase.approvalEvidence)
    && (phase.exit == Passed ==> phase.approval == Passed)
    && PhaseGatesMatch(phase)
  }

  ghost predicate LifecycleMatches(group: Group) {
    match group.status
    case GroupPlanned => ExactProgress(group.gates, 0)
    case GroupMapped => ExactProgress(group.gates, 1)
    case GroupReady => ExactProgress(group.gates, 2)
    case GroupActive => exists n: nat :: 2 <= n <= 7 && ExactProgress(group.gates, n)
    case GroupReviewed => ExactProgress(group.gates, 8)
    case GroupSignedOff => ExactProgress(group.gates, GATES)
    case GroupDeferred => group.phase == "7" && ExactProgress(group.gates, 0)
    case GroupFailed => StoppedBy(group.gates, Failed)
    case GroupBlocked => StoppedBy(group.gates, Blocked)
  }

  predicate HasWork(group: Group) {
    group.ownedFiles != [] && group.testCommands != [] && group.implementers != []
  }

  predicate IsGreen(c: Catalog, id: string) {
    FindEntity(c.entities, id).Some? && FindEntity(c.entities, id).value.status in {Passing, SignedOff}
  }

  /** byEntity.get(id)?.primaryGroup, as a map. */
  function OwnersOf(entities: seq<Entity>): (r: map<string, string>)
    ensures forall id :: id in r <==> FindEntity(entities, id).Some?
    ensures forall id :: id in r ==> r[id] == FindEntity(entities, id).value.primaryGroup
  {
    if entities == [] then map[]
    else
      var last := entities[|entities| - 1];
      OwnersOf(entities[..|entities| - 1])[last.id := last.primaryGroup]
  }

  /** The split of a group lists its impacted validations by whether their owners are within its reach. */
  ghost predicate SplitByReach(c: Catalog, group: Group) {
    && multiset(group.requiredNow + group.downstream) == multiset(group.impacted)
    && (forall v :: v in group.requiredNow ==> OwnedInReach(c, group, v))
    && (forall v :: v in group.downstream ==> OwnedBeyond(c, group, v))
  }

  ghost predicate OwnedInReach(c: Catalog, group: Group, v: string) {
    var owner := Owner(OwnersOf(c.entities), v);
    owner.Some? && Reaches(GraphOf(c.groups), group.id, owner.value)
  }

  ghost predicate OwnedBeyond(c: Catalog, group: Group, v: string) {
    var owner := Owner(OwnersOf(c.entities), v);
    owner.Some? && !Reaches(GraphOf(c.groups), group.id, owner.value)
  }

  ghost predicate GroupAccepted(c: Catalog, group: Group)
    requires |group.gates| == GATES
  {
    && FindPhase(c.phases, PhaseOf(group.phase)).Some?
    && (!Advanced(group) ==> Pristine(group))
    && SplitByReach(c, group)
    && (Advanced(group) ==>
          EntryPassed(c, group.phase) && forall d :: d in group.dependsOn ==> IsSignedOff(c, d))
    && LifecycleMatches(group)
    && (group.status in {GroupReady, GroupActive, GroupReviewed, GroupSignedOff} ==> HasWork(group))
    && (group.gates[ADVERSARIAL_REVIEW] == Passed ==> Independent(group.reviewer, group.implementers))
    && (group.status == GroupSignedOff ==>
          forall e :: e in c.entities && e.primaryGroup == group.id ==> e.status in {SignedOff, Deferred})
    && (group.gates[IMPACTED_GREEN] == Passed ==> forall v :: v in group.requiredNow ==> IsGreen(c, v))
  }

  /** entityGate: the gate an entity status may not run ahead of. */
  function EntityGate(status: EntityStatus): Option<nat> {
    match status
    case Ready => Some(READY)
    case Red => Some(TEST_FIRST)
    case Green => Some(TARGETED_GREEN)
    case Reviewed => Some(ADVERSARIAL_REVIEW)
    case Active => Some(TEST_FIRST)
    case Failing => Some(TEST_FIRST)
    case Passing => Some(TARGETED_GREEN)
    case Mapped => Some(MAPPED)
    case Validated => Some(IMPACTED_GREEN)
    case SignedOff => Some(TRACEABILITY_CLOSURE)
    case SkippedRequired => Some(TEST_FIRST)
    case Planned => None
    case EntityFailed => None
    case EntityBlocked => None
    case Deferred => None
  }

  /** The group stands still at a gate, as it must for an entity that says so. */
  ghost predicate GroupStopped(group: Group, status: GroupStatus, gate: GateStatus) {
    group.status == status && gate in group.gates
  }

  /** The group has got as far as the entity, or stands still with it. */
  ghost predicate EntityKeepsUp(group: Group, status: EntityStatus) {
    if status == EntityFailed || status == SkippedRequired then GroupStopped(group, GroupFailed, Failed)
    else if status == EntityBlocked then GroupStopped(group, GroupBlocked, Blocked)
    else GatePassed(group.gates, EntityGate(status))
  }

  ghost predicate EntityAccepted(c: Catalog, entity: Entity) {
    Untouched(entity) ||
    (var found := FindGroup(c.groups, entity.primaryGroup);
     && found.Some? && EntryPassed(c, found.value.phase)
     && (forall d :: d in found.value.dependsOn ==> IsSignedOff(c, d))
     && EntityKeepsUp(found.value, entity.status))
  }

  predicate GatePassed(gates: seq<GateStatus>, gate: Option<nat>) {
    gate.Some? && gate.value < |gates| && gates[gate.value] == Passed
  }

  ghost predicate FinalReviewEarned(c: Catalog) {
    && Independent(c.finalReviewer, AllImplementers(c.groups))
    && (forall e :: e in c.entities && !e.deferredTier ==> e.status == SignedOff)
    && (forall g :: g in c.groups && g.phase != "7" ==> g.status == GroupSignedOff)
    && (forall p :: p in c.phases && p.id != "7" ==> PhaseDone(p))
  }

  predicate PhaseDone(phase: Phase) {
    phase.status == PhaseApproved && phase.review == Passed && phase.approval == Passed && phase.exit == Passed
  }

  ghost predicate FinalAccepted(c: Catalog) {
    && (c.finalReview == Pending ==> c.finalReviewer == None)
    && (c.finalApproval == Pending ==> c.finalApprover == None)
    && (c.finalReview == Passed ==> FinalReviewEarned(c))
    && (c.finalApproval == Passed ==>
          && c.finalReview == Passed && c.finalApprover == Some(STANDING_AUTHORIZATION)
          && STANDING_EVIDENCE in c.finalApprovalEvidence)
    && (c.finalReview in {Failed, Blocked} ==> c.finalApproval != Passed && c.finalSignoff != Passed)
    && (c.finalApproval in {Failed, Blocked} ==> c.finalSignoff != Passed)
    && (c.finalSignoff == Passed ==> c.finalApproval == Passed && c.handoffEvidence)
  }

  function AllImplementers(groups: seq<Group>): seq<string> {
    if groups == [] then []
    else AllImplementers(groups[..|groups| - 1]) + groups[|groups| - 1].implementers
  }

  // ----- the phases of the plan

  const PHASE_IDS: seq<string> := ["0", "1", "2", "3", "4", "5", "6", "7"]

  /** The groups createPhases requires of a phase. */
  function RequiredGroups(plan: seq<PlannedGroup>, id: string): seq<string> {
    if plan == [] then []
    else
      var k := |plan| - 1;
      var belongs := if id == "3" || id == "4" then id <= plan[k].phase else plan[k].phase == id;
      RequiredGroups(plan[..k], id) + (if belongs then [plan[k].id] else [])
  }

  ghost predicate PhasesPlanned(c: Catalog, plan: seq<PlannedGroup>) {
    |c.phases| == |PHASE_IDS| && forall k :: 0 <= k < |c.phases| ==> PlannedPhase(c.phases[k], plan, k)
  }

  predicate PlannedPhase(phase: Phase, plan: seq<PlannedGroup>, k: nat)
    requires k < |PHASE_IDS|
  {
    && phase.id == PHASE_IDS[k]
    && phase.dependsOn == (if k == 0 then None else Some(PHASE_IDS[k - 1]))
    && phase.requiredGroups == RequiredGroups(plan, PHASE_IDS[k])
  }

  function GraphOf(groups: seq<Group>): Graph {
    if groups == [] then map[]
    else GraphOf(groups[..|groups| - 1])[groups[|groups| - 1].id := groups[|groups| - 1].dependsOn]
  }

  function GroupIds(groups: seq<Group>): (r: seq<string>)
    ensures |r| == |groups| && forall i :: 0 <= i < |r| ==> r[i] == groups[i].id
  {
    seq(|groups|, i requires 0 <= i < |groups| => groups[i].id)
  }

  function EntityIds(entities: seq<Entity>): (r: seq<string>)
    ensures |r| == |entities| && forall i :: 0 <= i < |r| ==> r[i] == entities[i].id
  {
    seq(|entities|, i requires 0 <= i < |entities| => entities[i].id)
  }

  // ----- acceptance

  ghost predicate GroupsWellFormed(c: Catalog, plan: seq<PlannedGroup>) {
    && |c.groups| == |plan| && Distinct(GroupIds(c.groups))
    && forall i :: 0 <= i < |plan| ==> GroupWellFormed(c, plan[i], c.groups[i])
  }

  ghost predicate EntitiesWellFormed(c: Catalog) {
    Distinct(EntityIds(c.entities)) && forall e :: e in c.entities ==> EntityWellFormed(c, e)
  }

  ghost predicate Accepted(c: Catalog, plan: seq<PlannedGroup>) {
    && GroupsWellFormed(c, plan)
    && AcyclicFrom(GraphOf(c.groups), GroupIds(c.groups))
    && EntitiesWellFormed(c)
    && PhasesPlanned(c, plan)
    && (forall p :: p in c.phases ==> PhaseAccepted(c, p))
    && (forall g :: g in c.groups ==> GroupAccepted(c, g))
    && (forall e :: e in c.entities ==> EntityAccepted(c, e))
    && FinalAccepted(c)
  }

  lemma WellFormedGates(c: Catalog, plan: seq<PlannedGroup>)
    requires GroupsWellFormed(c, plan)
    ensures forall g :: g in c.groups ==> |g.gates| == GATES
  {
    forall g | g in c.groups
      ensures |g.gates| == GATES
    {
      var i :| 0 <= i < |c.groups| && c.groups[i] == g;
      assert GroupWellFormed(c, plan[i], g);
    }
  }

  // ----- lookups in a well-formed catalog

  lemma {:induction false} FoundById(groups: seq<Group>, i: nat)
    requires i < |groups| && Distinct(GroupIds(groups))
    ensures FindGroup(groups, groups[i].id) == Some(groups[i])
  {
    var k := |groups| - 1;
    if i < k {
      assert GroupIds(groups)[i] != GroupIds(groups)[k];
      assert GroupIds(groups[..k]) == GroupIds(groups)[..k];
      FoundById(groups[..k], i);
    }
  }

  lemma {:induction false} DepsOfGroup(groups: seq<Group>, id: string)
    ensures Deps(GraphOf(groups), id) == match FindGroup(groups, id)
                                         case Some(group) => group.dependsOn
                                         case None => []
  {
    if groups != [] {
      DepsOfGroup(groups[..|groups| - 1], id);
    }
  }

  lemma FoundGroup(c: Catalog, plan: seq<PlannedGroup>, g: Group)
    requires GroupsWellFormed(c, plan) && g in c.groups
    ensures FindGroup(c.groups, g.id) == Some(g)
  {
    var i :| 0 <= i < |c.groups| && c.groups[i] == g;
    FoundById(c.groups, i);
  }

  lemma {:induction false} PhaseByIndex(phases: seq<Phase>, k: nat)
    requires k < |phases| <= |PHASE_IDS| && forall j :: 0 <= j < |phases| ==> phases[j].id == PHASE_IDS[j]
    ensures FindPhase(phases, PHASE_IDS[k]) == Some(phases[k])
  {
    var last := |phases| - 1;
    if k < last {
      assert PHASE_IDS[k][0] != PHASE_IDS[last][0];
      PhaseByIndex(phases[..last], k);
    }
  }

  /** The record of a phase the catalog knows is one of the eight. */
  lemma PhaseIndex(c: Catalog, plan: seq<PlannedGroup>, id: string) returns (k: nat)
    requires PhasesPlanned(c, plan) && FindPhase(c.phases, id).Some?
    ensures k < |PHASE_IDS| && PHASE_IDS[k] == id && FindPhase(c.phases, id) == Some(c.phases[k])
  {
    var phase := FindPhase(c.phases, id).value;
    k :| 0 <= k < |c.phases| && c.phases[k] == phase;
    PhaseByIndex(c.phases, k);
  }

  lemma {:induction false} RequiredOfPhase(plan: seq<PlannedGroup>, i: nat)
    requires i < |plan|
    ensures plan[i].id in RequiredGroups(plan, PhaseOf(plan[i].phase))
  {
    var k := |plan| - 1;
    if i < k {
      RequiredOfPhase(plan[..k], i);
    } else {
      assert plan[i].phase <= plan[i].phase;
    }
  }
}
