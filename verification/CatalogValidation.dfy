/** validate() of the p17 catalog: the loops over its records, and the rule each turn decides. */
module CatalogValidation {
  import opened Results
  import opened Sorting
  import opened GateProgress
  import opened CatalogGraph
  import opened CatalogRules
  import opened CatalogReference
  import opened CatalogSoundness

  datatype GroupFault =
    | GroupDrifted | MalformedGates | GateBeforeEarlier | PrematureReviewer | BadDependency(dependency: string)
    | BadImpacted(validation: string) | NoPhaseRecord | NotPristine | BadSplit(split: SplitError) | BeforeEntry
    | BeforeDependency(dependency: string) | GatesIncoherent | NoWork | NoIndependentReviewer
    | BeforeEntity(entity: Entity) | BeforeValidation(validation: string)

  datatype EntityFault =
    | NoPrimaryGroup | BadSecondary(group: string) | BadStatus | BadTier | NotPristineEntity
    | BadValidation(validation: string) | BadContract(contract: string) | BeforeTraceability
    | EntityBeforeEntry | EntityBeforeDependency(dependency: string) | GroupDisagrees | AheadOfGate

  datatype PhaseFault =
    | PhaseDrifted | PrematureName | BadPhaseStatus | EnteredEarly | ReviewedBeforeEntry | ReviewerNotIndependent
    | ReviewedBefore(group: string) | ApprovalUnfounded | ExitedEarly | PhaseGatesIncoherent

  datatype FinalFault =
    | PrematureFinalName | FinalReviewerNotIndependent | FinalBeforeEntity(entity: Entity) | FinalBeforeGroup(group: Group)
    | FinalBeforePhase(phase: Phase) | FinalApprovalUnfounded | FinalAfterFailure | SignoffUnfounded

  datatype CatalogError =
    | GroupSetDrifted | DuplicateGroup(id: string) | OnGroup(id: string, group: GroupFault) | DependencyCycle
    | DuplicateEntity(id: string) | OnEntity(id: string, entity: EntityFault)
    | PhaseSetDrifted | OnPhase(id: string, phase: PhaseFault) | OnFinal(final: FinalFault)

  /** The loop of a check over the elements of a list: the first that is not in order. */
  method FirstBad<T(==)>(s: seq<T>, ok: T -> bool) returns (r: Option<T>)
    ensures r.None? <==> forall x :: x in s ==> ok(x)
    ensures r.Some? ==> r.value in s && !ok(r.value)
  {
    for i := 0 to |s|
      invariant forall k :: 0 <= k < i ==> ok(s[k])
    {
      if !ok(s[i]) {
        return Some(s[i]);
      }
    }
    return None;
  }

  // ----- the first pass over the groups

  method CheckGroupRecord(c: Catalog, planned: PlannedGroup, group: Group) returns (failure: Option<GroupFault>)
    ensures failure.None? <==> GroupWellFormed(c, planned, group)
  {
    if group.id != planned.id || group.phase != planned.phase || group.dependsOn != planned.dependsOn {
      return Some(GroupDrifted);
    }
    if |group.gates| != GATES {
      return Some(MalformedGates);
    }
    var ordered := CheckGateOrder(group.gates);
    if !ordered {
      return Some(GateBeforeEarlier);
    }
    if group.gates[ADVERSARIAL_REVIEW] == Pending && group.reviewer != None {
      return Some(PrematureReviewer);
    }
    var dependency := FirstBad(group.dependsOn, d => DependsOnEarlier(c, group, d));
    if dependency.Some? {
      return Some(BadDependency(dependency.value));
    }
    var validation := FirstBad(group.impacted, v => IsValidation(c, v));
    if validation.Some? {
      return Some(BadImpacted(validation.value));
    }
    return None;
  }

  method CheckGroups(c: Catalog, plan: seq<PlannedGroup>) returns (failure: Option<CatalogError>)
    ensures failure.None? <==> GroupsWellFormed(c, plan)
  {
    if |c.groups| != |plan| {
      return Some(GroupSetDrifted);
    }
    var groupIds: set<string> := {};
    for i := 0 to |c.groups|
      invariant forall k :: 0 <= k < i ==> GroupWellFormed(c, plan[k], c.groups[k])
      invariant forall x :: x in groupIds <==> x in GroupIds(c.groups)[..i]
      invariant Distinct(GroupIds(c.groups)[..i])
    {
      var group := c.groups[i];
      if group.id in groupIds {
        assert GroupIds(c.groups)[i] in GroupIds(c.groups)[..i];
        return Some(DuplicateGroup(group.id));
      }
      groupIds := groupIds + {group.id};
      assert GroupIds(c.groups)[..i + 1] == GroupIds(c.groups)[..i] + [group.id];
      var fault := CheckGroupRecord(c, plan[i], group);
      if fault.Some? {
        return Some(OnGroup(group.id, fault.value));
      }
    }
    assert GroupIds(c.groups)[..|c.groups|] == GroupIds(c.groups);
    return None;
  }

  // ----- the pass over the entity records

  method CheckEntityRecord(c: Catalog, entity: Entity) returns (failure: Option<EntityFault>)
    ensures failure.None? <==> EntityWellFormed(c, entity)
  {
    if FindGroup(c.groups, entity.primaryGroup).None? {
      return Some(NoPrimaryGroup);
    }
    var secondary := FirstBad(entity.secondaryGroups, s => FindGroup(c.groups, s).Some? && s != entity.primaryGroup);
    if secondary.Some? {
      return Some(BadSecondary(secondary.value));
    }
    if !StatusAllowed(entity.model, entity.status) {
      return Some(BadStatus);
    }
    if entity.status == Deferred && !entity.deferredTier {
      return Some(BadTier);
    }
    if entity.deferredTier && entity.status != Deferred {
      return Some(BadTier);
    }
    if entity.deferredTier && entity.primaryGroup != DEFERRED_GROUP {
      return Some(BadTier);
    }
    if entity.status == Planned || entity.status == Deferred {
      if entity.hasTarget || entity.evidence != [] || entity.ownedFiles != [] || entity.testCommands != [] {
        return Some(NotPristineEntity);
      }
    }
    var validation := FirstBad(entity.validations, v => RelatedValidation(c, v));
    if validation.Some? {
      return Some(BadValidation(validation.value));
    }
    var contract := FirstBad(entity.contracts, k => RelatedContract(c, k));
    if contract.Some? {
      return Some(BadContract(contract.value));
    }
    if entity.status == SignedOff && !TraceabilityClosed(c, entity.primaryGroup) {
      return Some(BeforeTraceability);
    }
    return None;
  }

  method CheckEntityRecords(c: Catalog) returns (failure: Option<CatalogError>)
    ensures failure.None? <==> EntitiesWellFormed(c)
  {
    var entityIds: set<string> := {};
    for i := 0 to |c.entities|
      invariant forall k :: 0 <= k < i ==> EntityWellFormed(c, c.entities[k])
      invariant forall x :: x in entityIds <==> x in EntityIds(c.entities)[..i]
      invariant Distinct(EntityIds(c.entities)[..i])
    {
      var entity := c.entities[i];
      if entity.id in entityIds {
        assert EntityIds(c.entities)[i] in EntityIds(c.entities)[..i];
        return Some(DuplicateEntity(entity.id));
      }
      entityIds := entityIds + {entity.id};
      assert EntityIds(c.entities)[..i + 1] == EntityIds(c.entities)[..i] + [entity.id];
      var fault := CheckEntityRecord(c, entity);
      if fault.Some? {
        assert entity in c.entities;
        return Some(OnEntity(entity.id, fault.value));
      }
    }
    assert EntityIds(c.entities)[..|c.entities|] == EntityIds(c.entities);
    return None;
  }

  // ----- phases

  /** The checks on a phase's status, from its own gates. */
  method CheckPhaseGates(phase: Phase) returns (ok: bool)
    ensures ok <==> PhaseGatesMatch(phase)
  {
    var phaseGates := [phase.entry, phase.review, phase.approval, phase.exit];
    if phase.status == PhasePlanned || phase.status == PhaseDeferred {
      ok := RequireExactProgress(phaseGates, 0);
    } else if phase.status == PhaseActive {
      ok := RequireExactProgress(phaseGates, 1);
    } else if phase.status == PhaseApproved {
      ok := RequireExactProgress(phaseGates, 4);
    } else {
      ok := RequireBlocked(phaseGates);
    }
  }

  method CheckPhaseReview(c: Catalog, phase: Phase) returns (failure: Option<PhaseFault>)
    requires phase.review == Passed
    ensures failure.None? <==>
      && phase.entry == Passed && Independent(phase.reviewer, ImplementersOf(c, phase.requiredGroups))
      && forall id :: id in phase.requiredGroups ==> IsSignedOff(c, id)
  {
    if phase.entry != Passed {
      return Some(ReviewedBeforeEntry);
    }
    if phase.reviewer.None? || phase.reviewer.value == "" {
      return Some(ReviewerNotIndependent);
    }
    if phase.reviewer.value in ImplementersOf(c, phase.requiredGroups) {
      return Some(ReviewerNotIndependent);
    }
    var unfinished := FirstBad(phase.requiredGroups, id => IsSignedOff(c, id));
    if unfinished.Some? {
      return Some(ReviewedBefore(unfinished.value));
    }
    return None;
  }

  method CheckPhaseRecord(c: Catalog, phase: Phase) returns (failure: Option<PhaseFault>)
    ensures failure.None? <==> PhaseAccepted(c, phase)
  {
    if (phase.review == Pending && phase.reviewer != None) || (phase.approval == Pending && phase.approvedBy != None) {
      return Some(PrematureName);
    }
    if phase.id == "7" && phase.status != PhaseDeferred {
      return Some(BadPhaseStatus);
    }
    if phase.id != "7" && phase.status == PhaseDeferred {
      return Some(BadPhaseStatus);
    }
    if phase.entry == Passed && phase.dependsOn.Some? && !LeftBehind(c, phase.dependsOn.value) {
      return Some(EnteredEarly);
    }
    if phase.review == Passed {
      failure := CheckPhaseReview(c, phase);
      if failure.Some? {
        return;
      }
    }
    if phase.approval == Passed {
      if phase.review != Passed || phase.approvedBy != Some(STANDING_AUTHORIZATION)
         || STANDING_EVIDENCE !in phase.approvalEvidence
      {
        return Some(ApprovalUnfounded);
      }
    }
    if phase.exit == Passed && phase.approval != Passed {
      return Some(ExitedEarly);
    }
    var coherent := CheckPhaseGates(phase);
    if !coherent {
      return Some(PhaseGatesIncoherent);
    }
    return None;
  }

  /** One turn of the loop over the phases. */
  method CheckPhase(c: Catalog, plan: seq<PlannedGroup>, k: nat) returns (failure: Option<CatalogError>)
    requires k < |c.phases| && k < |PHASE_IDS|
    ensures failure.None? <==> PlannedPhase(c.phases[k], plan, k) && PhaseAccepted(c, c.phases[k])
  {
    var phase := c.phases[k];
    if phase.id != PHASE_IDS[k] {
      return Some(PhaseSetDrifted);
    }
    if phase.dependsOn != (if k == 0 then None else Some(PHASE_IDS[k - 1]))
       || phase.requiredGroups != RequiredGroups(plan, PHASE_IDS[k]) {
      return Some(OnPhase(phase.id, PhaseDrifted));
    }
    var fault := CheckPhaseRecord(c, phase);
    if fault.Some? {
      return Some(OnPhase(phase.id, fault.value));
    }
    return None;
  }

  method CheckPhases(c: Catalog, plan: seq<PlannedGroup>) returns (failure: Option<CatalogError>)
    ensures failure.None? <==> PhasesPlanned(c, plan) && forall p :: p in c.phases ==> PhaseAccepted(c, p)
  {
    if |c.phases| != |PHASE_IDS| {
      return Some(PhaseSetDrifted);
    }
    for k := 0 to |c.phases|
      invariant forall j :: 0 <= j < k ==> PlannedPhase(c.phases[j], plan, j) && PhaseAccepted(c, c.phases[j])
    {
      failure := CheckPhase(c, plan, k);
      if failure.Some? {
        assert c.phases[k] in c.phases;
        return;
      }
    }
    return None;
  }

  // ----- group states

  /** The checks on a group's status, from its gates and its work. */
  method CheckProgress(group: Group) returns (failure: Option<GroupFault>)
    requires |group.gates| == GATES
    ensures failure.None? <==>
      && LifecycleMatches(group)
      && (group.status in {GroupReady, GroupActive, GroupReviewed, GroupSignedOff} ==> HasWork(group))
  {
    var coherent := true;
    if group.status == GroupPlanned {
      coherent := RequireExactProgress(group.gates, 0);
    }
    if group.status == GroupMapped {
      coherent := RequireExactProgress(group.gates, 1);
    }
    if !coherent {
      return Some(GatesIncoherent);
    }
    if group.status in {GroupReady, GroupActive, GroupReviewed, GroupSignedOff} {
      if group.ownedFiles == [] || group.testCommands == [] || group.implementers == [] {
        return Some(NoWork);
      }
    }
    if group.status == GroupReady {
      coherent := RequireExactProgress(group.gates, 2);
    } else if group.status == GroupActive {
      coherent := RequireActive(group.gates, 2, 7);
    } else if group.status == GroupReviewed {
      coherent := RequireExactProgress(group.gates, 8);
    } else if group.status == GroupDeferred {
      coherent := RequireExactProgress(group.gates, 0);
      coherent := coherent && group.phase == "7";
    } else if group.status == GroupFailed {
      coherent := RequireStop(group.gates, Failed);
    } else if group.status == GroupBlocked {
      coherent := RequireStop(group.gates, Blocked);
    } else if group.status == GroupSignedOff {
      coherent := RequireExactProgress(group.gates, GATES);
    }
    return if coherent then None else Some(GatesIncoherent);
  }

  /** The split checks, with the groups that collectDependencies finds. */
  method CheckGroupSplit(c: Catalog, group: Group) returns (failure: Option<SplitError>)
    ensures failure.None? <==> SplitByReach(c, group)
  {
    var availableGroups := AvailableByCollection(GraphOf(c.groups), group.id);
    failure := CheckSplit(Split(group.requiredNow, group.downstream), group.impacted, OwnersOf(c.entities), availableGroups);
    forall v
      ensures OwnedWithin(OwnersOf(c.entities), v, availableGroups) <==> OwnedInReach(c, group, v)
      ensures OwnedOutside(OwnersOf(c.entities), v, availableGroups) <==> OwnedBeyond(c, group, v)
    {
    }
  }

  /** The checks on what a group that has moved needs before and below it. */
  method CheckAdvance(c: Catalog, group: Group) returns (failure: Option<GroupFault>)
    requires Advanced(group)
    ensures failure.None? <==> EntryPassed(c, group.phase) && forall d :: d in group.dependsOn ==> IsSignedOff(c, d)
  {
    if !EntryPassed(c, group.phase) {
      return Some(BeforeEntry);
    }
    var missing := FirstBad(group.dependsOn, d => IsSignedOff(c, d));
    return if missing.Some? then Some(BeforeDependency(missing.value)) else None;
  }

  /** The checks on what gates and status say about a group's entities and reviewer. */
  method CheckClaims(c: Catalog, group: Group) returns (failure: Option<GroupFault>)
    requires |group.gates| == GATES
    ensures failure.None? <==>
      && (group.gates[ADVERSARIAL_REVIEW] == Passed ==> Independent(group.reviewer, group.implementers))
      && (group.status == GroupSignedOff ==>
            forall e :: e in c.entities && e.primaryGroup == group.id ==> e.status in {SignedOff, Deferred})
      && (group.gates[IMPACTED_GREEN] == Passed ==> forall v :: v in group.requiredNow ==> IsGreen(c, v))
  {
    if group.gates[ADVERSARIAL_REVIEW] == Passed {
      if group.reviewer.None? || group.reviewer.value == "" || group.reviewer.value in group.implementers {
        return Some(NoIndependentReviewer);
      }
    }
    if group.status == GroupSignedOff {
      var open := FirstBad(c.entities, (e: Entity) => e.primaryGroup == group.id ==> e.status in {SignedOff, Deferred});
      if open.Some? {
        return Some(BeforeEntity(open.value));
      }
    }
    if group.gates[IMPACTED_GREEN] == Passed {
      var red := FirstBad(group.requiredNow, v => IsGreen(c, v));
      if red.Some? {
        return Some(BeforeValidation(red.value));
      }
    }
    return None;
  }

  method CheckGroupState(c: Catalog, group: Group) returns (failure: Option<GroupFault>)
    requires |group.gates| == GATES
    ensures failure.None? <==> GroupAccepted(c, group)
  {
    if FindPhase(c.phases, PhaseOf(group.phase)).None? {
      return Some(NoPhaseRecord);
    }
    if !Advanced(group) && !Pristine(group) {
      return Some(NotPristine);
    }
    var split := CheckGroupSplit(c, group);
    if split.Some? {
      return Some(BadSplit(split.value));
    }
    if Advanced(group) {
      failure := CheckAdvance(c, group);
      if failure.Some? {
        return;
      }
    }
    failure := CheckProgress(group);
    if failure.Some? {
      return;
    }
    failure := CheckClaims(c, group);
  }

  /** The groups before number i keep the rules, and number i, which the failure names, does not. */
  ghost predicate FirstBadGroup(c: Catalog, i: nat, id: string)
    requires forall g :: g in c.groups ==> |g.gates| == GATES
  {
    && i < |c.groups| && c.groups[i].id == id && !GroupAccepted(c, c.groups[i])
    && forall k :: 0 <= k < i ==> GroupAccepted(c, c.groups[k])
  }

  method CheckGroupStates(c: Catalog) returns (failure: Option<CatalogError>)
    requires forall g :: g in c.groups ==> |g.gates| == GATES
    ensures failure.None? <==> forall g :: g in c.groups ==> GroupAccepted(c, g)
    ensures failure.Some? ==> failure.value.OnGroup? && exists i :: FirstBadGroup(c, i, failure.value.id)
  {
    for i := 0 to |c.groups|
      invariant forall k :: 0 <= k < i ==> GroupAccepted(c, c.groups[k])
    {
      assert c.groups[i] in c.groups;
      var fault := CheckGroupState(c, c.groups[i]);
      if fault.Some? {
        assert FirstBadGroup(c, i, c.groups[i].id);
        return Some(OnGroup(c.groups[i].id, fault.value));
      }
    }
    return None;
  }

  // ----- entity states

  /** The end of the loop body: failed, blocked and skipped entities leave early. */
  method CheckKeepsUp(group: Group, status: EntityStatus) returns (failure: Option<EntityFault>)
    ensures failure.None? <==> EntityKeepsUp(group, status)
  {
    if status == EntityFailed || status == EntityBlocked {
      var stopped := if status == EntityFailed then GroupFailed else GroupBlocked;
      if group.status != stopped {
        return Some(GroupDisagrees);
      }
      var gate := IndexOfGate(group.gates, if status == EntityFailed then Failed else Blocked);
      return if gate < 0 then Some(GroupDisagrees) else None;
    }
    if status == SkippedRequired {
      var gate := IndexOfGate(group.gates, Failed);
      return if group.status != GroupFailed || gate < 0 then Some(GroupDisagrees) else None;
    }
    return if GatePassed(group.gates, EntityGate(status)) then None else Some(AheadOfGate);
  }

  method CheckEntityState(c: Catalog, entity: Entity) returns (failure: Option<EntityFault>)
    ensures failure.None? <==> EntityAccepted(c, entity)
  {
    if entity.status == Planned || entity.status == Deferred {
      return None;
    }
    var found := FindGroup(c.groups, entity.primaryGroup);
    if found.None? {
      return Some(NoPrimaryGroup);
    }
    var group := found.value;
    if !EntryPassed(c, group.phase) {
      return Some(EntityBeforeEntry);
    }
    var missing := FirstBad(group.dependsOn, d => IsSignedOff(c, d));
    if missing.Some? {
      return Some(EntityBeforeDependency(missing.value));
    }
    failure := CheckKeepsUp(group, entity.status);
  }

  ghost predicate FirstBadEntity(c: Catalog, i: nat, id: string) {
    && i < |c.entities| && c.entities[i].id == id && !EntityAccepted(c, c.entities[i])
    && forall k :: 0 <= k < i ==> EntityAccepted(c, c.entities[k])
  }

  method CheckEntityStates(c: Catalog) returns (failure: Option<CatalogError>)
    ensures failure.None? <==> forall e :: e in c.entities ==> EntityAccepted(c, e)
    ensures failure.Some? ==> failure.value.OnEntity? && exists i :: FirstBadEntity(c, i, failure.value.id)
  {
    for i := 0 to |c.entities|
      invariant forall k :: 0 <= k < i ==> EntityAccepted(c, c.entities[k])
    {
      var fault := CheckEntityState(c, c.entities[i]);
      if fault.Some? {
        assert c.entities[i] in c.entities && FirstBadEntity(c, i, c.entities[i].id);
        return Some(OnEntity(c.entities[i].id, fault.value));
      }
    }
    return None;
  }

  // ----- the final gates

  method CheckFinalReview(c: Catalog) returns (failure: Option<FinalFault>)
    ensures failure.None? <==> FinalReviewEarned(c)
  {
    if c.finalReviewer.None? || c.finalReviewer.value == "" || c.finalReviewer.value in AllImplementers(c.groups) {
      return Some(FinalReviewerNotIndependent);
    }
    var entity := FirstBad(c.entities, (e: Entity) => !e.deferredTier ==> e.status == SignedOff);
    if entity.Some? {
      return Some(FinalBeforeEntity(entity.value));
    }
    var group := FirstBad(c.groups, (g: Group) => g.phase != "7" ==> g.status == GroupSignedOff);
    if group.Some? {
      return Some(FinalBeforeGroup(group.value));
    }
    var phase := FirstBad(c.phases, (p: Phase) => p.id != "7" ==> PhaseDone(p));
    if phase.Some? {
      return Some(FinalBeforePhase(phase.value));
    }
    return None;
  }

  method CheckFinal(c: Catalog) returns (failure: Option<FinalFault>)
    ensures failure.None? <==> FinalAccepted(c)
  {
    if (c.finalReview == Pending && c.finalReviewer != None) || (c.finalApproval == Pending && c.finalApprover != None) {
      return Some(PrematureFinalName);
    }
    if c.finalReview == Passed {
      failure := CheckFinalReview(c);
      if failure.Some? {
        return;
      }
    }
    if c.finalApproval == Passed {
      if c.finalReview != Passed || c.finalApprover != Some(STANDING_AUTHORIZATION)
         || STANDING_EVIDENCE !in c.finalApprovalEvidence
      {
        return Some(FinalApprovalUnfounded);
      }
    }
    if c.finalReview == Failed || c.finalReview == Blocked {
      if c.finalApproval == Passed || c.finalSignoff == Passed {
        return Some(FinalAfterFailure);
      }
    }
    if c.finalApproval == Failed || c.finalApproval == Blocked {
      if c.finalSignoff == Passed {
        return Some(FinalAfterFailure);
      }
    }
    if c.finalSignoff == Passed && (c.finalApproval != Passed || !c.handoffEvidence) {
      return Some(SignoffUnfounded);
    }
    return None;
  }

  // ----- the whole of it

  method Validate(c: Catalog, plan: seq<PlannedGroup>) returns (failure: Option<CatalogError>)
    ensures failure.None? <==> Accepted(c, plan)
    ensures failure.None? <==> Sound(c, plan)
  {
    AcceptedIsSound(c, plan);
    failure := CheckGroups(c, plan);
    if failure.Some? {
      return;
    }
    var acyclic, _ := VisitAll(GraphOf(c.groups), GroupIds(c.groups));
    if !acyclic {
      return Some(DependencyCycle);
    }
    failure := CheckEntityRecords(c);
    if failure.Some? {
      return;
    }
    failure := CheckPhases(c, plan);
    if failure.Some? {
      return;
    }
    WellFormedGates(c, plan);
    failure := CheckGroupStates(c);
    if failure.Some? {
      return;
    }
    failure := CheckEntityStates(c);
    if failure.Some? {
      return;
    }
    var final := CheckFinal(c);
    return if final.Some? then Some(OnFinal(final.value)) else None;
  }
}
