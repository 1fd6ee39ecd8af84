/** What the rules of the p17 catalog mean together: local checks put the whole catalog in order. */
module CatalogHistory {
  import opened Results
  import opened Sorting
  import opened GateProgress
  import opened CatalogGraph
  import opened CatalogRules
  import opened PhaseNames

  // ----- what acceptance means for the whole catalog

  /** All four gates of phase k passed and its groups and their entities are done. */
  ghost predicate PhaseClosed(c: Catalog, k: nat)
    requires |c.phases| == |PHASE_IDS| && k < |PHASE_IDS|
  {
    var phase := c.phases[k];
    && phase.entry == Passed && phase.review == Passed && phase.approval == Passed && phase.exit == Passed
    && (forall g :: g in c.groups && PhaseOf(g.phase) == PHASE_IDS[k] ==> g.status == GroupSignedOff)
    && (forall e :: e in c.entities && InPhase(c, e, k) ==> e.status in {SignedOff, Deferred})
  }

  ghost predicate InPhase(c: Catalog, e: Entity, k: nat)
    requires k < |PHASE_IDS|
  {
    FindGroup(c.groups, e.primaryGroup).Some?
    && PhaseOf(FindGroup(c.groups, e.primaryGroup).value.phase) == PHASE_IDS[k]
  }

  lemma GroupsOfReviewedPhase(c: Catalog, plan: seq<PlannedGroup>, k: nat, g: Group)
    requires GroupsWellFormed(c, plan) && PhasesPlanned(c, plan) && k < |PHASE_IDS|
    requires PhaseAccepted(c, c.phases[k]) && c.phases[k].review == Passed
    requires g in c.groups && PhaseOf(g.phase) == PHASE_IDS[k]
    ensures g.status == GroupSignedOff
  {
    var i :| 0 <= i < |c.groups| && c.groups[i] == g;
    assert GroupWellFormed(c, plan[i], g) && PlannedPhase(c.phases[k], plan, k);
    RequiredOfPhase(plan, i);
    assert IsSignedOff(c, g.id);
    FoundGroup(c, plan, g);
  }

  /** The entities of signed-off groups are done. */
  lemma EntitiesOfSignedOff(c: Catalog, plan: seq<PlannedGroup>, e: Entity)
    requires Accepted(c, plan) && e in c.entities && IsSignedOff(c, e.primaryGroup)
    ensures e.status in {SignedOff, Deferred}
  {
    var g := FindGroup(c.groups, e.primaryGroup).value;
    WellFormedGates(c, plan);
    assert GroupAccepted(c, g);
  }

  /** A phase that exited with its approval is closed. */
  lemma ExitedPhaseClosed(c: Catalog, plan: seq<PlannedGroup>, k: nat)
    requires Accepted(c, plan) && k < |PHASE_IDS|
    requires c.phases[k].exit == Passed && c.phases[k].approval == Passed
    ensures PhaseClosed(c, k)
  {
    assert c.phases[k] in c.phases && PhaseAccepted(c, c.phases[k]);
    forall g | g in c.groups && PhaseOf(g.phase) == PHASE_IDS[k]
      ensures g.status == GroupSignedOff
    {
      GroupsOfReviewedPhase(c, plan, k, g);
    }
    forall e | e in c.entities && InPhase(c, e, k)
      ensures e.status in {SignedOff, Deferred}
    {
      EntitiesOfSignedOff(c, plan, e);
    }
  }

  /** Each phase was entered only after the one before it had exited with its approval. */
  ghost predicate EnteredInTurn(phases: seq<Phase>) {
    forall k :: 0 < k < |phases| && phases[k].entry == Passed ==>
      phases[k - 1].exit == Passed && phases[k - 1].approval == Passed
  }

  lemma EnteredNeedsPrior(c: Catalog, phase: Phase, prior: string)
    requires PhaseAccepted(c, phase) && phase.entry == Passed && phase.dependsOn == Some(prior)
    ensures LeftBehind(c, prior)
  {
  }

  lemma PriorPhaseExited(c: Catalog, plan: seq<PlannedGroup>, k: nat)
    requires PhasesPlanned(c, plan) && 0 < k < |PHASE_IDS|
    requires PhaseAccepted(c, c.phases[k]) && c.phases[k].entry == Passed
    ensures c.phases[k - 1].exit == Passed && c.phases[k - 1].approval == Passed
  {
    assert PlannedPhase(c.phases[k], plan, k);
    EnteredNeedsPrior(c, c.phases[k], PHASE_IDS[k - 1]);
    PhaseFound(c, plan, k - 1);
  }

  lemma AcceptedEntersInTurn(c: Catalog, plan: seq<PlannedGroup>)
    requires PhasesPlanned(c, plan) && forall p :: p in c.phases ==> PhaseAccepted(c, p)
    ensures EnteredInTurn(c.phases)
  {
    forall k | 0 < k < |c.phases| && c.phases[k].entry == Passed
      ensures c.phases[k - 1].exit == Passed && c.phases[k - 1].approval == Passed
    {
      assert c.phases[k] in c.phases;
      PriorPhaseExited(c, plan, k);
    }
  }

  lemma PhaseFound(c: Catalog, plan: seq<PlannedGroup>, k: nat)
    requires PhasesPlanned(c, plan) && k < |PHASE_IDS|
    ensures FindPhase(c.phases, PHASE_IDS[k]) == Some(c.phases[k])
  {
    forall j | 0 <= j < |c.phases|
      ensures c.phases[j].id == PHASE_IDS[j]
    {
      assert PlannedPhase(c.phases[j], plan, j);
    }
    PhaseByIndex(c.phases, k);
  }

  /** Exits and approvals go back to the first phase, given that each closed phase had been entered. */
  lemma {:induction false} ExitedBefore(phases: seq<Phase>, k: nat, j: nat)
    requires EnteredInTurn(phases) && j < k < |phases| && phases[k].entry == Passed
    requires forall i :: 0 <= i < |phases| && phases[i].exit == Passed && phases[i].approval == Passed ==> phases[i].entry == Passed
    ensures phases[j].exit == Passed && phases[j].approval == Passed
  {
    if j < k - 1 {
      ExitedBefore(phases, k - 1, j);
    }
  }

  /** Once a phase is entered, every phase before it is closed. */
  lemma EnteredPhaseHistory(c: Catalog, plan: seq<PlannedGroup>, k: nat)
    requires Accepted(c, plan) && k < |PHASE_IDS| && c.phases[k].entry == Passed
    ensures forall j :: 0 <= j < k ==> PhaseClosed(c, j)
  {
    AcceptedEntersInTurn(c, plan);
    forall j | 0 <= j < k
      ensures PhaseClosed(c, j)
    {
      forall i | 0 <= i < |c.phases| && c.phases[i].exit == Passed && c.phases[i].approval == Passed
        ensures c.phases[i].entry == Passed
      {
        assert c.phases[i] in c.phases;
      }
      ExitedBefore(c.phases, k, j);
      ExitedPhaseClosed(c, plan, j);
    }
  }

  /** No group is past planned before all its direct dependencies are signed off. */
  ghost predicate DependenciesHonoured(c: Catalog) {
    forall g :: g in c.groups && Advanced(g) ==> forall d :: d in g.dependsOn ==> IsSignedOff(c, d)
  }

  lemma AcceptedHonoursDependencies(c: Catalog, plan: seq<PlannedGroup>)
    requires Accepted(c, plan)
    ensures DependenciesHonoured(c)
  {
    WellFormedGates(c, plan);
    forall g | g in c.groups && Advanced(g)
      ensures forall d :: d in g.dependsOn ==> IsSignedOff(c, d)
    {
      assert GroupAccepted(c, g);
    }
  }

  /** A signed-off dependency has signed-off dependencies, all the way down. */
  lemma {:induction false} SignedOffDown(c: Catalog, p: seq<string>)
    requires DependenciesHonoured(c) && Path(GraphOf(c.groups), p) && IsSignedOff(c, p[0])
    ensures IsSignedOff(c, p[|p| - 1])
  {
    if |p| > 1 {
      var g := FindGroup(c.groups, p[0]).value;
      DepsOfGroup(c.groups, p[0]);
      assert p[1] in g.dependsOn;
      SignedOffDown(c, p[1..]);
    }
  }

  lemma SignedOffBelow(c: Catalog, g: Group, x: string)
    requires DependenciesHonoured(c) && FindGroup(c.groups, g.id) == Some(g)
    requires forall d :: d in g.dependsOn ==> IsSignedOff(c, d)
    requires Reaches(GraphOf(c.groups), g.id, x) && x != g.id
    ensures IsSignedOff(c, x)
  {
    var p :| PathFrom(GraphOf(c.groups), p, g.id, x);
    DepsOfGroup(c.groups, g.id);
    assert |p| >= 2 && p[1] in Deps(GraphOf(c.groups), p[0]);
    SignedOffDown(c, p[1..]);
  }

  /** If the direct dependencies of a group are signed off, everything it needs is. */
  lemma ClosureSignedOff(c: Catalog, plan: seq<PlannedGroup>, g: Group, x: string)
    requires Accepted(c, plan) && g in c.groups && forall d :: d in g.dependsOn ==> IsSignedOff(c, d)
    requires Reaches(GraphOf(c.groups), g.id, x) && x != g.id
    ensures IsSignedOff(c, x)
  {
    AcceptedHonoursDependencies(c, plan);
    FoundGroup(c, plan, g);
    SignedOffBelow(c, g, x);
  }

  /**
   A group past planned: everything it depends on, however indirectly, is signed off, and every
   earlier phase is closed.
   */
  lemma AdvancedGroupHistory(c: Catalog, plan: seq<PlannedGroup>, g: Group) returns (k: nat)
    requires Accepted(c, plan) && g in c.groups && Advanced(g)
    ensures forall x :: Reaches(GraphOf(c.groups), g.id, x) && x != g.id ==> IsSignedOff(c, x)
    ensures k < |PHASE_IDS| && PHASE_IDS[k] == PhaseOf(g.phase) && c.phases[k].entry == Passed
    ensures forall j :: 0 <= j < k ==> PhaseClosed(c, j)
  {
    WellFormedGates(c, plan);
    assert GroupAccepted(c, g);
    forall x | Reaches(GraphOf(c.groups), g.id, x) && x != g.id
      ensures IsSignedOff(c, x)
    {
      ClosureSignedOff(c, plan, g, x);
    }
    k := PhaseIndex(c, plan, PhaseOf(g.phase));
    EnteredPhaseHistory(c, plan, k);
  }

  /** The same history stands behind every entity that is past planned. */
  lemma AdvancedEntityHistory(c: Catalog, plan: seq<PlannedGroup>, e: Entity) returns (k: nat)
    requires Accepted(c, plan) && e in c.entities && !Untouched(e)
    ensures forall x :: Reaches(GraphOf(c.groups), e.primaryGroup, x) && x != e.primaryGroup ==> IsSignedOff(c, x)
    ensures k < |PHASE_IDS| && InPhase(c, e, k)
    ensures forall j :: 0 <= j < k ==> PhaseClosed(c, j)
  {
    assert EntityAccepted(c, e);
    var g := FindGroup(c.groups, e.primaryGroup).value;
    forall x | Reaches(GraphOf(c.groups), g.id, x) && x != g.id
      ensures IsSignedOff(c, x)
    {
      ClosureSignedOff(c, plan, g, x);
    }
    k := PhaseIndex(c, plan, PhaseOf(g.phase));
    EnteredPhaseHistory(c, plan, k);
  }

  lemma DeferredPhaseNotEntered(c: Catalog, phase: Phase)
    requires PhaseAccepted(c, phase) && phase.id == "7"
    ensures phase.entry == Pending
  {
    var gates := [phase.entry, phase.review, phase.approval, phase.exit];
    assert gates[0] == Pending;
  }

  /** Phase 7 stays as planned: none of its groups has moved. */
  lemma PhaseSevenUntouched(c: Catalog, plan: seq<PlannedGroup>, g: Group)
    requires Accepted(c, plan) && g in c.groups && PhaseOf(g.phase) == "7"
    ensures !Advanced(g) && ExactProgress(g.gates, 0)
  {
    WellFormedGates(c, plan);
    assert GroupAccepted(c, g);
    PhaseFound(c, plan, 7);
    assert c.phases[7] in c.phases && PlannedPhase(c.phases[7], plan, 7);
    DeferredPhaseNotEntered(c, c.phases[7]);
  }

  lemma SignoffWasEarned(c: Catalog)
    requires FinalAccepted(c) && c.finalSignoff == Passed
    ensures FinalReviewEarned(c)
  {
  }

  lemma FinalEntities(c: Catalog)
    requires FinalReviewEarned(c) && EntitiesWellFormed(c)
    ensures forall e :: e in c.entities && e.status != Deferred ==> e.status == SignedOff
  {
    forall e | e in c.entities && e.status != Deferred
      ensures e.status == SignedOff
    {
      assert EntityWellFormed(c, e);
    }
  }

  lemma FinalGroups(c: Catalog, plan: seq<PlannedGroup>)
    requires FinalReviewEarned(c) && GroupsWellFormed(c, plan)
    requires forall g :: g in c.groups ==> |g.gates| == GATES && GroupAccepted(c, g)
    ensures forall g :: g in c.groups && g.phase != "7" ==> g.status == GroupSignedOff && ExactProgress(g.gates, GATES)
  {
    forall g | g in c.groups && g.phase != "7"
      ensures g.status == GroupSignedOff && ExactProgress(g.gates, GATES)
    {
      assert GroupAccepted(c, g);
    }
  }

  lemma EarlierPhase(c: Catalog, plan: seq<PlannedGroup>, k: nat)
    requires PhasesPlanned(c, plan) && k < 7
    ensures c.phases[k] in c.phases && c.phases[k].id != "7"
  {
    assert PlannedPhase(c.phases[k], plan, k);
    assert PHASE_IDS[k][0] != '7';
  }

  /**
   A passed final sign-off: every entity that is not deferred is signed off, every group outside
   phase 7 passed all ten gates, and the phases 0 to 6 are closed.
   */
  lemma FinalSignoffMeansDone(c: Catalog, plan: seq<PlannedGroup>)
    requires Accepted(c, plan) && c.finalSignoff == Passed
    ensures forall e :: e in c.entities && e.status != Deferred ==> e.status == SignedOff
    ensures forall g :: g in c.groups && g.phase != "7" ==> g.status == GroupSignedOff && ExactProgress(g.gates, GATES)
    ensures forall k :: 0 <= k < 7 ==> PhaseClosed(c, k)
  {
    SignoffWasEarned(c);
    FinalEntities(c);
    WellFormedGates(c, plan);
    FinalGroups(c, plan);
    forall k | 0 <= k < 7
      ensures PhaseClosed(c, k)
    {
      EarlierPhase(c, plan, k);
      assert PhaseDone(c.phases[k]);
      ExitedPhaseClosed(c, plan, k);
    }
  }

  // ----- reach

  lemma {:induction false} PathGoesBack(c: Catalog, plan: seq<PlannedGroup>, p: seq<string>)
    requires GroupsWellFormed(c, plan) && Path(GraphOf(c.groups), p) && |p| > 1 && FindGroup(c.groups, p[0]).Some?
    ensures FindGroup(c.groups, p[|p| - 1]).Some?
    ensures NotLater(FindGroup(c.groups, p[|p| - 1]).value.phase, FindGroup(c.groups, p[0]).value.phase)
  {
    var g := FindGroup(c.groups, p[0]).value;
    DepsOfGroup(c.groups, p[0]);
    var i :| 0 <= i < |c.groups| && c.groups[i] == g;
    assert GroupWellFormed(c, plan[i], g) && DependsOnEarlier(c, g, p[1]);
    if |p| > 2 {
      PathGoesBack(c, plan, p[1..]);
    }
  }

  /** However indirectly a group depends on another, that one exists and has no later a phase number and letter. */
  lemma ReachesNoLater(c: Catalog, plan: seq<PlannedGroup>, g: Group, x: string)
    requires GroupsWellFormed(c, plan) && g in c.groups && Reaches(GraphOf(c.groups), g.id, x) && x != g.id
    ensures FindGroup(c.groups, x).Some? && PhaseNoLater(FindGroup(c.groups, x).value.phase, g.phase)
  {
    var p :| PathFrom(GraphOf(c.groups), p, g.id, x);
    FoundGroup(c, plan, g);
    PathGoesBack(c, plan, p);
    PhaseNoLaterExactly(FindGroup(c.groups, x).value.phase, g.phase);
  }

  lemma SplitExactly(c: Catalog, g: Group, v: string)
    requires SplitByReach(c, g)
    ensures v in g.requiredNow <==> v in g.impacted && OwnedInReach(c, g, v)
    ensures v in g.downstream <==> v in g.impacted && OwnedBeyond(c, g, v)
  {
    SameMembers(g.requiredNow + g.downstream, g.impacted);
    if v in g.requiredNow {
      assert OwnedInReach(c, g, v);
    }
    if v in g.downstream {
      assert OwnedBeyond(c, g, v);
    }
  }

  /** The validations a group must have green now are exactly the impacted ones owned within its reach. */
  lemma RequiredNowExactly(c: Catalog, plan: seq<PlannedGroup>, g: Group, v: string)
    requires Accepted(c, plan) && g in c.groups
    ensures v in g.requiredNow <==> v in g.impacted && OwnedInReach(c, g, v)
    ensures v in g.downstream <==> v in g.impacted && OwnedBeyond(c, g, v)
  {
    WellFormedGates(c, plan);
    assert GroupAccepted(c, g);
    SplitExactly(c, g, v);
  }

  /**
   A group whose impacted-green gate passed: each validation it must have green now belongs to the
   group itself or to one that is signed off, and in the second case is signed off too.
   */
  lemma RequiredNowDone(c: Catalog, plan: seq<PlannedGroup>, g: Group, v: string)
    requires Accepted(c, plan) && g in c.groups && |g.gates| == GATES && g.gates[IMPACTED_GREEN] == Passed && v in g.requiredNow
    ensures FindEntity(c.entities, v).Some? && FindEntity(c.entities, v).value.status in {Passing, SignedOff}
    ensures var owner := FindEntity(c.entities, v).value.primaryGroup;
            owner == g.id || (IsSignedOff(c, owner) && FindEntity(c.entities, v).value.status == SignedOff)
  {
    assert GroupAccepted(c, g) && IsGreen(c, v) && OwnedInReach(c, g, v);
    var e := FindEntity(c.entities, v).value;
    if e.primaryGroup != g.id {
      GreenGroupAdvanced(g);
      ClosureSignedOff(c, plan, g, e.primaryGroup);
      EntitiesOfSignedOff(c, plan, e);
    }
  }

  lemma GreenGroupAdvanced(g: Group)
    requires |g.gates| == GATES && g.gates[IMPACTED_GREEN] == Passed && LifecycleMatches(g)
    ensures Advanced(g)
  {
  }

  /**
   A split built from the catalog itself is accepted: its impacted validations are entities, and an
   entity of a well-formed catalog has an owner, as no group goes by the empty name.
   */
  lemma BuiltSplitAccepted(c: Catalog, plan: seq<PlannedGroup>, g: Group, available: set<string>)
    requires GroupsWellFormed(c, plan) && EntitiesWellFormed(c) && g in c.groups
    requires forall other :: other in c.groups ==> other.id != ""
    requires forall x :: x in available <==> Reaches(GraphOf(c.groups), g.id, x)
    ensures SplitSound(BuildSplit(g.impacted, OwnersOf(c.entities), available), g.impacted, OwnersOf(c.entities), available)
  {
    var i :| 0 <= i < |c.groups| && c.groups[i] == g;
    assert GroupWellFormed(c, plan[i], g);
    forall v | v in g.impacted
      ensures Owner(OwnersOf(c.entities), v).Some?
    {
      assert IsValidation(c, v);
      var e :| e in c.entities && e.id == v && e.isValidation;
      EntityFound(c.entities, e);
      var found := FindEntity(c.entities, v).value;
      assert EntityWellFormed(c, found);
    }
    BuiltSplitPasses(GraphOf(c.groups), g.id, g.impacted, OwnersOf(c.entities), available, available);
  }

  lemma {:induction false} EntityFound(entities: seq<Entity>, e: Entity)
    requires e in entities
    ensures FindEntity(entities, e.id).Some?
  {
    var last := |entities| - 1;
    if entities[last].id != e.id {
      assert e in entities[..last];
      EntityFound(entities[..last], e);
    }
  }
}
