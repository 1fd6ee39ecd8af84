/** The rules of the p17 catalog accept exactly the sound catalogs. */
module CatalogSoundness {
  import opened Results
  import opened Sorting
  import opened GateProgress
  import opened CatalogGraph
  import opened CatalogRules
  import opened PhaseNames
  import opened CatalogReference

  /** Every id names one record, and the phases are those of the plan. */
  ghost predicate Known(c: Catalog) {
    && Distinct(GroupIds(c.groups)) && Distinct(EntityIds(c.entities)) && |c.phases| == |PHASE_IDS|
    && forall k :: 0 <= k < |c.phases| ==> c.phases[k].id == PHASE_IDS[k]
  }

  // ----- what the lookups find

  lemma GroupFound(c: Catalog, g: Group)
    requires Known(c) && g in c.groups
    ensures FindGroup(c.groups, g.id) == Some(g)
  {
    var i :| 0 <= i < |c.groups| && c.groups[i] == g;
    FoundById(c.groups, i);
  }

  lemma {:induction false} EntityById(entities: seq<Entity>, i: nat)
    requires i < |entities| && Distinct(EntityIds(entities))
    ensures FindEntity(entities, entities[i].id) == Some(entities[i])
  {
    var k := |entities| - 1;
    if i < k {
      assert EntityIds(entities)[i] != EntityIds(entities)[k];
      assert EntityIds(entities[..k]) == EntityIds(entities)[..k];
      EntityById(entities[..k], i);
    }
  }

  lemma EntityFound(c: Catalog, e: Entity)
    requires Known(c) && e in c.entities
    ensures FindEntity(c.entities, e.id) == Some(e)
  {
    var i :| 0 <= i < |c.entities| && c.entities[i] == e;
    EntityById(c.entities, i);
  }

  lemma PhaseFound(c: Catalog, p: Phase)
    requires Known(c) && p in c.phases
    ensures FindPhase(c.phases, p.id) == Some(p)
  {
    var k :| 0 <= k < |c.phases| && c.phases[k] == p;
    PhaseByIndex(c.phases, k);
  }

  // ----- each relation between records

  lemma DoneExactly(c: Catalog, id: string)
    requires Known(c)
    ensures GroupDone(c, id) <==> IsSignedOff(c, id)
  {
    if GroupDone(c, id) {
      var g :| g in c.groups && g.id == id && g.status == GroupSignedOff;
      GroupFound(c, g);
    }
  }

  lemma AllDoneExactly(c: Catalog, ids: seq<string>)
    requires Known(c)
    ensures (forall d :: d in ids ==> GroupDone(c, d)) <==> forall d :: d in ids ==> IsSignedOff(c, d)
  {
    forall d
      ensures GroupDone(c, d) <==> IsSignedOff(c, d)
    {
      DoneExactly(c, d);
    }
  }

  lemma KindExactly(c: Catalog, id: string)
    requires Known(c)
    ensures KindOf(c, id, true) <==> IsValidation(c, id)
    ensures KindOf(c, id, true) <==> RelatedValidation(c, id)
    ensures KindOf(c, id, false) <==> RelatedContract(c, id)
  {
    forall e | e in c.entities
      ensures FindEntity(c.entities, e.id) == Some(e)
    {
      EntityFound(c, e);
    }
  }

  lemma GreenExactly(c: Catalog, id: string)
    requires Known(c)
    ensures EntityGreen(c, id) <==> IsGreen(c, id)
  {
    if EntityGreen(c, id) {
      var e :| e in c.entities && e.id == id && (e.status == Passing || e.status == SignedOff);
      EntityFound(c, e);
    }
  }

  lemma LinkExactly(c: Catalog, a: string, b: string)
    requires Known(c)
    ensures Link(c, a, b) <==> b in Deps(GraphOf(c.groups), a)
  {
    DepsOfGroup(c.groups, a);
    if Link(c, a, b) {
      var g :| g in c.groups && g.id == a && b in g.dependsOn;
      GroupFound(c, g);
    }
  }

  lemma ChainExactly(c: Catalog, p: seq<string>)
    requires Known(c)
    ensures Chain(c, p) <==> Path(GraphOf(c.groups), p)
  {
    forall i | 0 <= i < |p| - 1
      ensures Link(c, p[i], p[i + 1]) <==> p[i + 1] in Deps(GraphOf(c.groups), p[i])
    {
      LinkExactly(c, p[i], p[i + 1]);
    }
  }

  lemma NeedsExactly(c: Catalog, a: string, b: string)
    requires Known(c)
    ensures Needs(c, a, b) <==> Reaches(GraphOf(c.groups), a, b)
  {
    if Needs(c, a, b) {
      var p :| Chain(c, p) && p[0] == a && p[|p| - 1] == b;
      ChainExactly(c, p);
      assert PathFrom(GraphOf(c.groups), p, a, b);
    }
    if Reaches(GraphOf(c.groups), a, b) {
      var p :| PathFrom(GraphOf(c.groups), p, a, b);
      ChainExactly(c, p);
    }
  }

  lemma OwnerExactly(c: Catalog, g: Group, v: string)
    requires Known(c)
    ensures OwnerNeeded(c, g, v, true) <==> OwnedInReach(c, g, v)
    ensures OwnerNeeded(c, g, v, false) <==> OwnedBeyond(c, g, v)
  {
    forall e | e in c.entities
      ensures FindEntity(c.entities, e.id) == Some(e)
      ensures Needs(c, g.id, e.primaryGroup) <==> Reaches(GraphOf(c.groups), g.id, e.primaryGroup)
    {
      EntityFound(c, e);
      NeedsExactly(c, g.id, e.primaryGroup);
    }
  }

  lemma SplitExactly(c: Catalog, g: Group)
    requires Known(c)
    ensures SplitByNeed(c, g) <==> SplitByReach(c, g)
  {
    forall v
      ensures OwnerNeeded(c, g, v, true) <==> OwnedInReach(c, g, v)
      ensures OwnerNeeded(c, g, v, false) <==> OwnedBeyond(c, g, v)
    {
      OwnerExactly(c, g, v);
    }
  }

  lemma BelongsExactly(phaseName: string, id: string)
    ensures Belongs(phaseName, id) <==> id == PhaseOf(phaseName)
  {
    assert "3" <= phaseName <==> phaseName != "" && phaseName[0] == '3';
    assert "4" <= phaseName <==> phaseName != "" && phaseName[0] == '4';
  }

  lemma PhaseRecordExactly(c: Catalog, phaseName: string)
    requires Known(c)
    ensures (exists p :: p in c.phases && Belongs(phaseName, p.id)) <==> FindPhase(c.phases, PhaseOf(phaseName)).Some?
    ensures PhaseEntered(c, phaseName) <==> EntryPassed(c, phaseName)
  {
    forall p | p in c.phases
      ensures FindPhase(c.phases, p.id) == Some(p) && (Belongs(phaseName, p.id) <==> p.id == PhaseOf(phaseName))
    {
      PhaseFound(c, p);
      BelongsExactly(phaseName, p.id);
    }
    if FindPhase(c.phases, PhaseOf(phaseName)).Some? {
      assert Belongs(phaseName, FindPhase(c.phases, PhaseOf(phaseName)).value.id);
    }
  }

  lemma AheadExactly(c: Catalog, g: Group)
    requires Known(c)
    ensures Ahead(c, g) <==> EntryPassed(c, g.phase) && forall d :: d in g.dependsOn ==> IsSignedOff(c, d)
  {
    PhaseRecordExactly(c, g.phase);
    AllDoneExactly(c, g.dependsOn);
  }

  // ----- gates

  lemma GatesExactly(g: Group)
    requires |g.gates| == 10
    ensures GatesOfGroup(g.status, g.gates) && (g.status == GroupDeferred ==> g.phase == "7") <==> LifecycleMatches(g)
  {
    var gates := g.gates;
    forall n: nat | n <= 10
      ensures ExactProgress(gates, n) <==> IsBar(gates, n)
    {
      BarExactly(gates, n);
    }
    forall bad, n: nat
      ensures StoppedAt(gates, bad, n) <==> IsStop(gates, bad, n)
    {
      BarWithExactly(gates, bad, n);
    }
  }

  lemma MatchedInOrder(g: Group)
    requires |g.gates| == GATES && LifecycleMatches(g)
    ensures InOrder(g.gates)
  {
  }

  // ----- each record

  lemma GroupRecordExactly(c: Catalog, planned: PlannedGroup, g: Group)
    requires Known(c)
    ensures GroupWellFormed(c, planned, g) <==> GroupAsPlanned(c, planned, g) && InOrder(g.gates)
  {
    forall d
      ensures DependsOnEarlier(c, g, d) <==> exists h :: h in c.groups && h.id == d && PhaseNoLater(h.phase, g.phase)
    {
      DependencyExactly(c, g, d);
    }
    forall v
      ensures KindOf(c, v, true) <==> IsValidation(c, v)
    {
      KindExactly(c, v);
    }
  }

  lemma DependencyExactly(c: Catalog, g: Group, d: string)
    requires Known(c)
    ensures DependsOnEarlier(c, g, d) <==> exists h :: h in c.groups && h.id == d && PhaseNoLater(h.phase, g.phase)
  {
    forall h | h in c.groups
      ensures FindGroup(c.groups, h.id) == Some(h)
      ensures NotLater(h.phase, g.phase) <==> PhaseNoLater(h.phase, g.phase)
    {
      GroupFound(c, h);
      PhaseNoLaterExactly(h.phase, g.phase);
    }
  }

  lemma ClaimsExactly(c: Catalog, g: Group)
    requires Known(c)
    ensures (forall v :: v in g.requiredNow ==> EntityGreen(c, v)) <==> forall v :: v in g.requiredNow ==> IsGreen(c, v)
  {
    forall v
      ensures EntityGreen(c, v) <==> IsGreen(c, v)
    {
      GreenExactly(c, v);
    }
  }

  lemma GroupExactly(c: Catalog, g: Group)
    requires Known(c) && |g.gates| == GATES
    ensures GroupAccepted(c, g) <==> SoundGroup(c, g)
  {
    PhaseRecordExactly(c, g.phase);
    AheadExactly(c, g);
    SplitExactly(c, g);
    GatesExactly(g);
    ClaimsExactly(c, g);
  }

  lemma EntityRecordExactly(c: Catalog, e: Entity)
    requires Known(c)
    ensures EntityWellFormed(c, e)
       <==> EntityAsPlanned(c, e) && FindGroup(c.groups, e.primaryGroup).Some?
            && (e.status == SignedOff ==> TraceabilityClosed(c, e.primaryGroup))
  {
    forall s
      ensures FindGroup(c.groups, s).Some? <==> exists g :: g in c.groups && g.id == s
    {
      GroupExists(c, s);
    }
    forall v
      ensures KindOf(c, v, true) <==> RelatedValidation(c, v)
      ensures KindOf(c, v, false) <==> RelatedContract(c, v)
    {
      KindExactly(c, v);
    }
    StatusExactly(e.model, e.status);
  }

  lemma StatusExactly(model: StateModel, status: EntityStatus)
    ensures StatusAllowed(model, status) <==> ModelFits(status, model)
  {
  }

  lemma GroupExists(c: Catalog, id: string)
    requires Known(c)
    ensures FindGroup(c.groups, id).Some? <==> exists g :: g in c.groups && g.id == id
  {
    forall g | g in c.groups && g.id == id
      ensures FindGroup(c.groups, id).Some?
    {
      GroupFound(c, g);
    }
  }

  /** A failed or blocked group has the gate that its failed or blocked entities need. */
  lemma StoppedGroup(g: Group)
    requires |g.gates| == GATES && LifecycleMatches(g)
    ensures g.status == GroupFailed ==> Failed in g.gates
    ensures g.status == GroupBlocked ==> Blocked in g.gates
  {
  }

  lemma FitsExactly(status: EntityStatus, g: Group)
    requires |g.gates| == GATES && LifecycleMatches(g)
    ensures status != Planned && status != Deferred ==> (EntityKeepsUp(g, status) <==> GroupFits(status, g))
  {
    StoppedGroup(g);
  }

  lemma EntityExactly(c: Catalog, e: Entity, g: Group)
    requires Known(c) && g in c.groups && g.id == e.primaryGroup && |g.gates| == GATES && LifecycleMatches(g)
    ensures EntityAccepted(c, e) && (e.status == SignedOff ==> TraceabilityClosed(c, e.primaryGroup))
       <==> SoundEntity(c, e, g)
  {
    GroupFound(c, g);
    AheadExactly(c, g);
    FitsExactly(e.status, g);
  }

  // ----- phases

  lemma {:induction false} MembersSnoc(plan: seq<PlannedGroup>, last: PlannedGroup, id: string)
    ensures Members(plan + [last], id) == Members(plan, id) + if Belongs(last.phase, id) then [last.id] else []
  {
    if plan == [] {
      assert plan + [last] == [last];
    } else {
      assert (plan + [last])[1..] == plan[1..] + [last] && (plan + [last])[0] == plan[0];
      MembersSnoc(plan[1..], last, id);
    }
  }

  lemma BelongsAsRequired(phaseName: string, id: string)
    requires id in PHASE_IDS
    ensures Belongs(phaseName, id) <==> if id == "3" || id == "4" then id <= phaseName else phaseName == id
  {
    BelongsExactly(phaseName, id);
    assert id != "3" && id != "4" ==> id[0] != '3' && id[0] != '4';
  }

  lemma {:induction false} MembersExactly(plan: seq<PlannedGroup>, id: string)
    requires id in PHASE_IDS
    ensures Members(plan, id) == RequiredGroups(plan, id)
  {
    if plan != [] {
      var k := |plan| - 1;
      assert plan == plan[..k] + [plan[k]];
      MembersSnoc(plan[..k], plan[k], id);
      BelongsAsRequired(plan[k].phase, id);
      MembersExactly(plan[..k], id);
    }
  }

  lemma PhaseRecordOfPlan(c: Catalog, plan: seq<PlannedGroup>, k: nat)
    requires k < |c.phases| == |PHASE_IDS|
    ensures PlannedPhase(c.phases[k], plan, k) <==> PhaseAsPlanned(c, plan, k)
  {
    MembersExactly(plan, PHASE_IDS[k]);
    assert PHASE_IDS[k] == ["01234567"[k]];
  }

  lemma {:induction false} ImplementersExactly(c: Catalog, ids: seq<string>, name: string)
    requires Known(c)
    ensures name in ImplementersOf(c, ids) <==> exists g :: g in c.groups && g.id in ids && name in g.implementers
  {
    if ids != [] {
      var k := |ids| - 1;
      assert ids == ids[..k] + [ids[k]];
      ImplementersExactly(c, ids[..k], name);
      ImplementersOfOne(c, ids[k], name);
    }
  }

  lemma ImplementersOfOne(c: Catalog, id: string, name: string)
    requires Known(c)
    ensures (FindGroup(c.groups, id).Some? && name in FindGroup(c.groups, id).value.implementers)
       <==> exists g :: g in c.groups && g.id == id && name in g.implementers
  {
    forall g | g in c.groups && g.id == id
      ensures FindGroup(c.groups, id) == Some(g)
    {
      GroupFound(c, g);
    }
  }

  lemma {:induction false} AllImplementersExactly(groups: seq<Group>, name: string)
    ensures name in AllImplementers(groups) <==> exists g :: g in groups && name in g.implementers
  {
    if groups != [] {
      var k := |groups| - 1;
      assert groups == groups[..k] + [groups[k]];
      AllImplementersExactly(groups[..k], name);
    }
  }

  lemma PhaseGatesExactly(p: Phase)
    ensures PhaseGatesMatch(p) <==> GatesOfPhase(p.status, [p.entry, p.review, p.approval, p.exit])
  {
    var gates := [p.entry, p.review, p.approval, p.exit];
    forall n: nat | n <= 4
      ensures ExactProgress(gates, n) <==> IsBar(gates, n)
    {
      BarExactly(gates, n);
    }
    assert Bar(0, 4) == [Pending, Pending, Pending, Pending];
    assert Bar(1, 3) == [Passed, Pending, Pending, Pending];
    assert Bar(4, 0) == [Passed, Passed, Passed, Passed];
    forall bad, n: nat
      ensures StoppedAt(gates, bad, n) <==> IsStop(gates, bad, n)
    {
      BarWithExactly(gates, bad, n);
    }
  }

  /** The gates of a phase pass in order. */
  lemma PhaseGatesInOrder(p: Phase)
    requires PhaseGatesMatch(p)
    ensures (p.exit == Passed ==> p.approval == Passed) && (p.approval == Passed ==> p.review == Passed)
    ensures p.review == Passed ==> p.entry == Passed
    ensures p.status == PhaseApproved <==> p.exit == Passed
  {
    var gates := [p.entry, p.review, p.approval, p.exit];
    assert gates[0] == p.entry && gates[1] == p.review && gates[2] == p.approval && gates[3] == p.exit;
  }

  lemma PriorPhaseExactly(c: Catalog, plan: seq<PlannedGroup>, k: nat)
    requires Known(c) && k < |c.phases| && PhaseAsPlanned(c, plan, k)
    ensures (c.phases[k].dependsOn.Some? ==> LeftBehind(c, c.phases[k].dependsOn.value))
       <==> (k > 0 ==> c.phases[k - 1].exit == Passed && c.phases[k - 1].approval == Passed)
    ensures c.phases[k].id == "7" <==> k == 7
  {
    if k > 0 {
      assert c.phases[k - 1].id == PHASE_IDS[k - 1];
      PhaseFound(c, c.phases[k - 1]);
    }
  }

  lemma ReviewExactly(c: Catalog, p: Phase)
    requires Known(c)
    ensures Independent(p.reviewer, ImplementersOf(c, p.requiredGroups))
       <==> Reviewer(p.reviewer)
            && forall g :: g in c.groups && g.id in p.requiredGroups ==> p.reviewer.value !in g.implementers
  {
    if p.reviewer.Some? {
      ImplementersExactly(c, p.requiredGroups, p.reviewer.value);
    }
  }

  lemma PhaseExactly(c: Catalog, plan: seq<PlannedGroup>, k: nat)
    requires Known(c) && k < |c.phases| && PhaseAsPlanned(c, plan, k)
    ensures PhaseAccepted(c, c.phases[k]) <==> SoundPhase(c, k)
  {
    var p := c.phases[k];
    PhaseGatesExactly(p);
    if PhaseGatesMatch(p) {
      PhaseGatesInOrder(p);
    }
    AllDoneExactly(c, p.requiredGroups);
    PriorPhaseExactly(c, plan, k);
    ReviewExactly(c, p);
  }

  // ----- the final gates and cycles

  /** A tier is deferred with its status, and the gates of every phase match. */
  ghost predicate Settled(c: Catalog) {
    && (forall e :: e in c.entities ==> (e.deferredTier <==> e.status == Deferred))
    && forall k :: 0 <= k < |c.phases| ==> PhaseGatesMatch(c.phases[k])
  }

  lemma ReviewEarnedExactly(c: Catalog)
    requires Known(c) && Settled(c)
    ensures FinalReviewEarned(c)
       <==> && Reviewer(c.finalReviewer) && (forall g :: g in c.groups ==> c.finalReviewer.value !in g.implementers)
            && (forall e :: e in c.entities && e.status != Deferred ==> e.status == SignedOff)
            && (forall g :: g in c.groups && g.phase != "7" ==> g.status == GroupSignedOff)
            && forall k :: 0 <= k < |c.phases| && k != 7 ==> c.phases[k].status == PhaseApproved
  {
    if c.finalReviewer.Some? {
      AllImplementersExactly(c.groups, c.finalReviewer.value);
    }
    PhasesDoneExactly(c);
  }

  lemma PhasesDoneExactly(c: Catalog)
    requires Known(c) && Settled(c)
    ensures (forall p :: p in c.phases && p.id != "7" ==> PhaseDone(p))
       <==> forall k :: 0 <= k < |c.phases| && k != 7 ==> c.phases[k].status == PhaseApproved
  {
    forall k | 0 <= k < |c.phases|
      ensures c.phases[k].id == "7" <==> k == 7
      ensures PhaseDone(c.phases[k]) <==> c.phases[k].status == PhaseApproved
    {
      PhaseGatesInOrder(c.phases[k]);
    }
  }

  lemma FinalExactly(c: Catalog)
    requires Known(c) && Settled(c)
    ensures FinalAccepted(c) <==> SoundFinal(c)
  {
    ReviewEarnedExactly(c);
  }

  lemma AcyclicExactly(c: Catalog)
    requires Known(c)
    ensures AcyclicFrom(GraphOf(c.groups), GroupIds(c.groups))
       <==> forall p :: Chain(c, p) && |p| > 1 ==> p[0] != p[|p| - 1]
  {
    var g := GraphOf(c.groups);
    if AcyclicFrom(g, GroupIds(c.groups)) {
      forall p | Chain(c, p) && |p| > 1
        ensures p[0] != p[|p| - 1]
      {
        ChainStarts(c, p);
      }
    }
    if forall p :: Chain(c, p) && |p| > 1 ==> p[0] != p[|p| - 1] {
      forall x
        ensures !OnCycle(g, x)
      {
        CycleIsChain(c, x);
      }
    }
  }

  /** A chain begins at a group of the catalog, and if it ends there too, that group is on a cycle. */
  lemma ChainStarts(c: Catalog, p: seq<string>)
    requires Known(c) && Chain(c, p) && |p| > 1
    ensures p[0] in GroupIds(c.groups) && Reaches(GraphOf(c.groups), p[0], p[0])
    ensures p[0] == p[|p| - 1] ==> OnCycle(GraphOf(c.groups), p[0])
  {
    assert Link(c, p[0], p[1]);
    var h :| h in c.groups && h.id == p[0];
    var i :| 0 <= i < |c.groups| && c.groups[i] == h;
    assert GroupIds(c.groups)[i] == p[0];
    ReachesSelf(GraphOf(c.groups), p[0]);
    ChainExactly(c, p);
    if p[0] == p[|p| - 1] {
      assert PathFrom(GraphOf(c.groups), p, p[0], p[0]);
    }
  }

  lemma CycleIsChain(c: Catalog, x: string)
    requires Known(c)
    ensures OnCycle(GraphOf(c.groups), x) ==> exists p :: Chain(c, p) && |p| > 1 && p[0] == p[|p| - 1]
  {
    if OnCycle(GraphOf(c.groups), x) {
      var p :| PathFrom(GraphOf(c.groups), p, x, x) && |p| >= 2;
      ChainExactly(c, p);
    }
  }

  // ----- the whole catalog

  lemma KnownWhenPlanned(c: Catalog, plan: seq<PlannedGroup>)
    requires (GroupsWellFormed(c, plan) && EntitiesWellFormed(c) && PhasesPlanned(c, plan)) || AsPlanned(c, plan)
    ensures Known(c)
  {
    if GroupsWellFormed(c, plan) && EntitiesWellFormed(c) && PhasesPlanned(c, plan) {
      forall k | 0 <= k < |c.phases|
        ensures c.phases[k].id == PHASE_IDS[k]
      {
        assert PlannedPhase(c.phases[k], plan, k);
      }
    } else {
      forall k | 0 <= k < |c.phases|
        ensures c.phases[k].id == PHASE_IDS[k]
      {
        assert PhaseAsPlanned(c, plan, k);
        PhaseRecordOfPlan(c, plan, k);
      }
    }
  }

  /** The first and the later rules for a group, together. */
  ghost predicate GroupRules(c: Catalog, planned: PlannedGroup, g: Group) {
    GroupWellFormed(c, planned, g) && GroupAccepted(c, g)
  }

  ghost predicate GroupInOrder(c: Catalog, planned: PlannedGroup, g: Group) {
    GroupAsPlanned(c, planned, g) && SoundGroup(c, g)
  }

  lemma GroupRulesExactly(c: Catalog, planned: PlannedGroup, g: Group)
    requires Known(c)
    ensures GroupRules(c, planned, g) <==> GroupInOrder(c, planned, g)
    ensures GroupRules(c, planned, g) ==> |g.gates| == GATES && LifecycleMatches(g)
  {
    GroupRecordExactly(c, planned, g);
    if |g.gates| == GATES {
      GroupExactly(c, g);
      if GroupAccepted(c, g) {
        MatchedInOrder(g);
      }
    }
  }

  ghost predicate EntityRules(c: Catalog, e: Entity) {
    EntityWellFormed(c, e) && EntityAccepted(c, e)
  }

  ghost predicate EntityInOrder(c: Catalog, e: Entity) {
    EntityAsPlanned(c, e)
    && exists g :: g in c.groups && g.id == e.primaryGroup && |g.gates| == 10 && SoundEntity(c, e, g)
  }

  lemma EntityRulesExactly(c: Catalog, e: Entity)
    requires Known(c) && forall g :: g in c.groups ==> |g.gates| == GATES && LifecycleMatches(g)
    ensures EntityRules(c, e) <==> EntityInOrder(c, e)
  {
    EntityRecordExactly(c, e);
    GroupExists(c, e.primaryGroup);
    forall g | g in c.groups && g.id == e.primaryGroup
      ensures FindGroup(c.groups, e.primaryGroup) == Some(g)
      ensures EntityAccepted(c, e) && (e.status == SignedOff ==> TraceabilityClosed(c, e.primaryGroup))
         <==> SoundEntity(c, e, g)
    {
      GroupFound(c, g);
      EntityExactly(c, e, g);
    }
  }

  ghost predicate PhaseRules(c: Catalog, plan: seq<PlannedGroup>, k: nat)
    requires k < |c.phases| == |PHASE_IDS|
  {
    PlannedPhase(c.phases[k], plan, k) && PhaseAccepted(c, c.phases[k])
  }

  ghost predicate PhaseInOrder(c: Catalog, plan: seq<PlannedGroup>, k: nat)
    requires k < |c.phases|
  {
    PhaseAsPlanned(c, plan, k) && SoundPhase(c, k)
  }

  lemma PhaseRulesExactly(c: Catalog, plan: seq<PlannedGroup>, k: nat)
    requires Known(c) && k < |c.phases|
    ensures PhaseRules(c, plan, k) <==> PhaseInOrder(c, plan, k)
    ensures PhaseRules(c, plan, k) ==> PhaseGatesMatch(c.phases[k])
  {
    PhaseRecordOfPlan(c, plan, k);
    if PhaseAsPlanned(c, plan, k) {
      PhaseExactly(c, plan, k);
    }
  }

  /** All rules, record by record. */
  ghost predicate RulesKept(c: Catalog, plan: seq<PlannedGroup>) {
    && |c.groups| == |plan| && Known(c)
    && (forall i :: 0 <= i < |plan| ==> GroupRules(c, plan[i], c.groups[i]))
    && AcyclicFrom(GraphOf(c.groups), GroupIds(c.groups))
    && (forall e :: e in c.entities ==> EntityRules(c, e))
    && (forall k :: 0 <= k < |c.phases| ==> PhaseRules(c, plan, k))
    && FinalAccepted(c)
  }

  ghost predicate AllInOrder(c: Catalog, plan: seq<PlannedGroup>) {
    && |c.groups| == |plan| && Known(c)
    && (forall i :: 0 <= i < |plan| ==> GroupInOrder(c, plan[i], c.groups[i]))
    && (forall p :: Chain(c, p) && |p| > 1 ==> p[0] != p[|p| - 1])
    && (forall e :: e in c.entities ==> EntityInOrder(c, e))
    && (forall k :: 0 <= k < |c.phases| ==> PhaseInOrder(c, plan, k))
    && SoundFinal(c)
  }

  lemma AcceptedKeepsRules(c: Catalog, plan: seq<PlannedGroup>)
    requires Accepted(c, plan)
    ensures RulesKept(c, plan)
  {
    KnownWhenPlanned(c, plan);
    WellFormedGates(c, plan);
    forall i | 0 <= i < |plan|
      ensures GroupRules(c, plan[i], c.groups[i])
    {
      assert c.groups[i] in c.groups;
    }
    forall k | 0 <= k < |c.phases|
      ensures PhaseRules(c, plan, k)
    {
      assert c.phases[k] in c.phases;
    }
  }

  lemma RulesOfGroups(c: Catalog, plan: seq<PlannedGroup>)
    requires Known(c) && |c.groups| == |plan| && forall i :: 0 <= i < |plan| ==> GroupRules(c, plan[i], c.groups[i])
    ensures GroupsWellFormed(c, plan) && forall g :: g in c.groups ==> |g.gates| == GATES && GroupAccepted(c, g)
  {
    forall i | 0 <= i < |plan|
      ensures GroupWellFormed(c, plan[i], c.groups[i])
    {
      assert GroupRules(c, plan[i], c.groups[i]);
    }
    forall g | g in c.groups
      ensures |g.gates| == GATES && GroupAccepted(c, g)
    {
      var i :| 0 <= i < |c.groups| && c.groups[i] == g;
      assert GroupRules(c, plan[i], g);
    }
  }

  lemma RulesOfEntities(c: Catalog)
    requires Known(c) && forall e :: e in c.entities ==> EntityRules(c, e)
    ensures EntitiesWellFormed(c) && forall e :: e in c.entities ==> EntityAccepted(c, e)
  {
    forall e | e in c.entities
      ensures EntityWellFormed(c, e) && EntityAccepted(c, e)
    {
      assert EntityRules(c, e);
    }
  }

  lemma RulesOfPhases(c: Catalog, plan: seq<PlannedGroup>)
    requires Known(c) && forall k :: 0 <= k < |c.phases| ==> PhaseRules(c, plan, k)
    ensures PhasesPlanned(c, plan) && forall p :: p in c.phases ==> PhaseAccepted(c, p)
  {
    forall k | 0 <= k < |c.phases|
      ensures PlannedPhase(c.phases[k], plan, k)
    {
      assert PhaseRules(c, plan, k);
    }
    forall p | p in c.phases
      ensures PhaseAccepted(c, p)
    {
      var k :| 0 <= k < |c.phases| && c.phases[k] == p;
      assert PhaseRules(c, plan, k);
    }
  }

  lemma AcceptedByRecord(c: Catalog, plan: seq<PlannedGroup>)
    ensures Accepted(c, plan) <==> RulesKept(c, plan)
  {
    if RulesKept(c, plan) {
      RulesOfGroups(c, plan);
      RulesOfEntities(c);
      RulesOfPhases(c, plan);
    } else if Accepted(c, plan) {
      AcceptedKeepsRules(c, plan);
    }
  }

  lemma SoundIsInOrder(c: Catalog, plan: seq<PlannedGroup>)
    requires Sound(c, plan)
    ensures AllInOrder(c, plan)
  {
    KnownWhenPlanned(c, plan);
    forall i | 0 <= i < |plan|
      ensures GroupInOrder(c, plan[i], c.groups[i])
    {
      assert c.groups[i] in c.groups;
    }
    forall e | e in c.entities
      ensures EntityInOrder(c, e)
    {
    }
    forall k | 0 <= k < |c.phases|
      ensures PhaseInOrder(c, plan, k)
    {
    }
  }

  lemma InOrderAsPlanned(c: Catalog, plan: seq<PlannedGroup>)
    requires AllInOrder(c, plan)
    ensures AsPlanned(c, plan)
  {
    DistinctIds(c);
    forall i | 0 <= i < |plan|
      ensures GroupAsPlanned(c, plan[i], c.groups[i])
    {
      assert GroupInOrder(c, plan[i], c.groups[i]);
    }
    forall e | e in c.entities
      ensures EntityAsPlanned(c, e)
    {
      assert EntityInOrder(c, e);
    }
    forall k | 0 <= k < |c.phases|
      ensures PhaseAsPlanned(c, plan, k)
    {
      assert PhaseInOrder(c, plan, k);
    }
  }

  lemma InOrderIsSound(c: Catalog, plan: seq<PlannedGroup>)
    requires AllInOrder(c, plan)
    ensures Sound(c, plan)
  {
    InOrderAsPlanned(c, plan);
    forall g | g in c.groups
      ensures |g.gates| == 10 && SoundGroup(c, g)
    {
      var i :| 0 <= i < |c.groups| && c.groups[i] == g;
      assert GroupInOrder(c, plan[i], g);
    }
    forall e | e in c.entities
      ensures exists g :: g in c.groups && g.id == e.primaryGroup && |g.gates| == 10 && SoundEntity(c, e, g)
    {
      assert EntityInOrder(c, e);
    }
    forall k | 0 <= k < 8
      ensures SoundPhase(c, k)
    {
      assert PhaseInOrder(c, plan, k);
    }
  }

  lemma DistinctIds(c: Catalog)
    requires Known(c)
    ensures forall i, j :: 0 <= i < j < |c.groups| ==> c.groups[i].id != c.groups[j].id
    ensures forall i, j :: 0 <= i < j < |c.entities| ==> c.entities[i].id != c.entities[j].id
  {
    assert forall i :: 0 <= i < |c.groups| ==> GroupIds(c.groups)[i] == c.groups[i].id;
    assert forall i :: 0 <= i < |c.entities| ==> EntityIds(c.entities)[i] == c.entities[i].id;
  }

  lemma GroupsExactly(c: Catalog, plan: seq<PlannedGroup>)
    requires Known(c) && |c.groups| == |plan|
    ensures (forall i :: 0 <= i < |plan| ==> GroupRules(c, plan[i], c.groups[i]))
       <==> forall i :: 0 <= i < |plan| ==> GroupInOrder(c, plan[i], c.groups[i])
  {
    forall i | 0 <= i < |plan|
      ensures GroupRules(c, plan[i], c.groups[i]) <==> GroupInOrder(c, plan[i], c.groups[i])
    {
      GroupRulesExactly(c, plan[i], c.groups[i]);
    }
  }

  lemma EntitiesExactly(c: Catalog, plan: seq<PlannedGroup>)
    requires Known(c) && |c.groups| == |plan|
    requires forall i :: 0 <= i < |plan| ==> GroupRules(c, plan[i], c.groups[i])
    ensures (forall e :: e in c.entities ==> EntityRules(c, e)) <==> forall e :: e in c.entities ==> EntityInOrder(c, e)
  {
    forall g | g in c.groups
      ensures |g.gates| == GATES && LifecycleMatches(g)
    {
      var i :| 0 <= i < |c.groups| && c.groups[i] == g;
      GroupRulesExactly(c, plan[i], g);
    }
    forall e | e in c.entities
      ensures EntityRules(c, e) <==> EntityInOrder(c, e)
    {
      EntityRulesExactly(c, e);
    }
  }

  lemma PhasesExactly(c: Catalog, plan: seq<PlannedGroup>)
    requires Known(c)
    ensures (forall k :: 0 <= k < |c.phases| ==> PhaseRules(c, plan, k))
       <==> forall k :: 0 <= k < |c.phases| ==> PhaseInOrder(c, plan, k)
  {
    forall k | 0 <= k < |c.phases|
      ensures PhaseRules(c, plan, k) <==> PhaseInOrder(c, plan, k)
    {
      PhaseRulesExactly(c, plan, k);
    }
  }

  lemma SettledByRules(c: Catalog, plan: seq<PlannedGroup>)
    requires Known(c) && forall e :: e in c.entities ==> EntityRules(c, e)
    requires forall k :: 0 <= k < |c.phases| ==> PhaseRules(c, plan, k)
    ensures Settled(c)
  {
    forall e | e in c.entities
      ensures e.deferredTier <==> e.status == Deferred
    {
      assert EntityRules(c, e);
    }
    forall k | 0 <= k < |c.phases|
      ensures PhaseGatesMatch(c.phases[k])
    {
      assert PhaseRules(c, plan, k);
    }
  }

  lemma RulesKeptInOrder(c: Catalog, plan: seq<PlannedGroup>)
    requires RulesKept(c, plan)
    ensures AllInOrder(c, plan)
  {
    GroupsExactly(c, plan);
    EntitiesExactly(c, plan);
    PhasesExactly(c, plan);
    AcyclicExactly(c);
    SettledByRules(c, plan);
    FinalExactly(c);
  }

  lemma InOrderKeepsRules(c: Catalog, plan: seq<PlannedGroup>)
    requires AllInOrder(c, plan)
    ensures RulesKept(c, plan)
  {
    GroupsExactly(c, plan);
    EntitiesExactly(c, plan);
    PhasesExactly(c, plan);
    AcyclicExactly(c);
    SettledByRules(c, plan);
    FinalExactly(c);
  }

  /** The rules accept exactly the sound catalogs, so the checks left out there refuse nothing more. */
  lemma AcceptedIsSound(c: Catalog, plan: seq<PlannedGroup>)
    ensures Accepted(c, plan) <==> Sound(c, plan)
  {
    AcceptedByRecord(c, plan);
    if Sound(c, plan) {
      SoundIsInOrder(c, plan);
      InOrderKeepsRules(c, plan);
    }
    if RulesKept(c, plan) {
      RulesKeptInOrder(c, plan);
      InOrderIsSound(c, plan);
    }
  }
}
