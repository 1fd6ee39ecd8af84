/**
 What a sound p17 catalog is, said of its records alone: without lookups, without the graph and
 without the checks that others imply. The rules of validate() accept exactly these catalogs.
 */
module CatalogReference {
  import opened Results
  import opened Sorting
  import opened GateProgress
  import opened CatalogGraph
  import opened CatalogRules
  import opened PhaseNames

  // ----- what one record says of another

  ghost predicate Link(c: Catalog, a: string, b: string) {
    exists g :: g in c.groups && g.id == a && b in g.dependsOn
  }

  /** Each group of the chain depends on the next. */
  ghost predicate Chain(c: Catalog, p: seq<string>) {
    p != [] && forall i :: 0 <= i < |p| - 1 ==> Link(c, p[i], p[i + 1])
  }

  ghost predicate Needs(c: Catalog, a: string, b: string) {
    exists p :: Chain(c, p) && p[0] == a && p[|p| - 1] == b
  }

  ghost predicate GroupDone(c: Catalog, id: string) {
    exists g :: g in c.groups && g.id == id && g.status == GroupSignedOff
  }

  ghost predicate KindOf(c: Catalog, id: string, validation: bool) {
    exists e :: e in c.entities && e.id == id && if validation then e.isValidation else e.model == Coverage
  }

  ghost predicate EntityGreen(c: Catalog, id: string) {
    exists e :: e in c.entities && e.id == id && (e.status == Passing || e.status == SignedOff)
  }

  /** The validation has an owner, and the group needs that owner or does not. */
  ghost predicate OwnerNeeded(c: Catalog, group: Group, validation: string, needed: bool) {
    exists e :: e in c.entities && e.id == validation && e.primaryGroup != ""
                && (Needs(c, group.id, e.primaryGroup) <==> needed)
  }

  /** The phase record of a group: the leading 3 or 4 of its phase, or else all of it. */
  predicate Belongs(phaseName: string, id: string) {
    if phaseName != "" && (phaseName[0] == '3' || phaseName[0] == '4') then id == [phaseName[0]] else id == phaseName
  }

  ghost predicate PhaseEntered(c: Catalog, phaseName: string) {
    exists p :: p in c.phases && Belongs(phaseName, p.id) && p.entry == Passed
  }

  predicate Reviewer(name: Option<string>) {
    name.Some? && name.value != ""
  }

  // ----- gates, written out

  /** So many gates passed and the others pending. */
  function Bar(passed: nat, pending: nat): seq<GateStatus> {
    seq(passed, _ => Passed) + seq(pending, _ => Pending)
  }

  /** So many passed, then one that failed or is blocked, and the others pending. */
  function BarWith(passed: nat, bad: GateStatus, pending: nat): seq<GateStatus> {
    Bar(passed, 0) + [bad] + Bar(0, pending)
  }

  predicate IsBar(gates: seq<GateStatus>, n: nat) {
    n <= |gates| && gates == Bar(n, |gates| - n)
  }

  predicate IsStop(gates: seq<GateStatus>, bad: GateStatus, n: nat) {
    n < |gates| && gates == BarWith(n, bad, |gates| - 1 - n)
  }

  ghost predicate GatesOfGroup(status: GroupStatus, gates: seq<GateStatus>) {
    match status
    case GroupPlanned => gates == Bar(0, 10)
    case GroupDeferred => gates == Bar(0, 10)
    case GroupMapped => gates == Bar(1, 9)
    case GroupReady => gates == Bar(2, 8)
    case GroupActive => exists n: nat :: 2 <= n <= 7 && IsBar(gates, n)
    case GroupReviewed => gates == Bar(8, 2)
    case GroupSignedOff => gates == Bar(10, 0)
    case GroupFailed => exists n: nat :: IsStop(gates, Failed, n)
    case GroupBlocked => exists n: nat :: IsStop(gates, Blocked, n)
  }

  lemma BarExactly(gates: seq<GateStatus>, n: nat)
    requires n <= |gates|
    ensures ExactProgress(gates, n) <==> IsBar(gates, n)
  {
  }

  lemma BarWithExactly(gates: seq<GateStatus>, bad: GateStatus, n: nat)
    ensures StoppedAt(gates, bad, n) <==> IsStop(gates, bad, n)
  {
    if n < |gates| {
      BarWithAt(gates, bad, n);
    }
  }

  lemma BarWithAt(gates: seq<GateStatus>, bad: GateStatus, n: nat)
    requires n < |gates|
    ensures StoppedAt(gates, bad, n) <==> gates == BarWith(n, bad, |gates| - 1 - n)
  {
    var bar := BarWith(n, bad, |gates| - 1 - n);
    assert |bar| == |gates| && bar[n] == bad;
    assert forall i :: 0 <= i < |bar| && i != n ==> bar[i] == if i < n then Passed else Pending;
  }

  // ----- sound catalogs

  ghost predicate GroupAsPlanned(c: Catalog, planned: PlannedGroup, g: Group) {
    && g.id == planned.id && g.phase == planned.phase && g.dependsOn == planned.dependsOn
    && |g.gates| == 10 && (g.gates[7] == Pending ==> g.reviewer == None)
    && (forall d :: d in g.dependsOn ==> exists h :: h in c.groups && h.id == d && PhaseNoLater(h.phase, g.phase))
    && forall v :: v in g.impacted ==> KindOf(c, v, true)
  }

  ghost predicate SplitByNeed(c: Catalog, g: Group) {
    && multiset(g.requiredNow + g.downstream) == multiset(g.impacted)
    && (forall v :: v in g.requiredNow ==> OwnerNeeded(c, g, v, true))
    && forall v :: v in g.downstream ==> OwnerNeeded(c, g, v, false)
  }

  ghost predicate Ahead(c: Catalog, g: Group) {
    PhaseEntered(c, g.phase) && forall d :: d in g.dependsOn ==> GroupDone(c, d)
  }

  ghost predicate SoundGroup(c: Catalog, g: Group)
    requires |g.gates| == 10
  {
    && (exists p :: p in c.phases && Belongs(g.phase, p.id))
    && (g.status == GroupPlanned || g.status == GroupDeferred ==>
          && g.ownedFiles == [] && g.testCommands == [] && g.implementers == [] && g.evidence == []
          && g.integrationOwner == None && g.reviewer == None)
    && (g.status == GroupDeferred ==> g.phase == "7")
    && (g.status != GroupPlanned && g.status != GroupDeferred ==> Ahead(c, g))
    && GatesOfGroup(g.status, g.gates) && SplitByNeed(c, g)
    && (g.status in {GroupReady, GroupActive, GroupReviewed, GroupSignedOff} ==>
          g.ownedFiles != [] && g.testCommands != [] && g.implementers != [])
    && (g.gates[7] == Passed ==> Reviewer(g.reviewer) && g.reviewer.value !in g.implementers)
    && (g.gates[5] == Passed ==> forall v :: v in g.requiredNow ==> EntityGreen(c, v))
    && (g.status == GroupSignedOff ==>
          forall e :: e in c.entities && e.primaryGroup == g.id ==> e.status == SignedOff || e.status == Deferred)
  }

  /** The gates, or else the status, that a group must have for an entity of such a status. */
  predicate GroupFits(status: EntityStatus, g: Group)
    requires |g.gates| == 10
  {
    match status
    case Planned => true
    case Deferred => true
    case Mapped => g.gates[0] == Passed
    case Ready => g.gates[1] == Passed
    case Red => g.gates[2] == Passed
    case Active => g.gates[2] == Passed
    case Failing => g.gates[2] == Passed
    case Green => g.gates[4] == Passed
    case Passing => g.gates[4] == Passed
    case Validated => g.gates[5] == Passed
    case Reviewed => g.gates[7] == Passed
    case SignedOff => g.gates[8] == Passed
    case EntityFailed => g.status == GroupFailed
    case SkippedRequired => g.status == GroupFailed
    case EntityBlocked => g.status == GroupBlocked
  }

  predicate ModelFits(status: EntityStatus, model: StateModel) {
    match status
    case Planned => true
    case Deferred => true
    case SignedOff => true
    case EntityBlocked => true
    case Ready => model == Work
    case Red => model == Work
    case Green => model == Work
    case Reviewed => model == Work
    case EntityFailed => model == Work
    case Active => model == Validation
    case Passing => model == Validation
    case Failing => model == Validation
    case SkippedRequired => model == Validation
    case Mapped => model == Coverage
    case Validated => model == Coverage
  }

  ghost predicate EntityAsPlanned(c: Catalog, e: Entity) {
    && (forall s :: s in e.secondaryGroups ==> s != e.primaryGroup && exists g :: g in c.groups && g.id == s)
    && ModelFits(e.status, e.model) && (e.deferredTier <==> e.status == Deferred)
    && (e.deferredTier ==> e.primaryGroup == "P17-G7-01")
    && (e.status == Planned || e.status == Deferred ==>
          !e.hasTarget && e.evidence == [] && e.ownedFiles == [] && e.testCommands == [])
    && (forall v :: v in e.validations ==> KindOf(c, v, true))
    && forall k :: k in e.contracts ==> KindOf(c, k, false)
  }

  ghost predicate SoundEntity(c: Catalog, e: Entity, g: Group)
    requires |g.gates| == 10
  {
    GroupFits(e.status, g) && (e.status != Planned && e.status != Deferred ==> Ahead(c, g))
  }

  ghost predicate PhaseAsPlanned(c: Catalog, plan: seq<PlannedGroup>, k: nat)
    requires k < |c.phases|
  {
    var p := c.phases[k];
    && k < 8 && p.id == ["01234567"[k]] && p.dependsOn == (if k == 0 then None else Some(["01234567"[k - 1]]))
    && p.requiredGroups == Members(plan, p.id)
  }

  function Members(plan: seq<PlannedGroup>, id: string): seq<string> {
    if plan == [] then []
    else (if Belongs(plan[0].phase, id) then [plan[0].id] else []) + Members(plan[1..], id)
  }

  ghost predicate GatesOfPhase(status: PhaseStatus, gates: seq<GateStatus>) {
    match status
    case PhasePlanned => gates == [Pending, Pending, Pending, Pending]
    case PhaseDeferred => gates == [Pending, Pending, Pending, Pending]
    case PhaseActive => gates == [Passed, Pending, Pending, Pending]
    case PhaseApproved => gates == [Passed, Passed, Passed, Passed]
    case PhaseBlocked => exists bad, n: nat :: (bad == Failed || bad == Blocked) && IsStop(gates, bad, n)
  }

  ghost predicate SoundPhase(c: Catalog, k: nat)
    requires k < |c.phases|
  {
    var p := c.phases[k];
    && (p.status == PhaseDeferred <==> k == 7)
    && GatesOfPhase(p.status, [p.entry, p.review, p.approval, p.exit])
    && (p.entry == Passed && k > 0 ==> c.phases[k - 1].exit == Passed && c.phases[k - 1].approval == Passed)
    && (p.review == Pending ==> p.reviewer == None)
    && (p.review == Passed ==>
          && Reviewer(p.reviewer)
          && (forall g :: g in c.groups && g.id in p.requiredGroups ==> p.reviewer.value !in g.implementers)
          && forall id :: id in p.requiredGroups ==> GroupDone(c, id))
    && (p.approval == Pending ==> p.approvedBy == None)
    && (p.approval == Passed ==>
          && p.approvedBy == Some("user-standing-authorization-2026-07-12")
          && "projects/p17/evidence/standing-authorization.md" in p.approvalEvidence)
  }

  ghost predicate SoundFinal(c: Catalog) {
    && (c.finalReview == Pending ==> c.finalReviewer == None)
    && (c.finalReview == Passed ==>
          && Reviewer(c.finalReviewer) && (forall g :: g in c.groups ==> c.finalReviewer.value !in g.implementers)
          && (forall e :: e in c.entities && e.status != Deferred ==> e.status == SignedOff)
          && (forall g :: g in c.groups && g.phase != "7" ==> g.status == GroupSignedOff)
          && forall k :: 0 <= k < |c.phases| && k != 7 ==> c.phases[k].status == PhaseApproved)
    && (c.finalApproval == Pending ==> c.finalApprover == None)
    && (c.finalApproval == Passed ==>
          && c.finalReview == Passed && c.finalApprover == Some("user-standing-authorization-2026-07-12")
          && "projects/p17/evidence/standing-authorization.md" in c.finalApprovalEvidence)
    && (c.finalSignoff == Passed ==> c.finalApproval == Passed && c.handoffEvidence)
  }

  ghost predicate AsPlanned(c: Catalog, plan: seq<PlannedGroup>) {
    && |c.groups| == |plan| && |c.phases| == 8
    && (forall i, j :: 0 <= i < j < |c.groups| ==> c.groups[i].id != c.groups[j].id)
    && (forall i, j :: 0 <= i < j < |c.entities| ==> c.entities[i].id != c.entities[j].id)
    && (forall i :: 0 <= i < |plan| ==> GroupAsPlanned(c, plan[i], c.groups[i]))
    && (forall e :: e in c.entities ==> EntityAsPlanned(c, e))
    && (forall k :: 0 <= k < 8 ==> PhaseAsPlanned(c, plan, k))
  }

  /** A catalog of the planned records, without cycles, whose states are in order. */
  ghost predicate Sound(c: Catalog, plan: seq<PlannedGroup>) {
    && AsPlanned(c, plan)
    && (forall p :: Chain(c, p) && |p| > 1 ==> p[0] != p[|p| - 1])
    && (forall g :: g in c.groups ==> |g.gates| == 10 && SoundGroup(c, g))
    && (forall e :: e in c.entities ==> exists g :: g in c.groups && g.id == e.primaryGroup && |g.gates| == 10 && SoundEntity(c, e, g))
    && (forall k :: 0 <= k < 8 ==> SoundPhase(c, k))
    && SoundFinal(c)
  }
}
