/**
 The group dependency graph of the p17 catalog: cycle detection, the two closure routines, and
 the required-now/downstream split that rests on them.
 */
module CatalogGraph {
  import opened Results
  import opened Sorting

  /** dependsOn of every group; ids without a group depend on nothing. */
  type Graph = map<string, seq<string>>

  /** byGroup.get(id)?.dependsOn ?? [] */
  function Deps(g: Graph, id: string): seq<string> {
    if id in g then g[id] else []
  }

  // ----- paths

  ghost predicate Path(g: Graph, p: seq<string>) {
    p != [] && forall i :: 0 <= i < |p| - 1 ==> p[i + 1] in Deps(g, p[i])
  }

  ghost predicate PathFrom(g: Graph, p: seq<string>, a: string, b: string) {
    Path(g, p) && p[0] == a && p[|p| - 1] == b
  }

  ghost predicate Reaches(g: Graph, a: string, b: string) {
    exists p :: PathFrom(g, p, a, b)
  }

  /** A group that depends, directly or not, on itself. */
  ghost predicate OnCycle(g: Graph, a: string) {
    exists p :: PathFrom(g, p, a, a) && |p| >= 2
  }

  lemma ReachesSelf(g: Graph, a: string)
    ensures Reaches(g, a, a)
  {
    assert PathFrom(g, [a], a, a);
  }

  lemma ReachesStep(g: Graph, a: string, b: string, c: string)
    requires Reaches(g, a, b) && c in Deps(g, b)
    ensures Reaches(g, a, c)
  {
    var p :| PathFrom(g, p, a, b);
    assert PathFrom(g, p + [c], a, c);
  }

  lemma ReachesFirst(g: Graph, a: string, b: string, c: string)
    requires b in Deps(g, a) && Reaches(g, b, c)
    ensures Reaches(g, a, c)
  {
    var p :| PathFrom(g, p, b, c);
    assert PathFrom(g, [a] + p, a, c);
  }

  /** A set that contains a and the dependencies of its members contains all a reaches. */
  lemma {:induction false} ClosedContainsReachable(g: Graph, s: set<string>, p: seq<string>)
    requires Path(g, p) && p[0] in s
    requires forall x :: x in s ==> forall d :: d in Deps(g, x) ==> d in s
    ensures p[|p| - 1] in s
  {
    if |p| > 1 {
      assert p[1] in Deps(g, p[0]);
      ClosedContainsReachable(g, s, p[1..]);
    }
  }

  // ----- finite support

  function Elements(s: seq<string>): (r: set<string>)
    ensures forall x :: x in r <==> x in s
  {
    set x | x in s
  }

  /** Every id the graph mentions, and the given ones. */
  function Universe(g: Graph, ids: set<string>): (r: set<string>)
    ensures ids <= r
    ensures forall x, d :: x in g && d in g[x] ==> d in r
  {
    ids + (set x, d | x in g && d in g[x] :: d)
  }

  ghost predicate Spans(u: set<string>, g: Graph) {
    forall x, d :: x in g && d in g[x] ==> d in u
  }

  // ----- cycle detection

  /** Dependencies come before the groups that need them. */
  ghost predicate Topological(g: Graph, order: seq<string>) {
    && Distinct(order)
    && forall i :: 0 <= i < |order| ==> forall d :: d in Deps(g, order[i]) ==> d in order[..i]
  }

  lemma TopologicalSnoc(g: Graph, order: seq<string>, id: string)
    requires Topological(g, order) && id !in order && forall d :: d in Deps(g, id) ==> d in order
    ensures Topological(g, order + [id])
  {
    var longer := order + [id];
    forall i | 0 <= i < |longer|
      ensures forall d :: d in Deps(g, longer[i]) ==> d in longer[..i]
    {
      if i < |order| {
        assert longer[..i] == order[..i];
      } else {
        assert longer[..i] == order;
      }
    }
  }

  /** Along a path the positions in a topological order go down. */
  lemma {:induction false} PositionsDecrease(g: Graph, order: seq<string>, p: seq<string>, i: nat) returns (j: nat)
    requires Topological(g, order) && Path(g, p) && i < |order| && p[0] == order[i]
    ensures j < |order| && order[j] == p[|p| - 1]
    ensures j <= i && (|p| >= 2 ==> j < i)
  {
    if |p| == 1 {
      j := i;
    } else {
      assert p[1] in Deps(g, order[i]);
      var k :| 0 <= k < i && order[..i][k] == p[1];
      assert order[k] == p[1];
      j := PositionsDecrease(g, order, p[1..], k);
    }
  }

  lemma TopologicalHasNoCycle(g: Graph, order: seq<string>, a: string, c: string)
    requires Topological(g, order) && a in order && Reaches(g, a, c)
    ensures c in order && !OnCycle(g, c)
  {
    var p :| PathFrom(g, p, a, c);
    var i :| 0 <= i < |order| && order[i] == a;
    var j := PositionsDecrease(g, order, p, i);
    if OnCycle(g, c) {
      var q :| PathFrom(g, q, c, c) && |q| >= 2;
      var k := PositionsDecrease(g, order, q, j);
    }
  }

  /** The groups being visited, as the path the recursion took; each needs the next. */
  ghost predicate Stack(g: Graph, stack: seq<string>, visiting: set<string>) {
    && Distinct(stack) && Elements(stack) == visiting
    && forall i :: 0 <= i < |stack| - 1 ==> stack[i + 1] in Deps(g, stack[i])
  }

  class DependencyWalk {
    const g: Graph
    var visiting: set<string>
    var visited: seq<string>  // a JavaScript Set, in insertion order

    constructor (g: Graph)
      ensures this.g == g && visiting == {} && visited == []
    {
      this.g := g;
      visiting, visited := {}, [];
    }

    ghost predicate Valid(stack: seq<string>)
      reads this
    {
      && Stack(g, stack, visiting) && Topological(g, visited)
      && forall x :: x in visiting ==> x !in visited
    }

    /** visit(id). False stands for the failure that reports a cycle. */
    method Visit(id: string, ghost stack: seq<string>, ghost u: set<string>) returns (ok: bool)
      requires Valid(stack) && (stack != [] ==> id in Deps(g, stack[|stack| - 1]))
      requires Spans(u, g) && id in u && visiting <= u
      modifies this
      ensures ok ==> Valid(stack) && visiting == old(visiting)
      ensures ok ==> GrownFrom(g, old(visited), visited, id) && id in visited
      ensures !ok ==> CycleWithin(g, id)
      decreases u - visiting, 0
    {
      if id in visiting {
        CycleOnStack(g, stack, visiting, id);
        return false;
      }
      if id in visited {
        return true;
      }
      visiting := visiting + {id};
      assert Stack(g, stack + [id], visiting);
      ok := VisitDependencies(id, stack + [id], u);
      if !ok {
        return;
      }
      visiting := visiting - {id};
      assert Elements(stack + [id]) == Elements(stack) + {id};
      TopologicalSnoc(g, visited, id);
      GrownBySelf(g, old(visited), visited, id);
      visited := visited + [id];
    }

    /** for (const dependency of dependsOn) visit(dependency) */
    method VisitDependencies(id: string, ghost path: seq<string>, ghost u: set<string>) returns (ok: bool)
      requires path != [] && path[|path| - 1] == id && Valid(path)
      requires Spans(u, g) && visiting <= u
      modifies this
      ensures ok ==> Valid(path) && visiting == old(visiting)
      ensures ok ==> GrownFrom(g, old(visited), visited, id) && forall d :: d in Deps(g, id) ==> d in visited
      ensures !ok ==> CycleWithin(g, id)
      decreases u - visiting, 1
    {
      var dependencies := Deps(g, id);
      for i := 0 to |dependencies|
        invariant Valid(path) && visiting == old(visiting)
        invariant GrownFrom(g, old(visited), visited, id)
        invariant forall k :: 0 <= k < i ==> dependencies[k] in visited
      {
        ghost var before := visited;
        assert dependencies[i] in g[id];
        ok := Visit(dependencies[i], path, u);
        if !ok {
          CycleThrough(g, id, dependencies[i]);
          return;
        }
        GrownThrough(g, old(visited), before, visited, id, dependencies[i]);
      }
      return true;
    }
  }

  /** The visited list after a visit of `id`: longer by groups `id` reaches. */
  ghost predicate GrownFrom(g: Graph, before: seq<string>, after: seq<string>, id: string) {
    before <= after && forall x :: x in after ==> x in before || Reaches(g, id, x)
  }

  lemma GrownThrough(g: Graph, a: seq<string>, b: seq<string>, c: seq<string>, id: string, dependency: string)
    requires GrownFrom(g, a, b, id) && GrownFrom(g, b, c, dependency) && dependency in Deps(g, id)
    ensures GrownFrom(g, a, c, id)
  {
    forall x | x in c
      ensures x in a || Reaches(g, id, x)
    {
      if x !in b {
        ReachesFirst(g, id, dependency, x);
      }
    }
  }

  lemma GrownBySelf(g: Graph, before: seq<string>, after: seq<string>, id: string)
    requires GrownFrom(g, before, after, id)
    ensures GrownFrom(g, before, after + [id], id)
  {
    ReachesSelf(g, id);
  }

  /** A cycle somewhere among the groups `id` reaches. */
  ghost predicate CycleWithin(g: Graph, id: string) {
    exists c :: OnCycle(g, c) && Reaches(g, id, c)
  }

  lemma CycleThrough(g: Graph, id: string, dependency: string)
    requires dependency in Deps(g, id) && CycleWithin(g, dependency)
    ensures CycleWithin(g, id)
  {
    var c :| OnCycle(g, c) && Reaches(g, dependency, c);
    ReachesFirst(g, id, dependency, c);
  }

  lemma CycleOnStack(g: Graph, stack: seq<string>, visiting: set<string>, id: string)
    requires Stack(g, stack, visiting) && id in visiting
    requires stack != [] ==> id in Deps(g, stack[|stack| - 1])
    ensures CycleWithin(g, id)
  {
    assert id in stack;
    var i :| 0 <= i < |stack| && stack[i] == id;
    assert PathFrom(g, stack[i..] + [id], id, id);
    ReachesSelf(g, id);
    assert OnCycle(g, id);
  }

  ghost predicate AcyclicFrom(g: Graph, ids: seq<string>) {
    forall a, c :: a in ids && Reaches(g, a, c) ==> !OnCycle(g, c)
  }

  /**
   for (const id of groupIds) visit(id): succeeds exactly when no cycle can be reached, and then
   the order in which visits finish is a topological order of everything reachable.
   */
  method VisitAll(g: Graph, groupIds: seq<string>) returns (ok: bool, order: seq<string>)
    ensures ok <==> AcyclicFrom(g, groupIds)
    ensures ok ==> Topological(g, order)
    ensures ok ==> forall x :: x in order <==> exists a :: a in groupIds && Reaches(g, a, x)
  {
    var walk := new DependencyWalk(g);
    ghost var u := Universe(g, Elements(groupIds));
    for i := 0 to |groupIds|
      invariant walk.Valid([]) && fresh(walk) && walk.g == g
      invariant forall k :: 0 <= k < i ==> groupIds[k] in walk.visited
      invariant forall x :: x in walk.visited ==> exists a :: a in groupIds && Reaches(g, a, x)
    {
      ghost var before := walk.visited;
      var visitedToo := walk.Visit(groupIds[i], [], u);
      if !visitedToo {
        assert groupIds[i] in groupIds;
        ghost var c :| OnCycle(g, c) && Reaches(g, groupIds[i], c);
        return false, [];
      }
      forall x | x in walk.visited
        ensures exists a :: a in groupIds && Reaches(g, a, x)
      {
        if x !in before {
          assert groupIds[i] in groupIds && Reaches(g, groupIds[i], x);
        }
      }
    }
    ok, order := true, walk.visited;
    forall a, c | a in groupIds && Reaches(g, a, c)
      ensures c in order && !OnCycle(g, c)
    {
      TopologicalHasNoCycle(g, order, a, c);
    }
  }

  // ----- closures

  /** The set both closure routines fill. */
  class Closure {
    var members: set<string>

    constructor (initial: set<string>)
      ensures members == initial
    {
      members := initial;
    }

    /** The recursion of `visit` in dependencyClosure and of collectDependencies. */
    method Collect(g: Graph, id: string, ghost u: set<string>)
      requires Spans(u, g)
      modifies this
      ensures old(members) <= members
      ensures forall d :: d in Deps(g, id) ==> d in members
      ensures forall x :: x in members && x !in old(members) ==>
                && Reaches(g, id, x)
                && (forall d :: d in Deps(g, x) ==> d in members)
      decreases u - members
    {
      var dependencies := Deps(g, id);
      for i := 0 to |dependencies|
        invariant old(members) <= members
        invariant forall k :: 0 <= k < i ==> dependencies[k] in members
        invariant forall x :: x in members && x !in old(members) ==>
                    && Reaches(g, id, x)
                    && (forall d :: d in Deps(g, x) ==> d in members)
      {
        if dependencies[i] in members {
          continue;
        }
        ghost var before := members;
        ReachesSelf(g, id);
        ReachesStep(g, id, id, dependencies[i]);
        members := members + {dependencies[i]};
        Collect(g, dependencies[i], u);
        forall x | x in members && x !in old(members)
          ensures Reaches(g, id, x) && forall d :: d in Deps(g, x) ==> d in members
        {
          if x !in before && x != dependencies[i] {
            ReachesFirst(g, id, dependencies[i], x);
          }
        }
      }
    }
  }

  /** dependencyClosure(group.id), then availableGroups.add(group.id). */
  method AvailableByClosure(g: Graph, groupId: string) returns (available: set<string>)
    ensures forall x :: x in available <==> Reaches(g, groupId, x)
  {
    var closure := new Closure({});
    closure.Collect(g, groupId, Universe(g, {}));
    available := closure.members + {groupId};
    ReachableExactly(g, groupId, available);
  }

  /** availableGroups = {group.id}, then collectDependencies(group.id). */
  method AvailableByCollection(g: Graph, groupId: string) returns (available: set<string>)
    ensures forall x :: x in available <==> Reaches(g, groupId, x)
  {
    var closure := new Closure({groupId});
    closure.Collect(g, groupId, Universe(g, {}));
    available := closure.members;
    ReachableExactly(g, groupId, available);
  }

  lemma ReachableExactly(g: Graph, a: string, s: set<string>)
    requires a in s && forall x :: x in s ==> x == a || Reaches(g, a, x)
    requires forall x :: x in s ==> forall d :: d in Deps(g, x) ==> d in s
    ensures forall x :: x in s <==> Reaches(g, a, x)
  {
    ReachesSelf(g, a);
    forall x | Reaches(g, a, x)
      ensures x in s
    {
      var p :| PathFrom(g, p, a, x);
      ClosedContainsReachable(g, s, p);
    }
  }

  // ----- the validation split

  /** The owner of a validation; absent and empty owners both count as none. */
  function Owner(owners: map<string, string>, id: string): Option<string> {
    if id in owners && owners[id] != "" then Some(owners[id]) else None
  }

  predicate OwnedWithin(owners: map<string, string>, id: string, available: set<string>) {
    Owner(owners, id).Some? && Owner(owners, id).value in available
  }

  function Filter(s: seq<string>, keep: string -> bool): (r: seq<string>)
    ensures forall x :: x in r <==> x in s && keep(x)
  {
    if s == [] then []
    else
      assert s == s[..|s| - 1] + [s[|s| - 1]];
      Filter(s[..|s| - 1], keep) + (if keep(s[|s| - 1]) then [s[|s| - 1]] else [])
  }

  datatype Split = Split(requiredNow: seq<string>, downstream: seq<string>)

  function InReach(owners: map<string, string>, available: set<string>): string -> bool {
    id => OwnedWithin(owners, id, available)
  }

  function NotIn(s: seq<string>): string -> bool {
    id => id !in s
  }

  /** The split initialize() builds. */
  function BuildSplit(impacted: seq<string>, owners: map<string, string>, available: set<string>): Split {
    var requiredNow := Filter(impacted, InReach(owners, available));
    Split(requiredNow, Filter(impacted, NotIn(requiredNow)))
  }

  datatype SplitError = IncompletePartition | FutureOwner(id: string) | NotDownstream(id: string)

  method CheckRequired(required: seq<string>, owners: map<string, string>, available: set<string>)
    returns (failure: Option<SplitError>)
    ensures failure.None? <==> forall id :: id in required ==> OwnedWithin(owners, id, available)
  {
    for i := 0 to |required|
      invariant forall k :: 0 <= k < i ==> OwnedWithin(owners, required[k], available)
    {
      if Owner(owners, required[i]).None? || Owner(owners, required[i]).value !in available {
        assert required[i] in required && !OwnedWithin(owners, required[i], available);
        return Some(FutureOwner(required[i]));
      }
    }
    return None;
  }

  method CheckDownstream(downstream: seq<string>, owners: map<string, string>, available: set<string>)
    returns (failure: Option<SplitError>)
    ensures failure.None? <==> forall id :: id in downstream ==> OwnedOutside(owners, id, available)
  {
    for i := 0 to |downstream|
      invariant forall k :: 0 <= k < i ==> OwnedOutside(owners, downstream[k], available)
    {
      if Owner(owners, downstream[i]).None? || Owner(owners, downstream[i]).value in available {
        assert downstream[i] in downstream && !OwnedOutside(owners, downstream[i], available);
        return Some(NotDownstream(downstream[i]));
      }
    }
    return None;
  }

  /** The checks validate() makes on a split. */
  method CheckSplit(split: Split, impacted: seq<string>, owners: map<string, string>, available: set<string>)
    returns (failure: Option<SplitError>)
    ensures failure.None? <==> SplitSound(split, impacted, owners, available)
  {
    var partition := Sort(split.requiredNow + split.downstream, TextBefore);
    SortedEqualMeansSameElements(split.requiredNow + split.downstream, impacted);
    if partition != Sort(impacted, TextBefore) {
      return Some(IncompletePartition);
    }
    failure := CheckRequired(split.requiredNow, owners, available);
    if failure.None? {
      failure := CheckDownstream(split.downstream, owners, available);
    }
  }

  predicate OwnedOutside(owners: map<string, string>, id: string, available: set<string>) {
    Owner(owners, id).Some? && Owner(owners, id).value !in available
  }

  /** The split lists the impacted validations, the required ones in reach and the rest beyond. */
  ghost predicate SplitSound(split: Split, impacted: seq<string>, owners: map<string, string>, available: set<string>) {
    && multiset(split.requiredNow + split.downstream) == multiset(impacted)
    && (forall id :: id in split.requiredNow ==> OwnedWithin(owners, id, available))
    && (forall id :: id in split.downstream ==> OwnedOutside(owners, id, available))
  }

  lemma SortedEqualMeansSameElements(a: seq<string>, b: seq<string>)
    ensures Sort(a, TextBefore) == Sort(b, TextBefore) <==> multiset(a) == multiset(b)
  {
    TextBeforeTotal();
    if multiset(a) == multiset(b) {
      SortDependsOnElements(a, b, TextBefore);
    }
  }

  lemma {:induction false} FilterParts(s: seq<string>, keep: string -> bool, drop: string -> bool)
    requires forall x :: x in s ==> drop(x) == !keep(x)
    ensures multiset(Filter(s, keep)) + multiset(Filter(s, drop)) == multiset(s)
  {
    if s != [] {
      var k := |s| - 1;
      assert s == s[..k] + [s[k]];
      FilterParts(s[..k], keep, drop);
    }
  }

  /**
   The split initialize() builds passes validate()'s checks exactly when every impacted
   validation has an owner, on any graph, cyclic ones included: `first` and `second` are what
   the two closure routines return.
   */
  lemma BuiltSplitPasses(g: Graph, groupId: string, impacted: seq<string>, owners: map<string, string>,
                         first: set<string>, second: set<string>)
    requires forall x :: x in first <==> Reaches(g, groupId, x)
    requires forall x :: x in second <==> Reaches(g, groupId, x)
    ensures first == second
    ensures SplitSound(BuildSplit(impacted, owners, first), impacted, owners, second)
        <==> forall id :: id in impacted ==> Owner(owners, id).Some?
  {
    assert first == second;
    SplitPartitions(impacted, owners, first);
    SplitOwners(impacted, owners, first);
  }

  /** An impacted validation that is no entity: the split puts it downstream, and the check refuses it there. */
  lemma OwnerlessSplitFails(g: Graph, groupId: string, available: set<string>)
    requires forall x :: x in available <==> Reaches(g, groupId, x)
    ensures !SplitSound(BuildSplit(["unowned"], map[], available), ["unowned"], map[], available)
  {
    BuiltSplitPasses(g, groupId, ["unowned"], map[], available, available);
    assert ["unowned"][0] in ["unowned"];
  }

  lemma SplitPartitions(impacted: seq<string>, owners: map<string, string>, available: set<string>)
    ensures var split := BuildSplit(impacted, owners, available);
            multiset(split.requiredNow + split.downstream) == multiset(impacted)
  {
    var keep := InReach(owners, available);
    FilterParts(impacted, keep, NotIn(Filter(impacted, keep)));
  }

  lemma SplitOwners(impacted: seq<string>, owners: map<string, string>, available: set<string>)
    ensures var split := BuildSplit(impacted, owners, available);
            && (forall id :: id in split.requiredNow ==> OwnedWithin(owners, id, available))
            && ((forall id :: id in split.downstream ==> OwnedOutside(owners, id, available))
                <==> forall id :: id in impacted ==> Owner(owners, id).Some?)
  {
    var split := BuildSplit(impacted, owners, available);
    forall id
      ensures id in split.downstream <==> id in impacted && !OwnedWithin(owners, id, available)
    {
    }
    forall id
      ensures id in split.requiredNow <==> id in impacted && OwnedWithin(owners, id, available)
    {
    }
  }
}
