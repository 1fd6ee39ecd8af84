/** Longest-first list scheduling, and Graham's bound for it. */
module GreedyPacking {
  // Jobs are sequences of weights. The bound is (4/3 - 1/(3n)) against every other way of filling the same bins.

  /** loads.indexOf(Math.min(...loads)): the first of the least loaded bins. */
  function LeastLoaded(loads: seq<nat>): (k: nat)
    requires |loads| > 0
    ensures k < |loads|
    ensures forall j :: 0 <= j < |loads| ==> loads[k] <= loads[j]
    ensures forall j :: 0 <= j < k ==> loads[k] < loads[j]
  {
    FirstLeast(loads, |loads| - 1)
  }

  /** The first of the least loaded among bins 0 to `last`. */
  function FirstLeast(loads: seq<nat>, last: nat): (k: nat)
    requires last < |loads|
    ensures k <= last
    ensures forall j :: 0 <= j <= last ==> loads[k] <= loads[j]
    ensures forall j :: 0 <= j < k ==> loads[k] < loads[j]
  {
    if last == 0 then 0
    else
      var k := FirstLeast(loads, last - 1);
      if loads[last] < loads[k] then last else k
  }

  /** The weight that assignment `a` of the jobs `p` puts on bin `j`. */
  function LoadOn(p: seq<nat>, a: seq<nat>, j: nat): nat
    requires |p| == |a|
  {
    if p == [] then 0
    else
      var k := |p| - 1;
      LoadOn(p[..k], a[..k], j) + (if a[k] == j then p[k] else 0)
  }

  function Loads(p: seq<nat>, a: seq<nat>, n: nat): (r: seq<nat>)
    requires |p| == |a|
    ensures |r| == n && forall j :: 0 <= j < n ==> r[j] == LoadOn(p, a, j)
  {
    seq(n, j requires 0 <= j < n => LoadOn(p, a, j))
  }

  /** The bins chosen when every job goes to the first least loaded bin. */
  function Greedy(p: seq<nat>, n: nat): (a: seq<nat>)
    requires n >= 1
    ensures |a| == |p|
    ensures forall i :: 0 <= i < |a| ==> a[i] < n
  {
    if p == [] then []
    else
      var k := |p| - 1;
      var a := Greedy(p[..k], n);
      a + [LeastLoaded(Loads(p[..k], a, n))]
  }

  ghost predicate NonIncreasing(p: seq<nat>) {
    forall i, j :: 0 <= i < j < |p| ==> p[i] >= p[j]
  }

  /** `a` sends each of the jobs `p` to one of `n` bins and overfills none of them. */
  ghost predicate Fits(p: seq<nat>, a: seq<nat>, n: nat, cap: nat) {
    && |a| == |p|
    && (forall i :: 0 <= i < |a| ==> a[i] < n)
    && (forall j :: 0 <= j < n ==> LoadOn(p, a, j) <= cap)
  }

  lemma FitsPrefix(p: seq<nat>, a: seq<nat>, n: nat, cap: nat)
    requires p != [] && Fits(p, a, n, cap)
    ensures Fits(p[..|p| - 1], a[..|p| - 1], n, cap)
  {
    var k := |p| - 1;
    forall j | 0 <= j < n
      ensures LoadOn(p[..k], a[..k], j) <= cap
    {
      assert LoadOn(p, a, j) >= LoadOn(p[..k], a[..k], j);
    }
  }

  // ----- totals

  function Sum(p: seq<nat>): nat {
    if p == [] then 0 else Sum(p[..|p| - 1]) + p[|p| - 1]
  }

  function SumLoads(p: seq<nat>, a: seq<nat>, n: nat): nat
    requires |p| == |a|
  {
    if n == 0 then 0 else SumLoads(p, a, n - 1) + LoadOn(p, a, n - 1)
  }

  lemma {:induction false} SumLoadsStep(p: seq<nat>, a: seq<nat>, n: nat)
    requires |p| == |a| && p != []
    ensures SumLoads(p, a, n)
         == SumLoads(p[..|p| - 1], a[..|p| - 1], n) + (if a[|p| - 1] < n then p[|p| - 1] else 0)
  {
    if n > 0 {
      SumLoadsStep(p, a, n - 1);
    }
  }

  lemma {:induction false} SumLoadsEmpty(n: nat)
    ensures SumLoads([], [], n) == 0
  {
    if n > 0 {
      SumLoadsEmpty(n - 1);
    }
  }

  /** No weight is lost or counted twice: the bins together carry all the jobs. */
  lemma {:induction false} LoadsAddUp(p: seq<nat>, a: seq<nat>, n: nat)
    requires |p| == |a| && forall i :: 0 <= i < |a| ==> a[i] < n
    ensures SumLoads(p, a, n) == Sum(p)
  {
    if p == [] {
      assert a == [];
      SumLoadsEmpty(n);
    } else {
      LoadsAddUp(p[..|p| - 1], a[..|p| - 1], n);
      SumLoadsStep(p, a, n);
    }
  }

  lemma {:induction false} SumLoadsAtLeast(p: seq<nat>, a: seq<nat>, n: nat, low: nat)
    requires |p| == |a| && forall j :: 0 <= j < n ==> low <= LoadOn(p, a, j)
    ensures n * low <= SumLoads(p, a, n)
  {
    if n > 0 {
      SumLoadsAtLeast(p, a, n - 1, low);
      assert n * low == (n - 1) * low + low;
    }
  }

  lemma {:induction false} SumLoadsAtMost(p: seq<nat>, a: seq<nat>, n: nat, high: nat)
    requires |p| == |a| && forall j :: 0 <= j < n ==> LoadOn(p, a, j) <= high
    ensures SumLoads(p, a, n) <= n * high
  {
    if n > 0 {
      SumLoadsAtMost(p, a, n - 1, high);
      assert n * high == (n - 1) * high + high;
    }
  }

  // ----- how many jobs a bin holds

  function Ones(k: nat): seq<nat> {
    seq(k, _ => 1)
  }

  function CountOn(a: seq<nat>, j: nat): nat {
    if a == [] then 0 else CountOn(a[..|a| - 1], j) + (if a[|a| - 1] == j then 1 else 0)
  }

  lemma {:induction false} CountIsUnitLoad(a: seq<nat>, j: nat)
    ensures CountOn(a, j) == LoadOn(Ones(|a|), a, j)
  {
    if a != [] {
      CountIsUnitLoad(a[..|a| - 1], j);
      assert Ones(|a|)[..|a| - 1] == Ones(|a| - 1);
    }
  }

  lemma {:induction false} SumOnes(k: nat)
    ensures Sum(Ones(k)) == k
  {
    if k > 0 {
      SumOnes(k - 1);
      assert Ones(k)[..k - 1] == Ones(k - 1);
    }
  }

  lemma {:induction false} JobWithinLoad(p: seq<nat>, a: seq<nat>, i: nat)
    requires |p| == |a| && i < |p|
    ensures p[i] <= LoadOn(p, a, a[i])
    ensures CountOn(a, a[i]) >= 1
  {
    if i < |p| - 1 {
      JobWithinLoad(p[..|p| - 1], a[..|p| - 1], i);
    }
  }

  /** Two jobs in one bin: their weights both count. */
  lemma {:induction false} TwoJobs(p: seq<nat>, a: seq<nat>, i: nat, low: nat)
    requires |p| == |a| && i < |p|
    requires forall k :: 0 <= k < |p| ==> low <= p[k]
    requires CountOn(a, a[i]) >= 2
    ensures p[i] + low <= LoadOn(p, a, a[i])
  {
    var k := |p| - 1;
    if i == k {
      HasJob(p[..k], a[..k], a[i]);
      var h :| 0 <= h < k && a[..k][h] == a[i];
      JobWithinLoad(p[..k], a[..k], h);
    } else if a[k] == a[i] {
      JobWithinLoad(p[..k], a[..k], i);
    } else {
      TwoJobs(p[..k], a[..k], i, low);
    }
  }

  lemma {:induction false} HasJob(p: seq<nat>, a: seq<nat>, j: nat)
    requires |p| == |a| && CountOn(a, j) >= 1
    ensures exists h :: 0 <= h < |a| && a[h] == j
  {
    var k := |a| - 1;
    if a[k] != j {
      HasJob(p[..k], a[..k], j);
      var h :| 0 <= h < k && a[..k][h] == j;
      assert a[h] == j;
    }
  }

  /** A bin with one job carries exactly that job. */
  lemma {:induction false} SoleJob(p: seq<nat>, a: seq<nat>, j: nat) returns (h: nat)
    requires |p| == |a| && CountOn(a, j) == 1
    ensures h < |a| && a[h] == j && LoadOn(p, a, j) == p[h]
  {
    var k := |a| - 1;
    if a[k] == j {
      h := k;
      EmptyBin(p[..k], a[..k], j);
    } else {
      h := SoleJob(p[..k], a[..k], j);
    }
  }

  lemma {:induction false} EmptyBin(p: seq<nat>, a: seq<nat>, j: nat)
    requires |p| == |a| && CountOn(a, j) == 0
    ensures LoadOn(p, a, j) == 0
  {
    if a != [] {
      EmptyBin(p[..|a| - 1], a[..|a| - 1], j);
    }
  }

  lemma {:induction false} ManyJobsWeighMore(p: seq<nat>, a: seq<nat>, j: nat, cap: nat)
    requires |p| == |a| && forall i :: 0 <= i < |p| ==> 3 * p[i] > cap
    ensures 3 * LoadOn(p, a, j) >= CountOn(a, j) * (cap + 1)
  {
    if a != [] {
      var k := |a| - 1;
      ManyJobsWeighMore(p[..k], a[..k], j, cap);
      if a[k] == j {
        var c := CountOn(a[..k], j);
        assert CountOn(a, j) == c + 1;
        assert (c + 1) * (cap + 1) == c * (cap + 1) + (cap + 1);
      }
    }
  }

  lemma {:induction false} TimesMonotonic(x: nat, y: nat, c: nat)
    ensures x <= y ==> x * c <= y * c
    ensures x < y ==> x * c + c <= y * c
    decreases y
  {
    if x < y {
      TimesMonotonic(x, y - 1, c);
      assert y * c == (y - 1) * c + c;
    }
  }

  lemma AtMostTwo(p: seq<nat>, a: seq<nat>, j: nat, cap: nat)
    requires |p| == |a| && forall i :: 0 <= i < |p| ==> 3 * p[i] > cap
    requires LoadOn(p, a, j) <= cap
    ensures CountOn(a, j) <= 2
  {
    ManyJobsWeighMore(p, a, j, cap);
    TimesMonotonic(3, CountOn(a, j), cap + 1);
  }

  /** The bins among the first `n` that hold at most one job. */
  ghost function Singles(a: seq<nat>, n: nat): set<nat> {
    set j | 0 <= j < n && CountOn(a, j) <= 1
  }

  lemma {:induction false} CountsBySingles(a: seq<nat>, n: nat)
    requires forall j :: 0 <= j < n ==> CountOn(a, j) <= 2
    ensures SumLoads(Ones(|a|), a, n) + |Singles(a, n)| <= 2 * n
    ensures (forall j :: 0 <= j < n ==> CountOn(a, j) >= 1)
        ==> SumLoads(Ones(|a|), a, n) + |Singles(a, n)| == 2 * n
  {
    if n == 0 {
      assert Singles(a, 0) == {};
    } else {
      CountsBySingles(a, n - 1);
      CountIsUnitLoad(a, n - 1);
      if CountOn(a, n - 1) <= 1 {
        assert Singles(a, n) == Singles(a, n - 1) + {n - 1};
      } else {
        assert Singles(a, n) == Singles(a, n - 1);
      }
    }
  }

  lemma JobsBySingles(a: seq<nat>, n: nat)
    requires forall i :: 0 <= i < |a| ==> a[i] < n
    requires forall j :: 0 <= j < n ==> CountOn(a, j) <= 2
    ensures |a| + |Singles(a, n)| <= 2 * n
    ensures (forall j :: 0 <= j < n ==> CountOn(a, j) >= 1) ==> |a| + |Singles(a, n)| == 2 * n
  {
    LoadsAddUp(Ones(|a|), a, n);
    SumOnes(|a|);
    CountsBySingles(a, n);
  }

  lemma {:induction false} InjectionSize(d: set<nat>, e: set<nat>, f: map<nat, nat>)
    requires d <= f.Keys && forall x :: x in d ==> f[x] in e
    requires forall x, y :: x in d && y in d && f[x] == f[y] ==> x == y
    ensures |d| <= |e|
  {
    if d != {} {
      var x :| x in d;
      InjectionSize(d - {x}, e - {f[x]}, f);
    }
  }

  // ----- Graham's bound

  predicate HasRoom(p: seq<nat>, a: seq<nat>, j: nat, job: nat, cap: nat)
    requires |p| == |a|
  {
    LoadOn(p, a, j) + job <= cap
  }

  /**
   The heart of the bound. Suppose every job weighs more than a third of `cap`, and the last
   job overflows every bin of the packing `g` of the others. Bins of `g` then hold one or two
   jobs, and a job alone in its bin is too heavy to share a bin with any other job. Counting
   jobs against bins rules out any packing `a` of all of them.
   */
  lemma LastJobFits(q: seq<nat>, job: nat, g: seq<nat>, a: seq<nat>, n: nat, cap: nat)
    requires NonIncreasing(q + [job]) && 3 * job > cap
    requires Fits(q + [job], a, n, cap) && Fits(q, g, n, cap)
    ensures exists j :: 0 <= j < n && HasRoom(q, g, j, job, cap)
  {
    var p := q + [job];
    if forall j :: 0 <= j < n ==> !HasRoom(q, g, j, job, cap) {
      JobWithinLoad(p, a, |q|);
      forall i | 0 <= i < |p|
        ensures 3 * p[i] > cap
      {
        assert p[i] >= p[|q|];
      }
      forall i | 0 <= i < |q|
        ensures 3 * q[i] > cap
      {
        assert q[i] == p[i];
      }
      forall j | 0 <= j < n
        ensures 1 <= CountOn(g, j) <= 2 && CountOn(a, j) <= 2
      {
        assert !HasRoom(q, g, j, job, cap);
        AtMostTwo(p, a, j, cap);
        AtMostTwo(q, g, j, cap);
        if CountOn(g, j) == 0 {
          EmptyBin(q, g, j);
        }
      }
      JobsBySingles(g, n);
      JobsBySingles(a, n);
      SinglesEmbed(q, job, g, a, n, cap);
      assert false;
    }
  }

  lemma SinglesEmbed(q: seq<nat>, job: nat, g: seq<nat>, a: seq<nat>, n: nat, cap: nat)
    requires NonIncreasing(q + [job])
    requires Fits(q + [job], a, n, cap) && Fits(q, g, n, cap)
    requires forall j :: 0 <= j < n ==> !HasRoom(q, g, j, job, cap)
    requires forall j :: 0 <= j < n ==> CountOn(g, j) >= 1
    ensures |Singles(g, n)| <= |Singles(a, n)|
  {
    var p := q + [job];
    var f: map<nat, nat> := map[];
    var d := Singles(g, n);
    var rest := d;
    while rest != {}
      invariant rest <= d && f.Keys == d - rest
      invariant forall x :: x in f ==> f[x] < |q| && g[f[x]] == x && CountOn(a, a[f[x]]) <= 1
    {
      var x :| x in rest;
      var h := SoleJob(q, g, x);
      assert !HasRoom(q, g, x, job, cap);
      assert p[h] == q[h] && p[h] + job > cap;
      if CountOn(a, a[h]) >= 2 {
        forall i | 0 <= i < |p|
          ensures job <= p[i]
        {
          assert p[i] >= p[|q|];
        }
        TwoJobs(p, a, h, job);
      }
      f := f[x := h];
      rest := rest - {x};
    }
    var bin := map x | x in d :: a[f[x]];
    forall x, y | x in d && y in d && bin[x] == bin[y]
      ensures x == y
    {
      if f[x] < f[y] {
        TwoIndices(a, f[x], f[y]);
      } else if f[y] < f[x] {
        TwoIndices(a, f[y], f[x]);
      }
    }
    InjectionSize(d, Singles(a, n), bin);
  }

  lemma {:induction false} TwoIndices(a: seq<nat>, i: nat, j: nat)
    requires i < j < |a| && a[i] == a[j]
    ensures CountOn(a, a[i]) >= 2
  {
    var k := |a| - 1;
    if j == k {
      JobWithinLoad(a[..k], a[..k], i);
    } else {
      TwoIndices(a[..k], i, j);
    }
  }

  /** When every job weighs more than a third of what some packing needs, greedy is optimal. */
  lemma {:induction false} BigJobsOptimal(p: seq<nat>, a: seq<nat>, n: nat, cap: nat)
    requires n >= 1 && NonIncreasing(p) && Fits(p, a, n, cap)
    requires p != [] ==> 3 * p[|p| - 1] > cap
    ensures Fits(p, Greedy(p, n), n, cap)
  {
    if p != [] {
      var k := |p| - 1;
      FitsPrefix(p, a, n, cap);
      BigJobsOptimal(p[..k], a[..k], n, cap);
      var g := Greedy(p[..k], n);
      assert p == p[..k] + [p[k]];
      LastJobFits(p[..k], p[k], g, a, n, cap);
      var m := LeastLoaded(Loads(p[..k], g, n));
      var j :| 0 <= j < n && HasRoom(p[..k], g, j, p[k], cap);
      assert Loads(p[..k], g, n)[m] <= Loads(p[..k], g, n)[j];
      GreedySnoc(p[..k], p[k], n);
      assert p == p[..k] + [p[k]];
    }
  }

  /** What one more job does to the bins and the loads. */
  lemma GreedySnoc(q: seq<nat>, job: nat, n: nat)
    requires n >= 1
    ensures Greedy(q + [job], n) == Greedy(q, n) + [LeastLoaded(Loads(q, Greedy(q, n), n))]
    ensures Loads(q + [job], Greedy(q + [job], n), n)
         == AddLoad(Loads(q, Greedy(q, n), n), LeastLoaded(Loads(q, Greedy(q, n), n)), job)
  {
    assert (q + [job])[..|q|] == q;
    OneMoreLoad(q, job, Greedy(q, n), LeastLoaded(Loads(q, Greedy(q, n), n)), n);
  }

  function AddLoad(loads: seq<nat>, m: nat, job: nat): seq<nat>
    requires m < |loads|
  {
    loads[m := loads[m] + job]
  }

  lemma OneMoreLoad(q: seq<nat>, job: nat, g: seq<nat>, m: nat, n: nat)
    requires |g| == |q| && m < n
    ensures Loads(q + [job], g + [m], n) == AddLoad(Loads(q, g, n), m, job)
  {
    assert (q + [job])[..|q|] == q && (g + [m])[..|g|] == g;
    forall j | 0 <= j < n
      ensures LoadOn(q + [job], g + [m], j) == LoadOn(q, g, j) + (if m == j then job else 0)
    {
    }
  }

  lemma BoundArithmetic(n: nat, start: nat, job: nat, total: nat, cap: nat)
    requires n >= 1 && n * start <= total && total + job <= n * cap && 3 * job <= cap
    ensures 3 * n * (start + job) <= (4 * n - 1) * cap
  {
    assert (n - 1) * (3 * job) <= (n - 1) * cap;
    calc <= {
      3 * n * (start + job);
      3 * (n * start) + 3 * (n * job);
      3 * (n * cap - job) + 3 * (n * job);
      { assert (n - 1) * (3 * job) == 3 * (n * job) - 3 * job; }
      3 * (n * cap) + (n - 1) * (3 * job);
      3 * (n * cap) + (n - 1) * cap;
      { assert (n - 1) * cap == n * cap - cap; assert (4 * n - 1) * cap == 4 * (n * cap) - cap; }
      (4 * n - 1) * cap;
    }
  }

  lemma ScaledBound(n: nat, load: nat, cap: nat)
    requires n >= 1 && load <= cap
    ensures 3 * n * load <= (4 * n - 1) * cap
  {
    assert n * load <= n * cap;
    assert 3 * n * load == 3 * (n * load);
    assert (n - 1) * cap >= 0;
    assert (4 * n - 1) * cap == 3 * (n * cap) + (n - 1) * cap;
  }

  /** The least loaded bin is no heavier than average. */
  lemma LeastIsBelowAverage(q: seq<nat>, n: nat, m: nat)
    requires n >= 1 && m == LeastLoaded(Loads(q, Greedy(q, n), n))
    ensures n * Loads(q, Greedy(q, n), n)[m] <= Sum(q)
  {
    var loads := Loads(q, Greedy(q, n), n);
    forall j | 0 <= j < n
      ensures loads[m] <= LoadOn(q, Greedy(q, n), j)
    {
      assert loads[m] <= loads[j];
    }
    SumLoadsAtLeast(q, Greedy(q, n), n, loads[m]);
    LoadsAddUp(q, Greedy(q, n), n);
  }

  /** A small last job keeps the bound: it goes to a bin that is below average. */
  lemma SmallJobKeepsBound(q: seq<nat>, job: nat, n: nat, cap: nat)
    requires n >= 1 && 3 * job <= cap && Sum(q) + job <= n * cap
    requires forall j :: 0 <= j < n ==> 3 * n * LoadOn(q, Greedy(q, n), j) <= (4 * n - 1) * cap
    ensures forall j :: 0 <= j < n ==> 3 * n * LoadOn(q + [job], Greedy(q + [job], n), j) <= (4 * n - 1) * cap
  {
    var before := Loads(q, Greedy(q, n), n);
    var m := LeastLoaded(before);
    GreedySnoc(q, job, n);
    LeastIsBelowAverage(q, n, m);
    BoundArithmetic(n, before[m], job, Sum(q), cap);
    forall j | 0 <= j < n
      ensures 3 * n * LoadOn(q + [job], Greedy(q + [job], n), j) <= (4 * n - 1) * cap
    {
      var after := Loads(q + [job], Greedy(q + [job], n), n);
      assert LoadOn(q + [job], Greedy(q + [job], n), j) == after[j];
      assert after[j] == if j == m then before[m] + job else before[j];
    }
  }

  /**
   Graham's bound: whatever capacity `cap` some assignment of the jobs can live with, the
   greedy loads stay within (4n - 1) / 3n of it.
   */
  lemma {:induction false} GreedyWithinGraham(p: seq<nat>, a: seq<nat>, n: nat, cap: nat)
    requires n >= 1 && NonIncreasing(p) && Fits(p, a, n, cap)
    ensures forall j :: 0 <= j < n ==> 3 * n * LoadOn(p, Greedy(p, n), j) <= (4 * n - 1) * cap
  {
    if p == [] || 3 * p[|p| - 1] > cap {
      BigJobsOptimal(p, a, n, cap);
      forall j | 0 <= j < n
        ensures 3 * n * LoadOn(p, Greedy(p, n), j) <= (4 * n - 1) * cap
      {
        ScaledBound(n, LoadOn(p, Greedy(p, n), j), cap);
      }
    } else {
      var k := |p| - 1;
      FitsPrefix(p, a, n, cap);
      GreedyWithinGraham(p[..k], a[..k], n, cap);
      LoadsAddUp(p, a, n);
      SumLoadsAtMost(p, a, n, cap);
      SmallJobKeepsBound(p[..k], p[k], n, cap);
      assert p == p[..k] + [p[k]];
    }
  }

  /** The bins never drift apart by more than one job. */
  lemma {:induction false} LoadSpread(p: seq<nat>, n: nat, largest: nat)
    requires n >= 1 && forall i :: 0 <= i < |p| ==> p[i] <= largest
    ensures forall i, j :: 0 <= i < n && 0 <= j < n
              ==> LoadOn(p, Greedy(p, n), i) <= LoadOn(p, Greedy(p, n), j) + largest
  {
    if p != [] {
      var k := |p| - 1;
      LoadSpread(p[..k], n, largest);
      GreedySnoc(p[..k], p[k], n);
      assert p == p[..k] + [p[k]];
      var g := Greedy(p[..k], n);
      var before := Loads(p[..k], g, n);
      var after := Loads(p, Greedy(p, n), n);
      forall i, j | 0 <= i < n && 0 <= j < n
        ensures LoadOn(p, Greedy(p, n), i) <= LoadOn(p, Greedy(p, n), j) + largest
      {
        assert before[i] <= before[j] + largest;
        assert after[i] <= after[j] + largest;
      }
    }
  }

  /** Bins that are within one job of bin k are on average within less than one. */
  lemma {:induction false} SumLoadsNear(p: seq<nat>, a: seq<nat>, m: nat, k: nat, largest: nat)
    requires |p| == |a| && forall j :: 0 <= j < m ==> LoadOn(p, a, k) <= LoadOn(p, a, j) + largest
    ensures m * LoadOn(p, a, k) <= SumLoads(p, a, m) + (if k < m then m - 1 else m) * largest
  {
    if m > 0 {
      SumLoadsNear(p, a, m - 1, k, largest);
      var load := LoadOn(p, a, k);
      assert m * load == (m - 1) * load + load;
      NextShare(m, k, largest);
    }
  }

  lemma NextShare(m: nat, k: nat, largest: nat)
    requires m > 0
    ensures (if k < m then m - 1 else m) * largest
         == (if k < m - 1 then m - 2 else m - 1) * largest + (if k == m - 1 then 0 else largest)
  {
  }

  /** n times a greedy load is at most the total and (n - 1) times the largest job. */
  lemma AverageBound(p: seq<nat>, n: nat, largest: nat, k: nat)
    requires k < n && forall i :: 0 <= i < |p| ==> p[i] <= largest
    ensures n * LoadOn(p, Greedy(p, n), k) <= Sum(p) + (n - 1) * largest
  {
    LoadSpread(p, n, largest);
    SumLoadsNear(p, Greedy(p, n), n, k, largest);
    LoadsAddUp(p, Greedy(p, n), n);
  }

  // ----- which bins get used

  ghost predicate OpenedInOrder(a: seq<nat>, loads: seq<nat>) {
    && (forall i :: 0 <= i < |a| && i < |loads| ==> a[i] == i)
    && (forall j :: 0 <= j < |loads| ==> (loads[j] > 0 <==> j < |a|))
  }

  /** With positive weights the first jobs open the bins in order. */
  lemma {:induction false} BinsOpenInOrder(p: seq<nat>, n: nat)
    requires n >= 1 && forall i :: 0 <= i < |p| ==> p[i] > 0
    ensures OpenedInOrder(Greedy(p, n), Loads(p, Greedy(p, n), n))
  {
    if p != [] {
      var k := |p| - 1;
      BinsOpenInOrder(p[..k], n);
      GreedySnoc(p[..k], p[k], n);
      assert p == p[..k] + [p[k]];
      OpenNext(Greedy(p[..k], n), Loads(p[..k], Greedy(p[..k], n), n), p[k]);
    }
  }

  lemma OpenNext(a: seq<nat>, loads: seq<nat>, job: nat)
    requires |loads| >= 1 && job > 0 && OpenedInOrder(a, loads)
    ensures OpenedInOrder(a + [LeastLoaded(loads)], AddLoad(loads, LeastLoaded(loads), job))
  {
    var m := LeastLoaded(loads);
    if |a| < |loads| {
      assert loads[m] <= loads[|a|] == 0;
      assert m == |a|;
    }
  }

  /** How many of the first k turns of a round-robin fall on bin j. */
  function Turns(k: nat, n: nat, j: nat): nat
    requires n >= 1
  {
    k / n + (if j < k % n then 1 else 0)
  }

  lemma NextTurn(k: nat, n: nat)
    requires n >= 1
    ensures k % n < n
    ensures forall j :: 0 <= j < n ==> Turns(k + 1, n, j) == Turns(k, n, j) + (if j == k % n then 1 else 0)
  {
    if k % n + 1 < n {
      DivStep(k + 1, n, k / n, k % n + 1);
    } else {
      assert (k / n + 1) * n == (k / n) * n + n;
      DivStep(k + 1, n, k / n + 1, 0);
    }
  }

  lemma DivStep(k: nat, n: nat, q: nat, r: nat)
    requires n >= 1 && r < n && k == q * n + r
    ensures k / n == q && k % n == r
  {
    assert k == (k / n) * n + k % n;
    TimesMonotonic(q, k / n, n);
    TimesMonotonic(k / n, q, n);
  }

  /** The loads after k turns of a round-robin with weight c. */
  function TurnLoads(k: nat, n: nat, c: nat): (r: seq<nat>)
    requires n >= 1
    ensures |r| == n && forall j :: 0 <= j < n ==> r[j] == c * Turns(k, n, j)
  {
    seq(n, j requires 0 <= j < n => c * Turns(k, n, j))
  }

  lemma NextTurnLoads(k: nat, n: nat, c: nat)
    requires n >= 1 && c > 0
    ensures k % n < n && LeastLoaded(TurnLoads(k, n, c)) == k % n
    ensures TurnLoads(k + 1, n, c) == AddLoad(TurnLoads(k, n, c), k % n, c)
  {
    NextTurn(k, n);
    var loads := TurnLoads(k, n, c);
    forall j | 0 <= j < n
      ensures loads[j] == c * (k / n) + (if j < k % n then c else 0)
      ensures c * (Turns(k, n, j) + 1) == loads[j] + c
    {
      assert c * (k / n + 1) == c * (k / n) + c;
    }
    var m := LeastLoaded(loads);
    assert loads[m] <= loads[k % n];
  }

  /** With equal positive weights greedy is exactly round-robin. */
  lemma {:induction false} EqualWeightsRoundRobin(p: seq<nat>, n: nat, c: nat)
    requires n >= 1 && c > 0 && forall i :: 0 <= i < |p| ==> p[i] == c
    ensures forall i :: 0 <= i < |p| ==> Greedy(p, n)[i] == i % n
    ensures Loads(p, Greedy(p, n), n) == TurnLoads(|p|, n, c)
  {
    if p == [] {
      DivStep(0, n, 0, 0);
      assert Loads(p, Greedy(p, n), n) == TurnLoads(0, n, c);
    } else {
      var k := |p| - 1;
      EqualWeightsRoundRobin(p[..k], n, c);
      GreedySnoc(p[..k], p[k], n);
      assert p == p[..k] + [p[k]];
      NextTurnLoads(k, n, c);
    }
  }
}
