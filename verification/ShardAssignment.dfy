/** selectShardFiles: greedy longest-first assignment of test files to shards. */
module ShardAssignment {
  // Weights are the positive whole seconds that loadShardWeights lets through; zero is allowed here where the
  // property does not need positivity.

  import opened Results
  import opened Utf16
  import opened Sorting
  import opened GreedyPacking

  datatype ShardWeights = ShardWeights(defaultSeconds: nat, seconds: map<string, nat>) {
    function Of(file: string): (r: nat)
      ensures file in seconds ==> r == seconds[file]
      ensures file !in seconds ==> r == defaultSeconds
    {
      if file in seconds then seconds[file] else defaultSeconds
    }

    ghost predicate Positive() {
      defaultSeconds > 0 && forall file :: file in seconds ==> seconds[file] > 0
    }
  }

  datatype AssignmentError = InvalidShardTotal(total: int) | InvalidShardIndex(index: int, total: int)

  /** The toSorted comparator: heavier first, then by path. */
  function HeavierFirst(w: ShardWeights): (string, string) -> bool {
    (left, right) => w.Of(left) > w.Of(right) || (w.Of(left) == w.Of(right) && TextBefore(left, right))
  }

  lemma HeavierFirstTotal(w: ShardWeights)
    ensures StrictTotalOrder(HeavierFirst(w))
  {
    TextBeforeTotal();
  }

  function ByWeight(files: seq<string>, w: ShardWeights): seq<string> {
    Sort(files, HeavierFirst(w))
  }

  function WeightsOf(files: seq<string>, w: ShardWeights): (p: seq<nat>)
    ensures |p| == |files|
    ensures forall i :: 0 <= i < |files| ==> p[i] == w.Of(files[i])
  {
    seq(|files|, i requires 0 <= i < |files| => w.Of(files[i]))
  }

  /** The `owner` map once the files of `order` were put on the shards of bins `a`. */
  function OwnerMap(order: seq<string>, a: seq<nat>): (r: map<string, nat>)
    requires |order| == |a|
  {
    if order == [] then map[]
    else
      var k := |order| - 1;
      OwnerMap(order[..k], a[..k])[order[k] := a[k] + 1]
  }

  lemma {:induction false} OwnerMapRange(order: seq<string>, a: seq<nat>, n: nat)
    requires |order| == |a| && forall i :: 0 <= i < |a| ==> a[i] < n
    ensures forall f :: f in OwnerMap(order, a) <==> f in order
    ensures forall f :: f in OwnerMap(order, a) ==> 1 <= OwnerMap(order, a)[f] <= n
  {
    if order != [] {
      assert order == order[..|a| - 1] + [order[|a| - 1]];
      OwnerMapRange(order[..|a| - 1], a[..|a| - 1], n);
    }
  }

  lemma {:induction false} OwnerMapAt(order: seq<string>, a: seq<nat>, i: nat)
    requires |order| == |a| && Distinct(order) && i < |order|
    ensures order[i] in OwnerMap(order, a) && OwnerMap(order, a)[order[i]] == a[i] + 1
  {
    var k := |order| - 1;
    if i < k {
      OwnerMapAt(order[..k], a[..k], i);
    }
  }

  lemma OwnerMapSnoc(order: seq<string>, file: string, a: seq<nat>, target: nat)
    requires |a| == |order|
    ensures OwnerMap(order + [file], a + [target]) == OwnerMap(order, a)[file := target + 1]
  {
    assert (order + [file])[..|a|] == order;
    assert (a + [target])[..|a|] == a;
  }

  /** The shard of every file of the manifest. */
  function Owners(files: seq<string>, n: nat, w: ShardWeights): (r: map<string, nat>)
    requires n >= 1
    ensures forall f :: f in r <==> f in files
    ensures forall f :: f in r ==> 1 <= r[f] <= n
  {
    var order := ByWeight(files, w);
    var a := Greedy(WeightsOf(order, w), n);
    SameMembers(files, order);
    OwnerMapRange(order, a, n);
    OwnersAfter(order, n, w)
  }

  /** files.filter((file) => owner.get(file) === shardIndex) */
  function Owned(files: seq<string>, owner: map<string, nat>, shardIndex: nat): (r: seq<string>)
    ensures forall f :: f in r <==> f in files && f in owner && owner[f] == shardIndex
  {
    if files == [] then []
    else
      var k := |files| - 1;
      var f := files[k];
      var rest := Owned(files[..k], owner, shardIndex);
      assert files == files[..k] + [f];
      if f in owner && owner[f] == shardIndex then rest + [f] else rest
  }

  /** What selectShardFiles returns for a valid request. */
  function ShardFiles(files: seq<string>, shardIndex: nat, n: nat, w: ShardWeights): seq<string>
    requires n >= 1
  {
    Owned(files, Owners(files, n, w), shardIndex)
  }

  /** The loads and owners once the loop has placed `order`. */
  function LoadsAfter(order: seq<string>, n: nat, w: ShardWeights): (r: seq<nat>)
    requires n >= 1
    ensures |r| == n
  {
    Loads(WeightsOf(order, w), Greedy(WeightsOf(order, w), n), n)
  }

  function OwnersAfter(order: seq<string>, n: nat, w: ShardWeights): map<string, nat>
    requires n >= 1
  {
    OwnerMap(order, Greedy(WeightsOf(order, w), n))
  }

  lemma PlaceNone(n: nat, w: ShardWeights)
    requires n >= 1
    ensures LoadsAfter([], n, w) == seq(n, _ => 0)
  {
  }

  lemma WeightsSnoc(order: seq<string>, file: string, w: ShardWeights)
    ensures WeightsOf(order + [file], w) == WeightsOf(order, w) + [w.Of(file)]
  {
  }

  lemma LoadsSnoc(order: seq<string>, file: string, n: nat, w: ShardWeights)
    requires n >= 1
    ensures LoadsAfter(order + [file], n, w)
         == AddLoad(LoadsAfter(order, n, w), LeastLoaded(LoadsAfter(order, n, w)), w.Of(file))
  {
    WeightsSnoc(order, file, w);
    GreedySnoc(WeightsOf(order, w), w.Of(file), n);
  }

  lemma OwnersSnoc(order: seq<string>, file: string, n: nat, w: ShardWeights)
    requires n >= 1
    ensures OwnersAfter(order + [file], n, w)
         == OwnersAfter(order, n, w)[file := LeastLoaded(LoadsAfter(order, n, w)) + 1]
  {
    WeightsSnoc(order, file, w);
    GreedySnoc(WeightsOf(order, w), w.Of(file), n);
    OwnerMapSnoc(order, file, Greedy(WeightsOf(order, w), n), LeastLoaded(LoadsAfter(order, n, w)));
  }

  /** One turn of the loop. */
  lemma PlaceNext(order: seq<string>, i: nat, n: nat, w: ShardWeights)
    requires n >= 1 && i < |order|
    ensures LoadsAfter(order[..i + 1], n, w)
         == AddLoad(LoadsAfter(order[..i], n, w), LeastLoaded(LoadsAfter(order[..i], n, w)), w.Of(order[i]))
    ensures OwnersAfter(order[..i + 1], n, w)
         == OwnersAfter(order[..i], n, w)[order[i] := LeastLoaded(LoadsAfter(order[..i], n, w)) + 1]
  {
    assert order[..i + 1] == order[..i] + [order[i]];
    LoadsSnoc(order[..i], order[i], n, w);
    OwnersSnoc(order[..i], order[i], n, w);
  }

  /** loads[target] += weight */
  method Raise(loads: array<nat>, target: nat, weight: nat)
    requires target < loads.Length
    modifies loads
    ensures loads[..] == AddLoad(old(loads[..]), target, weight)
  {
    loads[target] := loads[target] + weight;
  }

  /** One turn of the loop: the file goes to the first of the least loaded shards. */
  method PlaceFile(order: seq<string>, i: nat, n: nat, w: ShardWeights, loads: array<nat>, before: map<string, nat>)
    returns (owner: map<string, nat>)
    requires n >= 1 && i < |order|
    requires loads[..] == LoadsAfter(order[..i], n, w) && before == OwnersAfter(order[..i], n, w)
    modifies loads
    ensures loads[..] == LoadsAfter(order[..i + 1], n, w) && owner == OwnersAfter(order[..i + 1], n, w)
  {
    PlaceNext(order, i, n, w);
    var target := LeastLoaded(loads[..]);
    Raise(loads, target, w.Of(order[i]));
    owner := before[order[i] := target + 1];
  }

  /** The greedy loop over the files, heaviest first. */
  method PlaceFiles(byWeight: seq<string>, n: nat, w: ShardWeights) returns (owner: map<string, nat>)
    requires n >= 1
    ensures owner == OwnersAfter(byWeight, n, w)
  {
    var loads := new nat[n](_ => 0);
    owner := map[];
    PlaceNone(n, w);
    assert loads[..] == seq(n, _ => 0) && byWeight[..0] == [];
    for i := 0 to |byWeight|
      invariant loads[..] == LoadsAfter(byWeight[..i], n, w)
      invariant owner == OwnersAfter(byWeight[..i], n, w)
    {
      owner := PlaceFile(byWeight, i, n, w, loads, owner);
    }
    assert byWeight[..|byWeight|] == byWeight;
  }

  method SelectShardFiles(files: seq<string>, shardIndex: int, shardTotal: int, w: ShardWeights)
    returns (r: Result<seq<string>, AssignmentError>)
    ensures shardTotal < 1 ==> r == Err(InvalidShardTotal(shardTotal))
    ensures shardTotal >= 1 && !(1 <= shardIndex <= shardTotal)
        ==> r == Err(InvalidShardIndex(shardIndex, shardTotal))
    ensures shardTotal >= 1 && 1 <= shardIndex <= shardTotal
        ==> r == Ok(ShardFiles(files, shardIndex, shardTotal, w))
  {
    if shardTotal < 1 {
      return Err(InvalidShardTotal(shardTotal));
    }
    if shardIndex < 1 || shardIndex > shardTotal {
      return Err(InvalidShardIndex(shardIndex, shardTotal));
    }
    var owner := PlaceFiles(ByWeight(files, w), shardTotal, w);
    return Ok(Owned(files, owner, shardIndex));
  }

  // ----- sums over the files of a shard

  function Total<A>(files: seq<A>, value: A -> nat): nat {
    if files == [] then 0 else Total(files[..|files| - 1], value) + value(files[|files| - 1])
  }

  lemma {:induction false} TotalAppend<A>(a: seq<A>, b: seq<A>, value: A -> nat)
    ensures Total(a + b, value) == Total(a, value) + Total(b, value)
  {
    if b == [] {
      assert a + b == a;
    } else {
      var k := |b| - 1;
      TotalAppend(a, b[..k], value);
      assert (a + b)[..|a + b| - 1] == a + b[..k];
    }
  }

  lemma {:induction false} TotalInsert<A>(x: A, s: seq<A>, before: (A, A) -> bool, value: A -> nat)
    ensures Total(Insert(x, s, before), value) == Total(s, value) + value(x)
  {
    if s == [] || !before(s[0], x) {
      TotalAppend([x], s, value);
    } else {
      TotalInsert(x, s[1..], before, value);
      TotalAppend([s[0]], Insert(x, s[1..], before), value);
      TotalAppend([s[0]], s[1..], value);
      assert s == [s[0]] + s[1..];
    }
  }

  lemma {:induction false} TotalSort<A>(s: seq<A>, before: (A, A) -> bool, value: A -> nat)
    ensures Total(Sort(s, before), value) == Total(s, value)
  {
    if s != [] {
      TotalSort(s[1..], before, value);
      TotalInsert(s[0], Sort(s[1..], before), before, value);
      TotalAppend([s[0]], s[1..], value);
      assert s == [s[0]] + s[1..];
    }
  }

  /** `value` on the files of one shard, nothing elsewhere. */
  function Within(owner: map<string, nat>, shard: nat, value: string -> nat): string -> nat {
    f => if f in owner && owner[f] == shard then value(f) else 0
  }

  lemma {:induction false} TotalOwned(files: seq<string>, owner: map<string, nat>, shard: nat,
                                      value: string -> nat)
    ensures Total(Owned(files, owner, shard), value) == Total(files, Within(owner, shard, value))
  {
    if files != [] {
      var k := |files| - 1;
      TotalOwned(files[..k], owner, shard, value);
      var rest := Owned(files[..k], owner, shard);
      assert (rest + [files[k]])[..|rest|] == rest;
    }
  }

  /** The weight an owner map gives a shard is the load of its bin. */
  lemma {:induction false} LoadIsTotal(order: seq<string>, owner: map<string, nat>, a: seq<nat>,
                                       w: ShardWeights, shard: nat)
    requires shard >= 1 && |a| == |order|
    requires forall i :: 0 <= i < |order| ==> order[i] in owner && owner[order[i]] == a[i] + 1
    ensures LoadOn(WeightsOf(order, w), a, shard - 1) == Total(order, Within(owner, shard, f => w.Of(f)))
  {
    if order != [] {
      var k := |order| - 1;
      LoadIsTotal(order[..k], owner, a[..k], w, shard);
      assert WeightsOf(order[..k], w) == WeightsOf(order, w)[..k];
    }
  }

  function ShardLoad(files: seq<string>, owner: map<string, nat>, shard: nat, w: ShardWeights): nat {
    Total(Owned(files, owner, shard), f => w.Of(f))
  }

  lemma ShardLoadIsBinLoad(files: seq<string>, owner: map<string, nat>, a: seq<nat>,
                           w: ShardWeights, shard: nat)
    requires shard >= 1 && |a| == |ByWeight(files, w)|
    requires forall i :: 0 <= i < |a|
               ==> ByWeight(files, w)[i] in owner && owner[ByWeight(files, w)[i]] == a[i] + 1
    ensures ShardLoad(files, owner, shard, w) == LoadOn(WeightsOf(ByWeight(files, w), w), a, shard - 1)
  {
    var value := f => w.Of(f);
    TotalOwned(files, owner, shard, value);
    TotalSort(files, HeavierFirst(w), Within(owner, shard, value));
    LoadIsTotal(ByWeight(files, w), owner, a, w, shard);
  }

  lemma GreedyLoad(files: seq<string>, n: nat, w: ShardWeights, shard: nat)
    requires n >= 1 && Distinct(files) && 1 <= shard <= n
    ensures var p := WeightsOf(ByWeight(files, w), w);
            ShardLoad(files, Owners(files, n, w), shard, w) == LoadOn(p, Greedy(p, n), shard - 1)
  {
    var order := ByWeight(files, w);
    var p := WeightsOf(order, w);
    PermutationDistinct(files, order);
    forall i | 0 <= i < |order|
      ensures order[i] in Owners(files, n, w)
      ensures Owners(files, n, w)[order[i]] == Greedy(p, n)[i] + 1
    {
      OwnerMapAt(order, Greedy(p, n), i);
    }
    ShardLoadIsBinLoad(files, Owners(files, n, w), Greedy(p, n), w, shard);
  }

  // ----- the main results

  /** `alt` is some other way of sending every file to one of the shards 1 to n. */
  predicate Assignment(alt: map<string, nat>, files: seq<string>, n: nat) {
    forall f :: f in files ==> f in alt && 1 <= alt[f] <= n
  }

  /**
   The balance the greedy rule guarantees: if any assignment at all keeps every shard within
   `opt` seconds, each greedy shard needs at most (4n - 1) / 3n of that.
   */
  lemma GrahamBound(files: seq<string>, n: nat, w: ShardWeights, alt: map<string, nat>, opt: nat, shard: nat)
    requires n >= 1 && Distinct(files) && Assignment(alt, files, n)
    requires forall s :: 1 <= s <= n ==> ShardLoad(files, alt, s, w) <= opt
    requires 1 <= shard <= n
    ensures 3 * n * Total(ShardFiles(files, shard, n, w), f => w.Of(f)) <= (4 * n - 1) * opt
  {
    var order := ByWeight(files, w);
    var p := WeightsOf(order, w);
    HeaviestComeFirst(files, w);
    var a := BinsOf(files, n, w, alt, opt);
    GreedyWithinGraham(p, a, n, opt);
    assert 3 * n * LoadOn(p, Greedy(p, n), shard - 1) <= (4 * n - 1) * opt;
    GreedyLoad(files, n, w, shard);
  }

  lemma HeaviestComeFirst(files: seq<string>, w: ShardWeights)
    ensures NonIncreasing(WeightsOf(ByWeight(files, w), w))
  {
    HeavierFirstTotal(w);
    SortSorted(files, HeavierFirst(w));
  }

  /** Any other assignment, as bins for the files in the order the loop takes them. */
  lemma BinsOf(files: seq<string>, n: nat, w: ShardWeights, alt: map<string, nat>, opt: nat)
    returns (a: seq<nat>)
    requires n >= 1 && Distinct(files) && Assignment(alt, files, n)
    requires forall s :: 1 <= s <= n ==> ShardLoad(files, alt, s, w) <= opt
    ensures Fits(WeightsOf(ByWeight(files, w), w), a, n, opt)
  {
    SameMembers(files, ByWeight(files, w));
    a := BinNumbers(ByWeight(files, w), n, alt);
    BinsFit(files, n, w, alt, opt, a);
  }

  lemma BinsFit(files: seq<string>, n: nat, w: ShardWeights, alt: map<string, nat>, opt: nat, a: seq<nat>)
    requires |a| == |ByWeight(files, w)|
    requires forall i :: 0 <= i < |a|
               ==> a[i] < n && ByWeight(files, w)[i] in alt && alt[ByWeight(files, w)[i]] == a[i] + 1
    requires forall s :: 1 <= s <= n ==> ShardLoad(files, alt, s, w) <= opt
    ensures Fits(WeightsOf(ByWeight(files, w), w), a, n, opt)
  {
    forall j | 0 <= j < n
      ensures LoadOn(WeightsOf(ByWeight(files, w), w), a, j) <= opt
    {
      ShardLoadIsBinLoad(files, alt, a, w, j + 1);
      assert ShardLoad(files, alt, j + 1, w) <= opt;
    }
  }

  function BinNumbers(order: seq<string>, n: nat, alt: map<string, nat>): (a: seq<nat>)
    requires Assignment(alt, order, n)
    ensures |a| == |order|
    ensures forall i :: 0 <= i < |a| ==> order[i] in alt && a[i] < n && alt[order[i]] == a[i] + 1
  {
    seq(|order|, i requires 0 <= i < |order| => assert order[i] in order; alt[order[i]] - 1)
  }

  lemma WeightsBounded(files: seq<string>, w: ShardWeights, largest: nat)
    requires forall f :: f in files ==> w.Of(f) <= largest
    ensures var p := WeightsOf(ByWeight(files, w), w);
            forall i :: 0 <= i < |p| ==> p[i] <= largest
  {
    var order := ByWeight(files, w);
    SameMembers(files, order);
    forall i | 0 <= i < |order|
      ensures WeightsOf(order, w)[i] <= largest
    {
      assert order[i] in order;
    }
  }

  lemma {:induction false} SumOfWeights(order: seq<string>, w: ShardWeights)
    ensures Sum(WeightsOf(order, w)) == Total(order, f => w.Of(f))
  {
    if order != [] {
      var k := |order| - 1;
      SumOfWeights(order[..k], w);
      assert WeightsOf(order[..k], w) == WeightsOf(order, w)[..k];
    }
  }

  /** No two shards are further apart than the heaviest file. */
  lemma ShardsBalanced(files: seq<string>, n: nat, w: ShardWeights, largest: nat, s: nat, t: nat)
    requires n >= 1 && Distinct(files) && 1 <= s <= n && 1 <= t <= n
    requires forall f :: f in files ==> w.Of(f) <= largest
    ensures ShardLoad(files, Owners(files, n, w), s, w)
         <= ShardLoad(files, Owners(files, n, w), t, w) + largest
  {
    WeightsBounded(files, w, largest);
    LoadSpread(WeightsOf(ByWeight(files, w), w), n, largest);
    GreedyLoad(files, n, w, s);
    GreedyLoad(files, n, w, t);
  }

  lemma TotalWeight(files: seq<string>, w: ShardWeights)
    ensures Sum(WeightsOf(ByWeight(files, w), w)) == Total(files, f => w.Of(f))
  {
    var value := f => w.Of(f);
    SumOfWeights(ByWeight(files, w), w);
    TotalSort(files, HeavierFirst(w), value);
    TotalAgree(files, value, f => w.Of(f));
    TotalAgree(ByWeight(files, w), value, f => w.Of(f));
  }

  /** No shard is further above the average than its share of the heaviest file. */
  lemma ShardsNearAverage(files: seq<string>, n: nat, w: ShardWeights, largest: nat, s: nat)
    requires n >= 1 && Distinct(files) && 1 <= s <= n
    requires forall f :: f in files ==> w.Of(f) <= largest
    ensures n * ShardLoad(files, Owners(files, n, w), s, w) <= Total(files, f => w.Of(f)) + (n - 1) * largest
  {
    WeightsBounded(files, w, largest);
    AverageBound(WeightsOf(ByWeight(files, w), w), n, largest, s - 1);
    GreedyLoad(files, n, w, s);
    TotalWeight(files, w);
  }

  /** Listing the manifest in another order moves no file to another shard. */
  lemma OwnersIgnoreOrder(a: seq<string>, b: seq<string>, n: nat, w: ShardWeights)
    requires n >= 1 && multiset(a) == multiset(b)
    ensures Owners(a, n, w) == Owners(b, n, w)
  {
    HeavierFirstTotal(w);
    SortDependsOnElements(a, b, HeavierFirst(w));
  }

  /** `sub` lists some of the elements of `s`, in the order `s` has them. */
  ghost predicate Subsequence<A>(sub: seq<A>, s: seq<A>) {
    if sub == [] then true
    else if s == [] then false
    else
      var k, m := |sub| - 1, |s| - 1;
      (sub[k] == s[m] && Subsequence(sub[..k], s[..m])) || Subsequence(sub, s[..m])
  }

  /** Where an element of a subsequence comes from, in front of `upto`. */
  lemma {:induction false} SubsequenceAt<A>(sub: seq<A>, s: seq<A>, i: nat, j: nat) returns (p: nat, q: nat)
    requires Subsequence(sub, s) && i < j < |sub|
    ensures p < q < |s| && s[p] == sub[i] && s[q] == sub[j]
  {
    var k, m := |sub| - 1, |s| - 1;
    if sub[k] == s[m] && Subsequence(sub[..k], s[..m]) {
      if j < k {
        p, q := SubsequenceAt(sub[..k], s[..m], i, j);
      } else {
        p := SubsequenceMember(sub[..k], s[..m], i);
        q := m;
      }
    } else {
      p, q := SubsequenceAt(sub, s[..m], i, j);
    }
  }

  lemma {:induction false} SubsequenceMember<A>(sub: seq<A>, s: seq<A>, i: nat) returns (p: nat)
    requires Subsequence(sub, s) && i < |sub|
    ensures p < |s| && s[p] == sub[i]
  {
    var k, m := |sub| - 1, |s| - 1;
    if sub[k] == s[m] && Subsequence(sub[..k], s[..m]) {
      if i < k {
        p := SubsequenceMember(sub[..k], s[..m], i);
      } else {
        p := m;
      }
    } else {
      p := SubsequenceMember(sub, s[..m], i);
    }
  }

  /** A shard runs its files in manifest order. */
  lemma {:induction false} OwnedKeepsOrder(files: seq<string>, owner: map<string, nat>, shard: nat)
    ensures Subsequence(Owned(files, owner, shard), files)
  {
    if files != [] {
      var k := |files| - 1;
      OwnedKeepsOrder(files[..k], owner, shard);
      var rest := Owned(files[..k], owner, shard);
      assert (rest + [files[k]])[..|rest|] == rest;
    }
  }

  lemma {:induction false} OwnedDistinct(files: seq<string>, owner: map<string, nat>, shard: nat)
    requires Distinct(files)
    ensures Distinct(Owned(files, owner, shard))
  {
    if files != [] {
      var k := |files| - 1;
      OwnedDistinct(files[..k], owner, shard);
      var rest := Owned(files[..k], owner, shard);
      assert files[k] !in rest;
    }
  }

  /** The lists of shards 1 to n, one after another. */
  function AllShards(files: seq<string>, owner: map<string, nat>, n: nat): seq<string> {
    if n == 0 then [] else AllShards(files, owner, n - 1) + Owned(files, owner, n)
  }

  /** `value` on the files of the first `n` shards. */
  function UpTo(owner: map<string, nat>, n: nat, value: string -> nat): string -> nat {
    f => if f in owner && 1 <= owner[f] <= n then value(f) else 0
  }

  lemma {:induction false} TotalSplit(files: seq<string>, owner: map<string, nat>, n: nat, value: string -> nat)
    requires n >= 1
    ensures Total(files, UpTo(owner, n, value))
         == Total(files, UpTo(owner, n - 1, value)) + Total(files, Within(owner, n, value))
  {
    if files != [] {
      TotalSplit(files[..|files| - 1], owner, n, value);
    }
  }

  lemma {:induction false} TotalZero(files: seq<string>, owner: map<string, nat>, value: string -> nat)
    ensures Total(files, UpTo(owner, 0, value)) == 0
  {
    if files != [] {
      TotalZero(files[..|files| - 1], owner, value);
    }
  }

  lemma {:induction false} TotalUpTo(files: seq<string>, owner: map<string, nat>, n: nat, value: string -> nat)
    ensures Total(AllShards(files, owner, n), value) == Total(files, UpTo(owner, n, value))
  {
    if n == 0 {
      TotalZero(files, owner, value);
    } else {
      TotalUpTo(files, owner, n - 1, value);
      TotalAppend(AllShards(files, owner, n - 1), Owned(files, owner, n), value);
      TotalOwned(files, owner, n, value);
      TotalSplit(files, owner, n, value);
    }
  }

  lemma {:induction false} TotalAgree<A>(files: seq<A>, f: A -> nat, g: A -> nat)
    requires forall x :: x in files ==> f(x) == g(x)
    ensures Total(files, f) == Total(files, g)
  {
    if files != [] {
      TotalAgree(files[..|files| - 1], f, g);
      assert files[|files| - 1] in files;
    }
  }

  /** Conservation: any per-file quantity adds up over the shards to its sum over the manifest. */
  lemma ShardsConserveTotals(files: seq<string>, n: nat, w: ShardWeights, value: string -> nat)
    requires n >= 1
    ensures Total(AllShards(files, Owners(files, n, w), n), value) == Total(files, value)
  {
    var owner := Owners(files, n, w);
    TotalUpTo(files, owner, n, value);
    TotalAgree(files, UpTo(owner, n, value), value);
  }

  lemma {:induction false} AllShardsMembers(files: seq<string>, owner: map<string, nat>, n: nat, f: string)
    ensures f in AllShards(files, owner, n) <==> f in files && f in owner && 1 <= owner[f] <= n
  {
    if n > 0 {
      AllShardsMembers(files, owner, n - 1, f);
    }
  }

  lemma {:induction false} MultiplicityIsTotal(s: seq<string>, x: string)
    ensures multiset(s)[x] == Total(s, y => if y == x then 1 else 0)
  {
    if s != [] {
      var k := |s| - 1;
      MultiplicityIsTotal(s[..k], x);
      assert s == s[..k] + [s[k]];
      TotalAgree(s[..k], y => if y == x then 1 else 0, y => if y == x then 1 else 0);
    }
  }

  /** The shards partition the manifest: together they list every file, exactly as often. */
  lemma ShardsPartition(files: seq<string>, n: nat, w: ShardWeights)
    requires n >= 1
    ensures multiset(AllShards(files, Owners(files, n, w), n)) == multiset(files)
  {
    var all := AllShards(files, Owners(files, n, w), n);
    forall x
      ensures multiset(all)[x] == multiset(files)[x]
    {
      var isX := y => if y == x then 1 else 0;
      MultiplicityIsTotal(all, x);
      MultiplicityIsTotal(files, x);
      TotalAgree(all, y => if y == x then 1 else 0, isX);
      TotalAgree(files, y => if y == x then 1 else 0, isX);
      ShardsConserveTotals(files, n, w, isX);
    }
  }

  lemma {:induction false} TotalPositive(s: seq<string>, value: string -> nat)
    requires forall f :: f in s ==> value(f) > 0
    ensures Total(s, value) > 0 <==> s != []
  {
    if s != [] {
      assert s[|s| - 1] in s;
    }
  }

  /** With positive weights exactly the shards 1 to min(n, |files|) get a file. */
  lemma NonEmptyShards(files: seq<string>, n: nat, w: ShardWeights, shard: nat)
    requires n >= 1 && Distinct(files) && w.Positive() && 1 <= shard <= n
    ensures ShardFiles(files, shard, n, w) != [] <==> shard <= |files|
  {
    var p := WeightsOf(ByWeight(files, w), w);
    BinsOpenInOrder(p, n);
    GreedyLoad(files, n, w, shard);
    TotalPositive(ShardFiles(files, shard, n, w), f => w.Of(f));
  }

  /** Every path comes before those behind it, unit by unit. */
  ghost predicate InPathOrder(files: seq<string>) {
    forall i, j :: 0 <= i < j < |files| ==> UnitsBefore(Units(files[i]), Units(files[j]))
  }

  lemma BeforeMeansNotBehind(a: string, b: string)
    requires TextBefore(a, b)
    ensures a != b && !TextBefore(b, a)
  {
    TextBeforeConnected(a, a);
    if TextBefore(b, a) {
      TextBeforeTransitive(a, b, a);
    }
  }

  lemma PathOrderMeaning(files: seq<string>)
    requires InPathOrder(files)
    ensures Distinct(files) && SortedBy(files, TextBefore)
  {
    forall i, j | 0 <= i < j < |files|
      ensures files[i] != files[j] && !TextBefore(files[j], files[i])
    {
      TextBeforeByUnits(files[i], files[j]);
      BeforeMeansNotBehind(files[i], files[j]);
    }
  }

  /** The order in which files are placed: by weight, and files of the same weight by path. */
  lemma PlacedHeaviestFirst(files: seq<string>, w: ShardWeights, i: nat, j: nat)
    requires Distinct(files) && i < j < |ByWeight(files, w)|
    ensures var first, second := ByWeight(files, w)[i], ByWeight(files, w)[j];
            w.Of(first) > w.Of(second) || (w.Of(first) == w.Of(second) && UnitsBefore(Units(first), Units(second)))
  {
    var order := ByWeight(files, w);
    HeavierFirstTotal(w);
    SortSorted(files, HeavierFirst(w));
    PermutationDistinct(files, order);
    assert !HeavierFirst(w)(order[j], order[i]) && order[i] != order[j];
    TextBeforeByUnits(order[i], order[j]);
  }

  /** On a sorted manifest with equal weights the assignment is exactly round-robin. */
  lemma RoundRobin(files: seq<string>, n: nat, w: ShardWeights, c: nat, i: nat)
    requires n >= 1 && c > 0 && InPathOrder(files)
    requires forall f :: f in files ==> w.Of(f) == c
    requires i < |files|
    ensures files[i] in Owners(files, n, w) && Owners(files, n, w)[files[i]] == i % n + 1
  {
    HeavierFirstTotal(w);
    PathOrderMeaning(files);
    forall k, m | 0 <= k < m < |files|
      ensures !HeavierFirst(w)(files[m], files[k])
    {
      assert files[k] in files && files[m] in files;
    }
    SortFixesSorted(files, HeavierFirst(w));
    var p := WeightsOf(files, w);
    forall k | 0 <= k < |p|
      ensures p[k] == c
    {
      assert files[k] in files;
    }
    OwnerMapAt(files, Greedy(p, n), i);
    EqualWeightsRoundRobin(p, n, c);
  }
}
