/** The distributed run against the serial run: both accept the same, with the same totals. */
module ShardRefinement {
  // Any evidence the aggregator accepts, wherever it came from, replays as an accepted serial run.

  import opened Results
  import opened Sorting
  import opened ShardAssignment
  import opened SerialRun
  import opened ShardRun
  import opened ShardAggregate

  /** The aggregator on the same checkout: same manifest, weights, parser and allowlist. */
  ghost predicate SameSetup(q: Request, suite: Suite) {
    && q.parse == suite.parse && q.skips == suite.skips && MapLike(q.skips)
    && q.digest(q.manifest) != ""
    && forall f :: suite.parse("", f).None?
  }

  /** What the shards' runs bring along: how long each took, and whether its repository stayed as it was. */
  datatype Runs = Runs(ms: nat -> nat, kept: nat -> bool)

  ghost predicate Ordinals(order: seq<nat>, n: nat) {
    && (forall k :: 0 <= k < |order| ==> 1 <= order[k] <= n)
    && forall j, k :: 0 <= j < k < |order| ==> order[j] != order[k]
  }

  /** Evidence shard i may have written: the full receipt if its files pass, or some failed one. */
  ghost predicate WrittenBy(q: Request, suite: Suite, i: nat, runs: Runs, e: ShardEvidence)
    requires q.n >= 1
  {
    if ShardPasses(q.manifest, i, q.n, q.w, suite)
    then e == WrittenEvidence(q.manifest, i, q.n, q.w, suite, q.digest, runs.ms(i), runs.kept(i))
    else e.receipt.status == Failed
  }

  /** What the shards left behind, in any order: passing shards write, failing ones may not. */
  ghost predicate Collected(q: Request, suite: Suite, runs: Runs, order: seq<nat>, evidence: seq<ShardEvidence>) {
    && q.n >= 1 && Ordinals(order, q.n) && |evidence| == |order|
    && (forall k :: 0 <= k < |order| ==> WrittenBy(q, suite, order[k], runs, evidence[k]))
    && forall i :: 1 <= i <= q.n && ShardPasses(q.manifest, i, q.n, q.w, suite) ==> i in order
  }

  /** No shard's repository changed under its run. */
  ghost predicate AllKept(q: Request, runs: Runs) {
    forall i: nat :: 1 <= i <= q.n ==> runs.kept(i)
  }

  // ----- which evidence of files that pass is accepted

  lemma RanEntriesAccepted(q: Request, suite: Suite, i: nat, ms: nat, ran: seq<string>)
    requires SameSetup(q, suite) && forall f :: f in ran ==> suite.Passes(f)
    ensures var e := EvidenceOf(q.manifest, i, q.n, suite, q.digest, ms, ran);
            forall p :: 0 <= p < |e.receipt.files| ==> EntryAccepted(e, p, q.parse, q.skips)
    requires q.n >= 1
  {
    var e := EvidenceOf(q.manifest, i, q.n, suite, q.digest, ms, ran);
    forall p | 0 <= p < |e.receipt.files|
      ensures EntryAccepted(e, p, q.parse, q.skips)
    {
      assert ran[p] in ran;
      ReportAt(suite, ran, p);
    }
  }

  lemma RanReportsReferenced(q: Request, suite: Suite, i: nat, ms: nat, ran: seq<string>)
    requires q.n >= 1
    ensures NoStrayReports(EvidenceOf(q.manifest, i, q.n, suite, q.digest, ms, ran))
  {
    var e := EvidenceOf(q.manifest, i, q.n, suite, q.digest, ms, ran);
    forall name | name in e.junit
      ensures exists p :: 0 <= p < |e.receipt.files| && e.receipt.files[p].junitFile == name
    {
      ReportsNames(suite, ran, name);
      var p :| 0 <= p < |ran| && JunitFileName(p) == name;
      assert e.receipt.files[p].junitFile == name;
    }
  }

  lemma RanTotals(q: Request, suite: Suite, i: nat, ms: nat, ran: seq<string>)
    requires q.n >= 1
    ensures TotalsMatch(ReceiptOf(q.manifest, i, q.n, suite, q.digest, ms, ran))
  {
    var entries := Entries(suite, ran);
    TotalEntries(entries, ran, (entry: ShardFileSummary) => entry.skipped, suite.Skipped());
    TotalEntries(entries, ran, (entry: ShardFileSummary) => entry.tests, suite.Tests());
    TotalEntries(entries, ran, (entry: ShardFileSummary) => entry.assertions, suite.Assertions());
  }

  lemma SameFilesSameCount(actual: seq<string>, expected: seq<string>)
    requires FileListAccepted(actual, expected) && Distinct(expected)
    ensures |actual| == |expected|
  {
    SameMembersSameMultiset(actual, expected);
    assert |multiset(actual)| == |multiset(expected)|;
  }

  /** Of files that all pass, a shard may have run any list that the file list check lets through, and no other. */
  lemma RanEvidenceAccepted(q: Request, suite: Suite, i: nat, ms: nat, ran: seq<string>)
    requires SameSetup(q, suite) && q.n >= 1 && Distinct(q.manifest) && forall f :: f in ran ==> suite.Passes(f)
    ensures ShardAccepted(q, EvidenceOf(q.manifest, i, q.n, suite, q.digest, ms, ran))
       <==> FileListAccepted(ran, ShardFiles(q.manifest, i, q.n, q.w))
  {
    var e := EvidenceOf(q.manifest, i, q.n, suite, q.digest, ms, ran);
    var expected := ShardFiles(q.manifest, i, q.n, q.w);
    assert FilesOf(e.receipt) == ran;
    OwnedDistinct(q.manifest, Owners(q.manifest, q.n, q.w), i);
    if FileListAccepted(ran, expected) {
      SameFilesSameCount(ran, expected);
    }
    RanEntriesAccepted(q, suite, i, ms, ran);
    RanReportsReferenced(q, suite, i, ms, ran);
    RanTotals(q, suite, i, ms, ran);
  }

  lemma RanHeaderAccepted(q: Request, suite: Suite, i: nat, ms: nat, ran: seq<string>)
    requires SameSetup(q, suite) && 1 <= i <= q.n && "" !in ran
    ensures HeaderAccepted(q.n, EvidenceOf(q.manifest, i, q.n, suite, q.digest, ms, ran))
  {
    var e := EvidenceOf(q.manifest, i, q.n, suite, q.digest, ms, ran);
    forall p | 0 <= p < |e.receipt.files|
      ensures e.receipt.files[p].file != "" && e.receipt.files[p].junitFile != ""
    {
      assert ran[p] in ran;
    }
  }

  /** A shard's own files, in its own order, are accepted. */
  lemma PassedEvidenceAccepted(q: Request, suite: Suite, i: nat, ms: nat)
    requires SameSetup(q, suite) && ShardPasses(q.manifest, i, q.n, q.w, suite)
    requires Distinct(q.manifest) && "" !in q.manifest
    ensures HeaderAccepted(q.n, PassedEvidence(q.manifest, i, q.n, q.w, suite, q.digest, ms))
    ensures ShardAccepted(q, PassedEvidence(q.manifest, i, q.n, q.w, suite, q.digest, ms))
  {
    var ran := ShardFiles(q.manifest, i, q.n, q.w);
    OwnedDistinct(q.manifest, Owners(q.manifest, q.n, q.w), i);
    RanHeaderAccepted(q, suite, i, ms, ran);
    RanEvidenceAccepted(q, suite, i, ms, ran);
  }

  // ----- all shards pass exactly when the serial run passes

  lemma SerialImpliesShards(manifest: seq<string>, n: nat, w: ShardWeights, suite: Suite, i: nat)
    requires SerialAccepts(manifest, suite) && Distinct(manifest) && w.Positive() && 1 <= i <= n <= |manifest|
    ensures ShardPasses(manifest, i, n, w, suite)
  {
    NonEmptyShards(manifest, n, w, i);
  }

  lemma ShardsImplySerial(manifest: seq<string>, n: nat, w: ShardWeights, suite: Suite)
    requires n >= 1 && w.Positive() && Distinct(manifest) && MapLike(suite.skips)
    requires forall i :: 1 <= i <= n ==> ShardPasses(manifest, i, n, w, suite)
    ensures SerialAccepts(manifest, suite) && n <= |manifest|
  {
    assert ShardPasses(manifest, 1, n, w, suite);
    assert ShardPasses(manifest, n, n, w, suite);
    NonEmptyShards(manifest, n, w, n);
    forall f | f in manifest
      ensures suite.Passes(f)
    {
      var i := Owners(manifest, n, w)[f];
      assert ShardPasses(manifest, i, n, w, suite);
      assert f in ShardFiles(manifest, i, n, w);
    }
    DistinctAccepted(manifest, suite);
  }

  lemma {:induction false} OrdinalsCover(order: seq<nat>, n: nat)
    requires Ordinals(order, n) && |order| == n
    ensures forall i :: 1 <= i <= n ==> i in order
  {
    var members := set k | 0 <= k < |order| :: order[k];
    OrdinalsSize(order, n);
    EqualBySize(members, UpToSet(n));
    forall i | 1 <= i <= n
      ensures i in order
    {
      assert i in UpToSet(n);
    }
  }

  lemma {:induction false} OrdinalsSize(order: seq<nat>, n: nat)
    requires Ordinals(order, n)
    ensures |set k | 0 <= k < |order| :: order[k]| == |order|
  {
    if order != [] {
      var m := |order| - 1;
      OrdinalsSize(order[..m], n);
      var front := set k | 0 <= k < m :: order[..m][k];
      assert (set k | 0 <= k < |order| :: order[k]) == front + {order[m]} by {
        forall k | 0 <= k < |order|
          ensures k < m ==> order[k] in front
        {
          if k < m {
            assert order[..m][k] == order[k];
          }
        }
      }
      assert order[m] !in front;
    }
  }

  lemma OrdinalsFull(order: seq<nat>, n: nat)
    requires Ordinals(order, n) && forall i :: 1 <= i <= n ==> i in order
    ensures |order| == n
  {
    var members := set k | 0 <= k < |order| :: order[k];
    OrdinalsSize(order, n);
    forall x
      ensures x in members <==> x in UpToSet(n)
    {
      if x in UpToSet(n) {
        assert x in order;
      }
    }
    assert members == UpToSet(n);
  }

  // ----- the main equivalence

  lemma AllPassAccepted(q: Request, suite: Suite, runs: Runs, order: seq<nat>, evidence: seq<ShardEvidence>)
    requires SameSetup(q, suite) && q.w.Positive() && Collected(q, suite, runs, order, evidence) && AllKept(q, runs)
    requires SerialAccepts(q.manifest, suite) && q.n <= |q.manifest| && Distinct(q.manifest) && "" !in q.manifest
    ensures AggregateAccepts(q, evidence)
  {
    forall i | 1 <= i <= q.n
      ensures ShardPasses(q.manifest, i, q.n, q.w, suite) && i in order
    {
      SerialImpliesShards(q.manifest, q.n, q.w, suite, i);
    }
    OrdinalsFull(order, q.n);
    forall k | 0 <= k < |order|
      ensures HeaderAccepted(q.n, evidence[k]) && ShardAccepted(q, evidence[k])
      ensures evidence[k].receipt.shardIndex == order[k]
    {
      assert WrittenBy(q, suite, order[k], runs, evidence[k]);
      PassedEvidenceAccepted(q, suite, order[k], runs.ms(order[k]));
    }
  }

  lemma AcceptedIndexPasses(q: Request, suite: Suite, runs: Runs, order: seq<nat>,
                            evidence: seq<ShardEvidence>, i: nat)
    requires Collected(q, suite, runs, order, evidence) && HeadersAccepted(q.n, evidence)
    requires 1 <= i <= q.n
    ensures ShardPasses(q.manifest, i, q.n, q.w, suite) && runs.kept(i)
  {
    OrdinalsCover(order, q.n);
    assert i in order;
    var k :| 0 <= k < |order| && order[k] == i;
    assert WrittenBy(q, suite, order[k], runs, evidence[k]);
    assert evidence[k] in evidence && evidence[k].receipt.status == Passed;
  }

  lemma ParsedPathsNonEmpty(receipt: ShardReceipt)
    requires ReceiptParses(receipt)
    ensures "" !in FilesOf(receipt)
  {
  }

  /** Receipts with an empty path do not parse, so an accepted manifest has none. */
  lemma AcceptedHasNoEmptyPath(q: Request, evidence: seq<ShardEvidence>)
    requires AggregateAccepts(q, evidence)
    ensures "" !in q.manifest
  {
    AcceptedCoversManifest(q, evidence);
    SameMembers(Concat(evidence), q.manifest);
    forall e | e in evidence
      ensures "" !in FilesOf(e.receipt)
    {
      assert HeaderAccepted(q.n, e);
      ParsedPathsNonEmpty(e.receipt);
    }
    if "" in Concat(evidence) {
      ListedSomewhere(evidence, "");
    }
  }

  lemma AcceptedAllPass(q: Request, suite: Suite, runs: Runs, order: seq<nat>, evidence: seq<ShardEvidence>)
    requires q.w.Positive() && Collected(q, suite, runs, order, evidence) && MapLike(suite.skips)
    requires HeadersAccepted(q.n, evidence) && Distinct(q.manifest)
    ensures SerialAccepts(q.manifest, suite) && q.n <= |q.manifest| && AllKept(q, runs)
  {
    forall i | 1 <= i <= q.n
      ensures ShardPasses(q.manifest, i, q.n, q.w, suite) && runs.kept(i)
    {
      AcceptedIndexPasses(q, suite, runs, order, evidence, i);
    }
    ShardsImplySerial(q.manifest, q.n, q.w, suite);
  }

  /**
   The distributed run refines the serial one: the evidence of the shards, collected in any
   order, is accepted exactly when the serial runner accepts, no shard is left without files, no
   path is empty and no repository changed under its shard.
   */
  lemma ShardedRefinesSerial(q: Request, suite: Suite, runs: Runs, order: seq<nat>, evidence: seq<ShardEvidence>)
    requires SameSetup(q, suite) && q.w.Positive() && Collected(q, suite, runs, order, evidence)
    ensures AggregateAccepts(q, evidence)
       <==> SerialAccepts(q.manifest, suite) && q.n <= |q.manifest| && "" !in q.manifest && AllKept(q, runs)
  {
    if SerialAccepts(q.manifest, suite) && q.n <= |q.manifest| && "" !in q.manifest && AllKept(q, runs) {
      RefusedWithoutEmptyPaths(q.manifest);
      AllPassAccepted(q, suite, runs, order, evidence);
    }
    if AggregateAccepts(q, evidence) {
      AcceptedAllPass(q, suite, runs, order, evidence);
      AcceptedHasNoEmptyPath(q, evidence);
    }
  }

  lemma {:induction false} TotalOnes<A>(s: seq<A>)
    ensures Total(s, _ => 1) == |s|
  {
    if s != [] {
      TotalOnes(s[..|s| - 1]);
    }
  }

  lemma AcceptedWasWritten(q: Request, suite: Suite, runs: Runs, order: seq<nat>, evidence: seq<ShardEvidence>, e: ShardEvidence)
    returns (i: nat)
    requires Collected(q, suite, runs, order, evidence) && HeadersAccepted(q.n, evidence) && e in evidence
    ensures e.receipt == ReceiptOf(q.manifest, i, q.n, suite, q.digest, runs.ms(i), ShardFiles(q.manifest, i, q.n, q.w))
  {
    var k :| 0 <= k < |evidence| && evidence[k] == e;
    i := order[k];
    assert WrittenBy(q, suite, i, runs, e) && HeaderAccepted(q.n, e);
  }

  function One(): string -> nat { _ => 1 }

  /** What the columns of a full receipt add up to. */
  ghost predicate ColumnsAddUp(receipt: ShardReceipt, suite: Suite) {
    && receipt.tests == Total(FilesOf(receipt), suite.Tests())
    && receipt.assertions == Total(FilesOf(receipt), suite.Assertions())
    && receipt.skipped == Total(FilesOf(receipt), suite.Skipped())
    && receipt.executed == receipt.passed == Total(FilesOf(receipt), One())
  }

  lemma FullColumns(manifest: seq<string>, i: nat, n: nat, suite: Suite, digest: Digest, ms: nat, ran: seq<string>)
    ensures ColumnsAddUp(ReceiptOf(manifest, i, n, suite, digest, ms, ran), suite)
  {
    assert FilesOf(ReceiptOf(manifest, i, n, suite, digest, ms, ran)) == ran;
    TotalOnes(ran);
    TotalAgree(ran, One(), _ => 1);
  }

  lemma AcceptedColumns(q: Request, suite: Suite, runs: Runs, order: seq<nat>, evidence: seq<ShardEvidence>)
    requires Collected(q, suite, runs, order, evidence) && HeadersAccepted(q.n, evidence)
    ensures forall e :: e in evidence ==> ColumnsAddUp(e.receipt, suite)
  {
    forall e | e in evidence
      ensures ColumnsAddUp(e.receipt, suite)
    {
      var i := AcceptedWasWritten(q, suite, runs, order, evidence, e);
      FullColumns(q.manifest, i, q.n, suite, q.digest, runs.ms(i), ShardFiles(q.manifest, i, q.n, q.w));
    }
  }

  /** The totals of an accepted distributed run are those of the serial receipt, column by column. */
  lemma ShardedTotalsAgree(q: Request, suite: Suite, runs: Runs, order: seq<nat>, evidence: seq<ShardEvidence>)
    requires SameSetup(q, suite) && q.w.Positive() && Collected(q, suite, runs, order, evidence)
    requires AggregateAccepts(q, evidence)
    ensures Total(evidence, (e: ShardEvidence) => e.receipt.tests) == FullReceipt(q.manifest, suite).tests
    ensures Total(evidence, (e: ShardEvidence) => e.receipt.assertions) == FullReceipt(q.manifest, suite).assertions
    ensures Total(evidence, (e: ShardEvidence) => e.receipt.skipped) == FullReceipt(q.manifest, suite).skipped
    ensures Total(evidence, (e: ShardEvidence) => e.receipt.executed) == FullReceipt(q.manifest, suite).executed
    ensures Total(evidence, (e: ShardEvidence) => e.receipt.passed) == FullReceipt(q.manifest, suite).passed
  {
    AcceptedColumns(q, suite, runs, order, evidence);
    TotalOnes(q.manifest);
    TotalAgree(q.manifest, One(), _ => 1);
    ColumnTotal(q, evidence, (e: ShardEvidence) => e.receipt.tests, suite.Tests());
    ColumnTotal(q, evidence, (e: ShardEvidence) => e.receipt.assertions, suite.Assertions());
    ColumnTotal(q, evidence, (e: ShardEvidence) => e.receipt.skipped, suite.Skipped());
    ColumnTotal(q, evidence, (e: ShardEvidence) => e.receipt.executed, One());
    ColumnTotal(q, evidence, (e: ShardEvidence) => e.receipt.passed, One());
  }

  lemma ColumnTotal(q: Request, evidence: seq<ShardEvidence>, column: ShardEvidence -> nat, value: string -> nat)
    requires AggregateAccepts(q, evidence) && Tallies(evidence, column, value)
    ensures Total(evidence, column) == Total(q.manifest, value)
  {
    TotalConcat(evidence, column, value);
    AcceptedCoversManifest(q, evidence);
    TotalPermutation(Concat(evidence), q.manifest, value);
  }

  // ----- accepted evidence replays

  /** The run that a receipt entry and its report tell of: the exit code it recorded included. */
  function RecordedRun(e: ShardEvidence, p: nat): FileRun
    requires p < |e.receipt.files|
  {
    var entry := e.receipt.files[p];
    FileRun(entry.exitCode, if entry.junitFile in e.junit then Some(e.junit[entry.junitFile]) else None, entry.durationMs)
  }

  function FindInShard(e: ShardEvidence, p: nat, file: string): Option<FileRun>
    requires p <= |e.receipt.files|
  {
    if p == 0 then None
    else if e.receipt.files[p - 1].file == file then Some(RecordedRun(e, p - 1))
    else FindInShard(e, p - 1, file)
  }

  function FindRun(evidence: seq<ShardEvidence>, file: string): Option<FileRun> {
    if evidence == [] then None
    else
      var e := evidence[|evidence| - 1];
      match FindInShard(e, |e.receipt.files|, file)
      case Some(run) => Some(run)
      case None => FindRun(evidence[..|evidence| - 1], file)
  }

  /** Serial processes that end and report as the evidence says; a file it does not list fails. */
  function Replay(q: Request, evidence: seq<ShardEvidence>): Suite {
    Suite(f => match FindRun(evidence, f) case Some(run) => run case None => FileRun(1, None, 0), q.parse, q.skips)
  }

  lemma {:induction false} FindInShardAt(e: ShardEvidence, n: nat, p: nat)
    requires p < n <= |e.receipt.files| && Distinct(FilesOf(e.receipt))
    ensures FindInShard(e, n, e.receipt.files[p].file) == Some(RecordedRun(e, p))
  {
    if n - 1 != p {
      assert FilesOf(e.receipt)[n - 1] != FilesOf(e.receipt)[p];
      FindInShardAt(e, n - 1, p);
    }
  }

  lemma {:induction false} FindInShardAbsent(e: ShardEvidence, n: nat, file: string)
    requires n <= |e.receipt.files| && file !in FilesOf(e.receipt)
    ensures FindInShard(e, n, file) == None
  {
    if n > 0 {
      assert FilesOf(e.receipt)[n - 1] in FilesOf(e.receipt);
      FindInShardAbsent(e, n - 1, file);
    }
  }

  lemma {:induction false} FindRunAt(q: Request, evidence: seq<ShardEvidence>, k: nat, p: nat)
    requires q.n >= 1 && AllAccepted(q, evidence) && k < |evidence| && p < |evidence[k].receipt.files|
    ensures FindRun(evidence, evidence[k].receipt.files[p].file) == Some(RecordedRun(evidence[k], p))
  {
    var m := |evidence| - 1;
    assert evidence[k] in evidence && evidence[m] in evidence;
    var f := evidence[k].receipt.files[p].file;
    if k == m {
      FindInShardAt(evidence[m], |evidence[m].receipt.files|, p);
    } else {
      AllAcceptedPrefix(q, evidence, m);
      FindRunAt(q, evidence[..m], k, p);
      assert FilesOf(evidence[k].receipt)[p] == f;
      ConcatContains(evidence[..m], k, f);
      forall g | g in FilesOf(evidence[m].receipt)
        ensures g !in Concat(evidence[..m])
      {
        NextShardIsNew(q, evidence, m, g);
      }
      FindInShardAbsent(evidence[m], |evidence[m].receipt.files|, f);
    }
  }

  function ReceiptSummary(entry: ShardFileSummary): JUnitSummary {
    JUnitSummary(entry.assertions, 0, entry.skipped, entry.tests)
  }

  lemma ReplayedEntry(q: Request, evidence: seq<ShardEvidence>, k: nat, p: nat)
    requires q.n >= 1 && AllAccepted(q, evidence) && k < |evidence| && p < |evidence[k].receipt.files|
    ensures Replay(q, evidence).Check(evidence[k].receipt.files[p].file) == Ok(ReceiptSummary(evidence[k].receipt.files[p]))
  {
    FindRunAt(q, evidence, k, p);
    assert evidence[k] in evidence;
    assert EntryAccepted(evidence[k], p, q.parse, q.skips);
  }

  lemma ReplayedShard(q: Request, evidence: seq<ShardEvidence>, e: ShardEvidence)
    requires q.n >= 1 && AllAccepted(q, evidence) && e in evidence
    ensures forall f :: f in FilesOf(e.receipt) ==> Replay(q, evidence).Passes(f)
    ensures e.receipt.tests == Total(FilesOf(e.receipt), Replay(q, evidence).Tests())
    ensures e.receipt.assertions == Total(FilesOf(e.receipt), Replay(q, evidence).Assertions())
  {
    var k :| 0 <= k < |evidence| && evidence[k] == e;
    var suite := Replay(q, evidence);
    forall p | 0 <= p < |e.receipt.files|
      ensures suite.Passes(FilesOf(e.receipt)[p])
      ensures e.receipt.files[p].tests == suite.Tests()(FilesOf(e.receipt)[p])
      ensures e.receipt.files[p].assertions == suite.Assertions()(FilesOf(e.receipt)[p])
    {
      ReplayedEntry(q, evidence, k, p);
    }
    TotalEntries(e.receipt.files, FilesOf(e.receipt), (entry: ShardFileSummary) => entry.tests, suite.Tests());
    TotalEntries(e.receipt.files, FilesOf(e.receipt), (entry: ShardFileSummary) => entry.assertions, suite.Assertions());
  }

  /**
   Nothing the aggregator accepts could have failed serially: from the reports in the evidence
   alone, the serial runner accepts the manifest and counts the same tests and assertions.
   */
  lemma AcceptedEvidenceReplays(q: Request, evidence: seq<ShardEvidence>)
    requires AggregateAccepts(q, evidence) && MapLike(q.skips)
    ensures SerialAccepts(q.manifest, Replay(q, evidence))
    ensures Total(evidence, (e: ShardEvidence) => e.receipt.tests)
         == Total(q.manifest, Replay(q, evidence).Tests())
    ensures Total(evidence, (e: ShardEvidence) => e.receipt.assertions)
         == Total(q.manifest, Replay(q, evidence).Assertions())
  {
    var suite := Replay(q, evidence);
    AcceptedCoversManifest(q, evidence);
    forall e | e in evidence
      ensures forall f :: f in FilesOf(e.receipt) ==> suite.Passes(f)
      ensures e.receipt.tests == Total(FilesOf(e.receipt), suite.Tests())
      ensures e.receipt.assertions == Total(FilesOf(e.receipt), suite.Assertions())
    {
      ReplayedShard(q, evidence, e);
    }
    SameMembers(Concat(evidence), q.manifest);
    forall f | f in q.manifest
      ensures suite.Passes(f)
    {
      ListedSomewhere(evidence, f);
    }
    ColumnTotal(q, evidence, (e: ShardEvidence) => e.receipt.tests, suite.Tests());
    ColumnTotal(q, evidence, (e: ShardEvidence) => e.receipt.assertions, suite.Assertions());
    DistinctAccepted(q.manifest, suite);
  }

  lemma {:induction false} ListedSomewhere(evidence: seq<ShardEvidence>, f: string)
    requires f in Concat(evidence)
    ensures exists e :: e in evidence && f in FilesOf(e.receipt)
  {
    var k := |evidence| - 1;
    if f in FilesOf(evidence[k].receipt) {
      assert evidence[k] in evidence;
    } else {
      ListedSomewhere(evidence[..k], f);
      var e :| e in evidence[..k] && f in FilesOf(e.receipt);
      assert e in evidence;
    }
  }

  // ----- another order, and newlines in paths

  /** With one shard every file is its own. */
  lemma OneShardRunsAll(files: seq<string>, w: ShardWeights)
    requires Distinct(files)
    ensures ShardFiles(files, 1, 1, w) == files
  {
    OwnedAll(files, Owners(files, 1, w), 1);
  }

  lemma {:induction false} OwnedAll(files: seq<string>, owner: map<string, nat>, shard: nat)
    requires forall f :: f in files ==> f in owner && owner[f] == shard
    ensures Owned(files, owner, shard) == files
  {
    if files != [] {
      var k := |files| - 1;
      OwnedAll(files[..k], owner, shard);
      assert files == files[..k] + [files[k]];
    }
  }

  lemma AloneIn<T>(s: seq<T>, x: T)
    requires |s| == 1 && x in s
    ensures x == s[0]
  {
  }

  lemma AloneHeaders(evidence: seq<ShardEvidence>)
    requires |evidence| == 1 && HeaderAccepted(1, evidence[0])
    ensures HeadersAccepted(1, evidence)
  {
    forall e | e in evidence
      ensures HeaderAccepted(1, e)
    {
      AloneIn(evidence, e);
    }
  }

  lemma AloneAccepted(q: Request, evidence: seq<ShardEvidence>)
    requires RequestValid(q) && q.n == 1 && |evidence| == 1 && HeaderAccepted(1, evidence[0])
    ensures AggregateAccepts(q, evidence) <==> ShardAccepted(q, evidence[0])
  {
    AloneHeaders(evidence);
    assert evidence[0] in evidence;
    if ShardAccepted(q, evidence[0]) {
      forall e | e in evidence
        ensures ShardAccepted(q, e)
      {
        AloneIn(evidence, e);
      }
    }
  }

  /** One shard ran `ran`: accepted exactly if that passes for the manifest. */
  lemma OneShardAccepted(q: Request, suite: Suite, ms: nat, ran: seq<string>)
    requires SameSetup(q, suite) && RequestValid(q) && q.n == 1 && "" !in ran && forall f :: f in ran ==> suite.Passes(f)
    ensures AggregateAccepts(q, [EvidenceOf(q.manifest, 1, 1, suite, q.digest, ms, ran)])
       <==> FileListAccepted(ran, q.manifest)
  {
    OneShardRunsAll(q.manifest, q.w);
    RanHeaderAccepted(q, suite, 1, ms, ran);
    RanEvidenceAccepted(q, suite, 1, ms, ran);
    AloneAccepted(q, [EvidenceOf(q.manifest, 1, 1, suite, q.digest, ms, ran)]);
  }

  const SOME_TEST := "x.test.ts"
  const NEWLINE_TEST := SOME_TEST + "\n" + SOME_TEST

  /** The allowlisted files, a test file, and one with a newline in its path. */
  function NewlineManifest(): seq<string> {
    Names(PINNED_CAPABILITY_SKIPS) + [SOME_TEST, NEWLINE_TEST]
  }

  function SwappedManifest(): seq<string> {
    Names(PINNED_CAPABILITY_SKIPS) + [NEWLINE_TEST, SOME_TEST]
  }

  lemma NewNames()
    ensures SOME_TEST !in Names(PINNED_CAPABILITY_SKIPS) && NEWLINE_TEST !in Names(PINNED_CAPABILITY_SKIPS)
    ensures "" !in Names(PINNED_CAPABILITY_SKIPS) && Distinct(Names(PINNED_CAPABILITY_SKIPS))
  {
    var skips := PINNED_CAPABILITY_SKIPS;
    PinnedIsMap();
    assert forall i :: 0 <= i < |skips| ==> skips[i].0 != "" && skips[i].0 != "x.test.ts";
    assert forall i :: 0 <= i < |skips| ==> skips[i].0 != "x.test.ts\nx.test.ts";
    assert NEWLINE_TEST == "x.test.ts\nx.test.ts";
  }

  lemma DistinctPair(front: seq<string>, a: string, b: string)
    requires Distinct(front) && a !in front && b !in front && a != b
    ensures Distinct(front + [a, b])
  {
  }

  lemma NewlineManifestsDistinct()
    ensures Distinct(NewlineManifest()) && Distinct(SwappedManifest())
    ensures "" !in SwappedManifest() && NewlineManifest() != SwappedManifest()
    ensures forall f :: f in SwappedManifest() <==> f in NewlineManifest()
  {
    var names := Names(PINNED_CAPABILITY_SKIPS);
    NewNames();
    assert |NEWLINE_TEST| > |SOME_TEST| && NEWLINE_TEST[0] == SOME_TEST[0] == 'x';
    DistinctPair(names, SOME_TEST, NEWLINE_TEST);
    DistinctPair(names, NEWLINE_TEST, SOME_TEST);
    assert NewlineManifest()[|names|] == SOME_TEST && SwappedManifest()[|names|] == NEWLINE_TEST;
  }

  function NewlineRequest(w: ShardWeights): Request {
    Request(NewlineManifest(), 1, w, _ => "digest", Quiet(PINNED_CAPABILITY_SKIPS).parse, PINNED_CAPABILITY_SKIPS)
  }

  /**
   With newlines in paths the order check is blind: the aggregator accepts evidence of a run of this
   manifest in another order.
   */
  lemma NewlinePathsDefeatOrderCheck(w: ShardWeights, ms: nat)
    ensures var q := NewlineRequest(w);
            var e := EvidenceOf(q.manifest, 1, 1, Quiet(PINNED_CAPABILITY_SKIPS), q.digest, ms, SwappedManifest());
            AggregateAccepts(q, [e]) && FilesOf(e.receipt) != ShardFiles(q.manifest, 1, 1, w)
  {
    NewlineManifestsDistinct();
    NewlineRequestValid(w);
    SwappedListAccepted();
    OneShardAccepted(NewlineRequest(w), Quiet(PINNED_CAPABILITY_SKIPS), ms, SwappedManifest());
    OneShardRunsAll(NewlineManifest(), w);
    FilesOfEvidence(NewlineRequest(w), Quiet(PINNED_CAPABILITY_SKIPS), ms, SwappedManifest());
  }

  lemma FilesOfEvidence(q: Request, suite: Suite, ms: nat, ran: seq<string>)
    ensures FilesOf(EvidenceOf(q.manifest, 1, 1, suite, q.digest, ms, ran).receipt) == ran
  {
  }

  lemma NewlineRequestValid(w: ShardWeights)
    ensures RequestValid(NewlineRequest(w)) && SameSetup(NewlineRequest(w), Quiet(PINNED_CAPABILITY_SKIPS))
    ensures forall f :: f in SwappedManifest() ==> Quiet(PINNED_CAPABILITY_SKIPS).Passes(f)
  {
    NewlineManifestsDistinct();
    PinnedIsMap();
    QuietAccepted([SOME_TEST, NEWLINE_TEST]);
  }

  lemma SwappedListAccepted()
    ensures FileListAccepted(SwappedManifest(), NewlineManifest())
  {
    NewlineManifestsDistinct();
    SwapKeepsJoin(Names(PINNED_CAPABILITY_SKIPS), SOME_TEST);
  }
}
