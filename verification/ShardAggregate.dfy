/** aggregate-shard-receipts: acceptance of all shards' evidence. */
module ShardAggregate {
  // Receipts arrive typed; the checks parseShardReceipt makes on typed values are ReceiptParses.

  import opened Results
  import opened Sorting
  import opened ShardAssignment
  import opened SerialRun
  import opened ShardRun

  datatype AggregateReceipt = AggregateReceipt(shards: nat, manifestSha256: string, manifestSize: nat,
                                               executed: nat, passed: nat, skipped: nat, tests: nat,
                                               assertions: nat)

  datatype AggregateError =
    | InvalidTotal | ManifestEmpty | ManifestDuplicate | AllowlistRefused(manifestError: ManifestError)
    | WrongEvidenceCount | MalformedReceipt | WrongShardTotal | IndexOutOfRange | DuplicateIndex
    | ManifestDisagrees | ForeignFile | DuplicateFileInShard | MissingFile | OutOfOrder | WrongCounts
    | WrongJunitName | ExitedNonZero | MissingReport | UnreadableReport | FailuresReported
    | ReportDisagrees | SkipsDisagree | DuplicateAcrossShards | UnreferencedReport | TotalsDisagree
    | UnionIncomplete | SkipTotalOff

  /** What parseShardReceipt still has to check once the receipt has its type. */
  predicate ReceiptParses(receipt: ShardReceipt) {
    && receipt.schemaVersion == SHARD_RECEIPT_SCHEMA_VERSION
    && receipt.runner == SHARD_RUNNER
    && receipt.status == Passed
    && receipt.manifestSha256 != ""
    && forall p :: 0 <= p < |receipt.files| ==> receipt.files[p].file != "" && receipt.files[p].junitFile != ""
  }

  /** lines.join('\n') */
  function Join(lines: seq<string>): string {
    if lines == [] then ""
    else if |lines| == 1 then lines[0]
    else lines[0] + "\n" + Join(lines[1..])
  }

  function FilesOf(receipt: ShardReceipt): (r: seq<string>)
    ensures |r| == |receipt.files|
    ensures forall p :: 0 <= p < |r| ==> r[p] == receipt.files[p].file
  {
    seq(|receipt.files|, p requires 0 <= p < |receipt.files| => receipt.files[p].file)
  }

  // ----- what an accepted shard looks like

  ghost predicate FileListAccepted(actual: seq<string>, expected: seq<string>) {
    && (forall f :: f in actual <==> f in expected)
    && Distinct(actual)
    && Join(actual) == Join(expected)
  }

  ghost predicate EntryAccepted(e: ShardEvidence, p: nat, parse: Parser, skips: SkipList)
    requires p < |e.receipt.files|
  {
    var entry := e.receipt.files[p];
    && entry.junitFile == JunitFileName(p) && entry.exitCode == 0 && entry.junitFile in e.junit
    && parse(e.junit[entry.junitFile], entry.file)
    == Some(JUnitSummary(entry.assertions, 0, Expected(skips, entry.file), entry.tests))
    && entry.skipped == Expected(skips, entry.file)
  }

  ghost predicate NoStrayReports(e: ShardEvidence) {
    forall name :: name in e.junit ==> exists p :: 0 <= p < |e.receipt.files| && e.receipt.files[p].junitFile == name
  }

  ghost predicate TotalsMatch(receipt: ShardReceipt) {
    && receipt.skipped == Total(receipt.files, (entry: ShardFileSummary) => entry.skipped)
    && receipt.tests == Total(receipt.files, (entry: ShardFileSummary) => entry.tests)
    && receipt.assertions == Total(receipt.files, (entry: ShardFileSummary) => entry.assertions)
  }

  /** What the aggregator is asked to validate evidence against. */
  datatype Request = Request(manifest: seq<string>, n: int, w: ShardWeights, digest: Digest, parse: Parser,
                             skips: SkipList)

  ghost predicate ShardAccepted(q: Request, e: ShardEvidence)
    requires q.n >= 1
  {
    var expected := ShardFiles(q.manifest, e.receipt.shardIndex, q.n, q.w);
    && e.receipt.manifestSha256 == q.digest(q.manifest) && e.receipt.manifestSize == |q.manifest|
    && FileListAccepted(FilesOf(e.receipt), expected)
    && e.receipt.assignedFiles == |expected| && e.receipt.executed == |expected| && e.receipt.passed == |expected|
    && (forall p :: 0 <= p < |e.receipt.files| ==> EntryAccepted(e, p, q.parse, q.skips))
    && NoStrayReports(e)
    && TotalsMatch(e.receipt)
  }

  ghost predicate HeaderAccepted(n: int, e: ShardEvidence) {
    ReceiptParses(e.receipt) && e.receipt.shardTotal == n && 1 <= e.receipt.shardIndex <= n
  }

  ghost predicate DistinctIndices(evidence: seq<ShardEvidence>) {
    forall i, j :: 0 <= i < j < |evidence| ==> evidence[i].receipt.shardIndex != evidence[j].receipt.shardIndex
  }

  ghost predicate RequestValid(q: Request) {
    && q.n >= 1 && q.manifest != [] && Distinct(q.manifest)
    && ValidateTerminalManifest(q.manifest, q.skips).Ok?
  }

  ghost predicate HeadersAccepted(n: int, evidence: seq<ShardEvidence>) {
    && |evidence| == n
    && (forall e :: e in evidence ==> HeaderAccepted(n, e))
    && DistinctIndices(evidence)
  }

  ghost predicate AggregateAccepts(q: Request, evidence: seq<ShardEvidence>) {
    && RequestValid(q) && HeadersAccepted(q.n, evidence)
    && forall e :: e in evidence ==> ShardAccepted(q, e)
  }

  // ----- the checks

  method CheckFileList(actual: seq<string>, expected: seq<string>) returns (failure: Option<AggregateError>)
    ensures failure.None? <==> FileListAccepted(actual, expected)
    ensures failure.Some? ==> failure.value in {ForeignFile, DuplicateFileInShard, MissingFile, OutOfOrder}
  {
    var seenInShard: set<string> := {};
    for p := 0 to |actual|
      invariant forall f :: f in seenInShard <==> f in actual[..p]
      invariant forall f :: f in seenInShard ==> f in expected
      invariant Distinct(actual[..p])
    {
      assert actual[p] in actual;
      if actual[p] !in expected {
        return Some(ForeignFile);
      }
      if actual[p] in seenInShard {
        return Some(DuplicateFileInShard);
      }
      assert actual[..p + 1] == actual[..p] + [actual[p]];
      seenInShard := seenInShard + {actual[p]};
    }
    assert actual[..|actual|] == actual;
    if exists f :: f in expected && f !in seenInShard {
      return Some(MissingFile);
    }
    if Join(actual) != Join(expected) {
      return Some(OutOfOrder);
    }
    return None;
  }

  /** The checks on one receipt entry against its report. */
  method CheckEntry(e: ShardEvidence, p: nat, parse: Parser, skips: SkipList)
    returns (failure: Option<AggregateError>)
    requires p < |e.receipt.files|
    ensures failure.None? <==> EntryAccepted(e, p, parse, skips)
    ensures failure.Some? ==> failure.value in {
      WrongJunitName, ExitedNonZero, MissingReport, UnreadableReport, FailuresReported, ReportDisagrees, SkipsDisagree}
  {
    var entry := e.receipt.files[p];
    if entry.junitFile != JunitFileName(p) {
      return Some(WrongJunitName);
    }
    if entry.exitCode != 0 {
      return Some(ExitedNonZero);
    }
    if entry.junitFile !in e.junit {
      return Some(MissingReport);
    }
    var parsed := parse(e.junit[entry.junitFile], entry.file);
    if parsed.None? {
      return Some(UnreadableReport);
    }
    var summary := parsed.value;
    if summary.failures != 0 {
      return Some(FailuresReported);
    }
    if summary.tests != entry.tests || summary.skipped != entry.skipped || summary.assertions != entry.assertions {
      return Some(ReportDisagrees);
    }
    if summary.skipped != Expected(skips, entry.file) {
      return Some(SkipsDisagree);
    }
    return None;
  }

  ghost predicate EntriesCounted(entries: seq<ShardFileSummary>, skipped: nat, tests: nat, assertions: nat) {
    && skipped == Total(entries, (entry: ShardFileSummary) => entry.skipped)
    && tests == Total(entries, (entry: ShardFileSummary) => entry.tests)
    && assertions == Total(entries, (entry: ShardFileSummary) => entry.assertions)
  }

  lemma EntryCounted(entries: seq<ShardFileSummary>, p: nat, skipped: nat, tests: nat, assertions: nat)
    requires p < |entries| && EntriesCounted(entries[..p], skipped, tests, assertions)
    ensures EntriesCounted(entries[..p + 1], skipped + entries[p].skipped, tests + entries[p].tests,
                           assertions + entries[p].assertions)
  {
    TotalPrefix(entries, p, (entry: ShardFileSummary) => entry.skipped);
    TotalPrefix(entries, p, (entry: ShardFileSummary) => entry.tests);
    TotalPrefix(entries, p, (entry: ShardFileSummary) => entry.assertions);
  }

  /** The files seen so far, each under the shard that listed it. */
  ghost predicate UnionGrown(before: map<string, nat>, after: map<string, nat>, files: seq<string>, shard: nat) {
    && (forall f :: f in after <==> f in before || f in files)
    && (forall f :: f in after ==> after[f] == if f in files then shard else before[f])
  }

  /** The loop over the entries of one shard. Disjoint, distinct files make its duplicate check idle. */
  method CheckEntries(e: ShardEvidence, parse: Parser, skips: SkipList, union: map<string, nat>)
    returns (failure: Option<AggregateError>, grown: map<string, nat>, skipped: nat, tests: nat, assertions: nat)
    requires Distinct(FilesOf(e.receipt))
    requires forall f :: f in FilesOf(e.receipt) ==> f !in union
    ensures failure.None? <==> forall p :: 0 <= p < |e.receipt.files| ==> EntryAccepted(e, p, parse, skips)
    ensures failure != Some(DuplicateAcrossShards) && failure != Some(UnionIncomplete) && failure != Some(SkipTotalOff)
    ensures failure.None? ==> UnionGrown(union, grown, FilesOf(e.receipt), e.receipt.shardIndex)
    ensures failure.None? ==> EntriesCounted(e.receipt.files, skipped, tests, assertions)
  {
    var entries := e.receipt.files;
    ghost var files := FilesOf(e.receipt);
    grown, skipped, tests, assertions := union, 0, 0, 0;
    for p := 0 to |entries|
      invariant UnionGrown(union, grown, files[..p], e.receipt.shardIndex)
      invariant EntriesCounted(entries[..p], skipped, tests, assertions)
      invariant forall k :: 0 <= k < p ==> EntryAccepted(e, k, parse, skips)
    {
      failure := CheckEntry(e, p, parse, skips);
      if failure.Some? {
        return;
      }
      assert files[p] in files && files[p] !in files[..p];
      if entries[p].file in grown {
        return Some(DuplicateAcrossShards), grown, skipped, tests, assertions;
      }
      assert files[..p + 1] == files[..p] + [files[p]];
      EntryCounted(entries, p, skipped, tests, assertions);
      grown := grown[entries[p].file := e.receipt.shardIndex];
      skipped, tests, assertions :=
        skipped + entries[p].skipped, tests + entries[p].tests, assertions + entries[p].assertions;
    }
    assert files[..|files|] == files && entries[..|entries|] == entries;
    failure := None;
  }

  /** Every check on one shard, in the order the loop over the shards makes them. */
  method CheckShard(q: Request, e: ShardEvidence, union: map<string, nat>)
    returns (failure: Option<AggregateError>, grown: map<string, nat>)
    requires q.n >= 1
    requires forall f :: f in ShardFiles(q.manifest, e.receipt.shardIndex, q.n, q.w) ==> f !in union
    requires 1 <= e.receipt.shardIndex <= q.n
    ensures failure.None? <==> ShardAccepted(q, e)
    ensures failure != Some(DuplicateAcrossShards) && failure != Some(UnionIncomplete) && failure != Some(SkipTotalOff)
    ensures failure.None? ==> UnionGrown(union, grown, FilesOf(e.receipt), e.receipt.shardIndex)
  {
    grown := union;
    var receipt := e.receipt;
    if receipt.manifestSha256 != q.digest(q.manifest) || receipt.manifestSize != |q.manifest| {
      return Some(ManifestDisagrees), grown;
    }
    var selected := SelectShardFiles(q.manifest, receipt.shardIndex, q.n, q.w);
    var expected := selected.value;
    failure := CheckFileList(FilesOf(receipt), expected);
    if failure.Some? {
      return;
    }
    if receipt.assignedFiles != |expected| || receipt.executed != |expected| || receipt.passed != |expected| {
      return Some(WrongCounts), grown;
    }
    var skipped, tests, assertions;
    failure, grown, skipped, tests, assertions := CheckEntries(e, q.parse, q.skips, union);
    if failure.Some? {
      return;
    }
    if exists name :: name in e.junit && name !in JunitNames(receipt) {
      return Some(UnreferencedReport), grown;
    }
    if skipped != receipt.skipped || tests != receipt.tests || assertions != receipt.assertions {
      return Some(TotalsDisagree), grown;
    }
  }

  /** The `referenced` set of a shard. */
  function JunitNames(receipt: ShardReceipt): (r: set<string>)
    ensures forall name :: name in r <==> exists p :: 0 <= p < |receipt.files| && receipt.files[p].junitFile == name
  {
    set p | 0 <= p < |receipt.files| :: receipt.files[p].junitFile
  }

  method CheckHeaders(n: int, evidence: seq<ShardEvidence>) returns (failure: Option<AggregateError>)
    ensures failure.None? <==> HeadersAccepted(n, evidence)
    ensures failure.Some? ==> failure.value in {
      WrongEvidenceCount, MalformedReceipt, WrongShardTotal, IndexOutOfRange, DuplicateIndex}
  {
    if |evidence| != n {
      return Some(WrongEvidenceCount);
    }
    if exists e :: e in evidence && !ReceiptParses(e.receipt) {
      return Some(MalformedReceipt);
    }
    var indices: set<nat> := {};
    for i := 0 to |evidence|
      invariant IndicesSeen(evidence[..i], indices)
      invariant DistinctIndices(evidence[..i])
      invariant forall k :: 0 <= k < i ==> HeaderAccepted(n, evidence[k])
    {
      var receipt := evidence[i].receipt;
      assert evidence[i] in evidence;
      if receipt.shardTotal != n {
        return Some(WrongShardTotal);
      }
      if receipt.shardIndex < 1 || receipt.shardIndex > n {
        return Some(IndexOutOfRange);
      }
      IndexNext(evidence, i, indices);
      if receipt.shardIndex in indices {
        return Some(DuplicateIndex);
      }
      indices := indices + {receipt.shardIndex};
    }
    assert evidence[..|evidence|] == evidence;
    return None;
  }

  ghost predicate IndicesSeen(evidence: seq<ShardEvidence>, indices: set<nat>) {
    forall x :: x in indices <==> exists k :: 0 <= k < |evidence| && evidence[k].receipt.shardIndex == x
  }

  lemma IndexNext(evidence: seq<ShardEvidence>, i: nat, indices: set<nat>)
    requires i < |evidence| && IndicesSeen(evidence[..i], indices) && DistinctIndices(evidence[..i])
    ensures IndicesSeen(evidence[..i + 1], indices + {evidence[i].receipt.shardIndex})
    ensures evidence[i].receipt.shardIndex in indices ==> !DistinctIndices(evidence)
    ensures evidence[i].receipt.shardIndex !in indices ==> DistinctIndices(evidence[..i + 1])
  {
    var x := evidence[i].receipt.shardIndex;
    if x in indices {
      var k :| 0 <= k < i && evidence[..i][k].receipt.shardIndex == x;
      assert evidence[k].receipt.shardIndex == evidence[i].receipt.shardIndex;
    }
    var before, longer := evidence[..i], evidence[..i + 1];
    assert longer == before + [evidence[i]];
    forall y
      ensures y in indices + {x} <==> exists k :: 0 <= k < |longer| && longer[k].receipt.shardIndex == y
    {
      assert longer[i].receipt.shardIndex == x;
      if y in indices {
        var k :| 0 <= k < i && before[k].receipt.shardIndex == y;
        assert longer[k].receipt.shardIndex == y;
      }
      if exists k :: 0 <= k < |longer| && longer[k].receipt.shardIndex == y {
        var k :| 0 <= k < |longer| && longer[k].receipt.shardIndex == y;
        assert k < i ==> before[k].receipt.shardIndex == y;
      }
    }
  }

  // ----- all shards together

  function ByIndex(): (ShardEvidence, ShardEvidence) -> bool {
    (left: ShardEvidence, right: ShardEvidence) => left.receipt.shardIndex < right.receipt.shardIndex
  }

  /** The files of all receipts, one receipt after another. */
  function Concat(evidence: seq<ShardEvidence>): seq<string> {
    if evidence == [] then []
    else Concat(evidence[..|evidence| - 1]) + FilesOf(evidence[|evidence| - 1].receipt)
  }

  lemma ConcatNext(evidence: seq<ShardEvidence>, k: nat)
    requires k < |evidence|
    ensures Concat(evidence[..k + 1]) == Concat(evidence[..k]) + FilesOf(evidence[k].receipt)
  {
    assert evidence[..k + 1][..k] == evidence[..k];
  }

  ghost predicate AllAccepted(q: Request, evidence: seq<ShardEvidence>)
    requires q.n >= 1
  {
    && DistinctIndices(evidence)
    && forall e :: e in evidence ==> 1 <= e.receipt.shardIndex <= q.n && ShardAccepted(q, e)
  }

  lemma AllAcceptedPrefix(q: Request, evidence: seq<ShardEvidence>, k: nat)
    requires q.n >= 1 && AllAccepted(q, evidence) && k <= |evidence|
    ensures AllAccepted(q, evidence[..k])
  {
    forall e | e in evidence[..k]
      ensures e in evidence
    {
    }
  }

  /** A file some receipt lists belongs to the shard of that receipt. */
  lemma {:induction false} ListedByOwner(q: Request, evidence: seq<ShardEvidence>, f: string)
    requires q.n >= 1 && AllAccepted(q, evidence) && f in Concat(evidence)
    ensures f in q.manifest && f in Owners(q.manifest, q.n, q.w)
    ensures exists i :: 0 <= i < |evidence| && evidence[i].receipt.shardIndex == Owners(q.manifest, q.n, q.w)[f]
  {
    var k := |evidence| - 1;
    if f in FilesOf(evidence[k].receipt) {
      assert evidence[k] in evidence;
    } else {
      AllAcceptedPrefix(q, evidence, k);
      ListedByOwner(q, evidence[..k], f);
      var i :| 0 <= i < k && evidence[..k][i].receipt.shardIndex == Owners(q.manifest, q.n, q.w)[f];
      assert evidence[i].receipt.shardIndex == Owners(q.manifest, q.n, q.w)[f];
    }
  }

  /** The files one more shard is due were listed by none of the shards before it. */
  lemma NextShardIsNew(q: Request, evidence: seq<ShardEvidence>, k: nat, f: string)
    requires q.n >= 1 && k < |evidence| && DistinctIndices(evidence) && AllAccepted(q, evidence[..k])
    requires f in ShardFiles(q.manifest, evidence[k].receipt.shardIndex, q.n, q.w)
    ensures f !in Concat(evidence[..k])
  {
    if f in Concat(evidence[..k]) {
      ListedByOwner(q, evidence[..k], f);
    }
  }

  lemma {:induction false} ConcatDistinct(q: Request, evidence: seq<ShardEvidence>)
    requires q.n >= 1 && AllAccepted(q, evidence)
    ensures Distinct(Concat(evidence))
  {
    if evidence != [] {
      var k := |evidence| - 1;
      AllAcceptedPrefix(q, evidence, k);
      ConcatDistinct(q, evidence[..k]);
      assert evidence[k] in evidence;
      forall f | f in FilesOf(evidence[k].receipt)
        ensures f !in Concat(evidence[..k])
      {
        NextShardIsNew(q, evidence, k, f);
      }
      var a, b := Concat(evidence[..k]), FilesOf(evidence[k].receipt);
      DistinctAppend(a, b);
    }
  }

  lemma DistinctAppend(a: seq<string>, b: seq<string>)
    requires Distinct(a) && Distinct(b) && forall f :: f in b ==> f !in a
    ensures Distinct(a + b)
  {
    forall i, j | 0 <= i < j < |a + b|
      ensures (a + b)[i] != (a + b)[j]
    {
      if i < |a| <= j {
        assert (a + b)[j] in b && (a + b)[i] in a;
      }
    }
  }

  // ----- every shard index is present

  function Indices(evidence: seq<ShardEvidence>): (r: set<nat>)
  {
    set i | 0 <= i < |evidence| :: evidence[i].receipt.shardIndex
  }

  lemma {:induction false} IndicesSize(evidence: seq<ShardEvidence>)
    requires DistinctIndices(evidence)
    ensures |Indices(evidence)| == |evidence|
  {
    if evidence != [] {
      var k := |evidence| - 1;
      IndicesSize(evidence[..k]);
      assert Indices(evidence) == Indices(evidence[..k]) + {evidence[k].receipt.shardIndex} by {
        forall i | 0 <= i < |evidence|
          ensures i < k ==> evidence[i].receipt.shardIndex in Indices(evidence[..k])
        {
          if i < k {
            assert evidence[..k][i] == evidence[i];
          }
        }
      }
      assert evidence[k].receipt.shardIndex !in Indices(evidence[..k]);
    }
  }

  function UpToSet(n: nat): (r: set<nat>)
    ensures |r| == n
    ensures forall x :: x in r <==> 1 <= x <= n
  {
    if n == 0 then {} else UpToSet(n - 1) + {n}
  }

  lemma EqualBySize(a: set<nat>, b: set<nat>)
    requires a <= b && |a| == |b|
    ensures a == b
  {
    if x :| x in b && x !in a {
      SubsetSize(a + {x}, b);
    }
  }

  lemma {:induction false} SubsetSize(a: set<nat>, b: set<nat>)
    requires a <= b
    ensures |a| <= |b|
  {
    if a != {} {
      var x :| x in a;
      SubsetSize(a - {x}, b - {x});
    }
  }

  /** n receipts with different indices in 1..n use every index. */
  lemma EveryShardReported(n: nat, evidence: seq<ShardEvidence>)
    requires HeadersAccepted(n, evidence)
    ensures Indices(evidence) == UpToSet(n)
  {
    IndicesSize(evidence);
    forall x | x in Indices(evidence)
      ensures 1 <= x <= n
    {
      var i :| 0 <= i < |evidence| && evidence[i].receipt.shardIndex == x;
      assert evidence[i] in evidence;
    }
    EqualBySize(Indices(evidence), UpToSet(n));
  }

  lemma {:induction false} ConcatContains(evidence: seq<ShardEvidence>, i: nat, f: string)
    requires i < |evidence| && f in FilesOf(evidence[i].receipt)
    ensures f in Concat(evidence)
  {
    var k := |evidence| - 1;
    if i < k {
      ConcatContains(evidence[..k], i, f);
    }
  }

  /** The accepted receipts list the manifest: every file exactly once and nothing else. */
  lemma AcceptedCoversManifest(q: Request, evidence: seq<ShardEvidence>)
    requires AggregateAccepts(q, evidence)
    ensures Indices(evidence) == UpToSet(q.n)
    ensures multiset(Concat(evidence)) == multiset(q.manifest)
  {
    EveryShardReported(q.n, evidence);
    assert AllAccepted(q, evidence);
    ConcatDistinct(q, evidence);
    forall f
      ensures f in Concat(evidence) <==> f in q.manifest
    {
      if f in Concat(evidence) {
        ListedByOwner(q, evidence, f);
      }
      if f in q.manifest {
        var owner := Owners(q.manifest, q.n, q.w)[f];
        assert owner in UpToSet(q.n);
        var i :| 0 <= i < |evidence| && evidence[i].receipt.shardIndex == owner;
        assert evidence[i] in evidence;
        assert f in ShardFiles(q.manifest, owner, q.n, q.w);
        ConcatContains(evidence, i, f);
      }
    }
    SameMembersSameMultiset(Concat(evidence), q.manifest);
  }

  /** An accepted junit directory names one report per listed file: position p is under junitFileName(p). */
  lemma JunitDirectoryBijection(q: Request, e: ShardEvidence, name: string)
    requires q.n >= 1 && ShardAccepted(q, e)
    ensures name in e.junit <==> exists p :: 0 <= p < |e.receipt.files| && JunitFileName(p) == name
    ensures |e.junit| == |e.receipt.files|
  {
    if name in e.junit {
      var p :| 0 <= p < |e.receipt.files| && e.receipt.files[p].junitFile == name;
      assert EntryAccepted(e, p, q.parse, q.skips);
    }
    if p :| 0 <= p < |e.receipt.files| && JunitFileName(p) == name {
      assert EntryAccepted(e, p, q.parse, q.skips);
    }
    forall x
      ensures x in e.junit.Keys <==> x in FirstNames(|e.receipt.files|)
    {
      if x in e.junit {
        var p :| 0 <= p < |e.receipt.files| && e.receipt.files[p].junitFile == x;
        assert EntryAccepted(e, p, q.parse, q.skips);
      }
      if x in FirstNames(|e.receipt.files|) {
        var p :| 0 <= p < |e.receipt.files| && JunitFileName(p) == x;
        assert EntryAccepted(e, p, q.parse, q.skips);
      }
    }
    assert e.junit.Keys == FirstNames(|e.receipt.files|);
    FirstNamesSize(|e.receipt.files|);
  }

  /** The names junitFileName gives the first n positions. */
  function FirstNames(n: nat): (r: set<string>)
    ensures forall x :: x in r <==> exists p :: 0 <= p < n && JunitFileName(p) == x
  {
    set p | 0 <= p < n :: JunitFileName(p)
  }

  lemma {:induction false} FirstNamesSize(n: nat)
    ensures |FirstNames(n)| == n
  {
    if n > 0 {
      FirstNamesSize(n - 1);
      assert FirstNames(n) == FirstNames(n - 1) + {JunitFileName(n - 1)};
      if JunitFileName(n - 1) in FirstNames(n - 1) {
        var p :| 0 <= p < n - 1 && JunitFileName(p) == JunitFileName(n - 1);
        JunitFileNameInjective(p, n - 1);
      }
    }
  }

  // ----- totals over all shards

  lemma {:induction false} TotalPermutation<A>(a: seq<A>, b: seq<A>, value: A -> nat)
    requires multiset(a) == multiset(b)
    ensures Total(a, value) == Total(b, value)
  {
    assert |multiset(a)| == |multiset(b)|;
    if a != [] {
      var k := |a| - 1;
      var x := a[k];
      assert a == a[..k] + [x];
      assert x in multiset(b);
      var i :| 0 <= i < |b| && b[i] == x;
      assert b == b[..i] + [x] + b[i + 1..];
      assert multiset(a[..k]) == multiset(a) - multiset{x};
      assert multiset(b[..i] + b[i + 1..]) == multiset(b) - multiset{x};
      TotalPermutation(a[..k], b[..i] + b[i + 1..], value);
      TotalAppend(b[..i], b[i + 1..], value);
      TotalAppend(b[..i] + [x], b[i + 1..], value);
      assert (b[..i] + [x])[..i] == b[..i];
    }
  }

  /** A receipt column adds up, file by file, to a quantity of the listed files. */
  ghost predicate Tallies(evidence: seq<ShardEvidence>, column: ShardEvidence -> nat, value: string -> nat) {
    forall e :: e in evidence ==> column(e) == Total(FilesOf(e.receipt), value)
  }

  lemma {:induction false} TotalConcat(evidence: seq<ShardEvidence>, column: ShardEvidence -> nat, value: string -> nat)
    requires Tallies(evidence, column, value)
    ensures Total(evidence, column) == Total(Concat(evidence), value)
  {
    if evidence != [] {
      var k := |evidence| - 1;
      assert evidence[k] in evidence;
      forall e | e in evidence[..k]
        ensures e in evidence
      {
      }
      TotalConcat(evidence[..k], column, value);
      TotalAppend(Concat(evidence[..k]), FilesOf(evidence[k].receipt), value);
    }
  }

  lemma {:induction false} TotalEntries(entries: seq<ShardFileSummary>, files: seq<string>,
                                        column: ShardFileSummary -> nat, value: string -> nat)
    requires |entries| == |files|
    requires forall p :: 0 <= p < |entries| ==> column(entries[p]) == value(files[p])
    ensures Total(entries, column) == Total(files, value)
  {
    if entries != [] {
      TotalEntries(entries[..|entries| - 1], files[..|entries| - 1], column, value);
    }
  }

  lemma AcceptedSkips(q: Request, e: ShardEvidence)
    requires q.n >= 1 && ShardAccepted(q, e)
    ensures e.receipt.skipped == Total(FilesOf(e.receipt), f => Expected(q.skips, f))
  {
    forall p | 0 <= p < |e.receipt.files|
      ensures e.receipt.files[p].skipped == Expected(q.skips, FilesOf(e.receipt)[p])
    {
      assert EntryAccepted(e, p, q.parse, q.skips);
    }
    TotalEntries(e.receipt.files, FilesOf(e.receipt), (entry: ShardFileSummary) => entry.skipped,
                 f => Expected(q.skips, f));
  }

  /** Summed file by file over all receipts. */
  lemma SkipsByFile(q: Request, evidence: seq<ShardEvidence>, value: string -> nat)
    requires AggregateAccepts(q, evidence) && value == (f => Expected(q.skips, f))
    ensures Total(evidence, (e: ShardEvidence) => e.receipt.skipped) == Total(Concat(evidence), value)
  {
    var column := (e: ShardEvidence) => e.receipt.skipped;
    forall e | e in evidence
      ensures column(e) == Total(FilesOf(e.receipt), value)
    {
      AcceptedSkips(q, e);
      TotalAgree(FilesOf(e.receipt), f => Expected(q.skips, f), value);
    }
    TotalConcat(evidence, column, value);
    TotalAgree(evidence, column, (e: ShardEvidence) => e.receipt.skipped);
  }

  /** Once every shard passed its own checks, the total of the skips is what the allowlist promises. */
  lemma AggregateSkips(q: Request, evidence: seq<ShardEvidence>)
    requires AggregateAccepts(q, evidence) && MapLike(q.skips)
    ensures Total(evidence, (e: ShardEvidence) => e.receipt.skipped) == SumSkips(q.skips)
  {
    var value := f => Expected(q.skips, f);
    SkipsByFile(q, evidence, value);
    AcceptedCoversManifest(q, evidence);
    TotalPermutation(Concat(evidence), q.manifest, value);
    ExpectedTotal(q.manifest, q.skips);
    TotalAgree(q.manifest, value, f => Expected(q.skips, f));
  }

  // ----- the aggregator

  lemma HeadersIgnoreOrder(q: Request, a: seq<ShardEvidence>, b: seq<ShardEvidence>)
    requires multiset(a) == multiset(b) && HeadersAccepted(q.n, a)
    ensures HeadersAccepted(q.n, b)
    ensures forall e :: e in a <==> e in b
  {
    SameMembers(a, b);
    assert |multiset(a)| == |multiset(b)|;
    forall i, j | 0 <= i < j < |b|
      ensures b[i].receipt.shardIndex != b[j].receipt.shardIndex
    {
      if b[i].receipt.shardIndex == b[j].receipt.shardIndex {
        assert b[i] in a && b[j] in a;
        var k, m :| 0 <= k < |a| && a[k] == b[i] && 0 <= m < |a| && a[m] == b[j];
        assert k == m;
        assert Distinct(a);
        PermutationDistinct(a, b);
      }
    }
  }

  /** The order in which evidence arrives does not matter. */
  lemma AcceptanceIgnoresOrder(q: Request, a: seq<ShardEvidence>, b: seq<ShardEvidence>)
    requires multiset(a) == multiset(b)
    ensures AggregateAccepts(q, a) <==> AggregateAccepts(q, b)
  {
    SameMembers(a, b);
    if HeadersAccepted(q.n, a) {
      HeadersIgnoreOrder(q, a, b);
    }
    if HeadersAccepted(q.n, b) {
      HeadersIgnoreOrder(q, b, a);
    }
  }

  /** What accepted receipts have on record, field by field. */
  lemma AcceptedRecords(q: Request, evidence: seq<ShardEvidence>, e: ShardEvidence)
    requires AggregateAccepts(q, evidence) && e in evidence
    ensures e.receipt.schemaVersion == 3 && e.receipt.runner == "skillsmith-test-shard" && e.receipt.status == Passed
    ensures e.receipt.shardTotal == q.n == |evidence| && 1 <= e.receipt.shardIndex <= q.n
    ensures e.receipt.manifestSha256 == q.digest(q.manifest) != "" && e.receipt.manifestSize == |q.manifest|
    ensures e.receipt.assignedFiles == e.receipt.executed == e.receipt.passed == |e.receipt.files|
  {
    var expected := ShardFiles(q.manifest, e.receipt.shardIndex, q.n, q.w);
    assert HeaderAccepted(q.n, e) && ShardAccepted(q, e);
    OwnedDistinct(q.manifest, Owners(q.manifest, q.n, q.w), e.receipt.shardIndex);
    SameMembersSameMultiset(FilesOf(e.receipt), expected);
    assert |multiset(FilesOf(e.receipt))| == |multiset(expected)|;
  }

  /** What accepted receipts have on record of each file, and that its report says the same. */
  lemma AcceptedEntryRecords(q: Request, evidence: seq<ShardEvidence>, e: ShardEvidence, p: nat)
    requires AggregateAccepts(q, evidence) && e in evidence && p < |e.receipt.files|
    ensures var entry := e.receipt.files[p];
            && entry.exitCode == 0 && entry.file in q.manifest && entry.file != ""
            && entry.junitFile == JunitFileName(p) && entry.junitFile in e.junit
            && q.parse(e.junit[entry.junitFile], entry.file).Some?
            && var summary := q.parse(e.junit[entry.junitFile], entry.file).value;
               && summary.failures == 0 && summary.tests == entry.tests && summary.assertions == entry.assertions
               && summary.skipped == entry.skipped == Expected(q.skips, entry.file)
  {
    assert HeaderAccepted(q.n, e) && ShardAccepted(q, e);
    assert EntryAccepted(e, p, q.parse, q.skips);
    assert FilesOf(e.receipt)[p] in FilesOf(e.receipt);
  }

  lemma {:induction false} DistinctSize(s: seq<string>, m: set<string>)
    requires Distinct(s) && forall f :: f in m <==> f in s
    ensures |m| == |s|
  {
    if s == [] {
      assert m == {};
    } else {
      var k := |s| - 1;
      assert s == s[..k] + [s[k]];
      DistinctSize(s[..k], m - {s[k]});
    }
  }

  /** One turn of the loop over the shards. */
  method CheckNextShard(q: Request, sorted: seq<ShardEvidence>, k: nat, before: map<string, nat>)
    returns (failure: Option<AggregateError>, union: map<string, nat>)
    requires q.n >= 1 && HeadersAccepted(q.n, sorted) && k < |sorted| && AllAccepted(q, sorted[..k])
    requires forall f :: f in before <==> f in Concat(sorted[..k])
    ensures failure.None? <==> ShardAccepted(q, sorted[k])
    ensures failure != Some(DuplicateAcrossShards) && failure != Some(UnionIncomplete) && failure != Some(SkipTotalOff)
    ensures failure.None? ==> forall f :: f in union <==> f in Concat(sorted[..k + 1])
  {
    var e := sorted[k];
    assert e in sorted;
    forall f | f in ShardFiles(q.manifest, e.receipt.shardIndex, q.n, q.w)
      ensures f !in before
    {
      NextShardIsNew(q, sorted, k, f);
    }
    failure, union := CheckShard(q, e, before);
    ConcatNext(sorted, k);
  }

  lemma AllAcceptedNext(q: Request, sorted: seq<ShardEvidence>, k: nat)
    requires q.n >= 1 && HeadersAccepted(q.n, sorted) && k < |sorted|
    requires AllAccepted(q, sorted[..k]) && ShardAccepted(q, sorted[k])
    ensures AllAccepted(q, sorted[..k + 1])
  {
    assert sorted[..k + 1] == sorted[..k] + [sorted[k]];
    assert sorted[k] in sorted;
  }

  /** The loop over the shards in index order: the union of their files, and the running totals. */
  method CheckShards(q: Request, sorted: seq<ShardEvidence>)
    returns (failure: Option<AggregateError>, union: map<string, nat>, skipped: nat, tests: nat, assertions: nat)
    requires q.n >= 1 && HeadersAccepted(q.n, sorted)
    ensures failure.None? <==> forall e :: e in sorted ==> ShardAccepted(q, e)
    ensures failure != Some(DuplicateAcrossShards) && failure != Some(UnionIncomplete) && failure != Some(SkipTotalOff)
    ensures failure.None? ==> forall f :: f in union <==> f in Concat(sorted)
    ensures failure.None? ==> ReceiptsCounted(sorted, skipped, tests, assertions)
  {
    union, skipped, tests, assertions := map[], 0, 0, 0;
    for k := 0 to |sorted|
      invariant forall f :: f in union <==> f in Concat(sorted[..k])
      invariant AllAccepted(q, sorted[..k])
      invariant ReceiptsCounted(sorted[..k], skipped, tests, assertions)
    {
      failure, union := CheckNextShard(q, sorted, k, union);
      var e := sorted[k];
      if failure.Some? {
        assert e in sorted;
        return;
      }
      AllAcceptedNext(q, sorted, k);
      ReceiptCounted(sorted, k, skipped, tests, assertions);
      skipped, tests, assertions :=
        skipped + e.receipt.skipped, tests + e.receipt.tests, assertions + e.receipt.assertions;
    }
    assert sorted[..|sorted|] == sorted;
    failure := None;
  }

  ghost predicate ReceiptsCounted(evidence: seq<ShardEvidence>, skipped: nat, tests: nat, assertions: nat) {
    && skipped == Total(evidence, (e: ShardEvidence) => e.receipt.skipped)
    && tests == Total(evidence, (e: ShardEvidence) => e.receipt.tests)
    && assertions == Total(evidence, (e: ShardEvidence) => e.receipt.assertions)
  }

  lemma ReceiptCounted(evidence: seq<ShardEvidence>, k: nat, skipped: nat, tests: nat, assertions: nat)
    requires k < |evidence| && ReceiptsCounted(evidence[..k], skipped, tests, assertions)
    ensures ReceiptsCounted(evidence[..k + 1], skipped + evidence[k].receipt.skipped,
                            tests + evidence[k].receipt.tests, assertions + evidence[k].receipt.assertions)
  {
    TotalPrefix(evidence, k, (e: ShardEvidence) => e.receipt.skipped);
    TotalPrefix(evidence, k, (e: ShardEvidence) => e.receipt.tests);
    TotalPrefix(evidence, k, (e: ShardEvidence) => e.receipt.assertions);
  }

  method AggregateShardEvidence(q: Request, evidence: seq<ShardEvidence>)
    returns (r: Result<AggregateReceipt, AggregateError>)
    requires MapLike(q.skips)
    ensures r.Ok? <==> AggregateAccepts(q, evidence)
    ensures r.Ok? ==> r.value == AggregateReceipt(
      q.n, q.digest(q.manifest), |q.manifest|, |q.manifest|, |q.manifest|, SumSkips(q.skips),
      Total(evidence, (e: ShardEvidence) => e.receipt.tests),
      Total(evidence, (e: ShardEvidence) => e.receipt.assertions))
    // the checks across shards are implied by the checks within each shard
    ensures r.Err? ==> r.error != DuplicateAcrossShards && r.error != UnionIncomplete && r.error != SkipTotalOff
  {
    if q.n < 1 {
      return Err(InvalidTotal);
    }
    if q.manifest == [] {
      return Err(ManifestEmpty);
    }
    MembersOfDistinct(q.manifest);
    if |Members(q.manifest)| != |q.manifest| {
      return Err(ManifestDuplicate);
    }
    var valid := ValidateTerminalManifest(q.manifest, q.skips);
    if valid.Err? {
      return Err(AllowlistRefused(valid.error));
    }
    var failure := CheckHeaders(q.n, evidence);
    if failure.Some? {
      return Err(failure.value);
    }
    var sorted := Sort(evidence, ByIndex());
    HeadersIgnoreOrder(q, evidence, sorted);
    r := AggregateSorted(q, sorted, valid.value);
    TotalPermutation(sorted, evidence, (e: ShardEvidence) => e.receipt.tests);
    TotalPermutation(sorted, evidence, (e: ShardEvidence) => e.receipt.assertions);
  }

  method AggregateSorted(q: Request, sorted: seq<ShardEvidence>, expectedSkips: nat)
    returns (r: Result<AggregateReceipt, AggregateError>)
    requires RequestValid(q) && HeadersAccepted(q.n, sorted) && MapLike(q.skips) && expectedSkips == SumSkips(q.skips)
    ensures r.Ok? <==> AggregateAccepts(q, sorted)
    ensures r.Ok? ==> r.value == AggregateReceipt(
      q.n, q.digest(q.manifest), |q.manifest|, |q.manifest|, |q.manifest|, SumSkips(q.skips),
      Total(sorted, (e: ShardEvidence) => e.receipt.tests),
      Total(sorted, (e: ShardEvidence) => e.receipt.assertions))
    ensures r.Err? ==> r.error != DuplicateAcrossShards && r.error != UnionIncomplete && r.error != SkipTotalOff
  {
    var failure, union, skipped, tests, assertions := CheckShards(q, sorted);
    if failure.Some? {
      return Err(failure.value);
    }
    UnionIsManifest(q, sorted, union);
    if |union| != |q.manifest| || exists f :: f in q.manifest && f !in union {
      return Err(UnionIncomplete);
    }
    AggregateSkips(q, sorted);
    if skipped != expectedSkips {
      return Err(SkipTotalOff);
    }
    return Ok(AggregateReceipt(q.n, q.digest(q.manifest), |q.manifest|, |union|, |union|, skipped, tests, assertions));
  }

  lemma UnionIsManifest(q: Request, evidence: seq<ShardEvidence>, union: map<string, nat>)
    requires AggregateAccepts(q, evidence)
    requires forall f :: f in union <==> f in Concat(evidence)
    ensures |union| == |q.manifest| && forall f :: f in q.manifest ==> f in union
  {
    AcceptedCoversManifest(q, evidence);
    SameMembers(Concat(evidence), q.manifest);
    DistinctSize(q.manifest, union.Keys);
  }

  // ----- the order check

  ghost predicate NewlineFree(s: seq<string>) {
    forall f :: f in s ==> '\n' !in f
  }

  /** Lists of newline-free paths are told apart by their joined text. */
  lemma {:induction false} JoinInjective(a: seq<string>, b: seq<string>)
    requires NewlineFree(a) && NewlineFree(b) && |a| == |b|
    requires Join(a) == Join(b)
    ensures a == b
  {
    if |a| == 1 {
    } else if |a| > 1 {
      assert a[0] in a && b[0] in b;
      SplitAtNewline(a[0], Join(a[1..]), b[0], Join(b[1..]));
      assert a == [a[0]] + a[1..] && b == [b[0]] + b[1..];
      JoinInjective(a[1..], b[1..]);
    }
  }

  lemma SplitAtNewline(x: string, xs: string, y: string, ys: string)
    requires '\n' !in x && '\n' !in y && x + "\n" + xs == y + "\n" + ys
    ensures x == y && xs == ys
  {
    var s := x + "\n" + xs;
    assert s[|x|] == '\n' && s[|y|] == '\n';
    assert forall i :: 0 <= i < |x| ==> s[i] == x[i];
    assert forall i :: 0 <= i < |y| ==> s[i] == y[i];
    assert x == s[..|x|] && y == s[..|y|];
    assert xs == s[|x| + 1..] && ys == s[|y| + 1..];
  }

  /** Each accepted shard ran exactly its files, in order. */
  lemma AcceptedInOrder(q: Request, e: ShardEvidence)
    requires q.n >= 1 && ShardAccepted(q, e) && NewlineFree(q.manifest) && Distinct(q.manifest)
    ensures FilesOf(e.receipt) == ShardFiles(q.manifest, e.receipt.shardIndex, q.n, q.w)
  {
    var actual := FilesOf(e.receipt);
    var expected := ShardFiles(q.manifest, e.receipt.shardIndex, q.n, q.w);
    OwnedDistinct(q.manifest, Owners(q.manifest, q.n, q.w), e.receipt.shardIndex);
    SameMembersSameMultiset(actual, expected);
    assert |multiset(actual)| == |multiset(expected)|;
    JoinInjective(actual, expected);
  }

  lemma {:induction false} JoinAppend(a: seq<string>, b: seq<string>)
    requires a != [] && b != []
    ensures Join(a + b) == Join(a) + "\n" + Join(b)
  {
    if |a| == 1 {
      assert (a + b)[1..] == b;
    } else {
      JoinAppend(a[1..], b);
      assert (a + b)[1..] == a[1..] + b;
    }
  }

  /** A path and the same path twice around a newline: swapping the two leaves the joined text as it is. */
  lemma SwapKeepsJoin(front: seq<string>, path: string)
    requires front != []
    ensures var twice := path + "\n" + path; Join(front + [path, twice]) == Join(front + [twice, path])
  {
    var twice := path + "\n" + path;
    JoinAppend(front, [path, twice]);
    JoinAppend(front, [twice, path]);
    assert [path, twice] == [path] + [twice] && [twice, path] == [twice] + [path];
    JoinAppend([path], [twice]);
    JoinAppend([twice], [path]);
  }
}
