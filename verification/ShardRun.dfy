/** run-test-files-shard: one shard's run and the evidence it leaves for the aggregator. */
module ShardRun {
  // The clock, the digest, the test processes and the verdict of the final repository identity check are parameters.

  import opened Results
  import opened Sorting
  import opened ShardAssignment
  import opened SerialRun

  // ----- JUnit file names

  function DigitChar(d: nat): char
    requires d < 10
  {
    ('0' as int + d) as char
  }

  /** String(n) */
  function Digits(n: nat): string {
    if n < 10 then [DigitChar(n)] else Digits(n / 10) + [DigitChar(n % 10)]
  }

  /** text.padStart(4, '0') */
  function PadStart(text: string): string
    decreases 4 - |text|
  {
    if |text| >= 4 then text else PadStart("0" + text)
  }

  function JunitFileName(position: nat): string {
    "junit-" + PadStart(Digits(position + 1)) + ".xml"
  }

  /** The number a digit string stands for. */
  function DigitsValue(text: string): int {
    if text == [] then 0
    else 10 * DigitsValue(text[..|text| - 1]) + (text[|text| - 1] as int - '0' as int)
  }

  lemma {:induction false} DigitsRoundTrip(n: nat)
    ensures DigitsValue(Digits(n)) == n
  {
    if n >= 10 {
      DigitsRoundTrip(n / 10);
    }
  }

  lemma {:induction false} LeadingZero(text: string)
    ensures DigitsValue("0" + text) == DigitsValue(text)
  {
    if text != [] {
      LeadingZero(text[..|text| - 1]);
      assert ("0" + text)[..|text|] == "0" + text[..|text| - 1];
    }
  }

  lemma {:induction false} PaddedValue(text: string)
    ensures DigitsValue(PadStart(text)) == DigitsValue(text)
    decreases 4 - |text|
  {
    if |text| < 4 {
      PaddedValue("0" + text);
      LeadingZero(text);
    }
  }

  /** Different positions name different JUnit files, also past 9999. */
  lemma JunitFileNameInjective(a: nat, b: nat)
    requires JunitFileName(a) == JunitFileName(b)
    ensures a == b
  {
    var x, y := PadStart(Digits(a + 1)), PadStart(Digits(b + 1));
    assert |x| == |y|;
    assert x == JunitFileName(a)[6..6 + |x|] && y == JunitFileName(b)[6..6 + |y|];
    PaddedValue(Digits(a + 1));
    PaddedValue(Digits(b + 1));
    DigitsRoundTrip(a + 1);
    DigitsRoundTrip(b + 1);
  }

  // ----- receipts and evidence

  const SHARD_RECEIPT_SCHEMA_VERSION := 3
  const SHARD_RUNNER := "skillsmith-test-shard"

  datatype ShardFileSummary = ShardFileSummary(file: string, junitFile: string, exitCode: nat, tests: nat,
                                               skipped: nat, assertions: nat, durationMs: nat)

  datatype Status = Passed | Failed

  datatype ShardReceipt = ShardReceipt(schemaVersion: nat, runner: string, status: Status, shardIndex: nat,
                                       shardTotal: nat, manifestSha256: string, manifestSize: nat,
                                       assignedFiles: nat, files: seq<ShardFileSummary>, executed: nat,
                                       passed: nat, skipped: nat, tests: nat, assertions: nat,
                                       durationMs: nat)

  /** A shard's receipt and the files of its junit directory. */
  datatype ShardEvidence = ShardEvidence(receipt: ShardReceipt, junit: map<string, string>)

  lemma {:induction false} DigitsAreDecimal(n: nat)
    ensures |Digits(n)| >= 1 && forall i :: 0 <= i < |Digits(n)| ==> '0' <= Digits(n)[i] <= '9'
    ensures n > 0 ==> Digits(n)[0] != '0'
  {
    if n >= 10 {
      DigitsAreDecimal(n / 10);
    }
  }

  lemma {:induction false} PaddedDigits(text: string)
    requires forall i :: 0 <= i < |text| ==> '0' <= text[i] <= '9'
    ensures |PadStart(text)| == if |text| < 4 then 4 else |text|
    ensures forall i :: 0 <= i < |PadStart(text)| ==> '0' <= PadStart(text)[i] <= '9'
    ensures |text| >= 4 ==> PadStart(text) == text
    decreases 4 - |text|
  {
    if |text| < 4 {
      PaddedDigits("0" + text);
    }
  }

  /** The name at a position: its number counted from one, in decimal digits, at least four of them. */
  lemma JunitFileNameMeaning(position: nat) returns (digits: string)
    ensures JunitFileName(position) == "junit-" + digits + ".xml"
    ensures DigitsValue(digits) == position + 1 && |digits| >= 4
    ensures forall i :: 0 <= i < |digits| ==> '0' <= digits[i] <= '9'
    ensures |digits| > 4 ==> digits[0] != '0'
  {
    digits := PadStart(Digits(position + 1));
    DigitsAreDecimal(position + 1);
    PaddedDigits(Digits(position + 1));
    PaddedValue(Digits(position + 1));
    DigitsRoundTrip(position + 1);
  }

  lemma PaddedFurther(text: string, padded: string)
    requires |text| < 4 && padded == "0" + text
    ensures PadStart(text) == PadStart(padded)
  {
  }

  /** The first report and the forty-second. */
  lemma JunitFileNameExamples()
    ensures JunitFileName(0) == "junit-0001.xml" && JunitFileName(41) == "junit-0042.xml"
  {
    assert Digits(1) == "1" && Digits(4) == "4";
    assert 42 / 10 == 4 && 42 % 10 == 2 && DigitChar(2) == '2';
    assert Digits(42) == Digits(4) + [DigitChar(2)] == "42";
    PaddedFurther("1", "01");
    PaddedFurther("01", "001");
    PaddedFurther("001", "0001");
    PaddedFurther("42", "042");
    PaddedFurther("042", "0042");
    assert PadStart("0001") == "0001" && PadStart("0042") == "0042";
    assert "junit-" + "0001" + ".xml" == "junit-0001.xml" && "junit-" + "0042" + ".xml" == "junit-0042.xml";
  }

  type Digest = seq<string> -> string

  datatype ShardError =
    | NoFilesDiscovered
    | DuplicateDiscovered
    | ManifestRefused(manifestError: ManifestError)
    | NotAssignable(assignmentError: AssignmentError)
    | ZeroFilesAssigned
    | TestFailed(fileError: FileError)
    | ShortRun
    | RepositoryChanged

  // ----- what a run leaves behind

  function FileEntry(suite: Suite, file: string, position: nat): ShardFileSummary {
    var summary := suite.Summary(file);
    ShardFileSummary(file, JunitFileName(position), 0, summary.tests, summary.skipped, summary.assertions,
                     suite.run(file).durationMs)
  }

  /** The receipt entries of files that passed, in order. */
  function Entries(suite: Suite, files: seq<string>): (r: seq<ShardFileSummary>)
    ensures |r| == |files|
    ensures forall p :: 0 <= p < |files| ==> r[p] == FileEntry(suite, files[p], p)
  {
    seq(|files|, p requires 0 <= p < |files| => FileEntry(suite, files[p], p))
  }

  /** The junit directory after `files` ran. */
  function Reports(suite: Suite, files: seq<string>): map<string, string> {
    if files == [] then map[]
    else
      var k := |files| - 1;
      var before := Reports(suite, files[..k]);
      match suite.run(files[k]).report
      case Some(text) => before[JunitFileName(k) := text]
      case None => before
  }

  /** The junit directory holds exactly the report each position left, under its own name. */
  lemma {:induction false} ReportAt(suite: Suite, files: seq<string>, p: nat)
    requires p < |files|
    ensures JunitFileName(p) in Reports(suite, files) <==> suite.run(files[p]).report.Some?
    ensures JunitFileName(p) in Reports(suite, files)
        ==> suite.run(files[p]).report == Some(Reports(suite, files)[JunitFileName(p)])
  {
    var k := |files| - 1;
    if p < k {
      ReportAt(suite, files[..k], p);
      if JunitFileName(p) == JunitFileName(k) {
        JunitFileNameInjective(p, k);
      }
    } else {
      if JunitFileName(k) in Reports(suite, files[..k]) {
        ReportsNames(suite, files[..k], JunitFileName(k));
        var q :| 0 <= q < k && JunitFileName(q) == JunitFileName(k);
        JunitFileNameInjective(q, k);
      }
    }
  }

  lemma {:induction false} ReportsNames(suite: Suite, files: seq<string>, name: string)
    requires name in Reports(suite, files)
    ensures exists p :: 0 <= p < |files| && JunitFileName(p) == name
  {
    var k := |files| - 1;
    if name != JunitFileName(k) {
      ReportsNames(suite, files[..k], name);
    }
  }

  /** The receipt of a shard that ran these files and found them all to pass. */
  function ReceiptOf(manifest: seq<string>, shardIndex: nat, n: nat, suite: Suite, digest: Digest, shardMs: nat,
                     selection: seq<string>): ShardReceipt
  {
    ShardReceipt(SHARD_RECEIPT_SCHEMA_VERSION, SHARD_RUNNER, Passed, shardIndex, n, digest(manifest), |manifest|,
                 |selection|, Entries(suite, selection), |selection|, |selection|, Total(selection, suite.Skipped()),
                 Total(selection, suite.Tests()), Total(selection, suite.Assertions()), shardMs)
  }

  function EvidenceOf(manifest: seq<string>, shardIndex: nat, n: nat, suite: Suite, digest: Digest, shardMs: nat,
                      selection: seq<string>): ShardEvidence
  {
    ShardEvidence(ReceiptOf(manifest, shardIndex, n, suite, digest, shardMs, selection), Reports(suite, selection))
  }

  /** The evidence of a shard whose own files all pass. */
  function PassedEvidence(manifest: seq<string>, shardIndex: nat, n: nat, w: ShardWeights, suite: Suite,
                          digest: Digest, shardMs: nat): ShardEvidence
    requires n >= 1
  {
    EvidenceOf(manifest, shardIndex, n, suite, digest, shardMs, ShardFiles(manifest, shardIndex, n, w))
  }

  /** What the evidence of files that pass has on record, field by field. */
  lemma EvidenceTells(manifest: seq<string>, shardIndex: nat, n: nat, suite: Suite, digest: Digest, shardMs: nat,
                      ran: seq<string>)
    ensures var r := EvidenceOf(manifest, shardIndex, n, suite, digest, shardMs, ran).receipt;
            && r.schemaVersion == 3 && r.runner == "skillsmith-test-shard" && r.status == Passed
            && r.shardIndex == shardIndex && r.shardTotal == n && r.manifestSha256 == digest(manifest)
            && r.manifestSize == |manifest| && r.durationMs == shardMs
            && r.assignedFiles == r.executed == r.passed == |ran| == |r.files|
  {
  }

  /** What an entry says of a file that passes: its name, its run, and the numbers of its report. */
  lemma EntryTells(suite: Suite, ran: seq<string>, p: nat)
    requires p < |ran| && suite.Passes(ran[p])
    ensures var entry, run := Entries(suite, ran)[p], suite.run(ran[p]);
            && entry.file == ran[p] && entry.exitCode == run.exitCode == 0 && entry.durationMs == run.durationMs
            && suite.parse(ReportText(run), ran[p]).Some?
            && var summary := suite.parse(ReportText(run), ran[p]).value;
               && entry.tests == summary.tests && entry.skipped == summary.skipped && entry.assertions == summary.assertions
  {
  }

  ghost predicate ShardPasses(manifest: seq<string>, shardIndex: int, n: int, w: ShardWeights, suite: Suite) {
    && manifest != [] && !RefusedAsRepeated(manifest)
    && ValidateTerminalManifest(manifest, suite.skips).Ok?
    && 1 <= shardIndex <= n
    && ShardFiles(manifest, shardIndex, n, w) != []
    && forall f :: f in ShardFiles(manifest, shardIndex, n, w) ==> suite.Passes(f)
  }

  /** The receipt after some files passed and `executed` ran. */
  ghost predicate ReceiptSoFar(receipt: ShardReceipt, suite: Suite, done: seq<string>, executed: nat) {
    && receipt.files == Entries(suite, done)
    && receipt.executed == executed && receipt.passed == |done|
    && receipt.skipped == Total(done, suite.Skipped())
    && receipt.tests == Total(done, suite.Tests())
    && receipt.assertions == Total(done, suite.Assertions())
  }

  /** The receipt of a shard that stopped at position `p` still tells what ran before. */
  ghost predicate StoppedAt(evidence: ShardEvidence, suite: Suite, selection: seq<string>, p: nat, e: FileError) {
    && FirstFailure(selection, suite, p, e)
    && evidence.receipt.status == Failed
    && ReceiptSoFar(evidence.receipt, suite, selection[..p], p + 1)
    && evidence.junit == Reports(suite, selection[..p + 1])
  }

  /** What a receipt counts so far are the sums of its own entries. */
  lemma ReceiptAddsUp(receipt: ShardReceipt, suite: Suite, done: seq<string>, executed: nat)
    requires ReceiptSoFar(receipt, suite, done, executed)
    ensures receipt.tests == Total(receipt.files, (entry: ShardFileSummary) => entry.tests)
    ensures receipt.assertions == Total(receipt.files, (entry: ShardFileSummary) => entry.assertions)
    ensures receipt.skipped == Total(receipt.files, (entry: ShardFileSummary) => entry.skipped)
  {
    TotalByPlace(receipt.files, done, (entry: ShardFileSummary) => entry.tests, suite.Tests());
    TotalByPlace(receipt.files, done, (entry: ShardFileSummary) => entry.assertions, suite.Assertions());
    TotalByPlace(receipt.files, done, (entry: ShardFileSummary) => entry.skipped, suite.Skipped());
  }

  /** The evidence of a shard that stopped: entries of the files before, reports with the one that failed. */
  lemma StoppedTells(evidence: ShardEvidence, suite: Suite, selection: seq<string>, p: nat, e: FileError)
    requires StoppedAt(evidence, suite, selection, p, e)
    ensures p < |selection| && suite.Check(selection[p]) == Err(e)
    ensures evidence.receipt.status == Failed && evidence.receipt.executed == p + 1
    ensures evidence.receipt.passed == |evidence.receipt.files| == p
    ensures forall i :: 0 <= i < p ==> evidence.receipt.files[i].file == selection[i] && suite.Passes(selection[i])
    ensures forall i :: 0 <= i <= p ==>
              if JunitFileName(i) in evidence.junit
              then suite.run(selection[i]).report == Some(evidence.junit[JunitFileName(i)])
              else suite.run(selection[i]).report.None?
  {
    assert forall i :: 0 <= i < p ==> selection[..p][i] == selection[i];
    forall i | 0 <= i <= p
      ensures if JunitFileName(i) in evidence.junit
              then suite.run(selection[i]).report == Some(evidence.junit[JunitFileName(i)])
              else suite.run(selection[i]).report.None?
    {
      ReportAt(suite, selection[..p + 1], i);
    }
  }

  /** The updates of the receipt after one more file passed. */
  function RecordPass(receipt: ShardReceipt, entry: ShardFileSummary): ShardReceipt {
    receipt.(files := receipt.files + [entry],
             passed := receipt.passed + 1,
             skipped := receipt.skipped + entry.skipped,
             tests := receipt.tests + entry.tests,
             assertions := receipt.assertions + entry.assertions)
  }

  lemma ReceiptNext(receipt: ShardReceipt, suite: Suite, files: seq<string>, p: nat)
    requires p < |files| && ReceiptSoFar(receipt, suite, files[..p], p + 1)
    ensures ReceiptSoFar(RecordPass(receipt, FileEntry(suite, files[p], p)), suite, files[..p + 1], p + 1)
  {
    TotalPrefix(files, p, suite.Skipped());
    TotalPrefix(files, p, suite.Tests());
    TotalPrefix(files, p, suite.Assertions());
    assert Entries(suite, files[..p]) + [FileEntry(suite, files[p], p)] == Entries(suite, files[..p + 1]);
  }

  /** Only the counters and the entries of the receipt have changed. */
  ghost predicate SameHeader(receipt: ShardReceipt, blank: ShardReceipt) {
    receipt == blank.(files := receipt.files, executed := receipt.executed, passed := receipt.passed,
                      skipped := receipt.skipped, tests := receipt.tests, assertions := receipt.assertions)
  }

  lemma ReportsNext(suite: Suite, files: seq<string>, p: nat)
    requires p < |files|
    ensures Reports(suite, files[..p + 1]) == match suite.run(files[p]).report
                                              case Some(text) => Reports(suite, files[..p])[JunitFileName(p) := text]
                                              case None => Reports(suite, files[..p])
  {
    assert files[..p + 1][..p] == files[..p];
  }

  /** One turn of main's loop: run a file, check it, record it. */
  method RunOne(selection: seq<string>, p: nat, suite: Suite, before: ShardReceipt, reports: map<string, string>)
    returns (receipt: ShardReceipt, junit: map<string, string>, error: Option<FileError>)
    requires p < |selection|
    requires ReceiptSoFar(before, suite, selection[..p], p) && reports == Reports(suite, selection[..p])
    ensures SameHeader(receipt, before) && junit == Reports(suite, selection[..p + 1])
    ensures match suite.Check(selection[p])
            case Ok(_) => error == None && ReceiptSoFar(receipt, suite, selection[..p + 1], p + 1)
            case Err(e) => error == Some(e) && ReceiptSoFar(receipt, suite, selection[..p], p + 1)
  {
    var file := selection[p];
    var run := suite.run(file);
    junit := reports;
    ReportsNext(suite, selection, p);
    if run.report.Some? {
      junit := junit[JunitFileName(p) := run.report.value];
    }
    receipt := before.(executed := before.executed + 1);
    var checked := CheckFile(file, run, Expected(suite.skips, file), suite.parse);
    if checked.Err? {
      return receipt, junit, Some(checked.error);
    }
    ReceiptNext(receipt, suite, selection, p);
    var summary := checked.value;
    receipt := RecordPass(receipt, ShardFileSummary(file, JunitFileName(p), run.exitCode, summary.tests,
                                                    summary.skipped, summary.assertions, run.durationMs));
    error := None;
  }

  /** What the first `p` files of a selection left behind. */
  ghost predicate RunSoFar(receipt: ShardReceipt, junit: map<string, string>, suite: Suite, selection: seq<string>, p: nat)
    requires p <= |selection|
  {
    && ReceiptSoFar(receipt, suite, selection[..p], p) && junit == Reports(suite, selection[..p])
    && forall q :: 0 <= q < p ==> suite.Passes(selection[q])
  }

  /** One turn, as the loop sees it. */
  method RunTurn(selection: seq<string>, p: nat, suite: Suite, before: ShardReceipt, reports: map<string, string>)
    returns (receipt: ShardReceipt, junit: map<string, string>, error: Option<FileError>)
    requires p < |selection| && RunSoFar(before, reports, suite, selection, p) && before.status == Failed
    ensures SameHeader(receipt, before)
    ensures error.None? ==> RunSoFar(receipt, junit, suite, selection, p + 1)
    ensures error.Some? ==> StoppedAt(ShardEvidence(receipt, junit), suite, selection, p, error.value)
  {
    receipt, junit, error := RunOne(selection, p, suite, before, reports);
  }

  /** The loop of main over the assigned files. */
  method RunAssigned(selection: seq<string>, suite: Suite, blank: ShardReceipt)
    returns (receipt: ShardReceipt, junit: map<string, string>, error: Option<FileError>)
    requires blank.status == Failed && ReceiptSoFar(blank, suite, [], 0)
    ensures error.None? <==> forall f :: f in selection ==> suite.Passes(f)
    ensures SameHeader(receipt, blank)
    ensures error.None? ==> ReceiptSoFar(receipt, suite, selection, |selection|) && junit == Reports(suite, selection)
    ensures error.Some? ==> exists p :: StoppedAt(ShardEvidence(receipt, junit), suite, selection, p, error.value)
  {
    receipt, junit := blank, map[];
    assert selection[..0] == [];
    for p := 0 to |selection|
      invariant SameHeader(receipt, blank) && RunSoFar(receipt, junit, suite, selection, p)
    {
      receipt, junit, error := RunTurn(selection, p, suite, receipt, junit);
      if error.Some? {
        assert selection[p] in selection;
        return;
      }
    }
    assert selection[..|selection|] == selection;
    error := None;
  }

  /** The checks before the first file runs: the files to run, or why there are none. */
  method SelectRun(manifest: seq<string>, shardIndex: int, shardTotal: int, w: ShardWeights, skips: SkipList)
    returns (r: Result<seq<string>, ShardError>)
    ensures r.Ok? <==>
      && manifest != [] && !RefusedAsRepeated(manifest) && ValidateTerminalManifest(manifest, skips).Ok?
      && 1 <= shardIndex <= shardTotal && ShardFiles(manifest, shardIndex, shardTotal, w) != []
    ensures r.Ok? ==> r.value == ShardFiles(manifest, shardIndex, shardTotal, w)
    ensures r.Err? ==> !r.error.TestFailed? && !r.error.ShortRun? && !r.error.RepositoryChanged?
  {
    if manifest == [] {
      return Err(NoFilesDiscovered);
    }
    var duplicate := FindRepeat(manifest);
    if duplicate.Some? && duplicate.value != "" {
      return Err(DuplicateDiscovered);
    }
    var valid := ValidateTerminalManifest(manifest, skips);
    if valid.Err? {
      return Err(ManifestRefused(valid.error));
    }
    var selected := SelectShardFiles(manifest, shardIndex, shardTotal, w);
    if selected.Err? {
      return Err(NotAssignable(selected.error));
    }
    if selected.value == [] {
      return Err(ZeroFilesAssigned);
    }
    return Ok(selected.value);
  }

  /** What a shard writes whose tests passed: a passed receipt only if the repository did not change. */
  function WrittenEvidence(manifest: seq<string>, shardIndex: nat, n: nat, w: ShardWeights, suite: Suite,
                           digest: Digest, shardMs: nat, kept: bool): ShardEvidence
    requires n >= 1
  {
    var e := PassedEvidence(manifest, shardIndex, n, w, suite, digest, shardMs);
    if kept then e else e.(receipt := e.receipt.(status := Failed))
  }

  /** The errors tell of the first file that failed, and the evidence of the files before it. */
  ghost predicate TellsFailures(evidence: ShardEvidence, errors: seq<ShardError>, suite: Suite, selection: seq<string>) {
    forall e :: TestFailed(e) in errors ==> exists p :: StoppedAt(evidence, suite, selection, p, e)
  }

  /** The run of the assigned files, and what becomes of receipt and errors afterwards. */
  method RunSelection(selection: seq<string>, suite: Suite, blank: ShardReceipt, shardMs: nat, kept: bool)
    returns (evidence: ShardEvidence, errors: seq<ShardError>)
    requires blank.status == Failed && ReceiptSoFar(blank, suite, [], 0)
    ensures errors == [] <==> kept && forall f :: f in selection ==> suite.Passes(f)
    ensures evidence.receipt.status == Passed <==> errors == []
    ensures SameHeader(evidence.receipt, blank.(durationMs := shardMs, status := evidence.receipt.status))
    ensures (forall f :: f in selection ==> suite.Passes(f)) ==>
      ReceiptSoFar(evidence.receipt, suite, selection, |selection|) && evidence.junit == Reports(suite, selection)
    ensures RepositoryChanged in errors <==> !kept
    ensures ShortRun !in errors && TellsFailures(evidence, errors, suite, selection)
  {
    var receipt, junit, failure := RunAssigned(selection, suite, blank);
    receipt := receipt.(durationMs := shardMs);
    if failure.Some? {
      errors := [TestFailed(failure.value)];
      ghost var p :| StoppedAt(ShardEvidence(receipt.(durationMs := blank.durationMs), junit), suite, selection, p, failure.value);
      assert StoppedAt(ShardEvidence(receipt, junit), suite, selection, p, failure.value);
    } else {
      errors := if receipt.passed != |selection| then [ShortRun] else [];
    }
    if !kept {
      errors := errors + [RepositoryChanged];
    }
    if errors == [] {
      receipt := receipt.(status := Passed);
    }
    evidence := ShardEvidence(receipt, junit);
  }

  /**
   main of the shard runner, from the discovered manifest to the evidence it writes and the errors
   it reports. `kept` is the verdict of finalizeSuccessfulRun.
   */
  method RunShard(manifest: seq<string>, shardIndex: int, shardTotal: int, w: ShardWeights, suite: Suite,
                  digest: Digest, shardMs: nat, kept: bool)
    returns (evidence: Option<ShardEvidence>, errors: seq<ShardError>)
    ensures errors == [] <==> ShardPasses(manifest, shardIndex, shardTotal, w, suite) && kept
    ensures ShardPasses(manifest, shardIndex, shardTotal, w, suite)
        ==> evidence == Some(WrittenEvidence(manifest, shardIndex, shardTotal, w, suite, digest, shardMs, kept))
    ensures evidence.Some? ==> (evidence.value.receipt.status == Passed <==> errors == [])
    ensures evidence.Some? ==> (RepositoryChanged in errors <==> !kept) && 1 <= shardIndex <= shardTotal
    ensures evidence.Some? ==> TellsFailures(evidence.value, errors, suite, ShardFiles(manifest, shardIndex, shardTotal, w))
    ensures evidence.None? ==> forall e :: TestFailed(e) !in errors
    ensures ShortRun !in errors
  {
    var selected := SelectRun(manifest, shardIndex, shardTotal, w, suite.skips);
    if selected.Err? {
      return None, [selected.error];
    }
    var selection := selected.value;
    var blank := ShardReceipt(SHARD_RECEIPT_SCHEMA_VERSION, SHARD_RUNNER, Failed, shardIndex, shardTotal,
                              digest(manifest), |manifest|, |selection|, [], 0, 0, 0, 0, 0, 0);
    assert Entries(suite, []) == [];
    var written: ShardEvidence;
    written, errors := RunSelection(selection, suite, blank, shardMs, kept);
    evidence := Some(written);
  }
}
