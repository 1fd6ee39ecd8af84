/** run-test-files-serial: the skip allowlist, the check of one file, and the serial runner. */
module SerialRun {
  // JUnit parsing is an abstract partial function from a report and the expected file to a summary.

  import opened Results
  import opened Sorting
  import opened ShardAssignment

  /** A JavaScript Map of files to skip counts, in insertion order. */
  type SkipList = seq<(string, nat)>

  ghost predicate MapLike(skips: SkipList) {
    forall i, j :: 0 <= i < j < |skips| ==> skips[i].0 != skips[j].0
  }

  function Get(skips: SkipList, file: string): (r: Option<nat>) {
    if skips == [] then None
    else if skips[|skips| - 1].0 == file then Some(skips[|skips| - 1].1)
    else Get(skips[..|skips| - 1], file)
  }

  /** allowedSkips.get(file) ?? 0 */
  function Expected(skips: SkipList, file: string): nat {
    match Get(skips, file)
    case Some(count) => count
    case None => 0
  }

  function SumSkips(skips: SkipList): nat {
    Total(skips, (entry: (string, nat)) => entry.1)
  }

  const EXPECTED_ALLOWED_SKIP_FILES := 8
  const EXPECTED_ALLOWED_SKIPS := 42
  const EXPECTED_ENV_SKIP_FILES := 3

  const ALLOWED_LIVE_E2E_SKIPS: SkipList := [
    ("packages/core/tests/verify/live-e2e.test.ts", 11),
    ("packages/core/tests/acquire/copy-replacement-recovery.test.ts", 5),
    ("packages/cli/tests/commands/install-live.test.ts", 3),
    ("packages/cli/tests/commands/verify-live.test.ts", 3),
    ("packages/cli/tests/commands/flip-live.test.ts", 2),
    ("packages/cli/tests/commands/install-remote-live.test.ts", 4),
    ("packages/cli/tests/commands/dev-source-live.test.ts", 8),
    ("packages/cli/tests/commands/acquire-journal-guidance.test.ts", 6)
  ]

  /** The environment-gated files with their counts when the gate is closed. */
  const ENV_SKIPS: SkipList := [
    ("packages/cli/tests/commands/install-root-permission.test.ts", 5),
    ("packages/cli/tests/commands/install-preserved-backup.test.ts", 1),
    ("tests/ergonomics/phase/EWP-P6-TS03.test.ts", 1)
  ]

  const PINNED_CAPABILITY_SKIPS: SkipList :=
    ALLOWED_LIVE_E2E_SKIPS + [(ENV_SKIPS[0].0, 0), (ENV_SKIPS[1].0, 0), (ENV_SKIPS[2].0, 0)]

  datatype ManifestError = AllowlistSize | FrozenTotal | LiveDrift | EnvironmentDrift | MissingAllowlisted

  /** Eleven entries: the live ones with their counts, the gated ones with theirs or zero. */
  ghost predicate AllowlistInPlace(allowed: SkipList) {
    && |allowed| == EXPECTED_ALLOWED_SKIP_FILES + EXPECTED_ENV_SKIP_FILES
    && (forall entry :: entry in ALLOWED_LIVE_E2E_SKIPS ==> Get(allowed, entry.0) == Some(entry.1))
    && forall entry :: entry in ENV_SKIPS ==> Get(allowed, entry.0) in {Some(0), Some(entry.1)}
  }

  /** The total number of skips to expect, or what is wrong with the allowlist or the manifest. */
  function ValidateTerminalManifest(files: seq<string>, allowed: SkipList): (r: Result<nat, ManifestError>)
    ensures r.Ok? <==> AllowlistInPlace(allowed) && forall entry :: entry in allowed ==> entry.0 in files
    ensures r.Ok? ==> r.value == SumSkips(allowed)
    ensures r == Err(MissingAllowlisted) <==> AllowlistInPlace(allowed) && exists entry :: entry in allowed && entry.0 !in files
  {
    assert SumSkips(ALLOWED_LIVE_E2E_SKIPS) == EXPECTED_ALLOWED_SKIPS by {
      PinnedTotals();
    }
    if |allowed| != EXPECTED_ALLOWED_SKIP_FILES + EXPECTED_ENV_SKIP_FILES then Err(AllowlistSize)
    else if SumSkips(ALLOWED_LIVE_E2E_SKIPS) != EXPECTED_ALLOWED_SKIPS then Err(FrozenTotal)
    else if exists entry :: entry in ALLOWED_LIVE_E2E_SKIPS && Get(allowed, entry.0) != Some(entry.1) then Err(LiveDrift)
    else if exists entry :: entry in ENV_SKIPS && Get(allowed, entry.0) != Some(0) && Get(allowed, entry.0) != Some(entry.1)
    then Err(EnvironmentDrift)
    else if exists entry :: entry in allowed && entry.0 !in files then Err(MissingAllowlisted)
    else Ok(SumSkips(allowed))
  }

  lemma TotalPrefix<A>(s: seq<A>, k: nat, value: A -> nat)
    requires k < |s|
    ensures Total(s[..k + 1], value) == Total(s[..k], value) + value(s[k])
  {
    assert s[..k + 1][..k] == s[..k];
  }

  lemma {:induction false} GetAt(skips: SkipList, i: nat)
    requires MapLike(skips) && i < |skips|
    ensures Get(skips, skips[i].0) == Some(skips[i].1)
  {
    if i < |skips| - 1 {
      GetAt(skips[..|skips| - 1], i);
    }
  }

  lemma PinnedTotals()
    ensures SumSkips(ALLOWED_LIVE_E2E_SKIPS) == EXPECTED_ALLOWED_SKIPS
    ensures SumSkips(PINNED_CAPABILITY_SKIPS) == EXPECTED_ALLOWED_SKIPS
  {
    var live := ALLOWED_LIVE_E2E_SKIPS;
    var count := (entry: (string, nat)) => entry.1;
    for k := 0 to |live|
      invariant Total(live[..k], count) == [0, 11, 16, 19, 22, 24, 28, 36, 42][k]
    {
      TotalPrefix(live, k, count);
    }
    assert live[..|live|] == live;
    TotalAgree(live, count, (entry: (string, nat)) => entry.1);
    var gated := [(ENV_SKIPS[0].0, 0), (ENV_SKIPS[1].0, 0), (ENV_SKIPS[2].0, 0)];
    TotalAppend(live, gated, (entry: (string, nat)) => entry.1);
    TotalZeros(gated, (entry: (string, nat)) => entry.1);
  }

  lemma {:induction false} TotalZeros<A>(s: seq<A>, value: A -> nat)
    requires forall x :: x in s ==> value(x) == 0
    ensures Total(s, value) == 0
  {
    if s != [] {
      TotalZeros(s[..|s| - 1], value);
      assert s[|s| - 1] in s;
    }
  }

  lemma PinnedIsMap()
    ensures MapLike(PINNED_CAPABILITY_SKIPS)
  {
  }

  lemma PinnedLive(entry: (string, nat))
    requires entry in ALLOWED_LIVE_E2E_SKIPS
    ensures Get(PINNED_CAPABILITY_SKIPS, entry.0) == Some(entry.1)
  {
    PinnedIsMap();
    var i :| 0 <= i < |ALLOWED_LIVE_E2E_SKIPS| && ALLOWED_LIVE_E2E_SKIPS[i] == entry;
    GetAt(PINNED_CAPABILITY_SKIPS, i);
  }

  lemma PinnedGate(entry: (string, nat))
    requires entry in ENV_SKIPS
    ensures Get(PINNED_CAPABILITY_SKIPS, entry.0) == Some(0)
  {
    PinnedIsMap();
    var i :| 0 <= i < |ENV_SKIPS| && ENV_SKIPS[i] == entry;
    GetAt(PINNED_CAPABILITY_SKIPS, |ALLOWED_LIVE_E2E_SKIPS| + i);
  }

  lemma PinnedInPlace()
    ensures AllowlistInPlace(PINNED_CAPABILITY_SKIPS)
  {
    forall entry | entry in ALLOWED_LIVE_E2E_SKIPS
      ensures Get(PINNED_CAPABILITY_SKIPS, entry.0) == Some(entry.1)
    {
      PinnedLive(entry);
    }
    forall entry | entry in ENV_SKIPS
      ensures Get(PINNED_CAPABILITY_SKIPS, entry.0) == Some(0)
    {
      PinnedGate(entry);
    }
  }

  /** The pinned allowlist is a Map, passes its own drift checks and promises 42 skips. */
  lemma PinnedSkips(files: seq<string>)
    ensures MapLike(PINNED_CAPABILITY_SKIPS)
    ensures SumSkips(PINNED_CAPABILITY_SKIPS) == EXPECTED_ALLOWED_SKIPS
    ensures ValidateTerminalManifest(files, PINNED_CAPABILITY_SKIPS)
         == if forall entry :: entry in PINNED_CAPABILITY_SKIPS ==> entry.0 in files
            then Ok(EXPECTED_ALLOWED_SKIPS) else Err(MissingAllowlisted)
  {
    PinnedIsMap();
    PinnedTotals();
    PinnedInPlace();
  }

  datatype JUnitSummary = JUnitSummary(assertions: nat, failures: nat, skipped: nat, tests: nat)

  type Parser = (string, string) -> Option<JUnitSummary>

  /** What a test process leaves behind: its exit code, its report file if any, and how long it took. */
  datatype FileRun = FileRun(exitCode: nat, report: Option<string>, durationMs: nat)

  /** existsSync(reportPath) ? readFileSync(reportPath) : '' */
  function ReportText(run: FileRun): string {
    match run.report
    case Some(text) => text
    case None => ""
  }

  datatype FileError =
    | Exited(file: string, exitCode: nat)
    | BadReport(file: string)
    | ReportedFailures(file: string, failures: nat)
    | UnexpectedSkips(file: string, skipped: nat, expected: nat)

  /** The checks both runners make after a test process ended, in their order. */
  function CheckFile(file: string, run: FileRun, expected: nat, parse: Parser): (r: Result<JUnitSummary, FileError>)
    ensures r.Ok? <==>
      && run.exitCode == 0
      && parse(ReportText(run), file).Some?
      && parse(ReportText(run), file).value.failures == 0
      && parse(ReportText(run), file).value.skipped == expected
    ensures r.Ok? ==> Some(r.value) == parse(ReportText(run), file)
  {
    if run.exitCode != 0 then Err(Exited(file, run.exitCode))
    else
      match parse(ReportText(run), file)
      case None => Err(BadReport(file))
      case Some(summary) =>
        if summary.failures != 0 then Err(ReportedFailures(file, summary.failures))
        else if summary.skipped != expected then Err(UnexpectedSkips(file, summary.skipped, expected))
        else Ok(summary)
  }

  /** The tests as the runners see them: how each file runs, and how reports parse. */
  datatype Suite = Suite(run: string -> FileRun, parse: Parser, skips: SkipList) {
    function Check(file: string): Result<JUnitSummary, FileError> {
      CheckFile(file, run(file), Expected(skips, file), parse)
    }

    predicate Passes(file: string) {
      Check(file).Ok?
    }

    /** The summary of a file, all zeros when it does not pass. */
    function Summary(file: string): JUnitSummary {
      match Check(file)
      case Ok(summary) => summary
      case Err(_) => JUnitSummary(0, 0, 0, 0)
    }

    function Tests(): string -> nat { file => Summary(file).tests }

    function Assertions(): string -> nat { file => Summary(file).assertions }

    function Skipped(): string -> nat { file => Summary(file).skipped }
  }

  datatype SerialReceipt = SerialReceipt(assertions: nat, discovered: nat, duplicates: nat, executed: nat,
                                         passed: nat, skipped: nat, tests: nat)

  datatype SerialError =
    | EmptyManifest
    | DuplicateFile
    | BadManifest(manifestError: ManifestError)
    | FileFailed(fileError: FileError)
    | SerialSkipsOff

  /** files.find((file, index) => files.indexOf(file) !== index): the first entry that is there already. */
  ghost predicate IsFirstRepeat(files: seq<string>, i: nat) {
    && i < |files| && files[i] in files[..i]
    && forall j :: 0 <= j < i ==> files[j] !in files[..j]
  }

  /** The guard refuses a manifest whose first repeated entry is not the empty string: that one is falsy. */
  ghost predicate RefusedAsRepeated(files: seq<string>) {
    exists i: nat :: IsFirstRepeat(files, i) && files[i] != ""
  }

  function SkipTotal(files: seq<string>, suite: Suite): nat {
    Total(files, suite.Skipped())
  }

  ghost predicate SerialAccepts(files: seq<string>, suite: Suite) {
    && files != [] && !RefusedAsRepeated(files)
    && ValidateTerminalManifest(files, suite.skips).Ok?
    && (forall f :: f in files ==> suite.Passes(f))
    && SkipTotal(files, suite) == SumSkips(suite.skips)
  }

  /** Every file before position `i` passes and the one there fails as `e` says. */
  ghost predicate FirstFailure(files: seq<string>, suite: Suite, i: nat, e: FileError) {
    && i < |files| && suite.Check(files[i]) == Err(e)
    && forall j :: 0 <= j < i ==> suite.Passes(files[j])
  }

  method FindRepeat(files: seq<string>) returns (r: Option<string>)
    ensures r.Some? ==> exists i: nat :: IsFirstRepeat(files, i) && r.value == files[i]
    ensures r.None? <==> Distinct(files)
    ensures (r.Some? && r.value != "") <==> RefusedAsRepeated(files)
  {
    for i := 0 to |files|
      invariant forall j :: 0 <= j < i ==> files[j] !in files[..j]
    {
      if files[i] in files[..i] {
        OneFirstRepeat(files, i);
        return Some(files[i]);
      }
    }
    NoRepeat(files);
    return None;
  }

  lemma OneFirstRepeat(files: seq<string>, i: nat)
    requires IsFirstRepeat(files, i)
    ensures forall k: nat :: IsFirstRepeat(files, k) ==> k == i
    ensures !Distinct(files)
  {
    var j :| 0 <= j < i && files[j] == files[i];
  }

  lemma NoRepeat(files: seq<string>)
    requires forall j :: 0 <= j < |files| ==> files[j] !in files[..j]
    ensures Distinct(files) && !RefusedAsRepeated(files)
  {
    forall i, j | 0 <= i < j < |files|
      ensures files[i] != files[j]
    {
      assert files[..j][i] == files[i];
    }
  }

  lemma RefusedMeansRepeat(files: seq<string>)
    requires RefusedAsRepeated(files)
    ensures !Distinct(files)
  {
    var i: nat :| IsFirstRepeat(files, i) && files[i] != "";
    OneFirstRepeat(files, i);
  }

  /** Without empty paths, exactly the manifests that repeat an entry are refused. */
  lemma RefusedWithoutEmptyPaths(files: seq<string>)
    ensures Distinct(files) ==> !RefusedAsRepeated(files)
    ensures "" !in files && !Distinct(files) ==> RefusedAsRepeated(files)
  {
    if RefusedAsRepeated(files) {
      RefusedMeansRepeat(files);
    } else if !Distinct(files) {
      var i := FirstRepeatExists(files);
      assert files[i] in files;
    }
  }

  lemma DistinctSnoc(files: seq<string>, last: string)
    requires Distinct(files) && last !in files
    ensures Distinct(files + [last])
  {
  }

  lemma {:induction false} FirstRepeatExists(files: seq<string>) returns (i: nat)
    requires !Distinct(files)
    ensures IsFirstRepeat(files, i)
  {
    var front, last := files[..|files| - 1], files[|files| - 1];
    assert files == front + [last];
    if !Distinct(front) {
      i := FirstRepeatExists(front);
      assert front[..i] == files[..i];
      assert forall j :: 0 <= j < i ==> front[..j] == files[..j];
    } else {
      i := |front|;
      if last !in front {
        DistinctSnoc(front, last);
      }
      forall j | 0 <= j < i
        ensures files[j] !in files[..j]
      {
        assert files[..j] == front[..j] && files[j] == front[j];
      }
    }
  }

  function Members(files: seq<string>): (r: set<string>)
    ensures |r| <= |files|
  {
    MembersBound(files);
    set f <- files
  }

  lemma {:induction false} MembersBound(files: seq<string>)
    ensures var members := set f <- files; |members| <= |files|
  {
    if files != [] {
      var front, last := files[..|files| - 1], files[|files| - 1];
      MembersBound(front);
      assert files == front + [last];
      assert (set f <- files) == (set f <- front) + {last};
    }
  }

  /** The receipt of a manifest whose files all pass. */
  function FullReceipt(files: seq<string>, suite: Suite): SerialReceipt {
    SerialReceipt(Total(files, suite.Assertions()), |files|, |files| - |Members(files)|, |files|, |files|,
                  SkipTotal(files, suite), Total(files, suite.Tests()))
  }

  lemma DistinctSkips(files: seq<string>, suite: Suite)
    requires MapLike(suite.skips) && ValidateTerminalManifest(files, suite.skips).Ok?
    requires forall f :: f in files ==> suite.Passes(f)
    ensures Distinct(files) ==> SkipTotal(files, suite) == SumSkips(suite.skips)
  {
    if Distinct(files) {
      PassingSkips(files, suite);
    }
  }

  method RunFilesSerially(files: seq<string>, suite: Suite) returns (r: Result<SerialReceipt, SerialError>)
    requires MapLike(suite.skips)
    ensures r.Ok? <==> SerialAccepts(files, suite)
    ensures r.Ok? ==> r.value == FullReceipt(files, suite)
    ensures r == Err(DuplicateFile) <==> files != [] && RefusedAsRepeated(files)
    ensures r == Err(SerialSkipsOff) ==> !Distinct(files)
    ensures r.Err? && r.error.FileFailed? ==> exists i :: FirstFailure(files, suite, i, r.error.fileError)
  {
    if files == [] {
      return Err(EmptyManifest);
    }
    var duplicate := FindRepeat(files);
    if duplicate.Some? && duplicate.value != "" {
      return Err(DuplicateFile);
    }
    var valid := ValidateTerminalManifest(files, suite.skips);
    if valid.Err? {
      return Err(BadManifest(valid.error));
    }
    var totals := RunEach(files, suite);
    if totals.Err? {
      return Err(FileFailed(totals.error));
    }
    DistinctSkips(files, suite);
    if totals.value.skipped != valid.value {
      return Err(SerialSkipsOff);
    }
    return Ok(totals.value);
  }

  /** The running counters of the loop. */
  datatype Counters = Counters(assertions: nat, executed: nat, passed: nat, skipped: nat, tests: nat)

  ghost predicate CountedSoFar(files: seq<string>, i: nat, suite: Suite, seen: set<string>, c: Counters)
    requires i <= |files|
  {
    && c.executed == c.passed == i && seen == Members(files[..i])
    && Counted(files[..i], suite, c.assertions, c.skipped, c.tests)
    && forall j :: 0 <= j < i ==> suite.Passes(files[j])
  }

  /** One turn of the loop: run a file, check it, count it. */
  method RunFile(files: seq<string>, i: nat, suite: Suite, before: set<string>, c: Counters)
    returns (seen: set<string>, counters: Counters, error: Option<FileError>)
    requires i < |files| && CountedSoFar(files, i, suite, before, c)
    ensures error.None? ==> CountedSoFar(files, i + 1, suite, seen, counters)
    ensures error.Some? ==> FirstFailure(files, suite, i, error.value) && files[i] in files
  {
    var file := files[i];
    SeeNext(files, i);
    seen := before + {file};
    counters := c.(executed := c.executed + 1);
    var checked := CheckFile(file, suite.run(file), Expected(suite.skips, file), suite.parse);
    if checked.Err? {
      return seen, counters, Some(checked.error);
    }
    CountNext(files, i, suite, c.assertions, c.skipped, c.tests);
    var summary := checked.value;
    counters := Counters(c.assertions + summary.assertions, c.executed + 1, c.passed + 1,
                         c.skipped + summary.skipped, c.tests + summary.tests);
    error := None;
  }

  /** The loop over the files, and the receipt its counters make. */
  method RunEach(files: seq<string>, suite: Suite) returns (r: Result<SerialReceipt, FileError>)
    ensures r.Ok? <==> forall f :: f in files ==> suite.Passes(f)
    ensures r.Ok? ==> r.value == FullReceipt(files, suite)
    ensures r.Err? ==> exists i :: FirstFailure(files, suite, i, r.error)
  {
    var seen: set<string> := {};
    var c := Counters(0, 0, 0, 0, 0);
    for i := 0 to |files|
      invariant CountedSoFar(files, i, suite, seen, c)
    {
      var error: Option<FileError>;
      seen, c, error := RunFile(files, i, suite, seen, c);
      if error.Some? {
        return Err(error.value);
      }
    }
    assert files[..|files|] == files;
    return Ok(SerialReceipt(c.assertions, |files|, |files| - |seen|, c.executed, c.passed, c.skipped, c.tests));
  }

  lemma SeeNext(files: seq<string>, i: nat)
    requires i < |files|
    ensures Members(files[..i + 1]) == Members(files[..i]) + {files[i]}
  {
    assert files[..i + 1] == files[..i] + [files[i]];
  }

  /** The receipt counts as duplicates the entries that were there before: none for a manifest without repeats. */
  lemma {:induction false} MembersOfDistinct(files: seq<string>)
    ensures |Members(files)| == |files| <==> Distinct(files)
  {
    if files != [] {
      var front, last := files[..|files| - 1], files[|files| - 1];
      MembersOfDistinct(front);
      assert files == front + [last];
      assert Members(files) == Members(front) + {last};
      if last !in front && Distinct(front) {
        DistinctSnoc(front, last);
      }
      RepeatKept(front, last);
    }
  }

  lemma RepeatKept(front: seq<string>, last: string)
    ensures !Distinct(front) || last in front ==> !Distinct(front + [last])
  {
    var files := front + [last];
    if last in front {
      var j :| 0 <= j < |front| && front[j] == last;
      assert files[j] == files[|front|];
    } else if !Distinct(front) {
      var i, j :| 0 <= i < j < |front| && front[i] == front[j];
      assert files[i] == files[j];
    }
  }

  ghost predicate Counted(files: seq<string>, suite: Suite, assertions: nat, skipped: nat, tests: nat) {
    && assertions == Total(files, suite.Assertions())
    && skipped == Total(files, suite.Skipped())
    && tests == Total(files, suite.Tests())
  }

  lemma CountNext(files: seq<string>, i: nat, suite: Suite, assertions: nat, skipped: nat, tests: nat)
    requires i < |files| && Counted(files[..i], suite, assertions, skipped, tests)
    ensures var summary := suite.Summary(files[i]);
            Counted(files[..i + 1], suite, assertions + summary.assertions, skipped + summary.skipped,
                    tests + summary.tests)
  {
    TotalPrefix(files, i, suite.Assertions());
    TotalPrefix(files, i, suite.Skipped());
    TotalPrefix(files, i, suite.Tests());
  }

  // ----- the skip total

  lemma {:induction false} TotalSum<A>(s: seq<A>, f: A -> nat, g: A -> nat, h: A -> nat)
    requires forall x :: x in s ==> h(x) == f(x) + g(x)
    ensures Total(s, h) == Total(s, f) + Total(s, g)
  {
    if s != [] {
      TotalSum(s[..|s| - 1], f, g, h);
      assert s[|s| - 1] in s;
    }
  }

  /** `count` on one file, nothing elsewhere. */
  function Only(file: string, count: nat): string -> nat {
    f => if f == file then count else 0
  }

  lemma {:induction false} TotalOnly(files: seq<string>, file: string, count: nat)
    requires Distinct(files)
    ensures Total(files, Only(file, count)) == if file in files then count else 0
  {
    if files != [] {
      var k := |files| - 1;
      TotalOnly(files[..k], file, count);
      assert files == files[..k] + [files[k]];
    }
  }

  lemma {:induction false} GetAbsent(skips: SkipList, file: string)
    ensures Get(skips, file).Some? ==> exists i :: 0 <= i < |skips| && skips[i].0 == file
  {
    if skips != [] {
      GetAbsent(skips[..|skips| - 1], file);
    }
  }

  /** A manifest that lists every allowlisted file once expects the allowlist's total. */
  lemma {:induction false} ExpectedTotal(files: seq<string>, skips: SkipList)
    requires Distinct(files) && MapLike(skips)
    requires forall i :: 0 <= i < |skips| ==> skips[i].0 in files
    ensures Total(files, f => Expected(skips, f)) == SumSkips(skips)
  {
    if skips == [] {
      TotalSum(files, f => 0, f => 0, f => Expected(skips, f));
      TotalOnly(files, "", 0);
      TotalAgree(files, f => 0, Only("", 0));
    } else {
      var k := |skips| - 1;
      var front := skips[..k];
      ExpectedTotal(files, front);
      GetAbsent(front, skips[k].0);
      TotalOnly(files, skips[k].0, skips[k].1);
      TotalSum(files, f => Expected(front, f), Only(skips[k].0, skips[k].1), f => Expected(skips, f));
    }
  }

  /** Once every file showed the skips expected of it, the total can no longer be off. */
  lemma PassingSkips(files: seq<string>, suite: Suite)
    requires Distinct(files) && MapLike(suite.skips)
    requires forall f :: f in files ==> suite.Passes(f)
    requires forall entry :: entry in suite.skips ==> entry.0 in files
    ensures Total(files, suite.Skipped()) == SumSkips(suite.skips)
  {
    TotalAgree(files, suite.Skipped(), f => Expected(suite.skips, f));
    ExpectedTotal(files, suite.skips);
  }

  // ----- manifests with and without repeated entries

  /** For a manifest without repeats nothing but its files and the allowlist decides. */
  lemma DistinctAccepted(files: seq<string>, suite: Suite)
    requires Distinct(files) && MapLike(suite.skips)
    ensures SerialAccepts(files, suite)
       <==> files != [] && ValidateTerminalManifest(files, suite.skips).Ok? && forall f :: f in files ==> suite.Passes(f)
  {
    RefusedWithoutEmptyPaths(files);
    if ValidateTerminalManifest(files, suite.skips).Ok? && forall f :: f in files ==> suite.Passes(f) {
      PassingSkips(files, suite);
    }
  }

  /** The empty path may be listed twice: the guard takes it for no duplicate, and the run is accepted. */
  lemma EmptyPathTwice(files: seq<string>, suite: Suite)
    requires Distinct(files) && "" in files && SerialAccepts(files, suite) && Expected(suite.skips, "") == 0
    ensures SerialAccepts(files + [""], suite) && !Distinct(files + [""])
  {
    var twice := files + [""];
    var k :| 0 <= k < |files| && files[k] == "";
    assert twice[k] == twice[|files|];
    assert twice[..|files|] == files;
    assert forall j :: 0 <= j < |files| ==> twice[..j] == files[..j] && files[j] !in files[..j];
    assert IsFirstRepeat(twice, |files|);
    OneFirstRepeat(twice, |files|);
    assert suite.Passes("");
  }

  /** A suite in which every file runs and skips what the allowlist expects. */
  function Quiet(skips: SkipList): Suite {
    Suite(_ => FileRun(0, Some("report"), 0),
          (text: string, f: string) => if text == "" then None else Some(JUnitSummary(1, 0, Expected(skips, f), 1)), skips)
  }

  function Names(skips: SkipList): (r: seq<string>)
    ensures |r| == |skips| && forall i :: 0 <= i < |r| ==> r[i] == skips[i].0
  {
    seq(|skips|, i requires 0 <= i < |skips| => skips[i].0)
  }

  lemma NamesListed(skips: SkipList, entry: (string, nat))
    requires entry in skips
    ensures entry.0 in Names(skips)
  {
    var i :| 0 <= i < |skips| && skips[i] == entry;
    assert Names(skips)[i] == entry.0;
  }

  lemma QuietPasses(skips: SkipList, file: string)
    ensures Quiet(skips).Passes(file)
  {
  }

  /** The allowlisted files and some more, each once. */
  lemma QuietAccepted(more: seq<string>)
    requires Distinct(Names(PINNED_CAPABILITY_SKIPS) + more)
    ensures SerialAccepts(Names(PINNED_CAPABILITY_SKIPS) + more, Quiet(PINNED_CAPABILITY_SKIPS))
  {
    var skips, files := PINNED_CAPABILITY_SKIPS, Names(PINNED_CAPABILITY_SKIPS) + more;
    PinnedSkips(files);
    forall entry | entry in skips
      ensures entry.0 in files
    {
      NamesListed(skips, entry);
    }
    forall f | f in files
      ensures Quiet(skips).Passes(f)
    {
      QuietPasses(skips, f);
    }
    DistinctAccepted(files, Quiet(skips));
  }

  /** An input: the allowlisted files and the empty path, twice. */
  lemma RepeatedEmptyPathAccepted()
    ensures var files := Names(PINNED_CAPABILITY_SKIPS) + [""];
            SerialAccepts(files + [""], Quiet(PINNED_CAPABILITY_SKIPS)) && !Distinct(files + [""])
  {
    var skips := PINNED_CAPABILITY_SKIPS;
    PinnedIsMap();
    assert forall i :: 0 <= i < |skips| ==> skips[i].0 != "";
    GetAbsent(skips, "");
    assert Expected(skips, "") == 0;
    assert Distinct(Names(skips) + [""]);
    assert (Names(skips) + [""])[|skips|] == "";
    QuietAccepted([""]);
    EmptyPathTwice(Names(skips) + [""], Quiet(skips));
  }

  // ----- what every allowlist in place promises

  lemma {:induction false} KeysAmong(skips: SkipList, names: seq<string>)
    requires MapLike(skips) && Distinct(names) && |names| == |skips|
    requires forall f :: f in names ==> Get(skips, f).Some?
    ensures forall i :: 0 <= i < |skips| ==> skips[i].0 in names
  {
    var keys := Names(skips);
    forall f | f in names
      ensures f in keys
    {
      GetAbsent(skips, f);
      var i :| 0 <= i < |skips| && skips[i].0 == f;
      assert keys[i] == f;
    }
    DistinctMembers(names);
    DistinctMembers(keys);
    SubsetOfSameSize(Members(names), Members(keys));
    forall i | 0 <= i < |skips|
      ensures skips[i].0 in names
    {
      assert keys[i] in Members(keys);
    }
  }

  lemma DistinctMembers(s: seq<string>)
    requires Distinct(s)
    ensures |Members(s)| == |s|
  {
    MembersOfDistinct(s);
  }

  lemma SubsetOfSameSize(a: set<string>, b: set<string>)
    requires a <= b && |a| == |b|
    ensures a == b
  {
    if a != b {
      var x :| x in b && x !in a;
      assert |b - {x}| == |b| - 1 && a <= b - {x};
      SmallerSubset(a, b - {x});
    }
  }

  lemma {:induction false} SmallerSubset(a: set<string>, b: set<string>)
    requires a <= b
    ensures |a| <= |b|
  {
    if a != {} {
      var x :| x in a;
      SmallerSubset(a - {x}, b - {x});
    }
  }

  lemma PinnedNames()
    ensures Distinct(Names(PINNED_CAPABILITY_SKIPS))
    ensures Names(PINNED_CAPABILITY_SKIPS) == Names(ALLOWED_LIVE_E2E_SKIPS) + Names(ENV_SKIPS)
  {
    PinnedIsMap();
  }

  lemma LiveTotal(allowed: SkipList)
    requires AllowlistInPlace(allowed)
    ensures Total(Names(ALLOWED_LIVE_E2E_SKIPS), f => Expected(allowed, f)) == 42
  {
    var live, count := ALLOWED_LIVE_E2E_SKIPS, (entry: (string, nat)) => entry.1;
    PinnedTotals();
    forall i | 0 <= i < |live|
      ensures Expected(allowed, Names(live)[i]) == count(live[i])
    {
      assert live[i] in live;
    }
    TotalByPlace(Names(live), live, f => Expected(allowed, f), count);
    TotalAgree(live, count, (entry: (string, nat)) => entry.1);
  }

  lemma {:induction false} TotalByPlace<A, B>(a: seq<A>, b: seq<B>, f: A -> nat, g: B -> nat)
    requires |a| == |b| && forall i :: 0 <= i < |a| ==> f(a[i]) == g(b[i])
    ensures Total(a, f) == Total(b, g)
  {
    if a != [] {
      TotalByPlace(a[..|a| - 1], b[..|b| - 1], f, g);
    }
  }

  lemma EnvTotal(allowed: SkipList)
    requires AllowlistInPlace(allowed)
    ensures Total(Names(ENV_SKIPS), f => Expected(allowed, f)) <= 7
  {
    var names, f := Names(ENV_SKIPS), (f: string) => Expected(allowed, f);
    forall i | 0 <= i < |ENV_SKIPS|
      ensures Expected(allowed, names[i]) in {0, ENV_SKIPS[i].1}
    {
      assert ENV_SKIPS[i] in ENV_SKIPS;
    }
    assert names[..0] == [] && names[..3] == names;
    TotalPrefix(names, 0, f);
    TotalPrefix(names, 1, f);
    TotalPrefix(names, 2, f);
    TotalAgree(names, f, f => Expected(allowed, f));
  }

  /** Whichever gates are open on a machine, the total is 42 and what the three gated files add: 0 to 7. */
  lemma AllowlistTotal(allowed: SkipList)
    requires MapLike(allowed) && AllowlistInPlace(allowed)
    ensures 42 <= SumSkips(allowed) <= 49
  {
    var names := Names(PINNED_CAPABILITY_SKIPS);
    PinnedNames();
    forall f | f in names
      ensures Get(allowed, f).Some?
    {
      var i :| 0 <= i < |names| && names[i] == f;
      if i < |ALLOWED_LIVE_E2E_SKIPS| {
        assert ALLOWED_LIVE_E2E_SKIPS[i] in ALLOWED_LIVE_E2E_SKIPS;
      } else {
        assert ENV_SKIPS[i - |ALLOWED_LIVE_E2E_SKIPS|] in ENV_SKIPS;
      }
    }
    KeysAmong(allowed, names);
    ExpectedTotal(names, allowed);
    var f := (f: string) => Expected(allowed, f);
    TotalAgree(names, f, f => Expected(allowed, f));
    TotalAppend(Names(ALLOWED_LIVE_E2E_SKIPS), Names(ENV_SKIPS), f);
    LiveTotal(allowed);
    EnvTotal(allowed);
    TotalAgree(Names(ALLOWED_LIVE_E2E_SKIPS), f, f => Expected(allowed, f));
    TotalAgree(Names(ENV_SKIPS), f, f => Expected(allowed, f));
  }

  /** What the receipt of an accepted run says of its manifest. */
  /** No receipt of an accepted run has other skips than the allowlist promises, repeats or not. */
  lemma AcceptedSkipTotal(files: seq<string>, suite: Suite)
    requires SerialAccepts(files, suite)
    ensures FullReceipt(files, suite).skipped == SumSkips(suite.skips)
  {
  }

  lemma ReceiptTells(files: seq<string>, suite: Suite)
    ensures var r := FullReceipt(files, suite);
            && r.discovered == r.executed == r.passed == |files|
            && (r.duplicates == 0 <==> Distinct(files))
            && r.duplicates < |files| + (if files == [] then 1 else 0)
  {
    MembersOfDistinct(files);
    if files != [] {
      assert files[0] in Members(files);
    }
  }
}
