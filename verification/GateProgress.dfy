/** The lifecycle gates of groups and phases: how far they may have got, and the loops that decide it. */
module GateProgress {
  import opened Results

  datatype GateStatus = Pending | Passed | Failed | Blocked

  // ----- what the gates of a record may look like

  /** No gate passed before an earlier one. */
  ghost predicate InOrder(gates: seq<GateStatus>) {
    forall i, j :: 0 <= i < j < |gates| && gates[j] == Passed ==> gates[i] == Passed
  }

  /** The first `passed` gates passed, the others are pending. */
  ghost predicate ExactProgress(gates: seq<GateStatus>, passed: nat) {
    forall i :: 0 <= i < |gates| ==> gates[i] == if i < passed then Passed else Pending
  }

  /** The gates before number k passed, that one is `bad`, and the gates after it are pending. */
  ghost predicate StoppedAt(gates: seq<GateStatus>, bad: GateStatus, k: nat) {
    && k < |gates| && gates[k] == bad
    && forall i :: 0 <= i < |gates| && i != k ==> gates[i] == if i < k then Passed else Pending
  }

  ghost predicate StoppedBy(gates: seq<GateStatus>, bad: GateStatus) {
    exists k: nat :: StoppedAt(gates, bad, k)
  }

  ghost predicate FirstPassed(gates: seq<GateStatus>, n: nat) {
    n <= |gates| && forall i :: 0 <= i < |gates| ==> (gates[i] == Passed <==> i < n)
  }

  /** In order means: some gates passed, and behind them none did. */
  lemma {:induction false} InOrderExactly(gates: seq<GateStatus>)
    ensures InOrder(gates) <==> exists n: nat :: FirstPassed(gates, n)
  {
    if gates == [] {
      assert FirstPassed(gates, 0);
    } else if InOrder(gates) {
      var k := |gates| - 1;
      InOrderExactly(gates[..k]);
      var n: nat :| FirstPassed(gates[..k], n);
      assert forall i :: 0 <= i < k ==> gates[..k][i] == gates[i];
      if gates[k] == Passed {
        assert gates[0] == Passed || k == 0;
        assert FirstPassed(gates, k + 1);
      } else {
        assert FirstPassed(gates, n);
      }
    }
  }

  // ----- the loops

  method CheckGateOrder(gates: seq<GateStatus>) returns (ok: bool)
    ensures ok <==> InOrder(gates)
  {
    var priorPassed := true;
    for i := 0 to |gates|
      invariant InOrder(gates[..i])
      invariant priorPassed <==> forall k :: 0 <= k < i ==> gates[k] == Passed
    {
      var passed := gates[i] == Passed;
      if passed && !priorPassed {
        return false;
      }
      priorPassed := priorPassed && passed;
    }
    assert gates[..|gates|] == gates;
    return true;
  }

  /** gates.slice(from, upto).some((gate) => gate !== status) */
  method SomeOther(gates: seq<GateStatus>, from: nat, upto: nat, status: GateStatus) returns (r: bool)
    requires from <= upto <= |gates|
    ensures r <==> exists i :: from <= i < upto && gates[i] != status
  {
    for i := from to upto
      invariant forall k :: from <= k < i ==> gates[k] == status
    {
      if gates[i] != status {
        return true;
      }
    }
    return false;
  }

  /** gates.indexOf(status) */
  method IndexOfGate(gates: seq<GateStatus>, status: GateStatus) returns (r: int)
    ensures r == -1 ==> status !in gates
    ensures r != -1 ==> 0 <= r < |gates| && gates[r] == status && forall i :: 0 <= i < r ==> gates[i] != status
  {
    for i := 0 to |gates|
      invariant forall k :: 0 <= k < i ==> gates[k] != status
    {
      if gates[i] == status {
        return i;
      }
    }
    return -1;
  }

  /** requireExactProgress */
  method RequireExactProgress(gates: seq<GateStatus>, passed: nat) returns (ok: bool)
    requires passed <= |gates|
    ensures ok <==> ExactProgress(gates, passed)
  {
    var early := SomeOther(gates, 0, passed, Passed);
    var late := SomeOther(gates, passed, |gates|, Pending);
    return !early && !late;
  }

  /** The progress of an active group: up to its first pending gate. */
  method RequireActive(gates: seq<GateStatus>, least: nat, most: nat) returns (ok: bool)
    requires least <= most < |gates|
    ensures ok <==> exists n: nat :: least <= n <= most && ExactProgress(gates, n)
  {
    var firstPending := IndexOfGate(gates, Pending);
    var progress := if firstPending < 0 then |gates| else firstPending;
    ProgressIsFirstPending(gates, progress);
    if progress < least || progress > most {
      return false;
    }
    ok := RequireExactProgress(gates, progress);
  }

  lemma ProgressIsFirstPending(gates: seq<GateStatus>, progress: nat)
    requires progress <= |gates| && (progress < |gates| ==> gates[progress] == Pending)
    requires forall i :: 0 <= i < progress ==> gates[i] != Pending
    ensures forall n: nat :: n <= |gates| && ExactProgress(gates, n) ==> n == progress
  {
    forall n: nat | n <= |gates| && ExactProgress(gates, n)
      ensures n == progress
    {
      assert n < |gates| ==> gates[n] == Pending;
    }
  }

  /** The checks on a failed or blocked record, from the gate that stopped it. */
  method RequireStopAt(gates: seq<GateStatus>, k: nat) returns (ok: bool)
    requires k < |gates|
    ensures ok <==> StoppedAt(gates, gates[k], k)
  {
    var early := SomeOther(gates, 0, k, Passed);
    var late := SomeOther(gates, k + 1, |gates|, Pending);
    return !early && !late;
  }

  method RequireStop(gates: seq<GateStatus>, bad: GateStatus) returns (ok: bool)
    requires bad == Failed || bad == Blocked
    ensures ok <==> StoppedBy(gates, bad)
  {
    var k := IndexOfGate(gates, bad);
    if k < 0 {
      return false;
    }
    ok := RequireStopAt(gates, k);
    OneStop(gates, bad, k);
  }

  /** The gate that stopped a record is the first one that is failed or blocked. */
  lemma OneStop(gates: seq<GateStatus>, bad: GateStatus, k: nat)
    requires k < |gates| && (bad == Failed || bad == Blocked) && gates[k] == bad
    requires forall i :: 0 <= i < k ==> gates[i] != bad
    ensures StoppedBy(gates, bad) <==> StoppedAt(gates, bad, k)
  {
    if StoppedBy(gates, bad) {
      var n: nat :| StoppedAt(gates, bad, n);
      assert n == k;
    }
  }

  /** findIndex((gate) => gate is blocked or failed), and the checks from there. */
  method RequireBlocked(gates: seq<GateStatus>) returns (ok: bool)
    ensures ok <==> StoppedBy(gates, Blocked) || StoppedBy(gates, Failed)
  {
    for i := 0 to |gates|
      invariant forall k :: 0 <= k < i ==> gates[k] != Blocked && gates[k] != Failed
    {
      if gates[i] == Blocked || gates[i] == Failed {
        ok := RequireStopAt(gates, i);
        FirstStop(gates, i);
        return;
      }
    }
    return false;
  }

  lemma OtherGates(gates: seq<GateStatus>, bad: GateStatus, n: nat)
    requires StoppedAt(gates, bad, n)
    ensures forall i :: 0 <= i < |gates| && i != n ==> gates[i] == Passed || gates[i] == Pending
  {
  }

  lemma FirstStop(gates: seq<GateStatus>, i: nat)
    requires i < |gates| && (gates[i] == Blocked || gates[i] == Failed)
    requires forall k :: 0 <= k < i ==> gates[k] != Blocked && gates[k] != Failed
    ensures StoppedBy(gates, Blocked) || StoppedBy(gates, Failed) <==> StoppedAt(gates, gates[i], i)
  {
    var bad := gates[i];
    OneStop(gates, bad, i);
    var other := if bad == Blocked then Failed else Blocked;
    if StoppedBy(gates, other) {
      var n: nat :| StoppedAt(gates, other, n);
      OtherGates(gates, other, n);
    }
  }
}
