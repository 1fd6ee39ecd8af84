/**
 parseGitNameStatus and the deletion check built on it: NUL-separated `git show --name-status -z`
 output, and the printer it inverts.
 */
module NameStatus {
  import opened Results

  datatype GitChange = GitChange(status: string, paths: seq<string>)

  const NUL := '\0'

  predicate IsDigit(c: char) {
    '0' <= c <= '9'
  }

  /** /^[RC]\d{1,3}$/u */
  predicate IsRenameOrCopy(status: string) {
    && 2 <= |status| <= 4 && (status[0] == 'R' || status[0] == 'C')
    && forall i :: 1 <= i < |status| ==> IsDigit(status[i])
  }

  /** /^[ADMTUXB]$/u */
  predicate IsPlainStatus(status: string) {
    |status| == 1 && status[0] in {'A', 'D', 'M', 'T', 'U', 'X', 'B'}
  }

  /** How many paths follow a status field. */
  function PathCount(status: string): nat {
    if status != "" && (status[0] == 'R' || status[0] == 'C') then 2 else 1
  }

  // ----- the printer

  predicate WellFormedChange(change: GitChange) {
    && (IsRenameOrCopy(change.status) || IsPlainStatus(change.status))
    && |change.paths| == PathCount(change.status)
    && forall i :: 0 <= i < |change.paths| ==> change.paths[i] != "" && NUL !in change.paths[i]
  }

  predicate WellFormed(changes: seq<GitChange>) {
    changes != [] && forall i :: 0 <= i < |changes| ==> WellFormedChange(changes[i])
  }

  function FieldsOf(changes: seq<GitChange>): seq<string> {
    if changes == [] then [] else [changes[0].status] + changes[0].paths + FieldsOf(changes[1..])
  }

  /** Every field followed by a NUL. */
  function Terminate(fields: seq<string>): string {
    if fields == [] then "" else fields[0] + [NUL] + Terminate(fields[1..])
  }

  function Print(changes: seq<GitChange>): string {
    Terminate(FieldsOf(changes))
  }

  // ----- splitting at NUL

  /** output.split('\0') without its last element. */
  function SplitFields(output: string, current: string): seq<string> {
    if output == "" then []
    else if output[0] == NUL then [current] + SplitFields(output[1..], "")
    else SplitFields(output[1..], current + [output[0]])
  }

  ghost predicate NulFree(fields: seq<string>) {
    forall i :: 0 <= i < |fields| ==> NUL !in fields[i]
  }

  lemma {:induction false} SplitField(field: string, rest: string, current: string)
    requires NUL !in field
    ensures SplitFields(field + [NUL] + rest, current) == [current + field] + SplitFields(rest, "")
    decreases |field|
  {
    var output := field + [NUL] + rest;
    if field == "" {
      assert output[1..] == rest && current + field == current;
    } else {
      assert field[0] in field;
      assert output[1..] == field[1..] + [NUL] + rest;
      SplitField(field[1..], rest, current + [field[0]]);
      assert current + [field[0]] + field[1..] == current + field;
    }
  }

  lemma {:induction false} SplitTerminated(fields: seq<string>)
    requires NulFree(fields)
    ensures SplitFields(Terminate(fields), "") == fields
  {
    if fields != [] {
      SplitField(fields[0], Terminate(fields[1..]), "");
      SplitTerminated(fields[1..]);
      assert "" + fields[0] == fields[0];
    }
  }

  /** What was split off an output that ends in NUL puts the output together again. */
  lemma {:induction false} SplitFaithful(output: string, current: string)
    requires NUL !in current
    requires output == "" ==> current == ""
    requires output != "" ==> output[|output| - 1] == NUL
    ensures Terminate(SplitFields(output, current)) == current + output
    ensures NulFree(SplitFields(output, current))
    decreases |output|
  {
    if output != "" {
      var tail := output[1..];
      assert output == [output[0]] + tail;
      if output[0] == NUL {
        SplitFaithful(tail, "");
        assert SplitFields(output, current)[1..] == SplitFields(tail, "");
        assert current + [NUL] + tail == current + output;
      } else {
        SplitFaithful(tail, current + [output[0]]);
        assert current + [output[0]] + tail == current + output;
      }
    }
  }

  // ----- parsing fields

  /** The change that starts at field `i`, if one does. */
  function ChangeAt(fields: seq<string>, i: nat): (r: Option<GitChange>)
    requires i < |fields|
    ensures r.Some? ==> i + 1 + |r.value.paths| <= |fields|
  {
    var status := fields[i];
    var count := PathCount(status);
    if !(IsRenameOrCopy(status) || IsPlainStatus(status)) || i + 1 + count > |fields| then None
    else if exists p :: i + 1 <= p < i + 1 + count && fields[p] == "" then None
    else Some(GitChange(status, fields[i + 1..i + 1 + count]))
  }

  lemma ChangeFound(fields: seq<string>, i: nat, change: GitChange)
    requires WellFormedChange(change) && i + 1 + |change.paths| <= |fields|
    requires fields[i] == change.status && fields[i + 1..i + 1 + |change.paths|] == change.paths
    ensures ChangeAt(fields, i) == Some(change)
  {
    forall p | i + 1 <= p < i + 1 + |change.paths|
      ensures fields[p] != ""
    {
      assert fields[p] == change.paths[p - i - 1];
    }
  }

  lemma ChangeIsWellFormed(fields: seq<string>, i: nat)
    requires i < |fields| && NulFree(fields) && ChangeAt(fields, i).Some?
    ensures WellFormedChange(ChangeAt(fields, i).value)
  {
    var change := ChangeAt(fields, i).value;
    forall p | 0 <= p < |change.paths|
      ensures change.paths[p] != "" && NUL !in change.paths[p]
    {
      assert change.paths[p] == fields[i + 1 + p];
    }
  }

  lemma {:induction false} FieldsAppend(a: seq<GitChange>, b: seq<GitChange>)
    ensures FieldsOf(a + b) == FieldsOf(a) + FieldsOf(b)
  {
    if a == [] {
      assert a + b == b;
    } else {
      FieldsAppend(a[1..], b);
      assert (a + b)[1..] == a[1..] + b;
    }
  }

  lemma {:induction false} FieldsNulFree(changes: seq<GitChange>)
    requires forall i :: 0 <= i < |changes| ==> WellFormedChange(changes[i])
    ensures NulFree(FieldsOf(changes))
  {
    if changes != [] {
      FieldsNulFree(changes[1..]);
      assert NUL !in changes[0].status;
    }
  }

  /** Changes with the same printed fields are the same. */
  lemma {:induction false} FieldsInjective(a: seq<GitChange>, b: seq<GitChange>)
    requires forall i :: 0 <= i < |a| ==> WellFormedChange(a[i])
    requires forall i :: 0 <= i < |b| ==> WellFormedChange(b[i])
    requires FieldsOf(a) == FieldsOf(b)
    ensures a == b
  {
    if a != [] && b != [] {
      var fields := FieldsOf(a);
      ChangeInFront(a[0], FieldsOf(a[1..]));
      ChangeInFront(b[0], FieldsOf(b[1..]));
      assert a[0] == b[0];
      var k := 1 + |a[0].paths|;
      assert FieldsOf(a[1..]) == fields[k..] == FieldsOf(b[1..]);
      FieldsInjective(a[1..], b[1..]);
      assert a == [a[0]] + a[1..] && b == [b[0]] + b[1..];
    }
  }

  lemma ChangeInFront(change: GitChange, rest: seq<string>)
    requires WellFormedChange(change)
    ensures ChangeAt([change.status] + change.paths + rest, 0) == Some(change)
  {
    ChangeFound([change.status] + change.paths + rest, 0, change);
  }

  /** Whether some well-formed, non-empty list of changes prints as `output`. */
  ghost predicate IsPrint(output: string, changes: seq<GitChange>) {
    WellFormed(changes) && output == Print(changes)
  }

  lemma PrintInjective(output: string, a: seq<GitChange>, b: seq<GitChange>)
    requires IsPrint(output, a) && IsPrint(output, b)
    ensures a == b
  {
    FieldsNulFree(a);
    FieldsNulFree(b);
    SplitTerminated(FieldsOf(a));
    SplitTerminated(FieldsOf(b));
    FieldsInjective(a, b);
  }

  /** Once the fields up to `i` are parsed, what follows in any parse of all fields starts at `i`. */
  lemma RestStartsHere(fields: seq<string>, i: nat, done: seq<GitChange>, all: seq<GitChange>)
    requires i < |fields| && fields[..i] == FieldsOf(done)
    requires forall k :: 0 <= k < |done| ==> WellFormedChange(done[k])
    requires forall k :: 0 <= k < |all| ==> WellFormedChange(all[k])
    requires fields == FieldsOf(all)
    ensures ChangeAt(fields, i).Some?
  {
    assert fields == fields[..i] + fields[i..];
    var rest := CommonPrefix(done, all, fields[i..]);
    TailStartsWithChange(fields, i, rest);
  }

  lemma TailStartsWithChange(fields: seq<string>, i: nat, rest: seq<GitChange>)
    requires i < |fields| && fields[i..] == FieldsOf(rest)
    requires forall k :: 0 <= k < |rest| ==> WellFormedChange(rest[k])
    ensures ChangeAt(fields, i).Some?
  {
    assert rest != [];
    var change := rest[0];
    var tail := [change.status] + change.paths + FieldsOf(rest[1..]);
    assert tail[1..1 + |change.paths|] == change.paths;
    assert fields[i] == fields[i..][0];
    assert fields[i + 1..i + 1 + |change.paths|] == fields[i..][1..1 + |change.paths|];
    ChangeFound(fields, i, change);
  }

  /** If the fields of `all` start with those of `done`, then `all` starts with `done`. */
  lemma {:induction false} CommonPrefix(done: seq<GitChange>, all: seq<GitChange>, tail: seq<string>)
    returns (rest: seq<GitChange>)
    requires forall k :: 0 <= k < |done| ==> WellFormedChange(done[k])
    requires forall k :: 0 <= k < |all| ==> WellFormedChange(all[k])
    requires FieldsOf(all) == FieldsOf(done) + tail
    ensures FieldsOf(rest) == tail && forall k :: 0 <= k < |rest| ==> WellFormedChange(rest[k])
    decreases |done|
  {
    if done == [] {
      assert [] + tail == tail;
      rest := all;
    } else {
      var doneRest := FieldsOf(done[1..]);
      assert FieldsOf(all) == [done[0].status] + done[0].paths + (doneRest + tail);
      ChangeInFront(done[0], doneRest + tail);
      assert all != [];
      ChangeInFront(all[0], FieldsOf(all[1..]));
      assert all[0] == done[0];
      var k := 1 + |done[0].paths|;
      assert FieldsOf(all[1..]) == FieldsOf(all)[k..] == doneRest + tail;
      rest := CommonPrefix(done[1..], all[1..], tail);
    }
  }

  lemma ParsedFurther(fields: seq<string>, i: nat, changes: seq<GitChange>)
    requires i < |fields| && NulFree(fields) && fields[..i] == FieldsOf(changes)
    requires ChangeAt(fields, i).Some?
    ensures var change := ChangeAt(fields, i).value;
            && WellFormedChange(change) && i + 1 + |change.paths| <= |fields|
            && fields[..i + 1 + |change.paths|] == FieldsOf(changes + [change])
  {
    var change := ChangeAt(fields, i).value;
    ChangeIsWellFormed(fields, i);
    FieldsAppend(changes, [change]);
    var end := i + 1 + |change.paths|;
    assert FieldsOf([change]) == [change.status] + change.paths;
    assert fields[..end] == fields[..i] + ([fields[i]] + fields[i + 1..end]);
    assert [fields[i]] + fields[i + 1..end] == FieldsOf([change]);
  }

  lemma Unparsable(output: string, fields: seq<string>, i: nat, done: seq<GitChange>)
    requires fields == SplitFields(output, "") && i < |fields| && fields[..i] == FieldsOf(done)
    requires forall k :: 0 <= k < |done| ==> WellFormedChange(done[k])
    requires ChangeAt(fields, i).None?
    ensures forall changes :: !IsPrint(output, changes)
  {
    forall all | IsPrint(output, all)
      ensures false
    {
      FieldsNulFree(all);
      SplitTerminated(FieldsOf(all));
      RestStartsHere(fields, i, done, all);
    }
  }

  method ParseGitNameStatus(output: string) returns (r: Option<seq<GitChange>>)
    ensures r.Some? ==> IsPrint(output, r.value)
    ensures r.None? ==> forall changes :: !IsPrint(output, changes)
  {
    if output == "" || output[|output| - 1] != NUL {
      forall changes | IsPrint(output, changes)
        ensures false
      {
        EndsInNul(FieldsOf(changes));
      }
      return None;
    }
    var fields := SplitFields(output, "");
    SplitFaithful(output, "");
    assert "" + output == output;
    var changes: seq<GitChange> := [];
    var index: nat := 0;
    while index < |fields|
      invariant index <= |fields|
      invariant fields[..index] == FieldsOf(changes)
      invariant forall k :: 0 <= k < |changes| ==> WellFormedChange(changes[k])
    {
      var change := ChangeAt(fields, index);
      if change.None? {
        Unparsable(output, fields, index, changes);
        return None;
      }
      ParsedFurther(fields, index, changes);
      changes := changes + [change.value];
      index := index + 1 + |change.value.paths|;
    }
    assert fields[..index] == fields;
    return Some(changes);
  }

  lemma EndsInNul(fields: seq<string>)
    requires fields != []
    ensures Terminate(fields) != "" && Terminate(fields)[|Terminate(fields)| - 1] == NUL
  {
    if |fields| > 1 {
      EndsInNul(fields[1..]);
    }
  }

  // ----- the deletion check

  /** The records that mention a path. */
  function Mentioning(changes: seq<GitChange>, path: string): seq<GitChange> {
    if changes == [] then []
    else
      var k := |changes| - 1;
      var before := Mentioning(changes[..k], path);
      if path in changes[k].paths then before + [changes[k]] else before
  }

  /** The verdict of gitRecordsExactDeletion on what `git show` printed. */
  method ShowsExactDeletion(path: string, output: string) returns (r: bool)
    ensures r <==> exists changes :: IsPrint(output, changes) && Mentioning(changes, path) == [GitChange("D", [path])]
  {
    var parsed := ParseGitNameStatus(output);
    if parsed.None? {
      return false;
    }
    var changes := parsed.value;
    var exactDeletions: nat := 0;
    for i := 0 to |changes|
      invariant Mentioning(changes[..i], path) == Repeat(GitChange("D", [path]), exactDeletions)
    {
      assert changes[..i + 1][..i] == changes[..i];
      if path in changes[i].paths {
        if changes[i].status != "D" || |changes[i].paths| != 1 || changes[i].paths[0] != path {
          WrongMention(changes, i, path);
          forall other | IsPrint(output, other)
            ensures Mentioning(other, path) != [GitChange("D", [path])]
          {
            PrintInjective(output, changes, other);
          }
          return false;
        }
        assert changes[i] == GitChange("D", [path]);
        exactDeletions := exactDeletions + 1;
      }
    }
    assert changes[..|changes|] == changes;
    forall other | IsPrint(output, other)
      ensures other == changes
    {
      PrintInjective(output, changes, other);
    }
    return exactDeletions == 1;
  }

  /** A mention other than the plain deletion spoils the verdict. */
  lemma WrongMention(changes: seq<GitChange>, i: nat, path: string)
    requires i < |changes| && path in changes[i].paths && changes[i] != GitChange("D", [path])
    ensures Mentioning(changes, path) != [GitChange("D", [path])]
  {
    MentioningPrefix(changes, i + 1, path);
    assert changes[..i + 1][..i] == changes[..i];
    var before := Mentioning(changes[..i], path);
    assert (before + [changes[i]])[|before|] == changes[i];
  }

  function Repeat(change: GitChange, n: nat): (r: seq<GitChange>)
    ensures |r| == n && forall i :: 0 <= i < n ==> r[i] == change
  {
    seq(n, _ => change)
  }

  lemma {:induction false} MentioningPrefix(changes: seq<GitChange>, n: nat, path: string)
    requires n <= |changes|
    ensures Mentioning(changes[..n], path) <= Mentioning(changes, path)
  {
    if n == |changes| {
      assert changes[..n] == changes;
    } else {
      var k := |changes| - 1;
      MentioningPrefix(changes[..k], n, path);
      assert changes[..k][..n] == changes[..n];
    }
  }

  // ----- the format and the verdict, written out

  predicate Digits(text: string) {
    forall i :: 0 <= i < |text| ==> text[i] in "0123456789"
  }

  lemma DigitIn(c: char)
    ensures IsDigit(c) <==> c in "0123456789"
  {
    if IsDigit(c) {
      assert "0123456789"[c as int - '0' as int] == c;
    }
  }

  /** The status fields: a letter, or R or C with a similarity of one to three digits and one path more. */
  lemma StatusForms(status: string)
    ensures IsPlainStatus(status) <==> status in {"A", "B", "D", "M", "T", "U", "X"}
    ensures IsRenameOrCopy(status)
       <==> 1 < |status| <= 4 && (status[0] == 'R' || status[0] == 'C') && Digits(status[1..])
    ensures IsPlainStatus(status) ==> PathCount(status) == 1
    ensures IsRenameOrCopy(status) ==> PathCount(status) == 2
  {
    forall c
      ensures IsDigit(c) <==> c in "0123456789"
    {
      DigitIn(c);
    }
    if |status| == 1 {
      assert status == [status[0]];
    }
    if 1 < |status| <= 4 {
      assert forall i :: 1 <= i < |status| ==> status[1..][i - 1] == status[i];
    }
  }

  lemma TerminatedField(field: string, rest: seq<string>)
    ensures Terminate([field] + rest) == field + "\0" + Terminate(rest)
  {
    assert ([field] + rest)[1..] == rest;
  }

  /** Changes are printed one behind the other, every field with a NUL behind it. */
  lemma PrintForms(status: string, from: string, to: string, rest: seq<GitChange>)
    ensures Print([]) == ""
    ensures Print([GitChange(status, [to])] + rest) == status + "\0" + (to + "\0" + Print(rest))
    ensures Print([GitChange(status, [from, to])] + rest) == status + "\0" + (from + "\0" + (to + "\0" + Print(rest)))
  {
    var fields := FieldsOf(rest);
    TerminatedField(to, fields);
    TerminatedField(from, [to] + fields);
    TerminatedField(status, [to] + fields);
    TerminatedField(status, [from] + ([to] + fields));
    assert FieldsOf([GitChange(status, [to])] + rest) == [status] + ([to] + fields);
    assert FieldsOf([GitChange(status, [from, to])] + rest) == [status] + ([from] + ([to] + fields));
  }

  lemma {:induction false} NotMentioned(changes: seq<GitChange>, path: string)
    ensures Mentioning(changes, path) == [] <==> forall i :: 0 <= i < |changes| ==> path !in changes[i].paths
  {
    if changes != [] {
      NotMentioned(changes[..|changes| - 1], path);
    }
  }

  /** The one record that mentions a path. */
  ghost predicate OnlyMention(changes: seq<GitChange>, path: string, i: nat) {
    && i < |changes| && path in changes[i].paths
    && forall j :: 0 <= j < |changes| && j != i ==> path !in changes[j].paths
  }

  lemma {:induction false} MentionedOnce(changes: seq<GitChange>, path: string, change: GitChange)
    ensures Mentioning(changes, path) == [change] <==> exists i: nat :: OnlyMention(changes, path, i) && changes[i] == change
  {
    if changes != [] {
      var k := |changes| - 1;
      var before := changes[..k];
      MentionedOnce(before, path, change);
      NotMentioned(before, path);
      if path in changes[k].paths {
        assert Mentioning(changes, path) == Mentioning(before, path) + [changes[k]];
        if forall i :: 0 <= i < k ==> path !in before[i].paths {
          assert OnlyMention(changes, path, k) && Mentioning(changes, path) == [changes[k]];
        }
      } else {
        if i: nat :| OnlyMention(before, path, i) && before[i] == change {
          assert OnlyMention(changes, path, i);
        }
        if i: nat :| OnlyMention(changes, path, i) && changes[i] == change {
          assert OnlyMention(before, path, i);
        }
      }
    }
  }
}
