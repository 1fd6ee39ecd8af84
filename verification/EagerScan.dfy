/** The eager scanners of program.ts, which refine one grammar. */
module EagerScan {
  // Which tokens of an invocation are option values, which command is active, whether the version is requested, and
  // how to present it.

  import opened Results
  import opened OptionSpellings

  // ----- commands

  datatype Command = Command(path: string, aliases: seq<string>, spellings: Spellings)

  /** The commands, the root among them, and those attached below the root whatever their path. */
  datatype Grammar = Grammar(commands: seq<Command>, root: nat, attached: set<nat>)

  predicate Rooted(g: Grammar) {
    g.root < |g.commands|
  }

  /** path.split(' ').at(-1) */
  function LastWord(path: string): string {
    if path == "" || path[|path| - 1] == ' ' then "" else LastWord(path[..|path| - 1]) + [path[|path| - 1]]
  }

  /** path.split(' ').slice(0, -1).join(' ') */
  function ParentPath(path: string): string {
    if path == "" then ""
    else if path[|path| - 1] == ' ' then path[..|path| - 1]
    else ParentPath(path[..|path| - 1])
  }

  /** The two halves of a path with a space in it. */
  lemma {:induction false} PathSplits(path: string)
    ensures ' ' !in LastWord(path)
    ensures if ' ' in path then path == ParentPath(path) + " " + LastWord(path) else path == LastWord(path) && ParentPath(path) == ""
  {
    if path != "" {
      var front, last := path[..|path| - 1], path[|path| - 1];
      assert path == front + [last];
      PathSplits(front);
      if last == ' ' {
        assert ParentPath(path) == front && LastWord(path) == "";
      } else {
        assert LastWord(path) == LastWord(front) + [last] && ParentPath(path) == ParentPath(front);
        assert ' ' in path <==> ' ' in front;
        assert ParentPath(front) + " " + LastWord(front) + [last] == ParentPath(front) + " " + (LastWord(front) + [last]);
      }
    }
  }

  predicate IsChild(g: Grammar, parent: nat, token: string, candidate: nat)
    requires parent < |g.commands| && candidate < |g.commands|
  {
    && candidate != g.root
    && ((parent == g.root && candidate in g.attached) || ParentPath(g.commands[candidate].path) == g.commands[parent].path)
    && (LastWord(g.commands[candidate].path) == token || token in g.commands[candidate].aliases)
  }

  /** The first child from `k` on that the token names. */
  function DirectChild(g: Grammar, parent: nat, token: string, k: nat): (r: Option<nat>)
    requires parent < |g.commands|
    ensures r.Some? ==> k <= r.value < |g.commands| && IsChild(g, parent, token, r.value)
    ensures forall j :: k <= j < (if r.Some? then r.value else |g.commands|) ==> !IsChild(g, parent, token, j)
    decreases |g.commands| - k
  {
    if k >= |g.commands| then None
    else if IsChild(g, parent, token, k) then Some(k)
    else DirectChild(g, parent, token, k + 1)
  }

  /** Where a list of operands leads: the active command, and whether an operand named no command. */
  datatype Path = Path(active: nat, closed: bool)

  function Walk(g: Grammar, operands: seq<string>): (r: Path)
    requires Rooted(g)
    ensures r.active < |g.commands|
  {
    if operands == [] then Path(g.root, false)
    else Step(g, Walk(g, operands[..|operands| - 1]), operands[|operands| - 1])
  }

  function Step(g: Grammar, path: Path, operand: string): (r: Path)
    requires path.active < |g.commands|
    ensures r.active < |g.commands|
  {
    if path.closed then path
    else
      var child := DirectChild(g, path.active, operand, 0);
      if child.None? then Path(path.active, true) else Path(child.value, false)
  }

  /** Once an operand has named no command, further operands do not change the active one. */
  lemma {:induction false} ClosedStays(g: Grammar, operands: seq<string>, more: seq<string>)
    requires Rooted(g) && Walk(g, operands).closed
    ensures Walk(g, operands + more) == Walk(g, operands)
  {
    if more == [] {
      assert operands + more == operands;
    } else {
      var k := |more| - 1;
      ClosedStays(g, operands, more[..k]);
      assert (operands + more)[..|operands| + k] == operands + more[..k];
    }
  }

  // ----- the grammar of invocations

  datatype Scope = Scope(root: Spellings, active: Spellings)

  function Lookup(first: map<string, Shape>, second: map<string, Shape>, spelling: string): Option<Shape> {
    if spelling in first then Some(first[spelling])
    else if spelling in second then Some(second[spelling])
    else None
  }

  function LongValueShape(scope: Scope, token: string): Option<Shape> {
    Lookup(scope.root.long, scope.active.long, token)
  }

  function ShortValueShape(scope: Scope, flag: char): Option<Shape> {
    Lookup(scope.root.short, scope.active.short, "-" + [flag])
  }

  predicate Dashed(token: string) {
    "-" <= token
  }

  predicate DoubleDashed(token: string) {
    "--" <= token
  }

  function NextOf(argv: seq<string>): Option<string> {
    if |argv| > 1 then Some(argv[1]) else None
  }

  /** consumesFollowingValue */
  predicate ConsumesFollowingValue(shape: Shape, next: Option<string>) {
    shape == Required || (next.Some? && !Dashed(next.value))
  }

  /** The option of a cluster that takes a value: what is attached to it, or the token it consumes. */
  datatype Valued = Valued(flag: char, attached: string, value: Option<string>)

  datatype Item =
    | Terminator(rest: seq<string>)
    | Long(token: string, value: Option<string>)
    | Cluster(flags: string, valued: Option<Valued>)
    | Operand(token: string)

  /** An item together with the options that were in scope where it was read. */
  datatype Reading = Reading(scope: Scope, item: Item)

  function Taken(shape: Shape, next: Option<string>): Option<string> {
    if ConsumesFollowingValue(shape, next) then next else None
  }

  /** The position of the first flag that takes a value, or the length of the cluster. */
  function FirstValued(scope: Scope, cluster: string, k: nat): (r: nat)
    requires k <= |cluster|
    ensures k <= r <= |cluster|
    ensures forall i :: k <= i < r ==> ShortValueShape(scope, cluster[i]).None?
    ensures r < |cluster| ==> ShortValueShape(scope, cluster[r]).Some?
    decreases |cluster| - k
  {
    if k == |cluster| || ShortValueShape(scope, cluster[k]).Some? then k else FirstValued(scope, cluster, k + 1)
  }

  function ReadCluster(scope: Scope, cluster: string, next: Option<string>): Item {
    var k := FirstValued(scope, cluster, 0);
    if k == |cluster| then Cluster(cluster, None)
    else
      var attached := cluster[k + 1..];
      var value := if attached == "" then Taken(ShortValueShape(scope, cluster[k]).value, next) else None;
      Cluster(cluster[..k], Some(Valued(cluster[k], attached, value)))
  }

  /** The first item of an invocation. */
  function Head(scope: Scope, argv: seq<string>): Item {
    if argv == [] then Operand("") else
    var token := argv[0];
    if token == "--" then Terminator(argv[1..])
    else if LongValueShape(scope, token).Some? then Long(token, Taken(LongValueShape(scope, token).value, NextOf(argv)))
    else if !Dashed(token) || token == "-" then Operand(token)
    else if DoubleDashed(token) then Long(token, None)
    else ReadCluster(scope, token[1..], NextOf(argv))
  }

  function ValueTokens(value: Option<string>): seq<string> {
    if value.None? then [] else [value.value]
  }

  /** The tokens an item is made of. */
  function Tokens(item: Item): (r: seq<string>)
    ensures r != []
  {
    match item
    case Terminator(rest) => ["--"] + rest
    case Long(token, value) => [token] + ValueTokens(value)
    case Operand(token) => [token]
    case Cluster(flags, valued) =>
      if valued.None? then ["-" + flags]
      else ["-" + flags + [valued.value.flag] + valued.value.attached] + ValueTokens(valued.value.value)
  }

  lemma ClusterTokens(scope: Scope, cluster: string, next: Option<string>)
    ensures var item := ReadCluster(scope, cluster, next);
            Tokens(item) == ["-" + cluster] || (next.Some? && Tokens(item) == ["-" + cluster, next.value])
  {
    var k := FirstValued(scope, cluster, 0);
    if k < |cluster| {
      assert "-" + cluster[..k] + [cluster[k]] + cluster[k + 1..] == "-" + cluster;
    }
  }

  /** What an item is made of, kind by kind. */
  ghost predicate MadeOf(item: Item, scope: Scope, argv: seq<string>)
    requires argv != []
  {
    match item
    case Terminator(rest) => argv[0] == "--" && rest == argv[1..]
    case Long(token, value) => token == argv[0] && (value.None? || value == NextOf(argv))
    case Operand(token) => token == argv[0]
    case Cluster(_, _) => argv[0] != "" && argv[0][0] == '-' && item == ReadCluster(scope, argv[0][1..], NextOf(argv))
  }

  lemma HeadMadeOf(scope: Scope, argv: seq<string>)
    requires argv != []
    ensures MadeOf(Head(scope, argv), scope, argv)
  {
  }

  lemma MadeOfTokens(item: Item, scope: Scope, argv: seq<string>)
    requires argv != [] && MadeOf(item, scope, argv)
    ensures Tokens(item) <= argv
  {
    if item.Cluster? {
      ClusterTokens(scope, argv[0][1..], NextOf(argv));
      assert argv[0] == "-" + argv[0][1..];
    }
  }

  /** An item's tokens are the first of the invocation. */
  lemma HeadTokens(scope: Scope, argv: seq<string>)
    requires argv != []
    ensures Tokens(Head(scope, argv)) <= argv
  {
    HeadMadeOf(scope, argv);
    MadeOfTokens(Head(scope, argv), scope, argv);
  }

  function Behind(item: Item, argv: seq<string>): seq<string> {
    if |Tokens(item)| <= |argv| then argv[|Tokens(item)|..] else []
  }

  function Seen(operands: seq<string>, item: Item): seq<string> {
    if item.Operand? then operands + [item.token] else operands
  }

  function ScopeAt(g: Grammar, operands: seq<string>): Scope
    requires Rooted(g)
  {
    Scope(g.commands[g.root].spellings, g.commands[Walk(g, operands).active].spellings)
  }

  /** Finds the first item. Kept as a value, proofs about whole invocations need not look into it. */
  type Reader = (Scope, seq<string>) -> Item

  function ParseBy(g: Grammar, head: Reader, argv: seq<string>, operands: seq<string>): seq<Reading>
    requires Rooted(g)
    decreases |argv|
  {
    if argv == [] then []
    else
      var scope := ScopeAt(g, operands);
      var item := head(scope, argv);
      [Reading(scope, item)] + ParseBy(g, head, Behind(item, argv), Seen(operands, item))
  }

  /** Reads an invocation: every option is looked up in the command that the operands before it name. */
  function Parse(g: Grammar, argv: seq<string>, operands: seq<string>): seq<Reading>
    requires Rooted(g)
  {
    ParseBy(g, Head, argv, operands)
  }

  /** The readings are what Head finds, one after the other, until the invocation is used up. */
  predicate Reads(readings: seq<Reading>, argv: seq<string>) {
    if readings == [] then argv == []
    else
      && argv != [] && readings[0].item == Head(readings[0].scope, argv)
      && Reads(readings[1..], Behind(readings[0].item, argv))
  }

  lemma {:induction false} ParseReads(g: Grammar, argv: seq<string>, operands: seq<string>)
    requires Rooted(g)
    ensures Reads(Parse(g, argv, operands), argv)
    decreases |argv|
  {
    if argv != [] {
      var item := Head(ScopeAt(g, operands), argv);
      ParseReads(g, Behind(item, argv), Seen(operands, item));
    }
  }

  function AllTokens(readings: seq<Reading>): seq<string> {
    if readings == [] then [] else Tokens(readings[0].item) + AllTokens(readings[1..])
  }

  /** Every token of an invocation belongs to exactly one item, in order. */
  lemma {:induction false} ReadingsCover(readings: seq<Reading>, argv: seq<string>)
    requires Reads(readings, argv)
    ensures AllTokens(readings) == argv
  {
    if readings != [] {
      HeadTokens(readings[0].scope, argv);
      ReadingsCover(readings[1..], Behind(readings[0].item, argv));
    }
  }

  // ----- eagerValueOptionScopes

  function Holes(n: nat): (r: seq<Option<Scope>>)
    ensures |r| == n && forall i :: 0 <= i < n ==> r[i] == None
  {
    seq(n, _ => None)
  }

  /** The scope at every token that starts an item, and a hole at every other token. */
  function Marks(readings: seq<Reading>): seq<Option<Scope>> {
    if readings == [] then []
    else [Some(readings[0].scope)] + Holes(|Tokens(readings[0].item)| - 1) + Marks(readings[1..])
  }

  lemma {:induction false} MarkEveryToken(readings: seq<Reading>)
    ensures |Marks(readings)| == |AllTokens(readings)|
  {
    if readings != [] {
      MarkEveryToken(readings[1..]);
    }
  }

  /** The loop over the flags of a cluster: whether its value is the following token. */
  method ClusterConsumes(scope: Scope, cluster: string, next: Option<string>) returns (consumes: bool)
    ensures consumes && next.Some? <==> |Tokens(ReadCluster(scope, cluster, next))| == 2
  {
    for k := 0 to |cluster|
      invariant FirstValued(scope, cluster, 0) == FirstValued(scope, cluster, k)
    {
      var shape := ShortValueShape(scope, cluster[k]);
      if shape.Some? {
        return k == |cluster| - 1 && ConsumesFollowingValue(shape.value, next);
      }
    }
    return false;
  }

  /** `head` is Head, as a value. */
  ghost predicate IsHead(head: Reader) {
    forall scope, argv {:trigger Head(scope, argv)} :: Head(scope, argv) == head(scope, argv)
  }

  /** What the first token does to the scan: how many tokens it accounts for, and whether it is an operand. */
  method ScanToken(scope: Scope, argv: seq<string>, ghost head: Reader) returns (width: nat, operand: bool)
    requires argv != [] && IsHead(head)
    ensures operand <==> head(scope, argv).Operand?
    ensures operand ==> head(scope, argv).token == argv[0]
    ensures 0 < width <= |argv| && width == |Tokens(head(scope, argv))|
  {
    assert Head(scope, argv) == head(scope, argv);
    var token := argv[0];
    if token == "--" {
      return |argv|, false;
    }
    var consumes := false;
    var longShape := LongValueShape(scope, token);
    if longShape.Some? {
      consumes := ConsumesFollowingValue(longShape.value, NextOf(argv));
    } else if Dashed(token) && token != "-" {
      if !DoubleDashed(token) {
        ClusterTokens(scope, token[1..], NextOf(argv));
        consumes := ClusterConsumes(scope, token[1..], NextOf(argv));
      }
    } else {
      return 1, true;
    }
    return if consumes && |argv| > 1 then 2 else 1, false;
  }

  lemma MarksUnfold(g: Grammar, head: Reader, argv: seq<string>, operands: seq<string>)
    requires Rooted(g) && argv != []
    ensures var scope := ScopeAt(g, operands);
            var item := head(scope, argv);
            Marks(ParseBy(g, head, argv, operands)) ==
            [Some(scope)] + Holes(|Tokens(item)| - 1) + Marks(ParseBy(g, head, Behind(item, argv), Seen(operands, item)))
  {
    var item := head(ScopeAt(g, operands), argv);
    assert ParseBy(g, head, argv, operands)[1..] == ParseBy(g, head, Behind(item, argv), Seen(operands, item));
  }

  lemma WalkNext(g: Grammar, operands: seq<string>, operand: string)
    requires Rooted(g)
    ensures Walk(g, operands + [operand]) == Step(g, Walk(g, operands), operand)
  {
    assert (operands + [operand])[..|operands|] == operands;
  }

  lemma MarksOfItem(g: Grammar, head: Reader, argv: seq<string>, operands: seq<string>, item: Item, width: nat)
    requires Rooted(g) && argv != [] && item == head(ScopeAt(g, operands), argv)
    requires 0 < width <= |argv| && width == |Tokens(item)|
    ensures Marks(ParseBy(g, head, argv, operands)) ==
            [Some(ScopeAt(g, operands))] + Holes(width - 1) + Marks(ParseBy(g, head, argv[width..], Seen(operands, item)))
  {
    MarksUnfold(g, head, argv, operands);
  }

  /** One turn of the loop: the marks of the item in front, and the path behind it. */
  method ScanItem(g: Grammar, ghost head: Reader, argv: seq<string>, path: Path, ghost operands: seq<string>)
    returns (marks: seq<Option<Scope>>, after: Path, ghost seen: seq<string>)
    requires Rooted(g) && argv != [] && path == Walk(g, operands) && IsHead(head)
    ensures 0 < |marks| <= |argv| && after == Walk(g, seen)
    ensures Marks(ParseBy(g, head, argv, operands)) == marks + Marks(ParseBy(g, head, argv[|marks|..], seen))
  {
    var scope := Scope(g.commands[g.root].spellings, g.commands[path.active].spellings);
    var width, operand := ScanToken(scope, argv, head);
    ghost var item := head(scope, argv);
    MarksOfItem(g, head, argv, operands, item, width);
    seen := Seen(operands, item);
    marks := [Some(scope)] + Holes(width - 1);
    after := if operand then Step(g, path, argv[0]) else path;
    WalkNext(g, operands, argv[0]);
  }

  method ScanScopes(g: Grammar, ghost head: Reader, invocation: seq<string>) returns (scopes: seq<Option<Scope>>)
    requires Rooted(g) && IsHead(head)
    ensures scopes == Marks(ParseBy(g, head, invocation, []))
  {
    scopes := [];
    var path := Path(g.root, false);
    ghost var operands: seq<string> := [];
    ghost var left := Marks(ParseBy(g, head, invocation, []));
    ghost var all := left;
    var rest := invocation;
    while rest != []
      invariant path == Walk(g, operands) && left == Marks(ParseBy(g, head, rest, operands))
      invariant scopes + left == all
      decreases |rest|
    {
      var marks, after, seen := ScanItem(g, head, rest, path, operands);
      path, operands := after, seen;
      rest := rest[|marks|..];
      Shifted(scopes, marks, left, Marks(ParseBy(g, head, rest, operands)));
      scopes, left := scopes + marks, Marks(ParseBy(g, head, rest, operands));
    }
  }

  lemma Shifted(scopes: seq<Option<Scope>>, marks: seq<Option<Scope>>, left: seq<Option<Scope>>, rest: seq<Option<Scope>>)
    requires left == marks + rest
    ensures scopes + left == scopes + marks + rest
  {
  }

  // ----- requestsEagerVersion

  datatype Flag = LongFlag(token: string) | ShortFlag(flag: char)

  function ShortFlags(flags: string): seq<Flag> {
    seq(|flags|, i requires 0 <= i < |flags| => ShortFlag(flags[i]))
  }

  /** The flags of an item that are not part of a value. */
  function Flags(item: Item): seq<Flag> {
    match item
    case Long(token, _) => [LongFlag(token)]
    case Cluster(flags, _) => ShortFlags(flags)
    case Terminator(_) => []
    case Operand(_) => []
  }

  function FreeFlags(readings: seq<Reading>): seq<Flag> {
    if readings == [] then [] else Flags(readings[0].item) + FreeFlags(readings[1..])
  }

  predicate AsksVersion(flag: Flag) {
    flag == LongFlag("--version") || flag == ShortFlag('V')
  }

  predicate AsksHelp(flag: Flag) {
    flag == LongFlag("--help") || flag == ShortFlag('h')
  }

  /** Whether the first flag that asks for the version or for help asks for the version. */
  function Verdict(flags: seq<Flag>): Option<bool> {
    if flags == [] then None
    else if AsksVersion(flags[0]) then Some(true)
    else if AsksHelp(flags[0]) then Some(false)
    else Verdict(flags[1..])
  }

  ghost predicate VersionComesFirst(flags: seq<Flag>) {
    exists i :: 0 <= i < |flags| && AsksVersion(flags[i]) && forall j :: 0 <= j < i ==> !AsksHelp(flags[j])
  }

  lemma {:induction false} VerdictMeaning(flags: seq<Flag>)
    ensures Verdict(flags) == Some(true) <==> VersionComesFirst(flags)
  {
    if flags != [] {
      var rest := flags[1..];
      VerdictMeaning(rest);
      if AsksVersion(flags[0]) {
        assert VersionComesFirst(flags);
      } else if !AsksHelp(flags[0]) {
        if VersionComesFirst(rest) {
          var i :| 0 <= i < |rest| && AsksVersion(rest[i]) && forall j :: 0 <= j < i ==> !AsksHelp(rest[j]);
          assert AsksVersion(flags[i + 1]) && forall j :: 0 < j < i + 1 ==> flags[j] == rest[j - 1];
        }
        if VersionComesFirst(flags) {
          var i :| 0 <= i < |flags| && AsksVersion(flags[i]) && forall j :: 0 <= j < i ==> !AsksHelp(flags[j]);
          assert AsksVersion(rest[i - 1]) && forall j :: 0 <= j < i - 1 ==> rest[j] == flags[j + 1];
        }
      }
    }
  }

  lemma {:induction false} VerdictAppend(a: seq<Flag>, b: seq<Flag>)
    ensures Verdict(a + b) == if Verdict(a).Some? then Verdict(a) else Verdict(b)
  {
    if a == [] {
      assert a + b == b;
    } else {
      VerdictAppend(a[1..], b);
      assert (a + b)[1..] == a[1..] + b;
    }
  }

  lemma VerdictOfOne(flag: Flag)
    ensures Verdict([flag]) == if AsksVersion(flag) then Some(true) else if AsksHelp(flag) then Some(false) else None
  {
    assert [flag][1..] == [];
  }

  lemma {:induction false} NoVerdict(flags: seq<Flag>, k: nat)
    requires k <= |flags| && forall i :: 0 <= i < k ==> !AsksVersion(flags[i]) && !AsksHelp(flags[i])
    ensures Verdict(flags) == Verdict(flags[k..])
  {
    if k > 0 {
      NoVerdict(flags[1..], k - 1);
      assert flags[1..][k - 1..] == flags[k..];
    }
  }

  /** The loop over the flags of a cluster. */
  method ClusterVerdict(scope: Scope, cluster: string, next: Option<string>) returns (r: Option<bool>)
    ensures r == Verdict(Flags(ReadCluster(scope, cluster, next)))
  {
    ghost var upto := FirstValued(scope, cluster, 0);
    ghost var flags := ShortFlags(cluster[..upto]);
    assert cluster[..|cluster|] == cluster;
    assert flags == Flags(ReadCluster(scope, cluster, next));
    for k := 0 to |cluster|
      invariant k <= upto && upto == FirstValued(scope, cluster, k)
      invariant forall i :: 0 <= i < k ==> !AsksVersion(flags[i]) && !AsksHelp(flags[i])
    {
      if ShortValueShape(scope, cluster[k]).Some? {
        NoVerdict(flags, k);
        return None;
      }
      assert flags[k] == ShortFlag(cluster[k]);
      if cluster[k] == 'V' || cluster[k] == 'h' {
        NoVerdict(flags, k);
        return Some(cluster[k] == 'V');
      }
    }
    NoVerdict(flags, |cluster|);
    return None;
  }

  /** The body of the loop over the tokens, for a token that starts an item. */
  method TokenVerdict(scope: Scope, argv: seq<string>) returns (r: Option<bool>)
    requires argv != [] && argv[0] != "--"
    ensures r == Verdict(Flags(Head(scope, argv)))
  {
    var token := argv[0];
    VerdictOfOne(LongFlag(token));
    if token == "--version" {
      return Some(true);
    }
    if token == "--help" {
      return Some(false);
    }
    if LongValueShape(scope, token).Some? || DoubleDashed(token) || !Dashed(token) || token == "-" {
      return None;
    }
    r := ClusterVerdict(scope, token[1..], NextOf(argv));
  }

  /** What is left to scan: the rest of an item that has started, then the items behind it. */
  ghost predicate Ahead(scopes: seq<Option<Scope>>, argv: seq<string>, holes: nat, readings: seq<Reading>) {
    && holes <= |argv| == |scopes| && (forall i :: 0 <= i < holes ==> scopes[i] == None)
    && scopes[holes..] == Marks(readings) && Reads(readings, argv[holes..])
  }

  lemma AtHole(scopes: seq<Option<Scope>>, argv: seq<string>, holes: nat, readings: seq<Reading>)
    requires Ahead(scopes, argv, holes, readings) && holes > 0
    ensures scopes[0].None? && Ahead(scopes[1..], argv[1..], holes - 1, readings)
  {
    assert argv[1..][holes - 1..] == argv[holes..];
    assert scopes[1..][holes - 1..] == scopes[holes..];
  }

  lemma AtItem(scopes: seq<Option<Scope>>, argv: seq<string>, readings: seq<Reading>)
    requires Ahead(scopes, argv, 0, readings) && argv != []
    ensures readings != [] && scopes[0] == Some(readings[0].scope)
    ensures readings[0].item == Head(readings[0].scope, argv)
    ensures AllTokens(readings) == argv && (argv[0] == "--" ==> |readings| == 1)
    ensures Ahead(scopes[1..], argv[1..], |Tokens(readings[0].item)| - 1, readings[1..])
  {
    assert argv[0..] == argv && scopes[0..] == scopes;
    HeadTokens(readings[0].scope, argv);
    ReadingsCover(readings, argv);
    if argv[0] == "--" {
      assert Behind(readings[0].item, argv) == [] && readings[1..] == [];
    }
    var n := |Tokens(readings[0].item)|;
    assert argv[1..][n - 1..] == argv[n..];
    var marks := [Some(readings[0].scope)] + Holes(n - 1);
    assert scopes == marks + Marks(readings[1..]);
    assert scopes[..n] == marks && scopes[1..][n - 1..] == scopes[n..] == Marks(readings[1..]);
    assert forall i :: 0 <= i < n - 1 ==> scopes[1..][i] == marks[i + 1];
  }

  /** The state of a loop over the tokens. */
  ghost predicate AheadAt(scopes: seq<Option<Scope>>, argv: seq<string>, index: nat, holes: nat, readings: seq<Reading>) {
    index <= |argv| == |scopes| && Ahead(scopes[index..], argv[index..], holes, readings)
  }

  /** One token further. */
  lemma Advance(scopes: seq<Option<Scope>>, argv: seq<string>, index: nat, holes: nat, readings: seq<Reading>)
    requires AheadAt(scopes, argv, index, holes, readings) && index < |argv|
    ensures holes > 0 ==> scopes[index].None? && AheadAt(scopes, argv, index + 1, holes - 1, readings)
    ensures holes == 0 ==> readings != [] && scopes[index] == Some(readings[0].scope)
    ensures holes == 0 ==> readings[0].item == Head(readings[0].scope, argv[index..])
    ensures holes == 0 ==> AllTokens(readings) == argv[index..]
    ensures holes == 0 && argv[index] == "--" ==> |readings| == 1
    ensures holes == 0 ==> AheadAt(scopes, argv, index + 1, |Tokens(readings[0].item)| - 1, readings[1..])
  {
    assert scopes[index..][1..] == scopes[index + 1..] && argv[index..][1..] == argv[index + 1..];
    if holes > 0 {
      AtHole(scopes[index..], argv[index..], holes, readings);
    } else {
      AtItem(scopes[index..], argv[index..], readings);
    }
  }

  lemma AheadAtStart(scopes: seq<Option<Scope>>, argv: seq<string>, readings: seq<Reading>)
    requires Reads(readings, argv) && scopes == Marks(readings)
    ensures AheadAt(scopes, argv, 0, 0, readings)
  {
    MarkEveryToken(readings);
    ReadingsCover(readings, argv);
    assert argv[0..][0..] == argv && scopes[0..][0..] == scopes;
  }

  /** The body of the loop: an answer, or none yet. */
  method VersionTurn(scopes: seq<Option<Scope>>, argv: seq<string>, index: nat, ghost holes: nat, ghost left: seq<Reading>)
    returns (answer: Option<bool>, ghost holesThen: nat, ghost leftThen: seq<Reading>)
    requires AheadAt(scopes, argv, index, holes, left) && index < |argv|
    ensures answer.Some? ==> (answer.value <==> Verdict(FreeFlags(left)) == Some(true))
    ensures answer.None? ==> AheadAt(scopes, argv, index + 1, holesThen, leftThen)
    ensures answer.None? ==> Verdict(FreeFlags(leftThen)) == Verdict(FreeFlags(left))
  {
    Advance(scopes, argv, index, holes, left);
    if scopes[index].None? {
      return None, holes - 1, left;
    }
    holesThen, leftThen := |Tokens(left[0].item)| - 1, left[1..];
    if argv[index] == "--" {
      return Some(false), holesThen, leftThen;
    }
    answer := TokenVerdict(scopes[index].value, argv[index..]);
    VerdictAppend(Flags(left[0].item), FreeFlags(left[1..]));
  }

  /** The flags of the readings seen from a loop, as a value: loops need not look into them. */
  ghost function VerdictOf(readings: seq<Reading>): Option<bool> {
    Verdict(FreeFlags(readings))
  }

  method RequestsEagerVersion(invocation: seq<string>, scopes: seq<Option<Scope>>, ghost readings: seq<Reading>)
    returns (r: bool)
    requires Reads(readings, invocation) && scopes == Marks(readings)
    ensures r <==> VersionComesFirst(FreeFlags(readings))
  {
    VerdictMeaning(FreeFlags(readings));
    AheadAtStart(scopes, invocation, readings);
    ghost var holes: nat, left := 0, readings;
    for index := 0 to |invocation|
      invariant AheadAt(scopes, invocation, index, holes, left)
      invariant VerdictOf(left) == VerdictOf(readings)
    {
      var answer, holesThen, leftThen := VersionTurn(scopes, invocation, index, holes, left);
      if answer.Some? {
        return answer.value;
      }
      holes, left := holesThen, leftThen;
    }
    NothingAhead(scopes, invocation, holes, left);
    return false;
  }

  lemma NothingAhead(scopes: seq<Option<Scope>>, argv: seq<string>, holes: nat, readings: seq<Reading>)
    requires AheadAt(scopes, argv, |argv|, holes, readings)
    ensures readings == []
  {
    assert argv[|argv|..][holes..] == [];
  }

  // ----- what never counts

  /** Whatever is attached to the option of a cluster, the flags are those in front of it. */
  lemma AttachedValueNeverCounts(scope: Scope, flags: string, flag: char, attached: string, next: Option<string>)
    requires forall i :: 0 <= i < |flags| ==> ShortValueShape(scope, flags[i]).None?
    requires ShortValueShape(scope, flag).Some?
    ensures Flags(ReadCluster(scope, flags + [flag] + attached, next)) == ShortFlags(flags)
  {
    var cluster := flags + [flag] + attached;
    var k := FirstValued(scope, cluster, 0);
    assert cluster[|flags|] == flag;
    assert forall i :: 0 <= i < |flags| ==> cluster[i] == flags[i];
    assert k == |flags| && cluster[..k] == flags;
  }

  lemma ClusterConsumesAnyway(scope: Scope, cluster: string, v: string, w: string)
    requires |Tokens(ReadCluster(scope, cluster, Some(v)))| == 2 && (Dashed(w) ==> Dashed(v))
    ensures |Tokens(ReadCluster(scope, cluster, Some(w)))| == 2
    ensures Flags(ReadCluster(scope, cluster, Some(w))) == Flags(ReadCluster(scope, cluster, Some(v)))
  {
  }

  /** The kind and the flags of an item do not depend on the value it consumes. */
  lemma ConsumedAnyway(scope: Scope, argv: seq<string>, w: string)
    requires |argv| > 1 && |Tokens(Head(scope, argv))| == 2 && !Head(scope, argv).Terminator?
    requires Dashed(w) ==> Dashed(argv[1])
    ensures |Tokens(Head(scope, argv[1 := w]))| == 2 && !Head(scope, argv[1 := w]).Terminator?
    ensures Flags(Head(scope, argv[1 := w])) == Flags(Head(scope, argv))
    ensures !Head(scope, argv).Operand? && !Head(scope, argv[1 := w]).Operand?
  {
    if Head(scope, argv).Cluster? {
      ClusterConsumesAnyway(scope, argv[0][1..], argv[1], w);
    }
  }

  lemma HeadSeesTwo(scope: Scope, argv: seq<string>, i: nat, w: string)
    requires 1 < i < |argv| && !Head(scope, argv).Terminator?
    ensures Head(scope, argv[i := w]) == Head(scope, argv)
  {
  }

  // ----- what never counts, over whole invocations

  /** The items that `head` finds are made of the tokens in front. */
  ghost predicate Honest(head: Reader) {
    forall scope, argv :: argv != [] ==> Tokens(head(scope, argv)) <= argv
  }

  /** A token that belongs to an item without starting it. */
  predicate IsValueBy(g: Grammar, head: Reader, argv: seq<string>, operands: seq<string>, i: nat)
    requires Rooted(g)
    decreases |argv|
  {
    i < |argv| &&
    var item := head(ScopeAt(g, operands), argv);
    var n := |Tokens(item)|;
    if i < n then i > 0 else IsValueBy(g, head, Behind(item, argv), Seen(operands, item), i - n)
  }

  predicate IsValue(g: Grammar, argv: seq<string>, operands: seq<string>, i: nat)
    requires Rooted(g)
  {
    IsValueBy(g, Head, argv, operands, i)
  }

  lemma {:induction false} MarksLength(g: Grammar, head: Reader, argv: seq<string>, operands: seq<string>)
    requires Rooted(g) && Honest(head)
    ensures |Marks(ParseBy(g, head, argv, operands))| == |argv|
    decreases |argv|
  {
    if argv != [] {
      var item := head(ScopeAt(g, operands), argv);
      MarksUnfold(g, head, argv, operands);
      MarksLength(g, head, argv[|Tokens(item)|..], Seen(operands, item));
    }
  }

  /** Whether the token at `i` belongs to a reading without starting it. */
  predicate IsHole(readings: seq<Reading>, i: nat) {
    readings != [] &&
    var n := |Tokens(readings[0].item)|;
    if i < n then i > 0 else IsHole(readings[1..], i - n)
  }

  lemma {:induction false} HoleInMarks(readings: seq<Reading>, i: nat)
    requires i < |Marks(readings)|
    ensures Marks(readings)[i] == None <==> IsHole(readings, i)
  {
    var n := |Tokens(readings[0].item)|;
    if i >= n {
      assert Marks(readings)[i] == Marks(readings[1..])[i - n];
      HoleInMarks(readings[1..], i - n);
    }
  }

  lemma {:induction false} HolesOfParse(g: Grammar, head: Reader, argv: seq<string>, operands: seq<string>, i: nat)
    requires Rooted(g) && Honest(head) && i < |argv|
    ensures IsHole(ParseBy(g, head, argv, operands), i) <==> IsValueBy(g, head, argv, operands, i)
    decreases |argv|
  {
    var item := head(ScopeAt(g, operands), argv);
    var n := |Tokens(item)|;
    if i >= n {
      HolesOfParse(g, head, argv[n..], Seen(operands, item), i - n);
    }
  }

  lemma HeadIsHonest()
    ensures Honest(Head)
  {
    forall scope, argv | argv != []
      ensures Tokens(Head(scope, argv)) <= argv
    {
      HeadTokens(scope, argv);
    }
  }

  /** The values are the tokens that eagerValueOptionScopes leaves without a scope. */
  lemma HolesAreValues(g: Grammar, argv: seq<string>, operands: seq<string>, i: nat)
    requires Rooted(g) && i < |argv|
    ensures |Marks(Parse(g, argv, operands))| == |argv|
    ensures Marks(Parse(g, argv, operands))[i] == None <==> IsValue(g, argv, operands, i)
  {
    HeadIsHonest();
    MarksLength(g, Head, argv, operands);
    HolesOfParse(g, Head, argv, operands, i);
    HoleInMarks(Parse(g, argv, operands), i);
  }

  /** Items with the same flags in the same place; neither is an operand. */
  ghost predicate AlikeFirst(a: Item, b: Item) {
    Flags(a) == Flags(b) && |Tokens(a)| == |Tokens(b)| && !a.Operand? && !b.Operand?
  }

  /** What `head` finds is indifferent to a value that changes. */
  ghost predicate Indifferent(head: Reader) {
    forall scope, argv: seq<string>, i, w {:trigger head(scope, argv[i := w])} ::
      0 < i < |argv| && (Dashed(w) ==> Dashed(argv[i])) ==>
        && (i < |Tokens(head(scope, argv))| ==> AlikeFirst(head(scope, argv), head(scope, argv[i := w])))
        && (i > |Tokens(head(scope, argv))| ==> head(scope, argv[i := w]) == head(scope, argv))
  }

  lemma HeadIsIndifferent()
    ensures Indifferent(Head)
  {
    forall scope, argv: seq<string>, i, w {:trigger Head(scope, argv[i := w])} |
      0 < i < |argv| && (Dashed(w) ==> Dashed(argv[i]))
      ensures i < |Tokens(Head(scope, argv))| ==> AlikeFirst(Head(scope, argv), Head(scope, argv[i := w]))
      ensures i > |Tokens(Head(scope, argv))| ==> Head(scope, argv[i := w]) == Head(scope, argv)
    {
      HeadTokens(scope, argv);
      if i < |Tokens(Head(scope, argv))| {
        FirstValueChanged(scope, argv, i, w);
      } else if i > |Tokens(Head(scope, argv))| {
        HeadSeesTwo(scope, argv, i, w);
      }
    }
  }

  /** The first item with another value, or with other tokens behind the terminator. */
  lemma FirstValueChanged(scope: Scope, argv: seq<string>, i: nat, w: string)
    requires 1 <= i < |argv| && i < |Tokens(Head(scope, argv))| <= |argv|
    requires Dashed(w) ==> Dashed(argv[i])
    ensures AlikeFirst(Head(scope, argv), Head(scope, argv[i := w]))
  {
    if Head(scope, argv).Terminator? {
      assert Head(scope, argv[i := w]).Terminator?;
    } else {
      ConsumedAnyway(scope, argv, w);
    }
  }

  lemma IndifferentAt(head: Reader, scope: Scope, argv: seq<string>, i: nat, w: string)
    requires Indifferent(head) && 0 < i < |argv| && (Dashed(w) ==> Dashed(argv[i]))
    ensures i < |Tokens(head(scope, argv))| ==> AlikeFirst(head(scope, argv), head(scope, argv[i := w]))
    ensures i > |Tokens(head(scope, argv))| ==> head(scope, argv[i := w]) == head(scope, argv)
  {
  }

  lemma ChangedFirst(g: Grammar, head: Reader, argv: seq<string>, operands: seq<string>, i: nat, w: string)
    requires Rooted(g) && Honest(head) && 0 < i < |argv| && i < |Tokens(head(ScopeAt(g, operands), argv))|
    requires AlikeFirst(head(ScopeAt(g, operands), argv), head(ScopeAt(g, operands), argv[i := w]))
    ensures FreeFlags(ParseBy(g, head, argv[i := w], operands)) == FreeFlags(ParseBy(g, head, argv, operands))
  {
    var scope := ScopeAt(g, operands);
    var n := |Tokens(head(scope, argv))|;
    assert argv[i := w][n..] == argv[n..];
    SameFlags(g, head, argv, argv[i := w], operands, head(scope, argv), head(scope, argv[i := w]));
  }

  lemma ChangedLater(g: Grammar, head: Reader, argv: seq<string>, operands: seq<string>, i: nat, w: string, item: Item)
    requires Rooted(g) && Honest(head) && argv != [] && item == head(ScopeAt(g, operands), argv)
    requires |Tokens(item)| <= i < |argv| && head(ScopeAt(g, operands), argv[i := w]) == item
    requires FreeFlags(ParseBy(g, head, argv[|Tokens(item)|..][i - |Tokens(item)| := w], Seen(operands, item)))
          == FreeFlags(ParseBy(g, head, argv[|Tokens(item)|..], Seen(operands, item)))
    ensures FreeFlags(ParseBy(g, head, argv[i := w], operands)) == FreeFlags(ParseBy(g, head, argv, operands))
  {
    var n := |Tokens(item)|;
    assert argv[i := w][n..] == argv[n..][i - n := w];
    SameFlags(g, head, argv, argv[i := w], operands, item, item);
  }

  lemma {:induction false} ValueNeverCountsBy(g: Grammar, head: Reader, argv: seq<string>, operands: seq<string>, i: nat, w: string)
    requires Rooted(g) && Honest(head) && Indifferent(head) && IsValueBy(g, head, argv, operands, i)
    requires Dashed(w) ==> Dashed(argv[i])
    ensures FreeFlags(ParseBy(g, head, argv[i := w], operands)) == FreeFlags(ParseBy(g, head, argv, operands))
    decreases |argv|
  {
    var scope := ScopeAt(g, operands);
    var item := head(scope, argv);
    var n := |Tokens(item)|;
    if i < n {
      IndifferentAt(head, scope, argv, i, w);
      ChangedFirst(g, head, argv, operands, i, w);
    } else {
      ValueInRest(g, head, argv, operands, i, item);
      var rest, seen := argv[n..], Seen(operands, item);
      ValueNeverCountsBy(g, head, rest, seen, i - n, w);
      IndifferentAt(head, scope, argv, i, w);
      ChangedLater(g, head, argv, operands, i, w, item);
    }
  }

  lemma ValueInRest(g: Grammar, head: Reader, argv: seq<string>, operands: seq<string>, i: nat, item: Item)
    requires Rooted(g) && Honest(head) && IsValueBy(g, head, argv, operands, i)
    requires item == head(ScopeAt(g, operands), argv) && i >= |Tokens(item)|
    ensures i > |Tokens(item)| && |Tokens(item)| <= |argv|
    ensures IsValueBy(g, head, argv[|Tokens(item)|..], Seen(operands, item), i - |Tokens(item)|)
  {
  }

  /** First items with the same flags, and the same flags behind them. */
  lemma SameFlags(g: Grammar, head: Reader, a: seq<string>, b: seq<string>, operands: seq<string>, first: Item, other: Item)
    requires Rooted(g) && Honest(head) && a != [] && b != []
    requires first == head(ScopeAt(g, operands), a) && other == head(ScopeAt(g, operands), b)
    requires Flags(first) == Flags(other) && |Tokens(first)| == |Tokens(other)|
    requires Seen(operands, first) == Seen(operands, other) && |Tokens(first)| <= |a| && |Tokens(first)| <= |b|
    requires FreeFlags(ParseBy(g, head, a[|Tokens(first)|..], Seen(operands, first)))
          == FreeFlags(ParseBy(g, head, b[|Tokens(first)|..], Seen(operands, first)))
    ensures FreeFlags(ParseBy(g, head, b, operands)) == FreeFlags(ParseBy(g, head, a, operands))
  {
    FlagsUnfold(g, head, a, operands);
    FlagsUnfold(g, head, b, operands);
  }

  lemma FlagsUnfold(g: Grammar, head: Reader, argv: seq<string>, operands: seq<string>)
    requires Rooted(g) && Honest(head) && argv != []
    ensures var item := head(ScopeAt(g, operands), argv);
            FreeFlags(ParseBy(g, head, argv, operands)) ==
            Flags(item) + FreeFlags(ParseBy(g, head, argv[|Tokens(item)|..], Seen(operands, item)))
  {
    var item := head(ScopeAt(g, operands), argv);
    assert ParseBy(g, head, argv, operands)[1..] == ParseBy(g, head, argv[|Tokens(item)|..], Seen(operands, item));
  }

  /**
   A token that is the value of an option, or stands behind the terminator, can be any other: the
   free flags stay the same, and with them the answer. Only an option that took a token without a
   leading dash may refuse one that has it.
   */
  lemma ValueNeverCounts(g: Grammar, argv: seq<string>, operands: seq<string>, i: nat, w: string)
    requires Rooted(g) && IsValue(g, argv, operands, i)
    requires Dashed(w) ==> Dashed(argv[i])
    ensures FreeFlags(Parse(g, argv[i := w], operands)) == FreeFlags(Parse(g, argv, operands))
  {
    HeadIsHonest();
    HeadIsIndifferent();
    ValueNeverCountsBy(g, Head, argv, operands, i, w);
  }

  // ----- eagerPresentationOptions

  datatype Color = Auto | Always | Never | Off

  datatype Presentation = Presentation(quiet: bool, debug: bool, verbose: nat, color: Color)

  /** Here a flag that takes a value is looked at before its value shape, so it counts. */
  function ShownFlags(item: Item): seq<Flag> {
    if item.Cluster? && item.valued.Some? then ShortFlags(item.flags + [item.valued.value.flag]) else Flags(item)
  }

  function AllShown(readings: seq<Reading>): seq<Flag> {
    if readings == [] then [] else ShownFlags(readings[0].item) + AllShown(readings[1..])
  }

  predicate AsksQuiet(flag: Flag) {
    flag == LongFlag("--quiet") || flag == ShortFlag('q')
  }

  predicate AsksVerbose(flag: Flag) {
    flag == LongFlag("--verbose") || flag == ShortFlag('v')
  }

  predicate Quiets(flags: seq<Flag>) {
    exists i :: 0 <= i < |flags| && AsksQuiet(flags[i])
  }

  predicate Debugs(flags: seq<Flag>) {
    LongFlag("--debug") in flags
  }

  function Verbosity(flags: seq<Flag>): nat {
    if flags == [] then 0
    else Verbosity(flags[..|flags| - 1]) + if AsksVerbose(flags[|flags| - 1]) then 1 else 0
  }

  function ColorNamed(name: string): Option<Color> {
    if name == "auto" then Some(Auto)
    else if name == "always" then Some(Always)
    else if name == "never" then Some(Never)
    else None
  }

  /** The colour a token selects, with the token behind it, whether or not that one is its value. */
  function ColorOf(token: string, next: Option<string>): Option<Color> {
    if token == "--no-color" then Some(Off)
    else if token == "--color" then (if next.None? then None else ColorNamed(next.value))
    else if "--color=" <= token then ColorNamed(token[|"--color="|..])
    else None
  }

  /** The presentation after one more item, with the token behind its first. */
  function ShowItem(shown: Presentation, item: Item, next: Option<string>): Presentation {
    var flags := ShownFlags(item);
    var color := if item.Long? then ColorOf(item.token, next) else None;
    Presentation(shown.quiet || Quiets(flags), shown.debug || Debugs(flags), shown.verbose + Verbosity(flags),
                 if color.Some? then color.value else shown.color)
  }

  /** The presentation after the readings, when it was `shown` before them. */
  function Presented(readings: seq<Reading>, shown: Presentation): Presentation {
    if readings == [] then shown
    else Presented(readings[1..], ShowItem(shown, readings[0].item, NextOf(AllTokens(readings))))
  }

  /** The colours that options select, in order. */
  function Colors(readings: seq<Reading>): seq<Color> {
    if readings == [] then []
    else
      var item := readings[0].item;
      var color := if item.Long? then ColorOf(item.token, NextOf(AllTokens(readings))) else None;
      (if color.None? then [] else [color.value]) + Colors(readings[1..])
  }

  function LastOr(colors: seq<Color>, color: Color): Color {
    if colors == [] then color else colors[|colors| - 1]
  }

  lemma PresentedUnfold(readings: seq<Reading>, shown: Presentation)
    requires readings != []
    ensures Presented(readings, shown)
         == Presented(readings[1..], ShowItem(shown, readings[0].item, NextOf(AllTokens(readings))))
  {
  }

  /** Flags anywhere count. */
  lemma {:induction false} PresentedFlags(readings: seq<Reading>, shown: Presentation)
    ensures Presented(readings, shown).quiet <==> shown.quiet || Quiets(AllShown(readings))
    ensures Presented(readings, shown).debug <==> shown.debug || Debugs(AllShown(readings))
    ensures Presented(readings, shown).verbose == shown.verbose + Verbosity(AllShown(readings))
  {
    if readings != [] {
      PresentedUnfold(readings, shown);
      PresentedFlags(readings[1..], ShowItem(shown, readings[0].item, NextOf(AllTokens(readings))));
      PresentsMore(ShownFlags(readings[0].item), AllShown(readings[1..]));
    }
  }

  lemma LastOrAppend(a: seq<Color>, b: seq<Color>, color: Color)
    ensures LastOr(a + b, color) == LastOr(b, LastOr(a, color))
  {
  }

  /** The last colour wins. */
  lemma {:induction false} PresentedColor(readings: seq<Reading>, shown: Presentation)
    ensures Presented(readings, shown).color == LastOr(Colors(readings), shown.color)
  {
    if readings != [] {
      var item := readings[0].item;
      var next := NextOf(AllTokens(readings));
      var color := if item.Long? then ColorOf(item.token, next) else None;
      PresentedUnfold(readings, shown);
      PresentedColor(readings[1..], ShowItem(shown, item, next));
      LastOrAppend(if color.None? then [] else [color.value], Colors(readings[1..]), shown.color);
    }
  }

  lemma {:induction false} VerbosityAppend(a: seq<Flag>, b: seq<Flag>)
    ensures Verbosity(a + b) == Verbosity(a) + Verbosity(b)
  {
    if b == [] {
      assert a + b == a;
    } else {
      VerbosityAppend(a, b[..|b| - 1]);
      assert (a + b)[..|a + b| - 1] == a + b[..|b| - 1];
    }
  }

  /** What a presentation says about the flags seen so far. */
  ghost predicate Presents(quiet: bool, debug: bool, verbose: nat, flags: seq<Flag>) {
    quiet == Quiets(flags) && debug == Debugs(flags) && verbose == Verbosity(flags)
  }

  lemma PresentsMore(a: seq<Flag>, b: seq<Flag>)
    ensures Quiets(a + b) == (Quiets(a) || Quiets(b))
    ensures Debugs(a + b) == (Debugs(a) || Debugs(b))
    ensures Verbosity(a + b) == Verbosity(a) + Verbosity(b)
  {
    VerbosityAppend(a, b);
    assert forall i :: 0 <= i < |a| ==> (a + b)[i] == a[i];
    assert forall i :: 0 <= i < |b| ==> (a + b)[|a| + i] == b[i];
  }

  lemma PresentsOne(flag: Flag)
    ensures Quiets([flag]) == AsksQuiet(flag) && Debugs([flag]) == (flag == LongFlag("--debug"))
    ensures Verbosity([flag]) == if AsksVerbose(flag) then 1 else 0
  {
    assert [flag][..0] == [] && [flag][0] == flag;
  }

  lemma OneMoreFlag(cluster: string, k: nat)
    requires k < |cluster|
    ensures var before, after := ShortFlags(cluster[..k]), ShortFlags(cluster[..k + 1]);
            && Quiets(after) == (Quiets(before) || cluster[k] == 'q') && Debugs(after) == Debugs(before)
            && Verbosity(after) == Verbosity(before) + if cluster[k] == 'v' then 1 else 0
  {
    assert ShortFlags(cluster[..k + 1]) == ShortFlags(cluster[..k]) + [ShortFlag(cluster[k])];
    PresentsMore(ShortFlags(cluster[..k]), [ShortFlag(cluster[k])]);
    PresentsOne(ShortFlag(cluster[k]));
  }

  /** The loop over the flags of a cluster. */
  method ShowCluster(scope: Scope, cluster: string, next: Option<string>) returns (quiet: bool, verbose: nat)
    ensures Presents(quiet, false, verbose, ShownFlags(ReadCluster(scope, cluster, next)))
  {
    quiet, verbose := false, 0;
    ghost var upto := FirstValued(scope, cluster, 0);
    assert ShortFlags(cluster[..0]) == [] && cluster[..|cluster|] == cluster;
    for k := 0 to |cluster|
      invariant k <= upto && upto == FirstValued(scope, cluster, k)
      invariant Presents(quiet, false, verbose, ShortFlags(cluster[..k]))
    {
      OneMoreFlag(cluster, k);
      if cluster[k] == 'q' {
        quiet := true;
      }
      if cluster[k] == 'v' {
        verbose := verbose + 1;
      }
      if ShortValueShape(scope, cluster[k]).Some? {
        assert cluster[..k] + [cluster[k]] == cluster[..k + 1];
        return;
      }
    }
  }

  predicate IsClusterToken(scope: Scope, token: string) {
    LongValueShape(scope, token).None? && Dashed(token) && !DoubleDashed(token) && token != "-"
  }

  /** How an item looks to the presentation pass. */
  ghost predicate Shows(scope: Scope, argv: seq<string>, item: Item)
    requires argv != []
  {
    if IsClusterToken(scope, argv[0]) then item == ReadCluster(scope, argv[0][1..], NextOf(argv)) && item.Cluster?
    else
      && (item.Long? || item.Operand?) && item.token == argv[0]
      && (item.Operand? ==> !DoubleDashed(argv[0]))
  }

  lemma HeadShows(scope: Scope, argv: seq<string>)
    requires argv != [] && argv[0] != "--"
    ensures Shows(scope, argv, Head(scope, argv))
  {
  }

  /** What the tests on the token itself do, before any flag of a cluster is looked at. */
  function ShowName(shown: Presentation, token: string, next: Option<string>): Presentation {
    var color := ColorOf(token, next);
    Presentation(shown.quiet || token == "--quiet", shown.debug || token == "--debug",
                 if token == "--verbose" then shown.verbose + 1 else shown.verbose,
                 if color.Some? then color.value else shown.color)
  }

  lemma NameOfLong(shown: Presentation, item: Item, next: Option<string>)
    requires item.Long?
    ensures ShowItem(shown, item, next) == ShowName(shown, item.token, next)
  {
    PresentsOne(LongFlag(item.token));
  }

  lemma OtherNames(shown: Presentation, token: string, next: Option<string>)
    requires !DoubleDashed(token)
    ensures ShowName(shown, token, next) == shown
  {
  }

  /** The body of the loop over the tokens, for a token that starts an item and is not the terminator. */
  method ShowToken(scope: Scope, argv: seq<string>, shown: Presentation, ghost item: Item) returns (r: Presentation)
    requires argv != [] && Shows(scope, argv, item)
    ensures r == ShowItem(shown, item, NextOf(argv))
  {
    var token := argv[0];
    r := ShowName(shown, token, NextOf(argv));
    if LongValueShape(scope, token).Some? || !Dashed(token) || DoubleDashed(token) || token == "-" {
      if item.Long? {
        NameOfLong(shown, item, NextOf(argv));
      } else {
        OtherNames(shown, token, NextOf(argv));
        OperandShowsNothing(shown, item, NextOf(argv));
      }
      return;
    }
    OtherNames(shown, token, NextOf(argv));
    var quiet, verbose := ShowCluster(scope, token[1..], NextOf(argv));
    r := r.(quiet := r.quiet || quiet, verbose := r.verbose + verbose);
    ClusterShown(shown, item, NextOf(argv), quiet, verbose);
  }

  lemma OperandShowsNothing(shown: Presentation, item: Item, next: Option<string>)
    requires item.Operand?
    ensures ShowItem(shown, item, next) == shown
  {
  }

  lemma ClusterShown(shown: Presentation, item: Item, next: Option<string>, quiet: bool, verbose: nat)
    requires item.Cluster? && Presents(quiet, false, verbose, ShownFlags(item))
    ensures ShowItem(shown, item, next) == shown.(quiet := shown.quiet || quiet, verbose := shown.verbose + verbose)
  {
  }

  /** The body of the loop: None at the terminator. */
  method ShowTurn(scopes: seq<Option<Scope>>, argv: seq<string>, index: nat, shown: Presentation,
                  ghost holes: nat, ghost left: seq<Reading>)
    returns (r: Option<Presentation>, ghost holesThen: nat, ghost leftThen: seq<Reading>)
    requires AheadAt(scopes, argv, index, holes, left) && index < |argv|
    ensures r.None? ==> Presented(left, shown) == shown
    ensures r.Some? ==> AheadAt(scopes, argv, index + 1, holesThen, leftThen)
    ensures r.Some? ==> Presented(leftThen, r.value) == Presented(left, shown)
  {
    Advance(scopes, argv, index, holes, left);
    if scopes[index].None? {
      return Some(shown), holes - 1, left;
    }
    PresentedUnfold(left, shown);
    holesThen, leftThen := |Tokens(left[0].item)| - 1, left[1..];
    if argv[index] == "--" {
      assert left[0].item.Terminator? && leftThen == [];
      r := None;
      return;
    }
    HeadShows(scopes[index].value, argv[index..]);
    var next := ShowToken(scopes[index].value, argv[index..], shown, left[0].item);
    r := Some(next);
  }

  method EagerPresentationOptions(invocation: seq<string>, scopes: seq<Option<Scope>>, ghost readings: seq<Reading>)
    returns (r: Presentation)
    requires Reads(readings, invocation) && scopes == Marks(readings)
    ensures r.quiet <==> Quiets(AllShown(readings))
    ensures r.debug <==> Debugs(AllShown(readings))
    ensures r.verbose == Verbosity(AllShown(readings))
    ensures r.color == LastOr(Colors(readings), Auto)
  {
    r := Presentation(false, false, 0, Auto);
    ghost var holes: nat, left := 0, readings;
    AheadAtStart(scopes, invocation, readings);
    PresentedFlags(readings, r);
    PresentedColor(readings, r);
    ghost var expected := Presented(readings, r);
    for index := 0 to |invocation|
      invariant AheadAt(scopes, invocation, index, holes, left)
      invariant Presented(left, r) == expected
    {
      var next, holesThen, leftThen := ShowTurn(scopes, invocation, index, r, holes, left);
      if next.None? {
        return;
      }
      r, holes, left := next.value, holesThen, leftThen;
    }
    NothingAhead(scopes, invocation, holes, left);
  }

  // ----- from command specs to an answer

  /** The grammar of a list of command specs: each command with the value options of its own spec. */
  ghost predicate IsGrammarOf(g: Grammar, specs: seq<CommandSpec>, root: nat, attached: set<nat>) {
    && g.root == root && g.attached == attached && |g.commands| == |specs|
    && forall i :: 0 <= i < |specs| ==>
         && g.commands[i].path == specs[i].path && g.commands[i].aliases == specs[i].aliases
         && AreSpellings(g.commands[i].spellings, [specs[i]])
  }

  /** eagerValueOptionScopes: a scope for every token that starts an item, or a conflict within one spec. */
  method EagerValueOptionScopes(invocation: seq<string>, specs: seq<CommandSpec>, root: nat, attached: set<nat>)
    returns (r: Result<seq<Option<Scope>>, Conflict>, ghost g: Grammar)
    requires root < |specs|
    ensures r.Ok? ==> IsGrammarOf(g, specs, root, attached) && r.value == Marks(Parse(g, invocation, []))
    ensures r.Err? ==> exists i :: 0 <= i < |specs| && SpecsConflict(r.error, [specs[i]])
  {
    g := Grammar([], root, attached);
    var rootOptions := ValueOptionSpellings([specs[root]]);
    if rootOptions.Err? {
      return Err(rootOptions.error), g;
    }
    var commands: seq<Command> := [];
    for i := 0 to |specs|
      invariant |commands| == i
      invariant forall k :: 0 <= k < i ==>
        && commands[k].path == specs[k].path && commands[k].aliases == specs[k].aliases
        && AreSpellings(commands[k].spellings, [specs[k]])
    {
      var options := rootOptions;
      if i != root {
        options := ValueOptionSpellings([specs[i]]);
      }
      if options.Err? {
        return Err(options.error), g;
      }
      commands := commands + [Command(specs[i].path, specs[i].aliases, options.value)];
    }
    var grammar := Grammar(commands, root, attached);
    g := grammar;
    var scopes := ScanScopes(grammar, Head, invocation);
    r := Ok(scopes);
  }

  /** The two passes of one parse: the version is requested exactly if the grammar says so. */
  method EagerVersionRequested(invocation: seq<string>, specs: seq<CommandSpec>, root: nat, attached: set<nat>)
    returns (r: Result<bool, Conflict>)
    requires root < |specs|
    ensures r.Ok? ==> exists g :: IsGrammarOf(g, specs, root, attached) && Rooted(g) && (r.value <==> VersionComesFirst(FreeFlags(Parse(g, invocation, []))))
    ensures r.Err? ==> exists i :: 0 <= i < |specs| && SpecsConflict(r.error, [specs[i]])
  {
    var scopes, g := EagerValueOptionScopes(invocation, specs, root, attached);
    if scopes.Err? {
      return Err(scopes.error);
    }
    ParseReads(g, invocation, []);
    var version := RequestsEagerVersion(invocation, scopes.value, Parse(g, invocation, []));
    return Ok(version);
  }

  /** After buildProgram has checked all specs together, every later parse gets an answer. */
  method CheckedVersionRequested(invocation: seq<string>, specs: seq<CommandSpec>, root: nat, attached: set<nat>)
    returns (r: Option<bool>)
    requires root < |specs|
    ensures r.None? ==> exists conflict :: SpecsConflict(conflict, specs)
    ensures r.Some? ==> exists g :: IsGrammarOf(g, specs, root, attached) && Rooted(g) && (r.value <==> VersionComesFirst(FreeFlags(Parse(g, invocation, []))))
  {
    var checked := ValueOptionSpellings(specs);
    if checked.Err? {
      return None;
    }
    var version := EagerVersionRequested(invocation, specs, root, attached);
    if version.Err? {
      ghost var i :| 0 <= i < |specs| && SpecsConflict(version.error, [specs[i]]);
      CheckedTogether(checked.value, specs, i, version.error);
      assert false;
    }
    return Some(version.value);
  }

  /** Root options come first in a lookup, but no order of lookup would give another shape. */
  lemma LookupOrderIrrelevant(spellings: Spellings, specs: seq<CommandSpec>, g: Grammar, operands: seq<string>, spelling: string)
    requires AreSpellings(spellings, specs) && Rooted(g) && IsGrammarOf(g, specs, g.root, g.attached)
    ensures var scope := ScopeAt(g, operands);
            && Lookup(scope.root.long, scope.active.long, spelling) == Lookup(scope.active.long, scope.root.long, spelling)
            && Lookup(scope.root.short, scope.active.short, spelling) == Lookup(scope.active.short, scope.root.short, spelling)
  {
    var active := Walk(g, operands).active;
    TablesAgree(spellings, specs, g.root, g.commands[g.root].spellings, spelling);
    TablesAgree(spellings, specs, active, g.commands[active].spellings, spelling);
  }
}
