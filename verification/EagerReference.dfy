/** The eager answers of program.ts in one pass over the tokens. */
module EagerReference {
  // No grammar, no items and no scopes, only the place where the pass stands. The two passes of program.ts give the
  // same answers on every invocation.

  import opened Results
  import opened OptionSpellings
  import opened EagerScan

  // ----- where a pass stands

  /** The active command, whether words still name commands, and the tokens ahead. */
  datatype Place = Place(at: nat, open: bool, ahead: seq<string>)

  ghost predicate InPlace(g: Grammar, p: Place) {
    g.root < |g.commands| && p.at < |g.commands|
  }

  /** The last word of a path behind the parent's path, or a lone word below the empty one. */
  ghost predicate Below(parent: string, word: string, path: string) {
    ' ' !in word && (path == parent + " " + word || (parent == "" && path == word))
  }

  ghost predicate EndsWith(word: string, path: string) {
    ' ' !in word && (path == word || exists front: string :: path == front + " " + word)
  }

  /** A command that is not the root: attached below it, or declared below the parent. */
  ghost predicate Child(g: Grammar, parent: nat, token: string, k: nat)
    requires parent < |g.commands| && k < |g.commands|
  {
    var command := g.commands[k];
    k != g.root && exists word ::
      && EndsWith(word, command.path) && (word == token || token in command.aliases)
      && ((parent == g.root && k in g.attached) || Below(g.commands[parent].path, word, command.path))
  }

  ghost predicate FirstChild(g: Grammar, parent: nat, token: string, k: nat)
    requires parent < |g.commands|
  {
    k < |g.commands| && Child(g, parent, token, k) && forall j :: 0 <= j < k ==> !Child(g, parent, token, j)
  }

  /** The options that take a value where the pass stands. Those of the root come first. */
  ghost function LongOptions(g: Grammar, p: Place): map<string, Shape>
    requires InPlace(g, p)
  {
    g.commands[p.at].spellings.long + g.commands[g.root].spellings.long
  }

  ghost function ShortOptions(g: Grammar, p: Place): map<string, Shape>
    requires InPlace(g, p)
  {
    g.commands[p.at].spellings.short + g.commands[g.root].spellings.short
  }

  /** A required value is whatever follows, an optional one only what does not begin with a dash. */
  predicate TakesNext(shape: Shape, next: seq<string>) {
    next != [] && (shape == Required || next[0] == "" || next[0][0] != '-')
  }

  /** Only the last flag of a cluster can take the next token, and only if no flag before it takes the rest. */
  ghost predicate ClusterTakesNext(short: map<string, Shape>, flags: string, next: seq<string>) {
    && flags != "" && "-" + [flags[|flags| - 1]] in short && TakesNext(short["-" + [flags[|flags| - 1]]], next)
    && forall i :: 0 <= i < |flags| - 1 ==> "-" + [flags[i]] !in short
  }

  predicate IsWord(token: string) {
    token == "" || token == "-" || token[0] != '-'
  }

  predicate IsLong(token: string) {
    |token| >= 2 && token[0] == '-' && token[1] == '-'
  }

  ghost predicate TakesNextHere(g: Grammar, p: Place)
    requires InPlace(g, p) && p.ahead != []
  {
    var token := p.ahead[0];
    if token in LongOptions(g, p) then TakesNext(LongOptions(g, p)[token], p.ahead[1..])
    else !IsWord(token) && !IsLong(token) && ClusterTakesNext(ShortOptions(g, p), token[1..], p.ahead[1..])
  }

  /** The place behind the token in front and the value it takes. */
  ghost function Onward(g: Grammar, p: Place): (q: Place)
    requires InPlace(g, p) && p.ahead != []
    ensures InPlace(g, q) && |q.ahead| < |p.ahead|
  {
    var token, next := p.ahead[0], p.ahead[1..];
    if TakesNextHere(g, p) then p.(ahead := next[1..])
    else if token in LongOptions(g, p) || !IsWord(token) || !p.open then p.(ahead := next)
    else if exists k :: FirstChild(g, p.at, token, k) then
      var k :| FirstChild(g, p.at, token, k);
      Place(k, true, next)
    else Place(p.at, false, next)
  }

  // ----- the answers

  /** What the flags of a cluster say, up to the first that takes a value. */
  ghost function ClusterSays(short: map<string, Shape>, flags: string): Option<bool> {
    if flags == "" || "-" + [flags[0]] in short then None
    else if flags[0] == 'V' then Some(true)
    else if flags[0] == 'h' then Some(false)
    else ClusterSays(short, flags[1..])
  }

  ghost function TokenSays(g: Grammar, p: Place): Option<bool>
    requires InPlace(g, p) && p.ahead != []
  {
    var token := p.ahead[0];
    if token == "--version" then Some(true)
    else if token == "--help" then Some(false)
    else if token in LongOptions(g, p) || IsWord(token) || IsLong(token) then None
    else ClusterSays(ShortOptions(g, p), token[1..])
  }

  /** Whether the version is requested, from a place on. */
  ghost predicate AskedFrom(g: Grammar, p: Place)
    requires InPlace(g, p)
    decreases |p.ahead|
  {
    if p.ahead == [] || p.ahead[0] == "--" then false
    else if TokenSays(g, p).Some? then TokenSays(g, p).value
    else AskedFrom(g, Onward(g, p))
  }

  // ----- the pass and the grammar: commands

  lemma {:induction false} LastWordBehind(front: string, word: string)
    requires ' ' !in word
    ensures LastWord(front + " " + word) == word && ParentPath(front + " " + word) == front
  {
    var path := front + " " + word;
    if word != "" {
      var k := |word| - 1;
      assert path[..|path| - 1] == front + " " + word[..k];
      LastWordBehind(front, word[..k]);
    } else {
      assert path[..|path| - 1] == front;
    }
  }

  lemma {:induction false} LoneWord(word: string)
    requires ' ' !in word
    ensures LastWord(word) == word && ParentPath(word) == ""
  {
    if word != "" {
      LoneWord(word[..|word| - 1]);
    }
  }

  lemma EndExactly(word: string, path: string)
    ensures EndsWith(word, path) <==> word == LastWord(path)
  {
    PathSplits(path);
    if EndsWith(word, path) {
      if path == word {
        LoneWord(word);
      } else {
        var front: string :| path == front + " " + word;
        LastWordBehind(front, word);
      }
    }
  }

  lemma BelowExactly(parent: string, path: string)
    ensures Below(parent, LastWord(path), path) <==> ParentPath(path) == parent
  {
    PathSplits(path);
    if path == parent + " " + LastWord(path) {
      LastWordBehind(parent, LastWord(path));
    }
  }

  lemma ChildExactly(g: Grammar, parent: nat, token: string, k: nat)
    requires parent < |g.commands| && k < |g.commands|
    ensures Child(g, parent, token, k) <==> IsChild(g, parent, token, k)
  {
    var path := g.commands[k].path;
    forall word
      ensures EndsWith(word, path) <==> word == LastWord(path)
    {
      EndExactly(word, path);
    }
    BelowExactly(g.commands[parent].path, path);
  }

  /**
   Where a walk leads: to the first child of the active command that the word names. If there is
   none, the active command stays and the path closes.
   */
  lemma WalkLeads(g: Grammar, operands: seq<string>, word: string)
    requires Rooted(g) && !Walk(g, operands).closed
    ensures Walk(g, []) == Path(g.root, false)
    ensures forall k :: FirstChild(g, Walk(g, operands).active, word, k) ==> Walk(g, operands + [word]) == Path(k, false)
    ensures (forall k :: 0 <= k < |g.commands| ==> !Child(g, Walk(g, operands).active, word, k))
            ==> Walk(g, operands + [word]) == Path(Walk(g, operands).active, true)
  {
    var active := Walk(g, operands).active;
    WalkNext(g, operands, word);
    forall k | 0 <= k < |g.commands|
      ensures Child(g, active, word, k) <==> IsChild(g, active, word, k)
    {
      ChildExactly(g, active, word, k);
    }
  }

  // ----- the pass and the grammar: one token

  /** The operands so far lead to the place where the pass stands. */
  ghost predicate LeadTo(g: Grammar, operands: seq<string>, p: Place) {
    InPlace(g, p) && Walk(g, operands) == Path(p.at, !p.open)
  }

  lemma LookupsExactly(g: Grammar, operands: seq<string>, p: Place)
    requires LeadTo(g, operands, p)
    ensures forall t {:trigger LongValueShape(ScopeAt(g, operands), t)} ::
              LongValueShape(ScopeAt(g, operands), t) == if t in LongOptions(g, p) then Some(LongOptions(g, p)[t]) else None
    ensures forall f {:trigger ShortValueShape(ScopeAt(g, operands), f)} ::
              ShortValueShape(ScopeAt(g, operands), f)
              == if "-" + [f] in ShortOptions(g, p) then Some(ShortOptions(g, p)["-" + [f]]) else None
  {
  }

  lemma TokenKinds(token: string)
    ensures Dashed(token) && token != "-" <==> !IsWord(token)
    ensures DoubleDashed(token) <==> IsLong(token)
  {
  }

  lemma TakesExactly(shape: Shape, argv: seq<string>)
    requires argv != []
    ensures |ValueTokens(Taken(shape, NextOf(argv)))| == if TakesNext(shape, argv[1..]) then 1 else 0
  {
    if |argv| > 1 {
      assert argv[1..][0] == argv[1];
      assert Dashed(argv[1]) <==> argv[1] != "" && argv[1][0] == '-';
    }
  }

  /** A scope whose two tables, the root's first, give short options as the merged table does. */
  ghost predicate Merged(scope: Scope, short: map<string, Shape>) {
    forall f {:trigger ShortValueShape(scope, f)} ::
      ShortValueShape(scope, f) == if "-" + [f] in short then Some(short["-" + [f]]) else None
  }

  lemma ClusterWidth(scope: Scope, short: map<string, Shape>, flags: string, argv: seq<string>)
    requires Merged(scope, short) && argv != []
    ensures |Tokens(ReadCluster(scope, flags, NextOf(argv)))| == if ClusterTakesNext(short, flags, argv[1..]) then 2 else 1
  {
    var k := FirstValued(scope, flags, 0);
    if k == |flags| - 1 {
      TakesExactly(short["-" + [flags[k]]], argv);
    } else if k < |flags| {
      assert "-" + [flags[k]] in short;
    }
  }

  lemma ShortFlagsUnfold(flags: string)
    requires flags != ""
    ensures ShortFlags(flags) == [ShortFlag(flags[0])] + ShortFlags(flags[1..])
  {
  }

  lemma {:induction false} ClusterSaysExactly(scope: Scope, short: map<string, Shape>, flags: string, k: nat)
    requires Merged(scope, short) && k <= |flags|
    ensures k <= FirstValued(scope, flags, k)
         && Verdict(ShortFlags(flags[k..FirstValued(scope, flags, k)])) == ClusterSays(short, flags[k..])
    decreases |flags| - k
  {
    var upto := FirstValued(scope, flags, k);
    if k < upto {
      ClusterSaysExactly(scope, short, flags, k + 1);
      var free := flags[k..upto];
      assert free[1..] == flags[k + 1..upto] && flags[k..][1..] == flags[k + 1..];
      ShortFlagsUnfold(free);
      VerdictOfOne(ShortFlag(flags[k]));
      VerdictAppend([ShortFlag(flags[k])], ShortFlags(free[1..]));
    } else {
      assert flags[k..upto] == "";
    }
  }

  lemma ClusterFlags(scope: Scope, flags: string, next: Option<string>)
    ensures Flags(ReadCluster(scope, flags, next)) == ShortFlags(flags[0..FirstValued(scope, flags, 0)])
  {
    assert flags[0..FirstValued(scope, flags, 0)] == flags[..FirstValued(scope, flags, 0)];
    assert flags[..|flags|] == flags;
  }

  /** The item in front: its width, whether it is an operand and what its flags say. */
  lemma ItemInFront(g: Grammar, operands: seq<string>, p: Place)
    requires LeadTo(g, operands, p) && p.ahead != [] && p.ahead[0] != "--"
    ensures var item := Head(ScopeAt(g, operands), p.ahead);
            && |Tokens(item)| == (if TakesNextHere(g, p) then 2 else 1)
            && (item.Operand? <==> p.ahead[0] !in LongOptions(g, p) && IsWord(p.ahead[0]))
            && (item.Operand? ==> item.token == p.ahead[0])
            && Verdict(Flags(item)) == TokenSays(g, p)
  {
    var scope, token := ScopeAt(g, operands), p.ahead[0];
    LookupsExactly(g, operands, p);
    TokenKinds(token);
    VerdictOfOne(LongFlag(token));
    if token in LongOptions(g, p) {
      TakesExactly(LongOptions(g, p)[token], p.ahead);
    } else if !IsWord(token) && !IsLong(token) {
      ClusterWidth(scope, ShortOptions(g, p), token[1..], p.ahead);
      ClusterFlags(scope, token[1..], NextOf(p.ahead));
      ClusterSaysExactly(scope, ShortOptions(g, p), token[1..], 0);
      assert token[1..][0..] == token[1..];
    }
  }

  lemma OnwardExactly(g: Grammar, operands: seq<string>, p: Place)
    requires LeadTo(g, operands, p) && p.ahead != [] && p.ahead[0] != "--"
    ensures var item := Head(ScopeAt(g, operands), p.ahead);
            && Onward(g, p).ahead == Behind(item, p.ahead)
            && LeadTo(g, Seen(operands, item), Onward(g, p))
  {
    var item := Head(ScopeAt(g, operands), p.ahead);
    ItemInFront(g, operands, p);
    if item.Operand? {
      if p.open {
        WalkLeads(g, operands, p.ahead[0]);
        forall j | 0 <= j < |g.commands| && Child(g, p.at, p.ahead[0], j)
          ensures exists k :: FirstChild(g, p.at, p.ahead[0], k)
        {
          SomeFirst(g, p.at, p.ahead[0], j);
        }
      } else {
        ClosedStays(g, operands, [p.ahead[0]]);
      }
    }
  }

  lemma {:induction false} SomeFirst(g: Grammar, parent: nat, token: string, j: nat)
    requires parent < |g.commands| && j < |g.commands| && Child(g, parent, token, j)
    ensures exists k :: FirstChild(g, parent, token, k)
  {
    if i: nat :| i < j && Child(g, parent, token, i) {
      SomeFirst(g, parent, token, i);
    } else {
      assert FirstChild(g, parent, token, j);
    }
  }

  // ----- the pass and the grammar: whole invocations

  lemma {:induction false} AskedExactly(g: Grammar, operands: seq<string>, p: Place)
    requires LeadTo(g, operands, p)
    ensures AskedFrom(g, p) <==> VersionComesFirst(FreeFlags(Parse(g, p.ahead, operands)))
    decreases |p.ahead|
  {
    VerdictMeaning(FreeFlags(Parse(g, p.ahead, operands)));
    if p.ahead != [] {
      HeadIsHonest();
      FlagsUnfold(g, Head, p.ahead, operands);
      var item := Head(ScopeAt(g, operands), p.ahead);
      var rest := FreeFlags(Parse(g, Behind(item, p.ahead), Seen(operands, item)));
      VerdictAppend(Flags(item), rest);
      if p.ahead[0] == "--" {
        assert Behind(item, p.ahead) == [] && rest == [];
      } else {
        ItemInFront(g, operands, p);
        OnwardExactly(g, operands, p);
        AskedExactly(g, Seen(operands, item), Onward(g, p));
        VerdictMeaning(rest);
      }
    }
  }

  /** The version is requested exactly if one pass from the root says so. */
  lemma AskedIsVersionRequested(g: Grammar, invocation: seq<string>)
    requires Rooted(g)
    ensures AskedFrom(g, Place(g.root, true, invocation)) <==> VersionComesFirst(FreeFlags(Parse(g, invocation, [])))
  {
    AskedExactly(g, [], Place(g.root, true, invocation));
  }

  // ----- the value of a command's own option

  /**
   Behind a command's word, a long option that this command requires a value for takes the next
   token, whatever it is and whatever the command before it knows.
   */
  lemma OwnOptionTakesNext(g: Grammar, p: Place, k: nat, option: string, value: string, rest: seq<string>)
    requires InPlace(g, p) && p.open && |p.ahead| > 2 && p.ahead[1..] == [option, value] + rest
    requires IsWord(p.ahead[0]) && p.ahead[0] !in LongOptions(g, p) && FirstChild(g, p.at, p.ahead[0], k)
    requires option !in g.commands[g.root].spellings.long && Gives(g.commands[k].spellings.long, Entry(option, Required))
    ensures Onward(g, p) == Place(k, true, [option, value] + rest)
    ensures Onward(g, Onward(g, p)) == Place(k, true, rest)
  {
    assert !TakesNextHere(g, p);
    var q := Onward(g, p);
    assert q.ahead[1..] == [value] + rest && q.ahead[1..][1..] == rest;
    assert LongOptions(g, q)[option] == Required;
  }

  const NoOptions := Spellings(map[], map[])

  /** doctor, whose own --file requires a value. */
  const DoctorGrammar := Grammar([Command("skillsmith", [], NoOptions),
                                  Command("skillsmith doctor", [], Spellings(map["--file" := Required], map[]))], 0, {})

  lemma ChildByPath(g: Grammar, parent: nat, word: string, k: nat)
    requires parent < |g.commands| && k < |g.commands| && k != g.root && ' ' !in word
    requires g.commands[k].path == g.commands[parent].path + " " + word
    ensures Child(g, parent, word, k)
  {
    assert EndsWith(word, g.commands[k].path) && Below(g.commands[parent].path, word, g.commands[k].path);
  }

  lemma DoctorIsChild()
    ensures FirstChild(DoctorGrammar, 0, "doctor", 1)
  {
    assert "skillsmith doctor" == "skillsmith" + " " + "doctor";
    ChildByPath(DoctorGrammar, 0, "doctor", 1);
  }

  lemma DoctorFileValue()
    ensures !AskedFrom(DoctorGrammar, Place(0, true, ["doctor", "--file", "--version"]))
  {
    var p := Place(0, true, ["doctor", "--file", "--version"]);
    DoctorIsChild();
    OwnOptionTakesNext(DoctorGrammar, p, 1, "--file", "--version", []);
    var q := Onward(DoctorGrammar, p);
    assert TokenSays(DoctorGrammar, p).None? && TokenSays(DoctorGrammar, q).None?;
    assert !AskedFrom(DoctorGrammar, Onward(DoctorGrammar, q));
    assert !AskedFrom(DoctorGrammar, q);
  }

  lemma RootFile()
    ensures AskedFrom(DoctorGrammar, Place(0, true, ["--file", "--version"]))
  {
    var p := Place(0, true, ["--file", "--version"]);
    assert p.ahead[1..] == ["--version"] && LongOptions(DoctorGrammar, p) == map[];
    var q := Onward(DoctorGrammar, p);
    assert q.ahead == ["--version"] && TokenSays(DoctorGrammar, p).None?;
    assert AskedFrom(DoctorGrammar, q);
  }

  /** `doctor --file --version` does not ask for the version; `--file --version` without the command does. */
  lemma DoctorExamples()
    ensures !VersionComesFirst(FreeFlags(Parse(DoctorGrammar, ["doctor", "--file", "--version"], [])))
    ensures VersionComesFirst(FreeFlags(Parse(DoctorGrammar, ["--file", "--version"], [])))
  {
    DoctorFileValue();
    AskedIsVersionRequested(DoctorGrammar, ["doctor", "--file", "--version"]);
    RootFile();
    AskedIsVersionRequested(DoctorGrammar, ["--file", "--version"]);
  }

  // ----- the presentation in one pass

  /** The flags of a cluster that are looked at: up to the first that takes a value, and that one. */
  ghost function Looked(short: map<string, Shape>, flags: string): string {
    if flags == "" then ""
    else [flags[0]] + if "-" + [flags[0]] in short then "" else Looked(short, flags[1..])
  }

  ghost function Chosen(token: string, next: seq<string>): Option<Color> {
    if token == "--no-color" then Some(Off)
    else if token == "--color=auto" || (token == "--color" && next != [] && next[0] == "auto") then Some(Auto)
    else if token == "--color=always" || (token == "--color" && next != [] && next[0] == "always") then Some(Always)
    else if token == "--color=never" || (token == "--color" && next != [] && next[0] == "never") then Some(Never)
    else None
  }

  ghost function ShowFront(g: Grammar, p: Place, shown: Presentation): Presentation
    requires InPlace(g, p) && p.ahead != []
  {
    var token, color := p.ahead[0], Chosen(p.ahead[0], p.ahead[1..]);
    var looked := if token in LongOptions(g, p) || IsWord(token) || IsLong(token) then "" else Looked(ShortOptions(g, p), token[1..]);
    Presentation(shown.quiet || token == "--quiet" || 'q' in looked, shown.debug || token == "--debug",
                 shown.verbose + (if token == "--verbose" then 1 else 0) + multiset(looked)['v'],
                 if color.Some? then color.value else shown.color)
  }

  /** The presentation at the end, when it is `shown` at a place. */
  ghost function ShownFrom(g: Grammar, p: Place, shown: Presentation): Presentation
    requires InPlace(g, p)
    decreases |p.ahead|
  {
    if p.ahead == [] || p.ahead[0] == "--" then shown else ShownFrom(g, Onward(g, p), ShowFront(g, p, shown))
  }

  lemma ChosenExactly(argv: seq<string>)
    requires argv != []
    ensures ColorOf(argv[0], NextOf(argv)) == Chosen(argv[0], argv[1..])
  {
    var token := argv[0];
    if |argv| > 1 {
      assert argv[1..][0] == argv[1];
    }
    if "--color=" <= token {
      assert token == "--color=" + token[8..];
    }
    assert "--color=auto"[8..] == "auto" && "--color=always"[8..] == "always" && "--color=never"[8..] == "never";
  }

  lemma LookedNext(short: map<string, Shape>, flags: string, k: nat)
    requires k < |flags|
    ensures Looked(short, flags[k..]) == if "-" + [flags[k]] in short then flags[k..k + 1] else [flags[k]] + Looked(short, flags[k + 1..])
  {
    assert flags[k..][1..] == flags[k + 1..] && flags[k..][0] == flags[k];
  }

  lemma OneMoreInFront(flags: string, k: nat, upto: nat)
    requires k < upto <= |flags|
    ensures [flags[k]] + flags[k + 1..upto] == flags[k..upto]
  {
  }

  /** Where a cluster is looked at up to: behind its first flag with a value. */
  function LookedTo(scope: Scope, flags: string, k: nat): (r: nat)
    requires k <= |flags|
    ensures k <= r <= |flags|
  {
    if FirstValued(scope, flags, k) == |flags| then |flags| else FirstValued(scope, flags, k) + 1
  }

  lemma {:induction false} LookedExactly(scope: Scope, short: map<string, Shape>, flags: string, k: nat)
    requires Merged(scope, short) && k <= |flags|
    ensures Looked(short, flags[k..]) == flags[k..LookedTo(scope, flags, k)]
    decreases |flags| - k
  {
    if k < |flags| {
      LookedNext(short, flags, k);
      if ShortValueShape(scope, flags[k]).None? {
        LookedExactly(scope, short, flags, k + 1);
        OneMoreInFront(flags, k, LookedTo(scope, flags, k));
      }
    }
  }

  lemma {:induction false} CountedFlags(flags: string)
    ensures Quiets(ShortFlags(flags)) <==> 'q' in flags
    ensures !Debugs(ShortFlags(flags))
    ensures Verbosity(ShortFlags(flags)) == multiset(flags)['v']
  {
    if flags != "" {
      var k := |flags| - 1;
      assert flags == flags[..k] + [flags[k]];
      CountedFlags(flags[..k]);
      assert ShortFlags(flags[..k + 1]) == ShortFlags(flags);
      OneMoreFlag(flags, k);
    }
  }

  lemma ClusterLooked(scope: Scope, short: map<string, Shape>, flags: string, next: Option<string>)
    requires Merged(scope, short)
    ensures ShownFlags(ReadCluster(scope, flags, next)) == ShortFlags(Looked(short, flags))
  {
    LookedFromStart(scope, short, flags);
    ShownOfCluster(scope, flags, next);
  }

  lemma ShownOfCluster(scope: Scope, flags: string, next: Option<string>)
    ensures ShownFlags(ReadCluster(scope, flags, next)) == ShortFlags(flags[..LookedTo(scope, flags, 0)])
  {
    var k := FirstValued(scope, flags, 0);
    if k < |flags| {
      assert flags[..k + 1] == flags[..k] + [flags[k]];
    } else {
      assert flags[..k] == flags;
    }
  }

  lemma LookedFromStart(scope: Scope, short: map<string, Shape>, flags: string)
    requires Merged(scope, short)
    ensures Looked(short, flags) == flags[..LookedTo(scope, flags, 0)]
  {
    LookedExactly(scope, short, flags, 0);
    assert flags[0..] == flags && flags[0..LookedTo(scope, flags, 0)] == flags[..LookedTo(scope, flags, 0)];
  }

  lemma ClusterShownInFront(scope: Scope, short: map<string, Shape>, flags: string, next: Option<string>, shown: Presentation)
    requires Merged(scope, short)
    ensures ShowItem(shown, ReadCluster(scope, flags, next), next)
         == shown.(quiet := shown.quiet || 'q' in Looked(short, flags),
                   verbose := shown.verbose + multiset(Looked(short, flags))['v'])
  {
    ClusterLooked(scope, short, flags, next);
    CountedFlags(Looked(short, flags));
    ClusterShown(shown, ReadCluster(scope, flags, next), next, 'q' in Looked(short, flags),
                 multiset(Looked(short, flags))['v']);
  }

  predicate IsClusterHere(long: map<string, Shape>, token: string) {
    token !in long && !IsWord(token) && !IsLong(token)
  }

  lemma ClusterInFront(g: Grammar, operands: seq<string>, p: Place)
    requires LeadTo(g, operands, p) && p.ahead != [] && IsClusterHere(LongOptions(g, p), p.ahead[0])
    ensures Merged(ScopeAt(g, operands), ShortOptions(g, p))
    ensures Head(ScopeAt(g, operands), p.ahead) == ReadCluster(ScopeAt(g, operands), p.ahead[0][1..], NextOf(p.ahead))
  {
    LookupsExactly(g, operands, p);
    TokenKinds(p.ahead[0]);
  }

  lemma ClusterFront(g: Grammar, p: Place, shown: Presentation)
    requires InPlace(g, p) && p.ahead != [] && IsClusterHere(LongOptions(g, p), p.ahead[0])
    ensures var looked := Looked(ShortOptions(g, p), p.ahead[0][1..]);
            ShowFront(g, p, shown) == shown.(quiet := shown.quiet || 'q' in looked, verbose := shown.verbose + multiset(looked)['v'])
  {
    assert Chosen(p.ahead[0], p.ahead[1..]) == None;
  }

  lemma FrontClusterShown(g: Grammar, operands: seq<string>, p: Place, shown: Presentation)
    requires LeadTo(g, operands, p) && p.ahead != [] && IsClusterHere(LongOptions(g, p), p.ahead[0])
    ensures ShowItem(shown, Head(ScopeAt(g, operands), p.ahead), NextOf(p.ahead)) == ShowFront(g, p, shown)
  {
    ClusterInFront(g, operands, p);
    ClusterShownInFront(ScopeAt(g, operands), ShortOptions(g, p), p.ahead[0][1..], NextOf(p.ahead), shown);
    ClusterFront(g, p, shown);
  }

  lemma OtherItemShown(scope: Scope, argv: seq<string>, shown: Presentation)
    requires argv != [] && argv[0] != "--"
    requires LongValueShape(scope, argv[0]).Some? || !Dashed(argv[0]) || DoubleDashed(argv[0]) || argv[0] == "-"
    ensures ShowItem(shown, Head(scope, argv), NextOf(argv)) == ShowName(shown, argv[0], NextOf(argv))
  {
    FrontItem(scope, argv);
    if Head(scope, argv).Long? {
      NameOfLong(shown, Head(scope, argv), NextOf(argv));
    } else {
      OtherNames(shown, argv[0], NextOf(argv));
      OperandShowsNothing(shown, Head(scope, argv), NextOf(argv));
    }
  }

  lemma FrontShown(g: Grammar, operands: seq<string>, p: Place, shown: Presentation)
    requires LeadTo(g, operands, p) && p.ahead != [] && p.ahead[0] != "--"
    ensures ShowItem(shown, Head(ScopeAt(g, operands), p.ahead), NextOf(p.ahead)) == ShowFront(g, p, shown)
  {
    var token := p.ahead[0];
    if IsClusterHere(LongOptions(g, p), token) {
      FrontClusterShown(g, operands, p, shown);
    } else {
      LookupsExactly(g, operands, p);
      TokenKinds(token);
      OtherItemShown(ScopeAt(g, operands), p.ahead, shown);
      ChosenExactly(p.ahead);
    }
  }

  lemma FrontItem(scope: Scope, argv: seq<string>)
    requires argv != [] && argv[0] != "--"
    requires LongValueShape(scope, argv[0]).Some? || !Dashed(argv[0]) || DoubleDashed(argv[0]) || argv[0] == "-"
    ensures var item := Head(scope, argv);
            (item.Long? || (item.Operand? && !DoubleDashed(argv[0]))) && item.token == argv[0]
  {
  }

  lemma {:induction false} ShownExactly(g: Grammar, operands: seq<string>, p: Place, shown: Presentation)
    requires LeadTo(g, operands, p)
    ensures ShownFrom(g, p, shown) == Presented(Parse(g, p.ahead, operands), shown)
    decreases |p.ahead|
  {
    if p.ahead != [] {
      var readings := Parse(g, p.ahead, operands);
      var item := Head(ScopeAt(g, operands), p.ahead);
      ParseReads(g, p.ahead, operands);
      ReadingsCover(readings, p.ahead);
      PresentedUnfold(readings, shown);
      assert readings[0].item == item;
      assert readings[1..] == Parse(g, Behind(item, p.ahead), Seen(operands, item));
      if p.ahead[0] == "--" {
        assert Behind(item, p.ahead) == [];
      } else {
        FrontShown(g, operands, p, shown);
        OnwardExactly(g, operands, p);
        ShownExactly(g, Seen(operands, item), Onward(g, p), ShowFront(g, p, shown));
      }
    }
  }

  /** What eagerPresentationOptions returns is what one pass from the root shows. */
  lemma ShownIsPresented(g: Grammar, invocation: seq<string>)
    requires Rooted(g)
    ensures ShownFrom(g, Place(g.root, true, invocation), Presentation(false, false, 0, Auto))
         == (var readings := Parse(g, invocation, []);
             Presentation(Quiets(AllShown(readings)), Debugs(AllShown(readings)), Verbosity(AllShown(readings)),
                          LastOr(Colors(readings), Auto)))
  {
    var readings, shown := Parse(g, invocation, []), Presentation(false, false, 0, Auto);
    ShownExactly(g, [], Place(g.root, true, invocation), shown);
    PresentedFlags(readings, shown);
    PresentedColor(readings, shown);
  }

  // ----- the scopes in one pass

  /** The options in scope at every token, with holes at values and behind the terminator. */
  ghost function ScopesFrom(g: Grammar, p: Place): seq<Option<Scope>>
    requires InPlace(g, p)
    decreases |p.ahead|
  {
    if p.ahead == [] then []
    else
      var here := Some(Scope(g.commands[g.root].spellings, g.commands[p.at].spellings));
      if p.ahead[0] == "--" then [here] + seq(|p.ahead| - 1, _ => None)
      else [here] + (if TakesNextHere(g, p) then [None] else []) + ScopesFrom(g, Onward(g, p))
  }

  lemma {:induction false} ScopesExactly(g: Grammar, operands: seq<string>, p: Place)
    requires LeadTo(g, operands, p)
    ensures ScopesFrom(g, p) == Marks(Parse(g, p.ahead, operands))
    decreases |p.ahead|
  {
    if p.ahead != [] {
      var item := Head(ScopeAt(g, operands), p.ahead);
      MarksUnfold(g, Head, p.ahead, operands);
      if p.ahead[0] == "--" {
        assert Behind(item, p.ahead) == [];
        assert Holes(|p.ahead| - 1) == seq(|p.ahead| - 1, _ => None);
      } else {
        ItemInFront(g, operands, p);
        OnwardExactly(g, operands, p);
        ScopesExactly(g, Seen(operands, item), Onward(g, p));
        assert Holes(1) == [None] && Holes(0) == [];
      }
    }
  }

  /** What eagerValueOptionScopes returns are the scopes of one pass from the root. */
  lemma ScopesAreMarks(g: Grammar, invocation: seq<string>)
    requires Rooted(g)
    ensures ScopesFrom(g, Place(g.root, true, invocation)) == Marks(Parse(g, invocation, []))
  {
    ScopesExactly(g, [], Place(g.root, true, invocation));
  }
}
