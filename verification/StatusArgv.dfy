/**
 quoteArg and argv of status-human.ts, read back by the tokenizer of sections 2.2.1 (backslash) and
 2.2.2 (single quotes) of the POSIX.1-2017 Shell Command Language.
 */
module StatusArgv {
  import opened Results
  import opened Utf16
  import opened HumanText

  const APOSTROPHE: Unit := 0x27
  const SPACE: Unit := 0x20
  const TAB: Unit := 0x09
  const NEWLINE: Unit := 0x0a

  /** text.replaceAll("'", "'\\''") */
  function ReplaceApostrophes(text: Text): Text {
    if text == [] then []
    else ReplaceOne(text[0]) + ReplaceApostrophes(text[1..])
  }

  function ReplaceOne(u: Unit): Text {
    if u == APOSTROPHE then [APOSTROPHE, BACKSLASH, APOSTROPHE, APOSTROPHE] else [u]
  }

  function QuoteArg(value: Text): Text {
    [APOSTROPHE] + ReplaceApostrophes(Display(value)) + [APOSTROPHE]
  }

  function JoinArgs(args: seq<Text>): Text {
    if args == [] then []
    else if |args| == 1 then QuoteArg(args[0])
    else QuoteArg(args[0]) + [SPACE] + JoinArgs(args[1..])
  }

  const UNAVAILABLE: Text := [0x75, 0x6e, 0x61, 0x76, 0x61, 0x69, 0x6c, 0x61, 0x62, 0x6c, 0x65]

  function Argv(value: Option<seq<Text>>): Text {
    if value.None? then UNAVAILABLE else JoinArgs(value.value)
  }

  // ----- the shell's reading

  /**
   What section 2.2 says may have a meaning of its own unless quoted: | & ; < > ( ) $ ` " newline
   and * ? [ # ~ = %. A line with one of these unquoted is outside the two sections modelled.
   */
  predicate NeedsOtherRules(u: Unit) {
    u in {0x7c, 0x26, 0x3b, 0x3c, 0x3e, 0x28, 0x29, 0x24, 0x60, 0x22, 0x0a, 0x2a, 0x3f, 0x5b, 0x23, 0x7e, 0x3d, 0x25}
  }

  /** The word being read: none yet, or what it holds so far. */
  type Word = Option<Text>

  function Emit(word: Word): seq<Text> {
    if word.None? then [] else [word.value]
  }

  function Extend(word: Word, u: Unit): Word {
    Some((if word.None? then [] else word.value) + [u])
  }

  /** The words of a command line; None if it does not end properly or needs other rules. */
  function Tokenize(line: Text, word: Word, quoted: bool): Option<seq<Text>> {
    if line == [] then
      if quoted then None else Some(Emit(word))
    else if quoted then
      if line[0] == APOSTROPHE then Tokenize(line[1..], word, false)
      else Tokenize(line[1..], Extend(word, line[0]), true)
    else if line[0] == APOSTROPHE then Tokenize(line[1..], Some(if word.None? then [] else word.value), true)
    else if line[0] == SPACE || line[0] == TAB then
      var rest := Tokenize(line[1..], None, false);
      if rest.None? then None else Some(Emit(word) + rest.value)
    else if line[0] == BACKSLASH then
      if |line| == 1 then None
      else if line[1] == NEWLINE then Tokenize(line[2..], word, false)
      else Tokenize(line[2..], Extend(word, line[1]), false)
    else if NeedsOtherRules(line[0]) then None
    else Tokenize(line[1..], Extend(word, line[0]), false)
  }

  /** The four units that stand for an apostrophe inside quotes. */
  lemma ApostropheRead(rest: Text, done: Text)
    ensures Tokenize([APOSTROPHE, BACKSLASH, APOSTROPHE, APOSTROPHE] + rest, Some(done), true)
         == Tokenize(rest, Some(done + [APOSTROPHE]), true)
  {
    var line := [APOSTROPHE, BACKSLASH, APOSTROPHE, APOSTROPHE] + rest;
    var escaped, reopened := line[1..], line[3..];
    assert Tokenize(line, Some(done), true) == Tokenize(escaped, Some(done), false);
    assert escaped[0] == BACKSLASH && escaped[1] == APOSTROPHE && escaped[2..] == reopened;
    assert Tokenize(escaped, Some(done), false) == Tokenize(reopened, Some(done + [APOSTROPHE]), false);
    assert reopened[0] == APOSTROPHE && reopened[1..] == rest;
  }

  lemma OneRead(u: Unit, rest: Text, done: Text)
    ensures Tokenize(ReplaceOne(u) + rest, Some(done), true) == Tokenize(rest, Some(done + [u]), true)
  {
    if u == APOSTROPHE {
      ApostropheRead(rest, done);
    } else {
      assert ([u] + rest)[1..] == rest;
    }
  }

  /** Quoted text is read as it was before its apostrophes were replaced. */
  lemma {:induction false} QuotedTextRead(text: Text, rest: Text, done: Text)
    ensures Tokenize(ReplaceApostrophes(text) + rest, Some(done), true) == Tokenize(rest, Some(done + text), true)
    decreases |text|
  {
    if text == [] {
      assert [] + rest == rest && done + text == done;
    } else {
      var others := ReplaceApostrophes(text[1..]);
      OneRead(text[0], others + rest, done);
      assert ReplaceOne(text[0]) + others + rest == ReplaceOne(text[0]) + (others + rest);
      QuotedTextRead(text[1..], rest, done + [text[0]]);
      assert done + [text[0]] + text[1..] == done + text;
    }
  }

  /** A quoted argument in front of a line is one word, whatever it contains. */
  lemma QuotedArgRead(value: Text, rest: Text)
    ensures Tokenize(QuoteArg(value) + rest, None, false) == Tokenize(rest, Some(Display(value)), false)
  {
    var shown := ReplaceApostrophes(Display(value));
    var line := QuoteArg(value) + rest;
    assert line[1..] == shown + ([APOSTROPHE] + rest);
    QuotedTextRead(Display(value), [APOSTROPHE] + rest, []);
    assert [] + Display(value) == Display(value);
    assert ([APOSTROPHE] + rest)[1..] == rest;
  }

  function DisplayEach(args: seq<Text>): (r: seq<Text>)
    ensures |r| == |args| && forall i :: 0 <= i < |args| ==> r[i] == Display(args[i])
  {
    seq(|args|, i requires 0 <= i < |args| => Display(args[i]))
  }

  /** The shell splits a printed argv into one word per argument: its display form. */
  lemma {:induction false} ArgvTokenizes(args: seq<Text>)
    ensures Tokenize(Argv(Some(args)), None, false) == Some(DisplayEach(args))
  {
    if args != [] {
      var behind := if |args| == 1 then [] else [SPACE] + JoinArgs(args[1..]);
      assert JoinArgs(args) == QuoteArg(args[0]) + behind;
      QuotedArgRead(args[0], behind);
      assert DisplayEach(args) == [Display(args[0])] + DisplayEach(args[1..]);
      if |args| > 1 {
        assert behind[1..] == JoinArgs(args[1..]);
        ArgvTokenizes(args[1..]);
      } else {
        assert DisplayEach(args) == [Display(args[0])] == Emit(Some(Display(args[0])));
        assert Tokenize(behind, Some(Display(args[0])), false) == Some([Display(args[0])]);
      }
    }
  }

  /** The words are the arguments themselves exactly when no argument holds a control character. */
  lemma ArgvFaithful(args: seq<Text>)
    ensures Tokenize(Argv(Some(args)), None, false) == Some(args) <==> forall i :: 0 <= i < |args| ==> ControlFree(args[i])
  {
    ArgvTokenizes(args);
    forall i | 0 <= i < |args|
      ensures ControlFree(args[i]) <==> DisplayEach(args)[i] == args[i]
    {
      DisplayFixes(args[i]);
    }
    if forall i :: 0 <= i < |args| ==> ControlFree(args[i]) {
      assert DisplayEach(args) == args;
    }
  }

  /** Printing an argv never looks like having none. */
  lemma ArgvIsNotUnavailable(args: seq<Text>)
    ensures Argv(Some(args)) != Argv(None)
  {
    if args != [] {
      assert JoinArgs(args)[0] == APOSTROPHE;
    }
  }

  lemma {:induction false} ReplacedIsControlFree(text: Text)
    requires ControlFree(text)
    ensures ControlFree(ReplaceApostrophes(text))
  {
    if text != [] {
      assert forall i :: 0 <= i < |text[1..]| ==> text[1..][i] == text[i + 1];
      ReplacedIsControlFree(text[1..]);
    }
  }

  /** A printed argv stays on its line. */
  lemma {:induction false} ArgvIsControlFree(args: seq<Text>)
    ensures ControlFree(Argv(Some(args)))
  {
    if args != [] {
      DisplayIsControlFree(args[0]);
      ReplacedIsControlFree(Display(args[0]));
      ArgvIsControlFree(args[1..]);
      if |args| > 1 {
        assert Argv(Some(args[1..])) == JoinArgs(args[1..]);
      }
    }
  }
}
