/**
 What displayHumanText, quoteHumanText and the argv of status-human.ts print, unit by unit, with no
 reference to how they go through the characters of a text.
 */
module HumanForms {
  import opened Results
  import opened Utf16
  import opened HumanText
  import opened StatusArgv

  function HexCharacter(d: nat): (c: char)
    requires d < 16
    ensures c as int < 0x80
  {
    "0123456789abcdef"[d]
  }

  function Hex4(u: Unit): (r: Text)
    ensures |r| == 4
  {
    Plain([HexCharacter(u / 0x1000), HexCharacter(u / 0x100 % 0x10), HexCharacter(u / 0x10 % 0x10), HexCharacter(u % 0x10)])
  }

  lemma HexDigitIn(d: nat)
    requires d < 16
    ensures HexDigit(d) == HexCharacter(d) as int
  {
  }

  lemma FourHexDigits(a: nat, b: nat, c: nat, d: nat)
    requires a < 16 && b < 16 && c < 16 && d < 16
    ensures [HexDigit(a), HexDigit(b), HexDigit(c), HexDigit(d)]
         == Plain([HexCharacter(a), HexCharacter(b), HexCharacter(c), HexCharacter(d)])
  {
    HexDigitIn(a);
    HexDigitIn(b);
    HexDigitIn(c);
    HexDigitIn(d);
  }

  lemma Sixteenths(u: Unit, v: nat, w: nat, x: nat)
    requires v == u / 16 && w == v / 16 && x == w / 16
    ensures x == u / 0x1000 && w % 16 == u / 0x100 % 0x10 && v % 16 == u / 0x10 % 0x10
  {
  }

  lemma EscapeExactly(u: Unit)
    ensures Escape(u) == Plain("\\u") + Hex4(u)
  {
    var v := u / 16;
    var w := v / 16;
    FourDigits(u, v, w, w / 16);
    Sixteenths(u, v, w, w / 16);
    FourHexDigits(w / 16, w % 16, v % 16, u % 16);
    assert Plain("\\u") == [BACKSLASH, LETTER_U];
  }

  /** A C0 or C1 control, delete, or one of the two Unicode separators. */
  predicate Shielded(u: Unit) {
    u < 0x20 || u == 0x7f || 0x80 <= u < 0xa0 || u == 0x2028 || u == 0x2029
  }

  function DisplayedUnits(value: Text): Text {
    if value == [] then []
    else (if Shielded(value[0]) then Plain("\\u") + Hex4(value[0]) else [value[0]]) + DisplayedUnits(value[1..])
  }

  /** What is displayed, whatever the text: each shielded unit as an escape of four digits. */
  lemma {:induction false} DisplayExactly(value: Text)
    ensures Display(value) == DisplayedUnits(value) && DisplayHumanText(None) == Plain("null")
  {
    if value != [] {
      DisplayByUnit(value);
      EscapeExactly(value[0]);
      DisplayExactly(value[1..]);
    }
  }

  predicate PairInFront(value: Text) {
    |value| > 1 && value[0] / 0x400 == 0x36 && value[1] / 0x400 == 0x37
  }

  function QuotedUnit(u: Unit): Text {
    if u == '\"' as int then Plain("\\\"")
    else if u == '\\' as int then Plain("\\\\")
    else if u / 0x800 == 0x1b || Shielded(u) then Plain("\\u") + Hex4(u)
    else [u]
  }

  function QuotedUnits(value: Text): Text {
    if value == [] then []
    else if PairInFront(value) then value[..2] + QuotedUnits(value[2..])
    else QuotedUnit(value[0]) + QuotedUnits(value[1..])
  }

  /** What is quoted: quotes and backslashes with a backslash, shielded units and lone surrogates as escapes. */
  lemma QuoteExactly(value: Text)
    ensures QuoteHumanText(value) == Plain("\"") + QuotedUnits(value) + Plain("\"")
  {
    QuotedBody(value);
  }

  lemma {:induction false} QuotedBody(value: Text)
    ensures QuoteAll(Characters(value)) == QuotedUnits(value)
  {
    if value != [] {
      QuoteAllFirst(value);
      FirstQuoted(value);
      QuotedBody(value[FirstWidth(value)..]);
    }
  }

  lemma FirstQuoted(value: Text)
    requires value != []
    ensures FirstWidth(value) == if PairInFront(value) then 2 else 1
    ensures QuoteCharacter(value[..FirstWidth(value)]) == if PairInFront(value) then value[..2] else QuotedUnit(value[0])
  {
    if StartsWithPair(value) {
      QuotePair(value[..2]);
    } else {
      assert value[..1] == [value[0]];
      QuoteUnit(value[0]);
      EscapeExactly(value[0]);
      SurrogateBits(value[0]);
    }
  }

  // ----- the printed form

  lemma JoinFirst(first: Text, rest: seq<Text>)
    requires rest != []
    ensures JoinArgs([first] + rest) == QuoteArg(first) + [SPACE] + JoinArgs(rest)
  {
    assert ([first] + rest)[1..] == rest;
  }

  lemma {:induction false} JoinLast(args: seq<Text>, last: Text)
    requires args != []
    ensures JoinArgs(args + [last]) == JoinArgs(args) + [SPACE] + QuoteArg(last)
  {
    var rest := args[1..];
    assert args + [last] == [args[0]] + (rest + [last]);
    JoinFirst(args[0], rest + [last]);
    if rest != [] {
      JoinLast(rest, last);
      JoinFirst(args[0], rest);
      assert [args[0]] + rest == args;
    } else {
      assert rest + [last] == [last];
    }
  }

  /** Each argument between apostrophes, with a space between two of them. */
  lemma ArgvForms(args: seq<Text>, last: Text)
    ensures Argv(Some([])) == [] && Argv(Some([last])) == QuoteArg(last)
    ensures args != [] ==> Argv(Some(args + [last])) == Argv(Some(args)) + Plain(" ") + QuoteArg(last)
  {
    if args != [] {
      JoinLast(args, last);
      assert Plain(" ") == [SPACE];
    }
  }

  lemma NoArgvForm()
    ensures Argv(None) == Plain("unavailable")
  {
  }

  /** An apostrophe closes the quotes, stands escaped and opens them again; nothing else is replaced. */
  lemma {:induction false} QuoteArgForms(text: Text, u: Unit)
    ensures QuoteArg(text) == Plain("'") + ReplaceApostrophes(DisplayedUnits(text)) + Plain("'")
    ensures ReplaceApostrophes([]) == []
    ensures ReplaceApostrophes([u] + text) == (if u == 0x27 then Plain("'\\''") else [u]) + ReplaceApostrophes(text)
  {
    DisplayExactly(text);
    assert ([u] + text)[1..] == text;
  }

  /** The units that are more than themselves outside quotes. */
  predicate Special(u: Unit) {
    exists i :: 0 <= i < |SPECIALS| && SPECIALS[i] as int == u
  }

  const SPECIALS := "|&;<>()$`\"\n*?[#~=% \t'\\"

  lemma SpecialUnits(u: Unit)
    requires !Special(u)
    ensures !NeedsOtherRules(u) && u != SPACE && u != TAB && u != APOSTROPHE && u != BACKSLASH
  {
    forall i | 0 <= i < |SPECIALS|
      ensures SPECIALS[i] as int != u
    {
    }
    assert SPECIALS[0] as int != u && SPECIALS[1] as int != u && SPECIALS[2] as int != u && SPECIALS[3] as int != u;
    assert SPECIALS[4] as int != u && SPECIALS[5] as int != u && SPECIALS[6] as int != u && SPECIALS[7] as int != u;
    assert SPECIALS[8] as int != u && SPECIALS[9] as int != u && SPECIALS[10] as int != u && SPECIALS[11] as int != u;
    assert SPECIALS[12] as int != u && SPECIALS[13] as int != u && SPECIALS[14] as int != u && SPECIALS[15] as int != u;
    assert SPECIALS[16] as int != u && SPECIALS[17] as int != u && SPECIALS[18] as int != u && SPECIALS[19] as int != u;
    assert SPECIALS[20] as int != u && SPECIALS[21] as int != u;
  }

  /** The tokenizer outside quotes: blanks end a word, a backslash keeps the next unit or joins two lines. */
  lemma TokenizerForms(u: Unit, rest: Text, done: Text)
    ensures u == 0x20 || u == 0x09 ==> Tokenize([u] + rest, None, false) == Tokenize(rest, None, false)
    ensures Tokenize(Plain("\\\n") + rest, Some(done), false) == Tokenize(rest, Some(done), false)
    ensures u != 0x0a ==> Tokenize(Plain("\\") + [u] + rest, Some(done), false) == Tokenize(rest, Some(done + [u]), false)
    ensures !Special(u) ==> Tokenize([u] + rest, Some(done), false) == Tokenize(rest, Some(done + [u]), false)
  {
    assert ([u] + rest)[1..] == rest;
    assert (Plain("\\\n") + rest)[2..] == rest && (Plain("\\") + [u] + rest)[2..] == rest;
    if !Special(u) {
      SpecialUnits(u);
    }
    var blank := Tokenize(rest, None, false);
    if blank.Some? {
      assert Emit(None) + blank.value == blank.value;
    }
  }
}
