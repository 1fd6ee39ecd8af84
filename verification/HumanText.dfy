/**
 displayHumanText and quoteHumanText, the quoting of status-human.ts built on them, and the readers
 that take their output apart again.
 */
module HumanText {
  import opened Results
  import opened Utf16

  const QUOTE: Unit := 0x22
  const BACKSLASH: Unit := 0x5c
  const LETTER_U: Unit := 0x75

  /** The characters that displayHumanText escapes. */
  predicate IsControl(codePoint: nat) {
    codePoint <= 0x1f || 0x7f <= codePoint <= 0x9f || codePoint == 0x2028 || codePoint == 0x2029
  }

  predicate ControlFree(text: Text) {
    forall i :: 0 <= i < |text| ==> !IsControl(text[i])
  }

  // ----- hexadecimal escapes

  function HexDigit(d: nat): Unit
    requires d < 16
  {
    if d < 10 then 0x30 + d else 0x61 + (d - 10)
  }

  /** n.toString(16) */
  function Hex(n: nat): Text {
    if n < 16 then [HexDigit(n)] else Hex(n / 16) + [HexDigit(n % 16)]
  }

  /** padStart(4, '0') */
  function PadStart4(text: Text): Text {
    if |text| < 4 then seq(4 - |text|, _ => 0x30) + text else text
  }

  function Escape(codePoint: nat): Text {
    [BACKSLASH, LETTER_U] + PadStart4(Hex(codePoint))
  }

  function HexValue(u: Unit): Option<nat> {
    if 0x30 <= u <= 0x39 then Some(u - 0x30)
    else if 0x61 <= u <= 0x66 then Some(u - 0x61 + 10)
    else None
  }

  /** Four hexadecimal digits at the front of the text. */
  function ReadHex4(text: Text): (r: Option<Unit>)
    ensures r.Some? ==> |text| >= 4
  {
    if |text| < 4 then None
    else
      var a, b, c, d := HexValue(text[0]), HexValue(text[1]), HexValue(text[2]), HexValue(text[3]);
      if a.None? || b.None? || c.None? || d.None? then None
      else Some(((a.value * 16 + b.value) * 16 + c.value) * 16 + d.value)
  }

  lemma LastDigit(n: nat)
    requires n >= 16
    ensures Hex(n) == Hex(n / 16) + [HexDigit(n % 16)]
  {
  }

  /** The digits of u, where v, w and x are what is left of u after one, two and three of them. */
  lemma FourDigits(u: Unit, v: nat, w: nat, x: nat)
    requires v == u / 16 && w == v / 16 && x == w / 16
    ensures x < 16 && PadStart4(Hex(u)) == [HexDigit(x), HexDigit(w % 16), HexDigit(v % 16), HexDigit(u % 16)]
  {
    if u < 16 {
      assert Hex(u) == [HexDigit(u)];
    } else if v < 16 {
      LastDigit(u);
      assert Hex(u) == [HexDigit(v), HexDigit(u % 16)];
    } else if w < 16 {
      LastDigit(u);
      LastDigit(v);
      assert Hex(u) == [HexDigit(w), HexDigit(v % 16), HexDigit(u % 16)];
    } else {
      LastDigit(u);
      LastDigit(v);
      LastDigit(w);
      assert Hex(u) == [HexDigit(x), HexDigit(w % 16), HexDigit(v % 16), HexDigit(u % 16)];
    }
  }

  lemma DigitRead(d: nat)
    requires d < 16
    ensures HexValue(HexDigit(d)) == Some(d) && 0x30 <= HexDigit(d) < 0x7f
  {
  }

  lemma DigitsRead(a: nat, b: nat, c: nat, d: nat, rest: Text)
    requires a < 16 && b < 16 && c < 16 && d < 16
    ensures ReadHex4([HexDigit(a), HexDigit(b), HexDigit(c), HexDigit(d)] + rest) == Some(((a * 16 + b) * 16 + c) * 16 + d)
  {
    DigitRead(a);
    DigitRead(b);
    DigitRead(c);
    DigitRead(d);
  }

  lemma Hex4Read(u: Unit, rest: Text)
    ensures ReadHex4(PadStart4(Hex(u)) + rest) == Some(u)
  {
    var v := u / 16;
    var w := v / 16;
    FourDigits(u, v, w, w / 16);
    DigitsRead(w / 16, w % 16, v % 16, u % 16, rest);
  }

  lemma EscapeIsClean(u: Unit)
    ensures |Escape(u)| == 6 && ControlFree(Escape(u)) && WellPaired(Escape(u))
  {
    var v := u / 16;
    var w := v / 16;
    FourDigits(u, v, w, w / 16);
    DigitRead(w / 16);
    DigitRead(w % 16);
    DigitRead(v % 16);
    DigitRead(u % 16);
    PlainIsWellPaired(Escape(u));
  }

  lemma EscapeRead(u: Unit, rest: Text)
    ensures |Escape(u)| == 6 && Escape(u)[0] == BACKSLASH && Escape(u)[1] == LETTER_U
    ensures ReadHex4((Escape(u) + rest)[2..]) == Some(u)
    ensures (Escape(u) + rest)[6..] == rest
  {
    EscapeIsClean(u);
    Hex4Read(u, rest);
    assert (Escape(u) + rest)[2..] == PadStart4(Hex(u)) + rest;
  }

  // ----- displayHumanText

  function DisplayCharacter(character: Text): Text
    requires character != []
  {
    if IsControl(CodePoint(character)) then Escape(CodePoint(character)) else character
  }

  function DisplayAll(characters: seq<Text>): Text
    requires forall i :: 0 <= i < |characters| ==> characters[i] != []
  {
    if characters == [] then [] else DisplayCharacter(characters[0]) + DisplayAll(characters[1..])
  }

  const NULL_TEXT: Text := [0x6e, 0x75, 0x6c, 0x6c]

  function DisplayHumanText(value: Option<Text>): Text {
    if value.None? then NULL_TEXT else DisplayAll(Characters(value.value))
  }

  function Display(value: Text): Text {
    DisplayHumanText(Some(value))
  }

  /** Display goes through the code units one by one: no control character is a pair. */
  lemma {:induction false} DisplayByUnit(value: Text)
    ensures value != [] ==> Display(value) == (if IsControl(value[0]) then Escape(value[0]) else [value[0]]) + Display(value[1..])
  {
    if value != [] {
      assert Characters(value)[1..] == Characters(value[if StartsWithPair(value) then 2 else 1..]);
      if StartsWithPair(value) {
        var tail := value[1..];
        assert !StartsWithPair(tail);
        assert Characters(tail)[1..] == Characters(tail[1..]);
        assert tail[1..] == value[2..] && tail[..1] == [value[1]] && value[..2] == [value[0]] + [value[1]];
      }
    }
  }

  lemma {:induction false} DisplayIsControlFree(value: Text)
    ensures ControlFree(Display(value))
  {
    if value != [] {
      DisplayByUnit(value);
      DisplayIsControlFree(value[1..]);
      EscapeIsClean(value[0]);
    }
  }

  /** Only text without controls is displayed as it is. */
  lemma {:induction false} DisplayFixes(value: Text)
    ensures Display(value) == value <==> ControlFree(value)
  {
    if ControlFree(value) {
      if value != [] {
        DisplayByUnit(value);
        assert forall i :: 0 <= i < |value[1..]| ==> value[1..][i] == value[i + 1];
        DisplayFixes(value[1..]);
      }
    } else {
      DisplayIsControlFree(value);
    }
  }

  /** Displaying twice changes nothing more. */
  lemma DisplayIdempotent(value: Text)
    ensures Display(Display(value)) == Display(value)
  {
    DisplayIsControlFree(value);
    DisplayFixes(Display(value));
  }

  /** Display text is not lossless: a bell and its written-out escape look the same. */
  lemma DisplayLosesTheDifference()
    ensures Display([0x07]) == Display(Escape(0x07)) && [0x07] != Escape(0x07)
  {
    DisplayByUnit([0x07]);
    assert Display([]) == [];
    EscapeIsClean(0x07);
    assert Escape(0x07) + [] == Escape(0x07);
    DisplayFixes(Escape(0x07));
    assert Display([0x07]) == Escape(0x07);
  }

  // ----- quoteHumanText

  function QuoteCharacter(character: Text): Text
    requires character != []
  {
    if character == [QUOTE] then [BACKSLASH, QUOTE]
    else if character == [BACKSLASH] then [BACKSLASH, BACKSLASH]
    else if 0xd800 <= CodePoint(character) <= 0xdfff then Escape(CodePoint(character))
    else Display(character)
  }

  function QuoteAll(characters: seq<Text>): Text
    requires forall i :: 0 <= i < |characters| ==> characters[i] != []
  {
    if characters == [] then [] else QuoteCharacter(characters[0]) + QuoteAll(characters[1..])
  }

  function QuoteHumanText(value: Text): Text {
    [QUOTE] + QuoteAll(Characters(value)) + [QUOTE]
  }

  /** Reads up to the closing quote: the value, and what stands behind the quote. */
  function ReadBody(text: Text): Option<(Text, Text)> {
    if text == [] then None
    else if text[0] == QUOTE then Some(([], text[1..]))
    else if text[0] != BACKSLASH then Prepend(text[0], ReadBody(text[1..]))
    else if |text| == 1 then None
    else if text[1] == QUOTE || text[1] == BACKSLASH then Prepend(text[1], ReadBody(text[2..]))
    else if text[1] != LETTER_U || ReadHex4(text[2..]).None? then None
    else Prepend(ReadHex4(text[2..]).value, ReadBody(text[6..]))
  }

  function Prepend(u: Unit, read: Option<(Text, Text)>): Option<(Text, Text)> {
    if read.None? then None else Some(([u] + read.value.0, read.value.1))
  }

  /** A quoted text at the front of `text`, and what follows it. */
  function ReadQuoted(text: Text): Option<(Text, Text)> {
    if text == [] || text[0] != QUOTE then None else ReadBody(text[1..])
  }

  /** What one character other than a pair is written as. */
  lemma QuoteUnit(u: Unit)
    ensures QuoteCharacter([u]) ==
            if u == QUOTE || u == BACKSLASH then [BACKSLASH, u]
            else if Surrogate(u) || IsControl(u) then Escape(u)
            else [u]
  {
    DisplayByUnit([u]);
    assert [u][1..] == [] && Display([]) == [];
    assert Escape(u) + [] == Escape(u);
  }

  lemma QuotePair(pair: Text)
    requires |pair| == 2 && StartsWithPair(pair)
    ensures QuoteCharacter(pair) == pair
  {
    DisplayFixes(pair);
  }

  lemma UnitRead(u: Unit, rest: Text)
    ensures ReadBody(QuoteCharacter([u]) + rest) == Prepend(u, ReadBody(rest))
  {
    QuoteUnit(u);
    EscapeRead(u, rest);
    var text := QuoteCharacter([u]) + rest;
    if u == QUOTE || u == BACKSLASH {
      assert text[2..] == rest;
    } else if Surrogate(u) || IsControl(u) {
      assert text[0] == text[..2][0] && text[1] == text[..2][1];
    } else {
      assert text[1..] == rest;
    }
  }

  lemma PairRead(pair: Text, rest: Text)
    requires |pair| == 2 && StartsWithPair(pair)
    ensures ReadBody(QuoteCharacter(pair) + rest) == Prepend(pair[0], Prepend(pair[1], ReadBody(rest)))
  {
    QuotePair(pair);
    assert (pair + rest)[1..] == [pair[1]] + rest;
    assert ([pair[1]] + rest)[1..] == rest;
  }

  function FirstWidth(value: Text): nat
    requires value != []
  {
    if StartsWithPair(value) then 2 else 1
  }

  lemma QuoteAllFirst(value: Text)
    requires value != []
    ensures FirstWidth(value) <= |value|
    ensures QuoteAll(Characters(value)) == QuoteCharacter(value[..FirstWidth(value)]) + QuoteAll(Characters(value[FirstWidth(value)..]))
  {
    assert Characters(value)[1..] == Characters(value[FirstWidth(value)..]);
  }

  lemma FirstRead(value: Text, behind: Text, read: Text, rest: Text)
    requires value != [] && read == value[FirstWidth(value)..]
    requires ReadBody(behind) == Some((read, rest))
    ensures ReadBody(QuoteCharacter(value[..FirstWidth(value)]) + behind) == Some((value, rest))
  {
    var first := value[..FirstWidth(value)];
    if |first| == 2 {
      PairRead(first, behind);
      assert [value[0]] + ([value[1]] + read) == value;
    } else {
      assert first == [value[0]] && [value[0]] + read == value;
      UnitRead(value[0], behind);
    }
  }

  lemma {:induction false} BodyRead(value: Text, rest: Text)
    ensures ReadBody(QuoteAll(Characters(value)) + ([QUOTE] + rest)) == Some((value, rest))
  {
    if value == [] {
      assert [] + ([QUOTE] + rest) == [QUOTE] + rest && ([QUOTE] + rest)[1..] == rest;
    } else {
      var width := FirstWidth(value);
      QuoteAllFirst(value);
      var quoted := QuoteCharacter(value[..width]);
      var others := QuoteAll(Characters(value[width..]));
      BodyRead(value[width..], rest);
      assert quoted + others + ([QUOTE] + rest) == quoted + (others + ([QUOTE] + rest));
      FirstRead(value, others + ([QUOTE] + rest), value[width..], rest);
    }
  }

  /** Quoting loses nothing, lone surrogates included, and shows where the quoted text ends. */
  lemma QuoteRoundTrip(value: Text, rest: Text)
    ensures ReadQuoted(QuoteHumanText(value) + rest) == Some((value, rest))
  {
    BodyRead(value, rest);
    assert (QuoteHumanText(value) + rest)[1..] == QuoteAll(Characters(value)) + ([QUOTE] + rest);
  }

  lemma QuoteInjective(a: Text, b: Text, behindA: Text, behindB: Text)
    requires QuoteHumanText(a) + behindA == QuoteHumanText(b) + behindB
    ensures a == b && behindA == behindB
  {
    QuoteRoundTrip(a, behindA);
    QuoteRoundTrip(b, behindB);
  }

  lemma {:induction false} BodyIsClean(value: Text)
    ensures ControlFree(QuoteAll(Characters(value))) && WellPaired(QuoteAll(Characters(value)))
  {
    if value != [] {
      var width := FirstWidth(value);
      QuoteAllFirst(value);
      var first := value[..width];
      BodyIsClean(value[width..]);
      if width == 2 {
        QuotePair(first);
      } else {
        assert first == [value[0]];
        QuoteUnit(value[0]);
        EscapeIsClean(value[0]);
      }
      WellPairedAppend(QuoteCharacter(first), QuoteAll(Characters(value[width..])));
    }
  }

  /** Whatever is quoted, the output is one line of valid Unicode. */
  lemma QuotedIsClean(value: Text)
    ensures ControlFree(QuoteHumanText(value)) && !HasUnpairedSurrogate(QuoteHumanText(value))
  {
    BodyIsClean(value);
    WellPairedAppend([QUOTE], QuoteAll(Characters(value)));
    WellPairedAppend([QUOTE] + QuoteAll(Characters(value)), [QUOTE]);
    WellPairedMeansNoneUnpaired(QuoteHumanText(value));
  }
}
