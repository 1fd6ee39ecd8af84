/**
 Strings as JavaScript holds them: sequences of UTF-16 code units, in which a surrogate may stand
 alone. Iterating over a string yields its characters: surrogate pairs and single units.
 */
module Utf16 {
  type Unit = u: nat | u < 0x1_0000

  type Text = seq<Unit>

  predicate High(u: Unit) {
    0xd800 <= u <= 0xdbff
  }

  predicate Low(u: Unit) {
    0xdc00 <= u <= 0xdfff
  }

  predicate Surrogate(u: Unit) {
    High(u) || Low(u)
  }

  predicate StartsWithPair(text: Text) {
    |text| >= 2 && High(text[0]) && Low(text[1])
  }

  /** [...text] */
  function Characters(text: Text): (r: seq<Text>)
    ensures forall i :: 0 <= i < |r| ==> 1 <= |r[i]| <= 2
  {
    if text == [] then []
    else if StartsWithPair(text) then [text[..2]] + Characters(text[2..])
    else [text[..1]] + Characters(text[1..])
  }

  /** character.codePointAt(0) */
  function CodePoint(character: Text): nat
    requires character != []
  {
    if StartsWithPair(character) then
      var high: nat, low: nat := character[0] - 0xd800, character[1] - 0xdc00;
      0x1_0000 + high * 0x400 + low
    else character[0]
  }

  /** The regular expression of transport.ts, which reads its input by characters. */
  ghost predicate HasUnpairedSurrogate(text: Text) {
    var characters := Characters(text);
    exists i :: 0 <= i < |characters| && |characters[i]| == 1 && Surrogate(characters[i][0])
  }

  /** Every high surrogate has its low one behind it and the other way round. */
  predicate WellPaired(text: Text) {
    if text == [] then true
    else if StartsWithPair(text) then WellPaired(text[2..])
    else !Surrogate(text[0]) && WellPaired(text[1..])
  }

  lemma {:induction false} WellPairedMeansNoneUnpaired(text: Text)
    ensures WellPaired(text) <==> !HasUnpairedSurrogate(text)
  {
    if text != [] {
      var width := if StartsWithPair(text) then 2 else 1;
      var characters := Characters(text);
      var rest := Characters(text[width..]);
      WellPairedMeansNoneUnpaired(text[width..]);
      assert characters == [text[..width]] + rest;
      if HasUnpairedSurrogate(text[width..]) {
        var i :| 0 <= i < |rest| && |rest[i]| == 1 && Surrogate(rest[i][0]);
        assert characters[i + 1] == rest[i];
      } else {
        assert forall i :: 1 <= i < |characters| ==> characters[i] == rest[i - 1];
        assert characters[0] == text[..width];
      }
    }
  }

  lemma {:induction false} WellPairedAppend(a: Text, b: Text)
    requires WellPaired(a) && WellPaired(b)
    ensures WellPaired(a + b)
  {
    if a == [] {
      assert a + b == b;
    } else {
      var width := if StartsWithPair(a) then 2 else 1;
      WellPairedAppend(a[width..], b);
      assert (a + b)[width..] == a[width..] + b;
    }
  }

  /** Text without surrogates. */
  lemma {:induction false} PlainIsWellPaired(text: Text)
    requires forall i :: 0 <= i < |text| ==> !Surrogate(text[i])
    ensures WellPaired(text)
  {
    if text != [] {
      assert forall i :: 0 <= i < |text[1..]| ==> text[1..][i] == text[i + 1];
      PlainIsWellPaired(text[1..]);
    }
  }

  /** Surrogates by their leading bits, as in table 3-5 of the Unicode standard. */
  lemma SurrogateBits(u: Unit)
    ensures High(u) <==> u / 0x400 == 0x36
    ensures Low(u) <==> u / 0x400 == 0x37
    ensures Surrogate(u) <==> u / 0x800 == 0x1b
  {
  }

  /** ASCII text, whose characters are its units. */
  function Plain(s: string): (r: Text)
    requires forall i :: 0 <= i < |s| ==> s[i] as int < 0x80
    ensures |r| == |s| && forall i :: 0 <= i < |s| ==> r[i] == s[i] as int
  {
    seq(|s|, i requires 0 <= i < |s| => s[i] as int)
  }
}
