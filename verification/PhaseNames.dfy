/** The phases of the p17 catalog as they are written, and the order their ranks give them. */
module PhaseNames {
  import opened Results
  import opened CatalogRules
  import opened Numerals

  function Zeros(count: nat): string {
    seq(count, _ => '0')
  }

  /** A phase as it is written: a number, perhaps with leading zeros, and perhaps a letter. */
  datatype PhaseName = PhaseName(zeros: nat, number: nat, letter: Option<char>)

  predicate Lettered(name: PhaseName) {
    name.letter.Some? ==> 'A' <= name.letter.value <= 'Z'
  }

  function Digits(name: PhaseName): string {
    Zeros(name.zeros) + Numeral(name.number)
  }

  function Written(name: PhaseName): string {
    Digits(name) + if name.letter.Some? then [name.letter.value] else ""
  }

  /** By number; among equal numbers the plain phase first and then by letter. */
  predicate NoLater(a: PhaseName, b: PhaseName) {
    || a.number < b.number
    || (a.number == b.number && (a.letter.None? || (b.letter.Some? && a.letter.value <= b.letter.value)))
  }

  lemma {:induction false} NumeralRead(n: nat)
    ensures IsNumeral(Numeral(n)) && NumeralValue(Numeral(n)) == n
  {
    if n >= 10 {
      NumeralRead(n / 10);
      assert Numeral(n)[..|Numeral(n)| - 1] == Numeral(n / 10);
    }
  }

  lemma {:induction false} ZerosRead(count: nat, digits: string)
    requires IsNumeral(digits)
    ensures IsNumeral(Zeros(count) + digits) && NumeralValue(Zeros(count) + digits) == NumeralValue(digits)
    decreases |digits|
  {
    var text := Zeros(count) + digits;
    var k := |digits| - 1;
    assert text[..|text| - 1] == Zeros(count) + digits[..k];
    if k == 0 {
      assert digits[..k] == "";
      ZerosAreNothing(count);
    } else {
      ZerosRead(count, digits[..k]);
    }
  }

  lemma {:induction false} ZerosAreNothing(count: nat)
    ensures NumeralValue(Zeros(count) + "") == 0
  {
    assert Zeros(count) + "" == Zeros(count);
    if count > 0 {
      assert Zeros(count)[..count - 1] == Zeros(count - 1) == Zeros(count - 1) + "";
      ZerosAreNothing(count - 1);
    }
  }

  lemma ZerosSnoc(zeros: nat)
    ensures Zeros(zeros) + "0" == Zeros(zeros + 1)
  {
  }

  lemma OneMoreDigit(zeros: nat, n: nat, d: nat) returns (z: nat, m: nat)
    requires d < 10
    ensures Zeros(zeros) + Numeral(n) + [Digit(d)] == Zeros(z) + Numeral(m)
  {
    if n == 0 {
      ZerosSnoc(zeros);
      assert Numeral(0) == "0" && Numeral(d) == [Digit(d)];
      z, m := zeros + 1, d;
    } else {
      NumeralSnoc(n, d);
      assert Zeros(zeros) + Numeral(n) + [Digit(d)] == Zeros(zeros) + (Numeral(n) + [Digit(d)]);
      z, m := zeros, 10 * n + d;
    }
  }

  lemma LastDigit(digits: string) returns (d: nat)
    requires IsNumeral(digits)
    ensures d < 10 && digits == digits[..|digits| - 1] + [Digit(d)]
  {
    d := digits[|digits| - 1] as int - '0' as int;
  }

  /** Every numeral is the decimal form of a number behind some zeros. */
  lemma {:induction false} NumeralIsWritten(digits: string) returns (zeros: nat, n: nat)
    requires IsNumeral(digits)
    ensures digits == Zeros(zeros) + Numeral(n)
  {
    var d := LastDigit(digits);
    if |digits| == 1 {
      assert digits == Zeros(0) + Numeral(d);
      zeros, n := 0, d;
    } else {
      zeros, n := NumeralIsWritten(digits[..|digits| - 1]);
      zeros, n := OneMoreDigit(zeros, n, d);
    }
  }

  function LetterRank(letter: Option<char>): int {
    if letter.Some? then letter.value as int - 'A' as int + 1 else 0
  }

  lemma RankOfParts(digits: string, letter: Option<char>)
    requires IsNumeral(digits) && (letter.Some? ==> 'A' <= letter.value <= 'Z')
    ensures PhaseRank(digits + if letter.Some? then [letter.value] else "")
         == Some(NumeralValue(digits) * 100 + LetterRank(letter))
  {
    var phase := digits + if letter.Some? then [letter.value] else "";
    if letter.Some? {
      assert phase[..|phase| - 1] == digits;
    } else {
      assert phase == digits;
    }
  }

  lemma DigitsRead(name: PhaseName)
    ensures IsNumeral(Digits(name)) && NumeralValue(Digits(name)) == name.number
  {
    NumeralRead(name.number);
    ZerosRead(name.zeros, Numeral(name.number));
  }

  lemma RankWritten(name: PhaseName)
    requires Lettered(name)
    ensures PhaseRank(Written(name)) == Some(name.number * 100 + LetterRank(name.letter))
  {
    DigitsRead(name);
    RankOfParts(Digits(name), name.letter);
  }

  lemma PartsOfRanked(phase: string) returns (digits: string, letter: Option<char>)
    requires PhaseRank(phase).Some?
    ensures IsNumeral(digits) && (letter.Some? ==> 'A' <= letter.value <= 'Z')
    ensures phase == digits + if letter.Some? then [letter.value] else ""
  {
    var k := |phase| - 1;
    if 'A' <= phase[k] <= 'Z' {
      digits, letter := phase[..k], Some(phase[k]);
    } else {
      digits, letter := phase, None;
    }
  }

  /** The phases that have a rank are exactly those that can be written. */
  lemma RankedIsWritten(phase: string) returns (name: PhaseName)
    requires PhaseRank(phase).Some?
    ensures Lettered(name) && Written(name) == phase
  {
    var digits, letter := PartsOfRanked(phase);
    var zeros, n := NumeralIsWritten(digits);
    name := PhaseName(zeros, n, letter);
  }

  lemma RankedInOrder(a: PhaseName, b: PhaseName)
    requires 0 <= LetterRank(a.letter) <= 26 && 0 <= LetterRank(b.letter) <= 26
    requires (a.letter.Some? ==> LetterRank(a.letter) > 0) && (b.letter.Some? ==> LetterRank(b.letter) > 0)
    ensures a.number * 100 + LetterRank(a.letter) <= b.number * 100 + LetterRank(b.letter) <==> NoLater(a, b)
  {
    if a.number < b.number {
      assert a.number + 1 <= b.number;
    } else if a.number > b.number {
      assert a.number >= b.number + 1;
    }
  }

  /** Written phases compare by number and then by letter. */
  lemma PhaseOrder(a: PhaseName, b: PhaseName)
    requires Lettered(a) && Lettered(b)
    ensures NotLater(Written(a), Written(b)) <==> NoLater(a, b)
  {
    RankWritten(a);
    RankWritten(b);
    RankedInOrder(a, b);
  }

  lemma RankedAlike(a: PhaseName, b: PhaseName)
    requires NoLater(a, b) && NoLater(b, a)
    ensures a.number == b.number && a.letter == b.letter
  {
  }

  /** However a phase is read, it has one number and one letter. */
  lemma WrittenOnce(a: PhaseName, b: PhaseName)
    requires Lettered(a) && Lettered(b) && Written(a) == Written(b)
    ensures a.number == b.number && a.letter == b.letter
  {
    RankWritten(a);
    RankWritten(b);
    RankedInOrder(a, b);
    RankedInOrder(b, a);
    RankedAlike(a, b);
  }

  /** Both phases can be read, and the first has the smaller number, or the same and no later a letter. */
  ghost predicate PhaseNoLater(phase: string, other: string) {
    exists a, b :: Lettered(a) && Lettered(b) && phase == Written(a) && other == Written(b) && NoLater(a, b)
  }

  lemma PhaseNoLaterExactly(phase: string, other: string)
    ensures NotLater(phase, other) <==> PhaseNoLater(phase, other)
  {
    if NotLater(phase, other) {
      var a := RankedIsWritten(phase);
      var b := RankedIsWritten(other);
      PhaseOrder(a, b);
    }
    if PhaseNoLater(phase, other) {
      var a, b :| Lettered(a) && Lettered(b) && phase == Written(a) && other == Written(b) && NoLater(a, b);
      PhaseOrder(a, b);
    }
  }
}
