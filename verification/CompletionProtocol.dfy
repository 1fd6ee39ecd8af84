/**
 validateCompletionProtocol: the text a completion backend prints is passed on only if it is a
 listing of candidates with a directive, and replaced by the fail-closed line otherwise.
 */
module CompletionProtocol {
  import opened Results
  import opened Utf16
  import opened Numerals
  import Utf8

  const NEWLINE: Unit := 0x0a
  const TAB: Unit := 0x09
  const COLON: Unit := 0x3a

  const FAIL_CLOSED: Text := [COLON, 0x35, NEWLINE]
  const MAX_CANDIDATES: nat := 256
  const MAX_OUTPUT_BYTES: nat := 64 * 1024
  const MAX_SAFE_INTEGER: nat := 0x1f_ffff_ffff_ffff

  // ----- what the check looks at

  /** encoder.encode(text).byteLength, for text without unpaired surrogates */
  function Utf8Length(text: Text): nat {
    if text == [] then 0
    else if StartsWithPair(text) then 4 + Utf8Length(text[2..])
    else (if text[0] < 0x80 then 1 else if text[0] < 0x800 then 2 else 3) + Utf8Length(text[1..])
  }

  /** hasControl; all of these are single units. */
  predicate HasControl(text: Text) {
    exists i :: 0 <= i < |text| && (text[i] <= 0x1f || 0x7f <= text[i] <= 0x9f)
  }

  predicate ValidField(text: Text, allowEmpty: bool) {
    (allowEmpty || text != []) && !HasControl(text) && WellPaired(text)
  }

  predicate IsDigits(text: Text) {
    text != [] && forall i :: 0 <= i < |text| ==> 0x30 <= text[i] <= 0x39
  }

  /** /^:\d+$/u */
  predicate IsDirectiveLine(line: Text) {
    line != [] && line[0] == COLON && IsDigits(line[1..])
  }

  /** The integer that decimal digits denote. */
  function DecimalValue(digits: Text): nat
    requires forall i :: 0 <= i < |digits| ==> 0x30 <= digits[i] <= 0x39
  {
    if digits == [] then 0
    else DecimalValue(digits[..|digits| - 1]) * 10 + (digits[|digits| - 1] - 0x30)
  }

  const SUCCESSFUL_BITS: bv32 := 2 | 4 | 32

  /** ToInt32 of section 7.1.6 of ECMA-262, as the bits it leaves. */
  function ToInt32Bits(n: nat): bv32 {
    (n % 0x1_0000_0000) as bv32
  }

  /**
   The double that Number() makes of digits is a safe integer exactly when the digits denote one,
   and is then that integer.
   */
  predicate ValidDirective(directive: nat) {
    directive <= MAX_SAFE_INTEGER && ToInt32Bits(directive) & !SUCCESSFUL_BITS == 0
  }

  /** The mask, in numbers: it constrains a directive only modulo 2^32. */
  lemma DirectiveMask(directive: nat)
    ensures ValidDirective(directive)
       <==> directive <= MAX_SAFE_INTEGER && directive % 0x1_0000_0000 in {0, 2, 4, 6, 32, 34, 36, 38}
  {
    MaskedBits(ToInt32Bits(directive));
    SmallBits(directive % 0x1_0000_0000);
  }

  lemma MaskedBits(bits: bv32)
    ensures bits & !SUCCESSFUL_BITS == 0
       <==> bits == 0 || bits == 2 || bits == 4 || bits == 6 || bits == 32 || bits == 34 || bits == 36 || bits == 38
  {
  }

  /** Which numbers the eight bit patterns stand for. */
  lemma SmallBits(n: nat)
    requires n < 0x1_0000_0000
    ensures var bits := n as bv32;
            (bits == 0 || bits == 2 || bits == 4 || bits == 6 || bits == 32 || bits == 34 || bits == 36 || bits == 38)
            <==> n in {0, 2, 4, 6, 32, 34, 36, 38}
  {
  }

  // ----- the printer

  datatype Candidate = Candidate(value: Text, description: Option<Text>)

  datatype Listing = Listing(candidates: seq<Candidate>, directive: Text)

  predicate WellFormedCandidate(candidate: Candidate) {
    && ValidField(candidate.value, false)
    && (candidate.description.Some? ==> ValidField(candidate.description.value, true))
    && (candidate.description.None? ==> !IsDirectiveLine(candidate.value))
  }

  predicate WellFormed(listing: Listing) {
    && |listing.candidates| <= MAX_CANDIDATES
    && (forall i :: 0 <= i < |listing.candidates| ==> WellFormedCandidate(listing.candidates[i]))
    && IsDigits(listing.directive) && ValidDirective(DecimalValue(listing.directive))
  }

  function PrintCandidate(candidate: Candidate): Text {
    candidate.value + if candidate.description.None? then [] else [TAB] + candidate.description.value
  }

  function PrintCandidates(candidates: seq<Candidate>): seq<Text> {
    seq(|candidates|, i requires 0 <= i < |candidates| => PrintCandidate(candidates[i]))
  }

  /** Every line with its newline. */
  function Terminate(lines: seq<Text>): Text {
    if lines == [] then [] else lines[0] + [NEWLINE] + Terminate(lines[1..])
  }

  function PrintedLines(listing: Listing): seq<Text> {
    PrintCandidates(listing.candidates) + [[COLON] + listing.directive]
  }

  function Print(listing: Listing): Text {
    Terminate(PrintedLines(listing))
  }

  /** A text of acceptable size that prints a listing. */
  ghost predicate IsListing(captured: Text, listing: Listing) {
    WellFormed(listing) && captured == Print(listing) && Utf8Length(captured) <= MAX_OUTPUT_BYTES
  }

  // ----- lines

  /** text.split('\n') */
  function SplitLines(text: Text, current: Text): (r: seq<Text>)
    ensures r != []
  {
    if text == [] then [current]
    else if text[0] == NEWLINE then [current] + SplitLines(text[1..], [])
    else SplitLines(text[1..], current + [text[0]])
  }

  ghost predicate NewlineFree(lines: seq<Text>) {
    forall i :: 0 <= i < |lines| ==> NEWLINE !in lines[i]
  }

  /** What split gives, printed again. */
  lemma {:induction false} SplitFaithful(text: Text, current: Text)
    requires NEWLINE !in current
    ensures Terminate(SplitLines(text, current)) == current + text + [NEWLINE]
    ensures NewlineFree(SplitLines(text, current))
    decreases |text|
  {
    if text == [] {
      assert Terminate([]) == [];
    } else {
      var tail := text[1..];
      assert text == [text[0]] + tail;
      if text[0] == NEWLINE {
        SplitFaithful(tail, []);
        assert SplitLines(text, current)[1..] == SplitLines(tail, []);
        assert current + [NEWLINE] + ([] + tail + [NEWLINE]) == current + text + [NEWLINE];
      } else {
        SplitFaithful(tail, current + [text[0]]);
        assert current + [text[0]] + tail == current + text;
      }
    }
  }

  lemma {:induction false} SplitLine(line: Text, rest: Text, current: Text)
    requires NEWLINE !in line
    ensures SplitLines(line + [NEWLINE] + rest, current) == [current + line] + SplitLines(rest, [])
    decreases |line|
  {
    var text := line + [NEWLINE] + rest;
    if line == [] {
      assert text[1..] == rest && current + line == current;
    } else {
      assert line[0] in line;
      assert text[1..] == line[1..] + [NEWLINE] + rest;
      SplitLine(line[1..], rest, current + [line[0]]);
      assert current + [line[0]] + line[1..] == current + line;
    }
  }

  lemma {:induction false} SplitLastLine(line: Text, current: Text)
    requires NEWLINE !in line
    ensures SplitLines(line, current) == [current + line]
    decreases |line|
  {
    if line == [] {
      assert current + line == current;
    } else {
      assert line[0] in line;
      SplitLastLine(line[1..], current + [line[0]]);
      assert current + [line[0]] + line[1..] == current + line;
    }
  }

  /** captured.slice(0, -1).split('\n') for a captured text of terminated lines */
  lemma {:induction false} SplitTerminated(lines: seq<Text>)
    requires lines != [] && NewlineFree(lines)
    ensures Terminate(lines) != [] && Terminate(lines)[|Terminate(lines)| - 1] == NEWLINE
    ensures SplitLines(Terminate(lines)[..|Terminate(lines)| - 1], []) == lines
  {
    var text := Terminate(lines);
    if |lines| == 1 {
      assert text == lines[0] + [NEWLINE] && text[..|text| - 1] == lines[0];
      SplitLastLine(lines[0], []);
      assert [] + lines[0] == lines[0];
    } else {
      SplitTerminated(lines[1..]);
      var rest := Terminate(lines[1..]);
      assert text[..|text| - 1] == lines[0] + [NEWLINE] + rest[..|rest| - 1];
      SplitLine(lines[0], rest[..|rest| - 1], []);
      assert [] + lines[0] == lines[0];
    }
  }

  // ----- one line

  /** line.indexOf('\t', from) */
  function TabFrom(line: Text, from: nat): (r: int)
    requires from <= |line|
    ensures r == -1 ==> forall i :: from <= i < |line| ==> line[i] != TAB
    ensures r != -1 ==> from <= r < |line| && line[r] == TAB && forall i :: from <= i < r ==> line[i] != TAB
    decreases |line| - from
  {
    if from == |line| then -1 else if line[from] == TAB then from else TabFrom(line, from + 1)
  }

  /** The body of the loop over the lines: the candidate a line stands for, unless it is refused. */
  function LineCandidate(line: Text): Option<Candidate> {
    var firstTab := TabFrom(line, 0);
    if IsDirectiveLine(line) then None
    else if firstTab >= 0 && TabFrom(line, firstTab + 1) >= 0 then None
    else
      var value := if firstTab < 0 then line else line[..firstTab];
      var description := if firstTab < 0 then [] else line[firstTab + 1..];
      if !ValidField(value, false) || !ValidField(description, true) then None
      else Some(Candidate(value, if firstTab < 0 then None else Some(description)))
  }

  lemma LineIsPrinted(line: Text)
    requires LineCandidate(line).Some?
    ensures WellFormedCandidate(LineCandidate(line).value) && PrintCandidate(LineCandidate(line).value) == line
  {
  }

  lemma DirectiveLineHasNoTab(line: Text, i: nat)
    requires IsDirectiveLine(line) && i < |line|
    ensures line[i] != TAB
  {
    assert i > 0 ==> line[i] == line[1..][i - 1];
  }

  lemma PrintedLine(candidate: Candidate)
    requires WellFormedCandidate(candidate)
    ensures LineCandidate(PrintCandidate(candidate)) == Some(candidate)
    ensures NEWLINE !in PrintCandidate(candidate) && WellPaired(PrintCandidate(candidate))
  {
    var line := PrintCandidate(candidate);
    var n := |candidate.value|;
    assert forall i :: 0 <= i < n ==> line[i] == candidate.value[i];
    if candidate.description.Some? {
      assert line[..n] == candidate.value && line[n] == TAB && line[n + 1..] == candidate.description.value;
      assert TabFrom(line, 0) == n;
      assert !IsDirectiveLine(line) by {
        if IsDirectiveLine(line) {
          DirectiveLineHasNoTab(line, n);
        }
      }
      WellPairedAppend([TAB], candidate.description.value);
      WellPairedAppend(candidate.value, [TAB] + candidate.description.value);
    } else {
      assert line == candidate.value;
    }
  }

  // ----- the whole text

  ghost predicate AllPrinted(lines: seq<Text>, candidates: seq<Candidate>) {
    && |lines| == |candidates|
    && forall i :: 0 <= i < |lines| ==> LineCandidate(lines[i]) == Some(candidates[i])
  }

  lemma DirectiveLineIsPlain(line: Text)
    requires IsDirectiveLine(line)
    ensures NEWLINE !in line && WellPaired(line)
  {
    assert forall i :: 1 <= i < |line| ==> line[i] == line[1..][i - 1];
    PlainIsWellPaired(line);
  }

  ghost predicate AllWellPaired(lines: seq<Text>) {
    forall i :: 0 <= i < |lines| ==> WellPaired(lines[i])
  }

  lemma {:induction false} TerminatedIsWellPaired(lines: seq<Text>)
    requires AllWellPaired(lines)
    ensures WellPaired(Terminate(lines))
  {
    if lines != [] {
      TerminatedIsWellPaired(lines[1..]);
      WellPairedAppend(lines[0], [NEWLINE]);
      WellPairedAppend(lines[0] + [NEWLINE], Terminate(lines[1..]));
    }
  }

  lemma CandidatesPrinted(candidates: seq<Candidate>)
    requires forall i :: 0 <= i < |candidates| ==> WellFormedCandidate(candidates[i])
    ensures AllPrinted(PrintCandidates(candidates), candidates)
    ensures NewlineFree(PrintCandidates(candidates)) && AllWellPaired(PrintCandidates(candidates))
  {
    forall i | 0 <= i < |candidates|
      ensures LineCandidate(PrintCandidates(candidates)[i]) == Some(candidates[i])
      ensures NEWLINE !in PrintCandidates(candidates)[i] && WellPaired(PrintCandidates(candidates)[i])
    {
      PrintedLine(candidates[i]);
    }
  }

  lemma LinesAreClean(listing: Listing)
    requires WellFormed(listing)
    ensures NewlineFree(PrintedLines(listing)) && AllWellPaired(PrintedLines(listing))
  {
    var last := [COLON] + listing.directive;
    assert last[1..] == listing.directive;
    DirectiveLineIsPlain(last);
    CandidatesPrinted(listing.candidates);
  }

  /** What the checks see of the lines that a listing prints as. */
  lemma LinesSeen(lines: seq<Text>)
    requires lines != [] && NewlineFree(lines) && AllWellPaired(lines)
    ensures Seen(Terminate(lines), lines)
  {
    SplitTerminated(lines);
    TerminatedIsWellPaired(lines);
  }

  /** A text that splits into these lines after the checks that come before. */
  ghost predicate Seen(captured: Text, lines: seq<Text>) {
    && WellPaired(captured) && captured != [] && captured[|captured| - 1] == NEWLINE
    && SplitLines(captured[..|captured| - 1], []) == lines
  }

  lemma ListingSeen(captured: Text, listing: Listing)
    requires IsListing(captured, listing)
    ensures Seen(captured, PrintedLines(listing))
    ensures AllPrinted(PrintCandidates(listing.candidates), listing.candidates)
  {
    LinesAreClean(listing);
    LinesSeen(PrintedLines(listing));
    CandidatesPrinted(listing.candidates);
  }

  lemma AllPrintedUnique(lines: seq<Text>, a: seq<Candidate>, b: seq<Candidate>)
    requires AllPrinted(lines, a) && AllPrinted(lines, b)
    ensures a == b
  {
    forall i | 0 <= i < |lines|
      ensures a[i] == b[i]
    {
      assert LineCandidate(lines[i]) == Some(a[i]);
    }
  }

  /** A text prints at most one listing. */
  lemma ListingUnique(captured: Text, a: Listing, b: Listing)
    requires IsListing(captured, a) && IsListing(captured, b)
    ensures a == b
  {
    ListingSeen(captured, a);
    ListingSeen(captured, b);
    var lines := SplitLines(captured[..|captured| - 1], []);
    var n := |lines| - 1;
    assert PrintCandidates(a.candidates) == lines[..n] == PrintCandidates(b.candidates);
    AllPrintedUnique(lines[..n], a.candidates, b.candidates);
    assert a.directive == lines[n][1..] == b.directive;
  }

  lemma FiveIsNoDirective()
    ensures !ValidDirective(DecimalValue([0x35]))
  {
    assert [0x35][..0] == [];
    DirectiveMask(DecimalValue([0x35]));
  }

  /** The fail-closed line is not a listing: its directive has a bit too many. */
  lemma FailClosedIsNoListing(listing: Listing)
    ensures !IsListing(FAIL_CLOSED, listing)
  {
    if IsListing(FAIL_CLOSED, listing) {
      ListingSeen(FAIL_CLOSED, listing);
      SplitLastLine([COLON, 0x35], []);
      assert FAIL_CLOSED[..2] == [COLON, 0x35] && [] + [COLON, 0x35] == [COLON, 0x35];
      var lines := PrintedLines(listing);
      assert lines[|lines| - 1] == [COLON] + listing.directive == [COLON, 0x35];
      assert listing.directive == ([COLON] + listing.directive)[1..] == [0x35];
      FiveIsNoDirective();
    }
  }

  // ----- validateCompletionProtocol

  ghost function Validated(captured: Text): Text {
    if exists listing :: IsListing(captured, listing) then captured else FAIL_CLOSED
  }

  lemma ValidatedIdempotent(captured: Text)
    ensures Validated(Validated(captured)) == Validated(captured)
    ensures Validated(captured) == FAIL_CLOSED <==> forall listing :: !IsListing(captured, listing)
  {
    forall listing
      ensures !IsListing(FAIL_CLOSED, listing)
    {
      FailClosedIsNoListing(listing);
    }
  }

  /** Scans the candidate lines until one is refused. */
  method ScanCandidates(lines: seq<Text>) returns (r: Option<seq<Candidate>>)
    ensures r.Some? ==> AllPrinted(lines, r.value)
    ensures r.None? ==> forall candidates :: !AllPrinted(lines, candidates)
  {
    var candidates: seq<Candidate> := [];
    for i := 0 to |lines|
      invariant |candidates| == i
      invariant forall k :: 0 <= k < i ==> LineCandidate(lines[k]) == Some(candidates[k])
    {
      var candidate := LineCandidate(lines[i]);
      if candidate.None? {
        return None;
      }
      candidates := candidates + [candidate.value];
    }
    return Some(candidates);
  }

  method ValidateCompletionProtocol(captured: Text) returns (r: Text)
    ensures r == Validated(captured)
  {
    if captured == FAIL_CLOSED {
      return captured;
    }
    if !WellPaired(captured) || Utf8Length(captured) > MAX_OUTPUT_BYTES
       || captured == [] || captured[|captured| - 1] != NEWLINE
    {
      RefusedAsText(captured);
      return FAIL_CLOSED;
    }
    var allLines := SplitLines(captured[..|captured| - 1], []);
    var lines, directiveLine := allLines[..|allLines| - 1], allLines[|allLines| - 1];
    if !IsDirectiveLine(directiveLine) || !ValidDirective(DecimalValue(directiveLine[1..]))
       || |lines| > MAX_CANDIDATES
    {
      RefusedByDirective(captured, lines, directiveLine);
      return FAIL_CLOSED;
    }
    var candidates := ScanCandidates(lines);
    assert lines + [directiveLine] == allLines;
    if candidates.None? {
      RefusedByCandidates(captured, lines);
      return FAIL_CLOSED;
    }
    SeenIsListing(captured, lines, directiveLine, candidates.value);
    assert IsListing(captured, Listing(candidates.value, directiveLine[1..]));
    return captured;
  }

  lemma RefusedAsText(captured: Text)
    requires !WellPaired(captured) || Utf8Length(captured) > MAX_OUTPUT_BYTES
          || captured == [] || captured[|captured| - 1] != NEWLINE
    ensures forall listing :: !IsListing(captured, listing)
  {
    forall listing
      ensures !IsListing(captured, listing)
    {
      if IsListing(captured, listing) {
        ListingSeen(captured, listing);
      }
    }
  }

  lemma RefusedByDirective(captured: Text, lines: seq<Text>, last: Text)
    requires captured != [] && SplitLines(captured[..|captured| - 1], []) == lines + [last]
    requires !IsDirectiveLine(last) || !ValidDirective(DecimalValue(last[1..])) || |lines| > MAX_CANDIDATES
    ensures forall listing :: !IsListing(captured, listing)
  {
    forall listing
      ensures !IsListing(captured, listing)
    {
      if IsListing(captured, listing) {
        LinesOfListing(captured, listing);
      }
    }
  }

  lemma RefusedByCandidates(captured: Text, lines: seq<Text>)
    requires captured != []
    requires var all := SplitLines(captured[..|captured| - 1], []); lines == all[..|all| - 1]
    requires forall candidates :: !AllPrinted(lines, candidates)
    ensures forall listing :: !IsListing(captured, listing)
  {
    forall listing
      ensures !IsListing(captured, listing)
    {
      if IsListing(captured, listing) {
        LinesOfListing(captured, listing);
      }
    }
  }

  lemma LinesOfListing(captured: Text, listing: Listing)
    requires IsListing(captured, listing)
    ensures captured != []
    ensures var lines := SplitLines(captured[..|captured| - 1], []);
            var n := |lines| - 1;
            && lines[n] == [COLON] + listing.directive && lines[n][1..] == listing.directive
            && n == |listing.candidates| && AllPrinted(lines[..n], listing.candidates)
  {
    ListingSeen(captured, listing);
    var lines := SplitLines(captured[..|captured| - 1], []);
    assert lines[..|lines| - 1] == PrintCandidates(listing.candidates);
    assert ([COLON] + listing.directive)[1..] == listing.directive;
  }

  lemma LinesPrinted(lines: seq<Text>, candidates: seq<Candidate>)
    requires AllPrinted(lines, candidates)
    ensures PrintCandidates(candidates) == lines
    ensures forall i :: 0 <= i < |candidates| ==> WellFormedCandidate(candidates[i])
  {
    forall i | 0 <= i < |candidates|
      ensures WellFormedCandidate(candidates[i]) && PrintCandidate(candidates[i]) == lines[i]
    {
      LineIsPrinted(lines[i]);
    }
  }

  lemma JoinedAgain(captured: Text)
    requires captured != [] && captured[|captured| - 1] == NEWLINE
    ensures Terminate(SplitLines(captured[..|captured| - 1], [])) == captured
  {
    var body := captured[..|captured| - 1];
    SplitFaithful(body, []);
    assert [] + body + [NEWLINE] == captured;
  }

  /** A text that passes every check prints a listing. */
  lemma SeenIsListing(captured: Text, lines: seq<Text>, last: Text, candidates: seq<Candidate>)
    requires captured != [] && captured[|captured| - 1] == NEWLINE && Utf8Length(captured) <= MAX_OUTPUT_BYTES
    requires SplitLines(captured[..|captured| - 1], []) == lines + [last]
    requires |lines| <= MAX_CANDIDATES && AllPrinted(lines, candidates)
    requires IsDirectiveLine(last) && ValidDirective(DecimalValue(last[1..]))
    ensures IsListing(captured, Listing(candidates, last[1..]))
  {
    JoinedAgain(captured);
    LinesPrinted(lines, candidates);
    assert [COLON] + last[1..] == last;
    assert PrintedLines(Listing(candidates, last[1..])) == lines + [last];
  }

  /** The mask wraps around: directives far outside the protocol's bits pass like those inside. */
  lemma DirectiveWraps(directive: nat, turns: nat)
    requires directive + turns * 0x1_0000_0000 <= MAX_SAFE_INTEGER
    ensures ValidDirective(directive + turns * 0x1_0000_0000) <==> ValidDirective(directive)
  {
    var wrapped := directive + turns * 0x1_0000_0000;
    assert wrapped % 0x1_0000_0000 == directive % 0x1_0000_0000;
    DirectiveMask(directive);
    DirectiveMask(wrapped);
  }

  // ----- the protocol, written out

  /** The ten low bits of each surrogate, above the first plane. */
  function PointOfPair(high: nat, low: nat): nat {
    0x1_0000 + high % 0x400 * 0x400 + low % 0x400
  }

  /** What TextEncoder makes of a character: its UTF-8 octets, or those of U+FFFD for a lone surrogate. */
  ghost function EncodedCharacter(character: Text): seq<Utf8.Octet>
    requires 1 <= |character| <= 2
  {
    if |character| == 2 then Utf8.Encoded(PointOfPair(character[0], character[1]))
    else if character[0] / 0x800 == 0x1b then Utf8.Encoded(0xfffd)
    else Utf8.Encoded(character[0])
  }

  ghost function EncodedText(characters: seq<Text>): seq<Utf8.Octet>
    requires forall i :: 0 <= i < |characters| ==> 1 <= |characters[i]| <= 2
  {
    if characters == [] then [] else EncodedCharacter(characters[0]) + EncodedText(characters[1..])
  }

  /** The length is that of the encoded text. */
  lemma {:induction false} Utf8LengthExactly(text: Text)
    ensures Utf8Length(text) == |EncodedText(Characters(text))|
  {
    if text != [] {
      var width := if StartsWithPair(text) then 2 else 1;
      assert Characters(text)[1..] == Characters(text[width..]);
      Utf8LengthExactly(text[width..]);
    }
  }

  lemma {:induction false} NumeralDenotes(n: nat)
    ensures forall i :: 0 <= i < |Numeral(n)| ==> '0' <= Numeral(n)[i] <= '9'
    ensures IsDigits(Plain(Numeral(n))) && DecimalValue(Plain(Numeral(n))) == n
  {
    if n >= 10 {
      NumeralDenotes(n / 10);
      assert Plain(Numeral(n))[..|Numeral(n)| - 1] == Plain(Numeral(n / 10));
    } else {
      assert Plain(Numeral(n))[..0] == [];
    }
  }

  /** A zero in front does not change what digits denote. */
  lemma {:induction false} ZeroInFront(digits: Text)
    requires IsDigits(digits)
    ensures IsDigits([0x30] + digits) && DecimalValue([0x30] + digits) == DecimalValue(digits)
  {
    var all, k := [0x30] + digits, |digits| - 1;
    assert all[..k + 1] == [0x30] + digits[..k];
    if k == 0 {
      assert all[..1] == [0x30] && [0x30][..0] == [] == digits[..0];
    } else {
      ZeroInFront(digits[..k]);
    }
  }

  ghost predicate CleanText(text: Text) {
    (forall i :: 0 <= i < |text| ==> 0x20 <= text[i] < 0x7f || 0xa0 <= text[i]) && !HasUnpairedSurrogate(text)
  }

  ghost predicate ColonAndDigits(text: Text) {
    |text| > 1 && text[0] == ':' as int && forall i :: 1 <= i < |text| ==> '0' as int <= text[i] <= '9' as int
  }

  /** Which listings there are: at most 256 candidates of clean text, and a directive of known bits. */
  lemma ListingsExactly(listing: Listing)
    ensures WellFormed(listing)
       <==> && |listing.candidates| <= 256
            && (forall i :: 0 <= i < |listing.candidates| ==> CleanCandidate(listing.candidates[i]))
            && IsDigits(listing.directive) && DecimalValue(listing.directive) < 0x20_0000_0000_0000
            && DecimalValue(listing.directive) % 0x1_0000_0000 in {0, 2, 4, 6, 32, 34, 36, 38}
  {
    forall candidate
      ensures WellFormedCandidate(candidate) <==> CleanCandidate(candidate)
    {
      CandidateExactly(candidate);
    }
    if IsDigits(listing.directive) {
      DirectiveMask(DecimalValue(listing.directive));
    }
  }

  ghost predicate CleanCandidate(candidate: Candidate) {
    && candidate.value != [] && CleanText(candidate.value)
    && match candidate.description
       case Some(description) => CleanText(description)
       case None => !ColonAndDigits(candidate.value)
  }

  lemma CleanExactly(text: Text)
    ensures CleanText(text) <==> !HasControl(text) && WellPaired(text)
  {
    WellPairedMeansNoneUnpaired(text);
  }

  lemma CandidateExactly(candidate: Candidate)
    ensures WellFormedCandidate(candidate) <==> CleanCandidate(candidate)
  {
    CleanExactly(candidate.value);
    if candidate.description.Some? {
      CleanExactly(candidate.description.value);
    }
    assert IsDirectiveLine(candidate.value) <==> ColonAndDigits(candidate.value);
  }

  /** How a listing is printed: a line for each candidate, then the directive behind a colon. */
  lemma PrintForms(value: Text, description: Text, rest: seq<Candidate>, directive: Text)
    ensures Print(Listing([], directive)) == Plain(":") + directive + Plain("\n")
    ensures Print(Listing([Candidate(value, None)] + rest, directive)) == value + Plain("\n") + Print(Listing(rest, directive))
    ensures Print(Listing([Candidate(value, Some(description))] + rest, directive))
         == value + Plain("\t") + description + Plain("\n") + Print(Listing(rest, directive))
    ensures FAIL_CLOSED == Plain(":5\n") && MAX_OUTPUT_BYTES == 65536
  {
    var listing := Listing(rest, directive);
    assert Terminate(PrintedLines(Listing([], directive))) == [COLON] + directive + [NEWLINE] by {
      assert PrintedLines(Listing([], directive)) == [[COLON] + directive];
    }
    FirstPrinted(Candidate(value, None), listing);
    FirstPrinted(Candidate(value, Some(description)), listing);
    assert value + ([TAB] + description) == value + [TAB] + description;
  }

  lemma FirstPrinted(candidate: Candidate, rest: Listing)
    ensures Print(Listing([candidate] + rest.candidates, rest.directive)) == PrintCandidate(candidate) + [NEWLINE] + Print(rest)
  {
    var lines := PrintedLines(Listing([candidate] + rest.candidates, rest.directive));
    assert lines == [PrintCandidate(candidate)] + PrintedLines(rest);
    assert lines[1..] == PrintedLines(rest);
  }
}
