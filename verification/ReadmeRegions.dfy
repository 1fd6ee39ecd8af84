/**
 generate-command-reference.ts: the two generated regions of the README, how they are written, and
 the staleness check that follows.

 All proofs about text rest on one fact: no marker and no anchor can begin on one side of the border
 of a generated region and end on the other, because of the characters they begin and end with.
 Occurrences on the two sides then simply add up.
 */
module ReadmeRegions {
  import opened Results

  /** Where a generated region lies: its markers, and the heading before which it is inserted. */
  datatype Region = Region(start: string, end: string, anchor: string)

  function Tag(body: string): string {
    "<" + body + ">"
  }

  const INDEX_START := "!-- skillsmith-command-index:start --"
  const INDEX_END := "!-- skillsmith-command-index:end --"
  const INDEX_ANCHOR := "## Example output"
  const MATRIX_START := "!-- skillsmith-capability-matrix:start --"
  const MATRIX_END := "!-- skillsmith-capability-matrix:end --"
  const MATRIX_ANCHOR := "## Supported tools"

  const INDEX := Region(Tag(INDEX_START), Tag(INDEX_END), "\n" + INDEX_ANCHOR)
  const MATRIX := Region(Tag(MATRIX_START), Tag(MATRIX_END), "\n" + MATRIX_ANCHOR)

  // ----- searching

  predicate At(text: string, m: string, i: nat) {
    i + |m| <= |text| && text[i..i + |m|] == m
  }

  /** text.indexOf(m, i) */
  function IndexFrom(text: string, m: string, i: nat): (r: int)
    ensures r == -1 || i <= r <= |text| - |m|
    decreases |text| - i
  {
    if i + |m| > |text| then -1 else if At(text, m, i) then i else IndexFrom(text, m, i + 1)
  }

  function IndexOf(text: string, m: string): int {
    IndexFrom(text, m, 0)
  }

  /** Occurrences from left to right from `i` on, none overlapping the last. */
  function CountFrom(text: string, m: string, i: nat): nat
    requires m != ""
    decreases |text| - i
  {
    if i + |m| > |text| then 0
    else if At(text, m, i) then 1 + CountFrom(text, m, i + |m|)
    else CountFrom(text, m, i + 1)
  }

  /** text.split(m).length - 1 */
  function Occurrences(text: string, m: string): nat
    requires m != ""
  {
    CountFrom(text, m, 0)
  }

  /** No occurrence can begin in `a` and end in `b`. */
  predicate Apart(a: string, b: string, m: string)
    requires m != ""
  {
    a == "" || b == "" || b[0] !in m[1..] || a[|a| - 1] !in m[..|m| - 1]
  }

  function FirstOf(inFront: int, front: nat, behind: int): int {
    if inFront != -1 then inFront else if behind != -1 then front + behind else -1
  }

  /** An occurrence in a + b lies in one of the two. */
  lemma AtEither(a: string, b: string, m: string, i: nat)
    requires m != "" && Apart(a, b, m)
    ensures At(a + b, m, i) <==> (i + |m| <= |a| && At(a, m, i)) || (i >= |a| && At(b, m, i - |a|))
  {
    var text := a + b;
    if i + |m| <= |a| {
      assert text[i..i + |m|] == a[i..i + |m|];
    } else if i >= |a| {
      if i + |m| <= |text| {
        assert text[i..i + |m|] == b[i - |a|..i - |a| + |m|];
      }
    } else if At(text, m, i) {
      Straddling(a, b, m, i);
    }
  }

  lemma Straddling(a: string, b: string, m: string, i: nat)
    requires i < |a| < i + |m| && At(a + b, m, i)
    ensures b != "" && b[0] in m[1..] && a[|a| - 1] in m[..|m| - 1]
  {
    var text, k := a + b, |a| - i;
    assert m[k] == text[i..i + |m|][k] == text[|a|] && m[k - 1] == text[i..i + |m|][k - 1] == text[|a| - 1];
    assert m[1..][k - 1] == m[k] && m[..|m| - 1][k - 1] == m[k - 1];
  }

  /** `text` has `m` where `b` has it, `d` further on. */
  ghost predicate Shifted(text: string, b: string, m: string, d: nat) {
    |text| == d + |b| && forall k: nat :: At(b, m, k) <==> At(text, m, d + k)
  }

  lemma {:induction false} IndexFromBehind(text: string, b: string, m: string, d: nat, i: nat)
    requires m != "" && Shifted(text, b, m, d)
    ensures IndexFrom(text, m, d + i) == FirstOf(-1, d, IndexFrom(b, m, i))
    decreases |b| - i
  {
    if i + |m| <= |b| {
      assert At(b, m, i) <==> At(text, m, d + i);
      if !At(b, m, i) {
        IndexFromBehind(text, b, m, d, i + 1);
      }
    }
  }

  lemma {:induction false} CountFromBehind(text: string, b: string, m: string, d: nat, i: nat)
    requires m != "" && Shifted(text, b, m, d)
    ensures CountFrom(text, m, d + i) == CountFrom(b, m, i)
    decreases |b| - i
  {
    if i + |m| <= |b| {
      assert At(b, m, i) <==> At(text, m, d + i);
      CountFromBehind(text, b, m, d, if At(b, m, i) then i + |m| else i + 1);
    }
  }

  lemma ShiftedBehind(a: string, b: string, m: string)
    requires m != "" && Apart(a, b, m)
    ensures Shifted(a + b, b, m, |a|)
  {
    forall k: nat
      ensures At(b, m, k) <==> At(a + b, m, |a| + k)
    {
      AtEither(a, b, m, |a| + k);
    }
  }

  lemma {:induction false} IndexFromFront(a: string, b: string, m: string, i: nat)
    requires m != "" && Apart(a, b, m) && i <= |a|
    ensures IndexFrom(a + b, m, i) == FirstOf(IndexFrom(a, m, i), |a|, IndexFrom(b, m, 0))
    decreases |a| - i
  {
    if i == |a| {
      ShiftedBehind(a, b, m);
      IndexFromBehind(a + b, b, m, |a|, 0);
    } else {
      AtEither(a, b, m, i);
      if !At(a, m, i) {
        IndexFromFront(a, b, m, i + 1);
      }
    }
  }

  lemma {:induction false} CountFromFront(a: string, b: string, m: string, i: nat)
    requires m != "" && Apart(a, b, m) && i <= |a|
    ensures CountFrom(a + b, m, i) == CountFrom(a, m, i) + CountFrom(b, m, 0)
    decreases |a| - i
  {
    if i == |a| {
      ShiftedBehind(a, b, m);
      CountFromBehind(a + b, b, m, |a|, 0);
    } else {
      AtEither(a, b, m, i);
      CountFromFront(a, b, m, if At(a, m, i) then i + |m| else i + 1);
    }
  }

  lemma {:induction false} CountedIsFoundFrom(text: string, m: string, i: nat)
    requires m != ""
    ensures CountFrom(text, m, i) == 0 <==> IndexFrom(text, m, i) == -1
    decreases |text| - i
  {
    if i + |m| <= |text| {
      CountedIsFoundFrom(text, m, i + 1);
    }
  }

  lemma CountedIsFound(text: string, m: string)
    requires m != ""
    ensures Occurrences(text, m) == 0 <==> IndexOf(text, m) == -1
  {
    CountedIsFoundFrom(text, m, 0);
  }

  // ----- markers and anchors

  /** What keeps occurrences from straddling the border of generated text. */
  predicate Needle(m: string) {
    |m| > 2 && '<' !in m[1..] && '\n' !in m[1..] && '>' !in m[..|m| - 1]
  }

  predicate Marker(m: string) {
    Needle(m) && m[0] == '<' && m[|m| - 1] == '>'
  }

  predicate Anchor(m: string) {
    Needle(m) && m[0] == '\n' && m[|m| - 1] != '>'
  }

  predicate Sound(region: Region) {
    Marker(region.start) && Marker(region.end) && Anchor(region.anchor) && region.start != region.end
  }

  predicate Different(a: Region, b: Region) {
    && a.start != b.start && a.start != b.end && a.end != b.start && a.end != b.end
  }

  /** Text without the characters that markers and anchors begin and end with. */
  predicate Inner(body: string) {
    '<' !in body && '>' !in body && '\n' !in body
  }

  lemma TagIsMarker(body: string)
    requires Inner(body) && body != ""
    ensures Marker(Tag(body))
  {
    assert Tag(body)[1..] == body + ">" && Tag(body)[..|body| + 1] == "<" + body;
  }

  lemma HeadingIsAnchor(body: string)
    requires Inner(body) && |body| >= 2
    ensures Anchor("\n" + body)
  {
    var m := "\n" + body;
    assert m[1..] == body;
    assert forall i :: 0 <= i < |body| ==> m[i + 1] == body[i];
  }

  lemma MarkerTextsFree(c: char)
    requires c == '<' || c == '>' || c == '\n'
    ensures c !in "!-- skillsmith-command-index:start --" && c !in "!-- skillsmith-command-index:end --"
    ensures c !in "!-- skillsmith-capability-matrix:start --" && c !in "!-- skillsmith-capability-matrix:end --"
  {
  }

  lemma HeadingsAreInner()
    ensures Inner(INDEX_ANCHOR) && Inner(MATRIX_ANCHOR)
  {
    assert Inner("## Example output") && Inner("## Supported tools");
  }

  lemma RegionsAreSound()
    ensures Sound(INDEX) && Sound(MATRIX) && Different(INDEX, MATRIX)
  {
    MarkerTextsFree('<');
    MarkerTextsFree('>');
    MarkerTextsFree('\n');
    HeadingsAreInner();
    TagIsMarker(INDEX_START);
    TagIsMarker(INDEX_END);
    TagIsMarker(MATRIX_START);
    TagIsMarker(MATRIX_END);
    HeadingIsAnchor(INDEX_ANCHOR);
    HeadingIsAnchor(MATRIX_ANCHOR);
  }

  lemma {:induction false} NowhereFrom(text: string, m: string, i: nat)
    requires m != "" && forall k :: i <= k ==> !At(text, m, k)
    ensures CountFrom(text, m, i) == 0
    decreases |text| - i
  {
    if i + |m| <= |text| {
      NowhereFrom(text, m, i + 1);
    }
  }

  lemma NoFirst(text: string, m: string)
    requires Needle(m) && m[0] !in text
    ensures Occurrences(text, m) == 0
  {
    forall i: nat
      ensures !At(text, m, i)
    {
      if At(text, m, i) {
        AtFirst(text, m, i);
      }
    }
    NowhereFrom(text, m, 0);
  }

  lemma AtFirst(text: string, m: string, i: nat)
    requires m != "" && At(text, m, i)
    ensures i < |text| && text[i] == m[0]
  {
    assert text[i..i + |m|][0] == text[i];
  }

  lemma TooShort(text: string, m: string)
    requires |text| < |m|
    ensures Occurrences(text, m) == 0
  {
  }

  lemma MarkerInItself(m: string)
    requires m != ""
    ensures Occurrences(m, m) == 1 && IndexOf(m, m) == 0
  {
    assert m[0..|m|] == m;
    assert At(m, m, 0) && CountFrom(m, m, |m|) == 0;
  }

  lemma LastInside(n: string, m: string)
    requires At(m, n, 0) && 0 < |n| < |m|
    ensures n[|n| - 1] in m[..|m| - 1]
  {
    assert m[..|m| - 1][|n| - 1] == m[0..|n|][|n| - 1];
  }

  /** No marker or anchor occurs in another marker. */
  lemma NotInMarker(n: string, m: string)
    requires Marker(m) && (Marker(n) || Anchor(n)) && n != m
    ensures Occurrences(m, n) == 0
  {
    assert m == [m[0]] + m[1..] && m == m[0..|m|];
    if Anchor(n) {
      NoFirst(m, n);
    } else {
      forall i: nat
        ensures !At(m, n, i)
      {
        if At(m, n, i) {
          AtFirst(m, n, i);
          if i > 0 {
            OnlyFirst(m, '<', i);
          }
          if |n| < |m| {
            LastInside(n, m);
          }
        }
      }
      NowhereFrom(m, n, 0);
    }
  }

  lemma OnlyFirst(m: string, c: char, i: nat)
    requires 0 < i < |m| && c !in m[1..]
    ensures m[i] != c
  {
    assert m[1..][i - 1] == m[i];
  }

  // ----- borders

  /** Text like a generated region, with or without the blank lines in front of it. */
  predicate Block(g: string) {
    g != "" && (g[0] == '<' || g[0] == '\n') && g[|g| - 1] == '>'
  }

  /** `x` between `a` and `b` is a block, or nothing in front of an anchor. */
  predicate Seams(a: string, x: string, b: string) {
    if x == "" then b != "" && b[0] == '\n' else Block(x)
  }

  lemma Seam(a: string, b: string, m: string)
    requires Needle(m) && (b == "" || b[0] == '<' || b[0] == '\n' || a == "" || a[|a| - 1] == '>')
    ensures Occurrences(a + b, m) == Occurrences(a, m) + Occurrences(b, m)
    ensures IndexOf(a + b, m) == FirstOf(IndexOf(a, m), |a|, IndexOf(b, m))
  {
    IndexFromFront(a, b, m, 0);
    CountFromFront(a, b, m, 0);
  }

  lemma Pieces(a: string, x: string, b: string, m: string)
    requires Needle(m) && Seams(a, x, b)
    ensures Occurrences(a + x + b, m) == Occurrences(a, m) + Occurrences(x, m) + Occurrences(b, m)
    ensures IndexOf(a + x + b, m)
         == FirstOf(IndexOf(a, m), |a|, FirstOf(IndexOf(x, m), |x|, IndexOf(b, m)))
  {
    if x == "" {
      assert a + x + b == a + b;
      Seam(a, b, m);
    } else {
      assert a + x + b == a + (x + b);
      Seam(x, b, m);
      Seam(a, x + b, m);
    }
  }

  // ----- the source's functions

  datatype Problem =
    | MarkersNotPaired(region: Region)
    | MarkersReversed(region: Region)
    | AnchorMissing(region: Region)
    | ReferenceStale
    | ReadmeStale

  /** validateReadmeCommandIndex and validateReadmeCapabilityMatrix */
  function Validate(region: Region, text: string): seq<Problem>
    requires Sound(region)
  {
    var starts, ends := Occurrences(text, region.start), Occurrences(text, region.end);
    if starts == 0 && ends == 0 then []
    else if starts != 1 || ends != 1 then [MarkersNotPaired(region)]
    else if IndexOf(text, region.start) < IndexOf(text, region.end) then []
    else [MarkersReversed(region)]
  }

  /** Where generated text goes: behind `before`, in place of `replaced`, in front of `after`. */
  datatype Edit = Edit(before: string, replaced: string, after: string)

  /** The region between its markers, or else the place in front of its anchor. */
  function EditOf(region: Region, text: string): Option<Edit>
    requires Sound(region)
  {
    var start, end := IndexOf(text, region.start), IndexOf(text, region.end);
    if start >= 0 && end > start then
      var behind := end + |region.end|;
      Some(Edit(text[..start], text[start..behind], text[behind..]))
    else
      var k := IndexOf(text, region.anchor);
      if k < 0 then None else Some(Edit(text[..k], "", text[k..]))
  }

  function Fill(replaced: string, generated: string): string {
    if replaced == "" then "\n\n" + generated else generated
  }

  /** replaceReadmeIndex and replaceReadmeCapabilityMatrix */
  function Replace(region: Region, text: string, generated: string): Result<string, Problem>
    requires Sound(region)
  {
    var edit := EditOf(region, text);
    if edit.None? then Err(AnchorMissing(region))
    else Ok(edit.value.before + Fill(edit.value.replaced, generated) + edit.value.after)
  }

  /** A generated region: its markers around text free of all markers and of the other region's anchor. */
  ghost predicate Generated(generated: string, region: Region, other: Region)
    requires Sound(region) && Sound(other)
  {
    exists body: string :: GeneratedAround(generated, body, region, other)
  }

  ghost predicate GeneratedAround(generated: string, body: string, region: Region, other: Region)
    requires Sound(region) && Sound(other)
  {
    && generated == region.start + body + region.end
    && Clear(body, region) && Clear(body, other) && Occurrences(body, other.anchor) == 0
  }

  /** Free of a region's markers. */
  predicate Clear(text: string, region: Region)
    requires Sound(region)
  {
    Occurrences(text, region.start) == 0 && Occurrences(text, region.end) == 0
  }

  // ----- what generated text contains

  lemma CountIn(start: string, body: string, end: string, m: string)
    requires Marker(start) && Marker(end) && Needle(m)
    ensures Block(start + body + end)
    ensures Occurrences(start + body + end, m)
         == Occurrences(start, m) + Occurrences(body, m) + Occurrences(end, m)
    ensures IndexOf(start + body + end, m)
         == FirstOf(IndexOf(start, m), |start|, FirstOf(IndexOf(body, m), |body|, IndexOf(end, m)))
  {
    var tail := body + end;
    Seam(body, end, m);
    Seam(start, tail, m);
    assert start + tail == start + body + end;
  }

  lemma OwnMarkers(generated: string, region: Region, other: Region)
    requires Sound(region) && Sound(other) && Generated(generated, region, other)
    ensures Block(generated) && |generated| >= |region.start| + |region.end|
    ensures Occurrences(generated, region.start) == 1 && Occurrences(generated, region.end) == 1
    ensures IndexOf(generated, region.start) == 0
    ensures IndexOf(generated, region.end) == |generated| - |region.end| > 0
  {
    var body :| GeneratedAround(generated, body, region, other);
    CountIn(region.start, body, region.end, region.start);
    CountIn(region.start, body, region.end, region.end);
    MarkerInItself(region.start);
    MarkerInItself(region.end);
    NotInMarker(region.start, region.end);
    NotInMarker(region.end, region.start);
    CountedIsFound(region.start, region.end);
    CountedIsFound(body, region.end);
  }

  lemma NoForeignMarkers(generated: string, region: Region, other: Region)
    requires Sound(region) && Sound(other) && Different(region, other) && Generated(generated, region, other)
    ensures Clear(generated, other) && Occurrences(generated, other.anchor) == 0
  {
    var body :| GeneratedAround(generated, body, region, other);
    CountIn(region.start, body, region.end, other.start);
    CountIn(region.start, body, region.end, other.end);
    CountIn(region.start, body, region.end, other.anchor);
    NotInMarker(other.start, region.start);
    NotInMarker(other.start, region.end);
    NotInMarker(other.end, region.start);
    NotInMarker(other.end, region.end);
    NotInMarker(other.anchor, region.start);
    NotInMarker(other.anchor, region.end);
  }

  lemma FillCounts(replaced: string, generated: string, m: string)
    requires Block(generated) && Needle(m)
    ensures Block(Fill(replaced, generated)) && Occurrences(Fill(replaced, generated), m) == Occurrences(generated, m)
  {
    Seam("\n\n", generated, m);
    TooShort("\n\n", m);
  }

  // ----- what an edit of valid text looks like

  lemma {:induction false} FoundThereFrom(text: string, m: string, i: nat)
    requires IndexFrom(text, m, i) != -1
    ensures At(text, m, IndexFrom(text, m, i))
    decreases |text| - i
  {
    if !At(text, m, i) {
      FoundThereFrom(text, m, i + 1);
    }
  }

  lemma FoundThere(text: string, m: string)
    requires IndexOf(text, m) != -1
    ensures At(text, m, IndexOf(text, m))
  {
    FoundThereFrom(text, m, 0);
  }

  ghost predicate IsEdit(region: Region, text: string, edit: Edit)
    requires Sound(region)
  {
    && text == edit.before + edit.replaced + edit.after
    && Seams(edit.before, edit.replaced, edit.after)
    && Clear(edit.before, region) && Clear(edit.after, region)
    && (edit.replaced == "" || IsMarked(region, edit.replaced))
  }

  /** Text from a start marker to an end marker. */
  predicate IsMarked(region: Region, text: string) {
    && |text| >= |region.start| + |region.end| && region.start <= text
    && text[|text| - |region.end|..] == region.end
  }

  lemma InsideMarker(text: string, m: string, start: nat, k: nat)
    requires Marker(m) && At(text, m, start) && start < k < start + |m|
    ensures text[k] != '<'
  {
    assert text[k] == text[start..start + |m|][k - start] == m[1..][k - start - 1];
  }

  lemma MarkersApart(region: Region, text: string)
    requires Sound(region)
    requires 0 <= IndexOf(text, region.start) < IndexOf(text, region.end)
    ensures IndexOf(text, region.start) + |region.start| <= IndexOf(text, region.end)
  {
    var start, end := IndexOf(text, region.start), IndexOf(text, region.end);
    FoundThere(text, region.start);
    FoundThere(text, region.end);
    AtFirst(text, region.end, end);
    if end < start + |region.start| {
      InsideMarker(text, region.start, start, end);
    }
  }

  /** A stretch of text with one marker at its start and one at its end. */
  lemma StretchIsMarked(region: Region, text: string, start: nat, end: nat)
    requires Sound(region) && At(text, region.start, start) && At(text, region.end, end)
    requires start + |region.start| <= end
    ensures IsMarked(region, text[start..end + |region.end|]) && Block(text[start..end + |region.end|])
  {
    var stretch := text[start..end + |region.end|];
    assert region.start == text[start..start + |region.start|] == stretch[..|region.start|];
    assert region.end == text[end..end + |region.end|] == stretch[end - start..];
  }

  lemma CutAt(text: string, i: nat, j: nat)
    requires i <= j <= |text|
    ensures text == text[..i] + text[i..j] + text[j..]
  {
  }

  lemma RegionIsMarked(region: Region, text: string, edit: Edit)
    requires Sound(region)
    requires 0 <= IndexOf(text, region.start) < IndexOf(text, region.end)
    requires EditOf(region, text) == Some(edit)
    ensures text == edit.before + edit.replaced + edit.after
    ensures IsMarked(region, edit.replaced) && Block(edit.replaced)
    ensures |edit.before| == IndexOf(text, region.start) < IndexOf(text, region.end)
  {
    MarkersApart(region, text);
    FoundThere(text, region.start);
    FoundThere(text, region.end);
    StretchIsMarked(region, text, IndexOf(text, region.start), IndexOf(text, region.end));
    CutAt(text, IndexOf(text, region.start), IndexOf(text, region.end) + |region.end|);
  }

  lemma MarkedCounts(region: Region, text: string)
    requires Sound(region) && IsMarked(region, text)
    ensures Occurrences(text, region.start) >= 1 && Occurrences(text, region.end) >= 1
  {
    var front := text[..|text| - |region.end|];
    assert text == front + region.end;
    Seam(front, region.end, region.end);
    MarkerInItself(region.end);
  }

  lemma EditAtAnchor(region: Region, text: string, edit: Edit)
    requires Sound(region) && Clear(text, region) && EditOf(region, text) == Some(edit)
    ensures IsEdit(region, text, edit) && edit.replaced == "" && region.anchor <= edit.after
  {
    CountedIsFound(text, region.start);
    var k := IndexOf(text, region.anchor);
    FoundThere(text, region.anchor);
    AnchorInFront(text, region.anchor, k);
    assert text == edit.before + edit.after == edit.before + edit.replaced + edit.after;
    Seam(edit.before, edit.after, region.start);
    Seam(edit.before, edit.after, region.end);
  }

  lemma AnchorInFront(text: string, m: string, k: nat)
    requires m != "" && At(text, m, k)
    ensures m <= text[k..] && text[k..] != "" && text[k..][0] == m[0]
  {
    assert text[k..k + |m|] == text[k..][..|m|];
  }

  lemma EditAtRegion(region: Region, text: string, edit: Edit)
    requires Sound(region) && EditOf(region, text) == Some(edit)
    requires Occurrences(text, region.start) == 1 && Occurrences(text, region.end) == 1
    requires 0 <= IndexOf(text, region.start) < IndexOf(text, region.end)
    ensures IsEdit(region, text, edit) && edit.replaced != ""
  {
    RegionIsMarked(region, text, edit);
    MarkedCounts(region, edit.replaced);
    MarkedIsOnly(edit, region.start);
    MarkedIsOnly(edit, region.end);
  }

  lemma MarkedIsOnly(edit: Edit, m: string)
    requires Needle(m) && Block(edit.replaced) && Occurrences(edit.replaced, m) >= 1
    requires Occurrences(edit.before + edit.replaced + edit.after, m) == 1
    ensures Occurrences(edit.before, m) == 0 && Occurrences(edit.after, m) == 0
  {
    Pieces(edit.before, edit.replaced, edit.after, m);
  }

  /** Valid text is edited at its region, or where it has an anchor and no region. */
  lemma ValidEdit(region: Region, text: string)
    requires Sound(region) && Validate(region, text) == [] && EditOf(region, text).Some?
    ensures IsEdit(region, text, EditOf(region, text).value)
    ensures EditOf(region, text).value.replaced == "" <==> Occurrences(text, region.start) == 0
  {
    CountedIsFound(text, region.start);
    CountedIsFound(text, region.end);
    if Occurrences(text, region.start) == 0 {
      EditAtAnchor(region, text, EditOf(region, text).value);
    } else {
      EditAtRegion(region, text, EditOf(region, text).value);
    }
  }

  /** A generated region between texts free of its markers stays as it is. */
  lemma Settled(region: Region, other: Region, a: string, generated: string, b: string)
    requires Sound(region) && Sound(other) && Generated(generated, region, other)
    requires Clear(a, region) && Clear(b, region)
    ensures Validate(region, a + generated + b) == []
    ensures EditOf(region, a + generated + b) == Some(Edit(a, generated, b))
    ensures Replace(region, a + generated + b, generated) == Ok(a + generated + b)
  {
    var text := a + generated + b;
    OwnMarkers(generated, region, other);
    Pieces(a, generated, b, region.start);
    Pieces(a, generated, b, region.end);
    CountedIsFound(a, region.start);
    CountedIsFound(a, region.end);
    assert text[..|a|] == a && text[|a|..|a| + |generated|] == generated && text[|a| + |generated|..] == b;
  }

  /** Valid text that generating again leaves as it is. */
  ghost predicate Stays(region: Region, text: string, generated: string)
    requires Sound(region)
  {
    Validate(region, text) == [] && Replace(region, text, generated) == Ok(text)
  }

  lemma ClearBlankLines(region: Region, a: string)
    requires Sound(region) && Clear(a, region)
    ensures Clear(a + "\n\n", region)
  {
    Seam(a, "\n\n", region.start);
    Seam(a, "\n\n", region.end);
    TooShort("\n\n", region.start);
    TooShort("\n\n", region.end);
  }

  lemma SettledFill(region: Region, other: Region, a: string, replaced: string, generated: string, b: string)
    requires Sound(region) && Sound(other) && Generated(generated, region, other)
    requires Clear(a, region) && Clear(b, region)
    ensures Stays(region, a + Fill(replaced, generated) + b, generated)
  {
    if replaced == "" {
      ClearBlankLines(region, a);
      Settled(region, other, a + "\n\n", generated, b);
      assert a + ("\n\n" + generated) + b == a + "\n\n" + generated + b;
    } else {
      Settled(region, other, a, generated, b);
    }
  }

  // ----- one region edited while the other stands aside

  /** Where the text before or behind a stretch is cut. */
  lemma ClearParts(region: Region, a: string, x: string, b: string)
    requires Sound(region) && Seams(a, x, b) && Clear(a + x + b, region)
    ensures Clear(a, region) && Clear(x, region) && Clear(b, region)
  {
    Pieces(a, x, b, region.start);
    Pieces(a, x, b, region.end);
  }

  lemma ClearJoined(region: Region, a: string, x: string, b: string)
    requires Sound(region) && Seams(a, x, b)
    requires Clear(a, region) && Clear(x, region) && Clear(b, region)
    ensures Clear(a + x + b, region)
  {
    Pieces(a, x, b, region.start);
    Pieces(a, x, b, region.end);
  }

  lemma ForeignFill(region: Region, other: Region, replaced: string, generated: string)
    requires Sound(region) && Sound(other) && Different(region, other) && Generated(generated, region, other)
    ensures Block(Fill(replaced, generated)) && Clear(Fill(replaced, generated), other)
    ensures Occurrences(Fill(replaced, generated), other.anchor) == 0
  {
    OwnMarkers(generated, region, other);
    NoForeignMarkers(generated, region, other);
    FillCounts(replaced, generated, other.start);
    FillCounts(replaced, generated, other.end);
    FillCounts(replaced, generated, other.anchor);
  }

  /** Another region is filled in, in a part of the text that has no markers of this one. */
  lemma StillClear(region: Region, other: Region, a: string, x: string, b: string, generated: string)
    requires Sound(region) && Sound(other) && Different(region, other) && Generated(generated, other, region)
    requires Seams(a, x, b) && Clear(a + x + b, region)
    ensures Clear(a + Fill(x, generated) + b, region)
  {
    ClearParts(region, a, x, b);
    ForeignFill(other, region, x, generated);
    ClearJoined(region, a, Fill(x, generated), b);
  }

  lemma Regroup(p: string, f: string, q: string, g: string, s: string)
    ensures p + f + (q + g + s) == p + f + q + g + s
  {
  }

  /** Two filled regions, one behind the other, with text free of markers around them. */
  lemma TwoSettled(one: Region, two: Region, p: string, x: string, first: string, q: string, y: string, second: string, s: string)
    requires Sound(one) && Sound(two) && Generated(first, one, two) && Generated(second, two, one)
    requires Clear(p, one) && Clear(q + Fill(y, second) + s, one)
    requires Clear(p + Fill(x, first) + q, two) && Clear(s, two)
    ensures Stays(one, p + Fill(x, first) + q + Fill(y, second) + s, first)
    ensures Stays(two, p + Fill(x, first) + q + Fill(y, second) + s, second)
  {
    Regroup(p, Fill(x, first), q, Fill(y, second), s);
    SettledFill(one, two, p, x, first, q + Fill(y, second) + s);
    SettledFill(two, one, p + Fill(x, first) + q, y, second, s);
  }

  /** Which of three parts holds a needle that occurs once. */
  function PartOf(a: string, x: string, m: string): nat
    requires m != ""
  {
    if Occurrences(a, m) > 0 then 0 else if Occurrences(x, m) > 0 then 1 else 2
  }

  /** The part of a + x + b that holds the only `m`, where in the text that is, and that the others have none. */
  ghost predicate Placed(a: string, x: string, b: string, m: string, i: int)
    requires m != ""
  {
    && (PartOf(a, x, m) == 0 ==> i == IndexOf(a, m) && 0 <= i <= |a| - |m|)
    && (PartOf(a, x, m) == 1 ==> |a| <= i <= |a| + |x| - |m|)
    && (PartOf(a, x, m) == 2 ==> i == |a| + |x| + IndexOf(b, m) && IndexOf(b, m) >= 0)
    && Occurrences(a, m) == (if PartOf(a, x, m) == 0 then 1 else 0)
    && Occurrences(x, m) == (if PartOf(a, x, m) == 1 then 1 else 0)
    && Occurrences(b, m) == (if PartOf(a, x, m) == 2 then 1 else 0)
  }

  lemma Place(a: string, x: string, b: string, m: string)
    requires Needle(m) && Seams(a, x, b) && Occurrences(a + x + b, m) == 1
    ensures Placed(a, x, b, m, IndexOf(a + x + b, m))
  {
    Pieces(a, x, b, m);
    CountedIsFound(a, m);
    CountedIsFound(x, m);
    CountedIsFound(b, m);
  }

  /** The region's two markers are in the same part, or nowhere. */
  ghost predicate Aside(region: Region, a: string, x: string, b: string)
    requires Sound(region)
  {
    Clear(a + x + b, region) || PartOf(a, x, region.start) == PartOf(a, x, region.end)
  }

  /** What replaces `x` is free of the region's markers and anchor. */
  ghost predicate Foreign(region: Region, filled: string)
    requires Sound(region)
  {
    Block(filled) && Clear(filled, region) && Occurrences(filled, region.anchor) == 0
  }

  /** An edit in front of the stretch from |a| to upto, or behind it. */
  predicate Beside(edit: Edit, a: string, upto: nat) {
    || (|edit.before| + |edit.replaced| <= |a| && (edit.replaced == "" ==> |edit.before| < |a|))
    || |edit.before| >= upto
  }

  /** No region is left after the stretch is replaced: the region is inserted beside it. */
  lemma InsertedBeside(region: Region, a: string, filled: string, b: string, edit: Edit)
    requires Sound(region) && Foreign(region, filled) && Clear(a, region) && Clear(b, region)
    requires EditOf(region, a + filled + b) == Some(edit)
    ensures IsEdit(region, a + filled + b, edit) && Beside(edit, a, |a| + |filled|)
  {
    ClearJoined(region, a, filled, b);
    EditAtAnchor(region, a + filled + b, edit);
    CountedIsFound(a + filled + b, region.start);
    Pieces(a, filled, b, region.anchor);
    CountedIsFound(filled, region.anchor);
  }

  /** The region is in front of the stretch that is replaced, and stays the one that is edited. */
  lemma EditedInFront(region: Region, a: string, filled: string, b: string, edit: Edit)
    requires Sound(region) && Foreign(region, filled) && Clear(b, region)
    requires Occurrences(a, region.start) == 1 && Occurrences(a, region.end) == 1
    requires 0 <= IndexOf(a, region.start) < IndexOf(a, region.end)
    requires EditOf(region, a + filled + b) == Some(edit)
    ensures IsEdit(region, a + filled + b, edit) && Beside(edit, a, |a| + |filled|)
  {
    Pieces(a, filled, b, region.start);
    Pieces(a, filled, b, region.end);
    EditAtRegion(region, a + filled + b, edit);
  }

  lemma EditedBehind(region: Region, a: string, filled: string, b: string, edit: Edit)
    requires Sound(region) && Foreign(region, filled) && Clear(a, region)
    requires Occurrences(b, region.start) == 1 && Occurrences(b, region.end) == 1
    requires 0 <= IndexOf(b, region.start) < IndexOf(b, region.end)
    requires EditOf(region, a + filled + b) == Some(edit)
    ensures IsEdit(region, a + filled + b, edit) && Beside(edit, a, |a| + |filled|)
  {
    Pieces(a, filled, b, region.start);
    Pieces(a, filled, b, region.end);
    CountedIsFound(a, region.start);
    CountedIsFound(a, region.end);
    CountedIsFound(filled, region.start);
    CountedIsFound(filled, region.end);
    EditAtRegion(region, a + filled + b, edit);
  }

  lemma SecondEdit(region: Region, a: string, x: string, b: string, filled: string, edit: Edit)
    requires Sound(region) && Foreign(region, filled)
    requires Seams(a, x, b) && Validate(region, a + x + b) == [] && Aside(region, a, x, b)
    requires EditOf(region, a + filled + b) == Some(edit)
    ensures IsEdit(region, a + filled + b, edit) && Beside(edit, a, |a| + |filled|)
  {
    if Clear(a + x + b, region) {
      ClearParts(region, a, x, b);
      InsertedBeside(region, a, filled, b, edit);
    } else {
      Place(a, x, b, region.start);
      Place(a, x, b, region.end);
      if PartOf(a, x, region.start) == 0 {
        EditedInFront(region, a, filled, b, edit);
      } else if PartOf(a, x, region.start) == 1 {
        InsertedBeside(region, a, filled, b, edit);
      } else {
        EditedBehind(region, a, filled, b, edit);
      }
    }
  }

  // ----- both regions edited, one after the other

  /** A text with two stretches cut out. */
  datatype Frame = Frame(p: string, x: string, q: string, y: string, s: string)

  /** Only the two stretches, each a region or nothing, have become generated text. */
  ghost predicate RewrittenAt(was: string, now: string, one: Region, first: string, two: Region, second: string, f: Frame)
    requires Sound(one) && Sound(two)
  {
    && was == f.p + f.x + f.q + f.y + f.s
    && now == f.p + Fill(f.x, first) + f.q + Fill(f.y, second) + f.s
    && (f.x == "" || IsMarked(one, f.x)) && (f.y == "" || IsMarked(two, f.y))
  }

  function Edited(edit: Edit, generated: string): string {
    edit.before + Fill(edit.replaced, generated) + edit.after
  }

  lemma CutLeft(a: string, filled: string, b: string, edit: Edit)
    requires a + filled + b == edit.before + edit.replaced + edit.after
    requires |edit.before| + |edit.replaced| <= |a|
    ensures var q := a[|edit.before| + |edit.replaced|..];
            a == edit.before + edit.replaced + q && edit.after == q + filled + b
  {
    var n := |edit.before| + |edit.replaced|;
    var text := a + filled + b;
    assert text[..n] == edit.before + edit.replaced == a[..n];
    assert text[n..] == edit.after == a[n..] + filled + b;
  }

  lemma CutRight(a: string, filled: string, b: string, edit: Edit)
    requires a + filled + b == edit.before + edit.replaced + edit.after
    requires |edit.before| >= |a| + |filled|
    ensures var q := edit.before[|a| + |filled|..];
            edit.before == a + filled + q && b == q + edit.replaced + edit.after
  {
    var n := |a| + |filled|;
    var text := a + filled + b;
    assert text[..n] == a + filled == edit.before[..n];
    assert text[n..] == b == edit.before[n..] + edit.replaced + edit.after;
  }

  lemma EditInFrontStays(one: Region, two: Region, a: string, x: string, first: string, b: string, edit: Edit, second: string)
    returns (f: Frame)
    requires Sound(one) && Sound(two) && Different(one, two)
    requires Generated(first, one, two) && Generated(second, two, one)
    requires Clear(a, one) && Clear(b, one) && (x == "" || IsMarked(one, x))
    requires IsEdit(two, a + Fill(x, first) + b, edit)
    requires |edit.before| + |edit.replaced| <= |a| && (edit.replaced == "" ==> |edit.before| < |a|)
    ensures Stays(one, Edited(edit, second), first) && Stays(two, Edited(edit, second), second)
    ensures RewrittenAt(a + x + b, Edited(edit, second), two, second, one, first, f)
  {
    var q := a[|edit.before| + |edit.replaced|..];
    CutLeft(a, Fill(x, first), b, edit);
    assert Seams(edit.before, edit.replaced, q) by {
      assert edit.replaced == "" ==> q != "" && q[0] == edit.after[0];
    }
    StillClear(one, two, edit.before, edit.replaced, q, second);
    TwoSettled(two, one, edit.before, edit.replaced, second, q, x, first, b);
    Regroup(edit.before, Fill(edit.replaced, second), q, Fill(x, first), b);
    f := Frame(edit.before, edit.replaced, q, x, b);
  }

  lemma EditBehindStays(one: Region, two: Region, a: string, x: string, first: string, b: string, edit: Edit, second: string)
    returns (f: Frame)
    requires Sound(one) && Sound(two) && Different(one, two)
    requires Generated(first, one, two) && Generated(second, two, one)
    requires Clear(a, one) && Clear(b, one) && (x == "" || IsMarked(one, x))
    requires IsEdit(two, a + Fill(x, first) + b, edit)
    requires |edit.before| >= |a| + |Fill(x, first)|
    ensures Stays(one, Edited(edit, second), first) && Stays(two, Edited(edit, second), second)
    ensures RewrittenAt(a + x + b, Edited(edit, second), one, first, two, second, f)
  {
    var q := edit.before[|a| + |Fill(x, first)|..];
    CutRight(a, Fill(x, first), b, edit);
    StillClear(one, two, q, edit.replaced, edit.after, second);
    TwoSettled(one, two, a, x, first, q, edit.replaced, second, edit.after);
    Regroup(a, x, q, edit.replaced, edit.after);
    f := Frame(a, x, q, edit.replaced, edit.after);
  }

  /** Outside the two regions the text is what it was. */
  ghost predicate Rewritten(was: string, now: string, one: Region, first: string, two: Region, second: string)
    requires Sound(one) && Sound(two)
  {
    || (exists f: Frame :: RewrittenAt(was, now, one, first, two, second, f))
    || (exists f: Frame :: RewrittenAt(was, now, two, second, one, first, f))
  }

  lemma EditBesideStays(one: Region, two: Region, a: string, x: string, first: string, b: string, edit: Edit, second: string)
    requires Sound(one) && Sound(two) && Different(one, two)
    requires Generated(first, one, two) && Generated(second, two, one)
    requires Clear(a, one) && Clear(b, one) && (x == "" || IsMarked(one, x))
    requires IsEdit(two, a + Fill(x, first) + b, edit) && Beside(edit, a, |a| + |Fill(x, first)|)
    ensures Stays(one, Edited(edit, second), first) && Stays(two, Edited(edit, second), second)
    ensures Rewritten(a + x + b, Edited(edit, second), one, first, two, second)
  {
    if |edit.before| >= |a| + |Fill(x, first)| {
      var f := EditBehindStays(one, two, a, x, first, b, edit, second);
    } else {
      var f := EditInFrontStays(one, two, a, x, first, b, edit, second);
    }
  }

  // ----- when the second region is not aside

  lemma EnclosingEdit(two: Region, a: string, filled: string, b: string, edit: Edit)
    requires Sound(two) && Foreign(two, filled)
    requires Occurrences(a, two.start) == 1 && Occurrences(b, two.end) == 1
    requires Occurrences(a, two.end) == 0 && Occurrences(b, two.start) == 0
    requires EditOf(two, a + filled + b) == Some(edit)
    ensures IsEdit(two, a + filled + b, edit) && IsMarked(two, edit.replaced)
    ensures |edit.before| < |a| && |edit.before| + |edit.replaced| > |a| + |filled|
  {
    Pieces(a, filled, b, two.start);
    Pieces(a, filled, b, two.end);
    CountedIsFound(a, two.start);
    CountedIsFound(a, two.end);
    CountedIsFound(filled, two.end);
    CountedIsFound(b, two.end);
    EditAtRegion(two, a + filled + b, edit);
    RegionIsMarked(two, a + filled + b, edit);
  }

  /** What is in front of a stretch that starts like a marker, and behind one that ends like one. */
  lemma ClearOutside(region: Region, a: string, before: string, u: string, b: string, v: string, after: string)
    requires Sound(region) && Clear(a, region) && Clear(b, region)
    requires a == before + u && u != "" && u[0] == '<'
    requires b == v + after && v != "" && v[|v| - 1] == '>'
    ensures Clear(before, region) && Clear(after, region)
  {
    Seam(before, u, region.start);
    Seam(before, u, region.end);
    Seam(v, after, region.start);
    Seam(v, after, region.end);
  }

  lemma CutAround(a: string, filled: string, b: string, edit: Edit)
    requires a + filled + b == edit.before + edit.replaced + edit.after
    requires |edit.before| < |a| && |edit.before| + |edit.replaced| > |a| + |filled|
    ensures var u, v := a[|edit.before|..], b[..|edit.before| + |edit.replaced| - |a| - |filled|];
            && a == edit.before + u && u[0] == edit.replaced[0]
            && b == v + edit.after && v[|v| - 1] == edit.replaced[|edit.replaced| - 1]
  {
    var text, upto := a + filled + b, |edit.before| + |edit.replaced|;
    assert text[..|edit.before|] == edit.before == a[..|edit.before|];
    assert text[|edit.before|] == edit.replaced[0] && text[upto - 1] == edit.replaced[|edit.replaced| - 1];
    assert text[upto..] == edit.after == b[upto - |a| - |filled|..];
  }

  lemma MarkedEnds(region: Region, text: string)
    requires Sound(region) && IsMarked(region, text)
    ensures text != "" && text[0] == '<' && text[|text| - 1] == '>'
  {
    var n := |text| - |region.end|;
    assert text[n..][|region.end| - 1] == text[|text| - 1];
  }

  lemma ClearAround(region: Region, a: string, filled: string, b: string, edit: Edit)
    requires Sound(region) && Clear(a, region) && Clear(b, region)
    requires a + filled + b == edit.before + edit.replaced + edit.after
    requires |edit.before| < |a| && |edit.before| + |edit.replaced| > |a| + |filled|
    requires edit.replaced != "" && edit.replaced[0] == '<' && edit.replaced[|edit.replaced| - 1] == '>'
    ensures Clear(edit.before, region) && Clear(edit.after, region)
  {
    CutAround(a, filled, b, edit);
    var u, v := a[|edit.before|..], b[..|edit.before| + |edit.replaced| - |a| - |filled|];
    ClearOutside(region, a, edit.before, u, b, v, edit.after);
  }

  /** The second region encloses the first: writing it drops the first from the text. */
  lemma FirstDropped(one: Region, two: Region, a: string, filled: string, b: string, edit: Edit)
    requires Sound(one) && Sound(two) && Foreign(two, filled)
    requires Clear(a, one) && Clear(b, one)
    requires Occurrences(a, two.start) == 1 && Occurrences(b, two.end) == 1
    requires Occurrences(a, two.end) == 0 && Occurrences(b, two.start) == 0
    requires EditOf(two, a + filled + b) == Some(edit)
    ensures IsEdit(two, a + filled + b, edit) && edit.replaced != ""
    ensures Clear(edit.before, one) && Clear(edit.after, one)
  {
    EnclosingEdit(two, a, filled, b, edit);
    MarkedEnds(two, edit.replaced);
    ClearAround(one, a, filled, b, edit);
  }

  /** The first region is gone from a text with only the second: generating again does not reproduce that text. */
  lemma DroppedIsStale(one: Region, two: Region, a: string, b: string, first: string, second: string)
    requires Sound(one) && Sound(two) && Different(one, two)
    requires Generated(first, one, two) && Generated(second, two, one)
    requires Clear(a, one) && Clear(b, one) && Clear(a, two) && Clear(b, two)
    ensures Regenerate(one, two, a + second + b, first, second) != Ok(a + second + b)
  {
    var text := a + second + b;
    var edit := EditOf(one, text);
    if edit.Some? {
      ForeignFill(two, one, second, second);
      InsertedBeside(one, a, second, b, edit.value);
      EditBesideStays(two, one, a, second, second, b, edit.value, first);
      ClearJoined(one, a, second, b);
      EditAtAnchor(one, text, edit.value);
      assert |Edited(edit.value, first)| > |text|;
    }
  }

  /** Only one of the region's two markers is left: the region is written a second time. */
  lemma HalfRegionIsRefused(region: Region, other: Region, text: string, generated: string, edit: Edit)
    requires Sound(region) && Sound(other) && Generated(generated, region, other)
    requires Occurrences(text, region.start) + Occurrences(text, region.end) == 1
    requires EditOf(region, text) == Some(edit)
    ensures Validate(region, Edited(edit, generated)) != []
  {
    CountedIsFound(text, region.start);
    CountedIsFound(text, region.end);
    var k := IndexOf(text, region.anchor);
    FoundThere(text, region.anchor);
    AnchorInFront(text, region.anchor, k);
    assert text == edit.before + edit.after;
    OwnMarkers(generated, region, other);
    HalfCounts(edit, generated, region.start);
    HalfCounts(edit, generated, region.end);
  }

  lemma HalfCounts(edit: Edit, generated: string, m: string)
    requires Needle(m) && Block(generated) && edit.replaced == "" && edit.after != "" && edit.after[0] == '\n'
    ensures Occurrences(Edited(edit, generated), m)
         == Occurrences(edit.before + edit.after, m) + Occurrences(generated, m)
  {
    FillCounts("", generated, m);
    Pieces(edit.before, Fill("", generated), edit.after, m);
    Seam(edit.before, edit.after, m);
  }

  // ----- writing and checking

  /** The README with both regions generated: first the one, then the other. */
  function Regenerate(one: Region, two: Region, readme: string, first: string, second: string): Result<string, Problem>
    requires Sound(one) && Sound(two)
  {
    var half := Replace(one, readme, first);
    if half.Err? then half else Replace(two, half.value, second)
  }

  /**
   Whether the region `two` of valid text leaves the place where `one` is written alone: it is
   missing, in front of that place, behind it, or inside the region that `one` replaces.
   */
  predicate LeavesAlone(two: Region, text: string, edit: Edit)
    requires Sound(two)
  {
    var start, behind := IndexOf(text, two.start), IndexOf(text, two.end) + |two.end|;
    var from, upto := |edit.before|, |edit.before| + |edit.replaced|;
    start < 0 || behind <= from || upto <= start || (from <= start && behind <= upto)
  }

  predicate Compatible(one: Region, two: Region, readme: string)
    requires Sound(one) && Sound(two)
  {
    var edit := EditOf(one, readme);
    edit.Some? ==> LeavesAlone(two, readme, edit.value)
  }

  lemma LeavesAloneMeansAside(two: Region, text: string, edit: Edit)
    requires Sound(two) && Validate(two, text) == []
    requires text == edit.before + edit.replaced + edit.after && Seams(edit.before, edit.replaced, edit.after)
    ensures LeavesAlone(two, text, edit) <==> Aside(two, edit.before, edit.replaced, edit.after)
  {
    CountedIsFound(text, two.start);
    if Occurrences(text, two.start) == 1 {
      Place(edit.before, edit.replaced, edit.after, two.start);
      Place(edit.before, edit.replaced, edit.after, two.end);
    }
  }

  /** After the first region is written, the second is written beside it. */
  lemma AsideAgrees(one: Region, two: Region, readme: string, first: string, second: string, edit: Edit)
    requires Sound(one) && Sound(two) && Different(one, two)
    requires Generated(first, one, two) && Generated(second, two, one)
    requires IsEdit(one, readme, edit) && Validate(two, readme) == []
    requires Aside(two, edit.before, edit.replaced, edit.after)
    requires Replace(two, Edited(edit, first), second).Ok?
    ensures var now := Replace(two, Edited(edit, first), second).value;
            Stays(one, now, first) && Stays(two, now, second) && Rewritten(readme, now, one, first, two, second)
  {
    ForeignFill(one, two, edit.replaced, first);
    var next := EditOf(two, Edited(edit, first)).value;
    SecondEdit(two, edit.before, edit.replaced, edit.after, Fill(edit.replaced, first), next);
    EditBesideStays(one, two, edit.before, edit.replaced, first, edit.after, next, second);
  }

  /** Otherwise the text that is written does not pass. */
  lemma NotAsideFails(one: Region, two: Region, readme: string, first: string, second: string, edit: Edit)
    requires Sound(one) && Sound(two) && Different(one, two)
    requires Generated(first, one, two) && Generated(second, two, one)
    requires IsEdit(one, readme, edit) && Validate(two, readme) == []
    requires !Aside(two, edit.before, edit.replaced, edit.after)
    requires Replace(two, Edited(edit, first), second).Ok?
    ensures var now := Replace(two, Edited(edit, first), second).value;
            Validate(two, now) != [] || Regenerate(one, two, now, first, second) != Ok(now)
  {
    var a, x, b := edit.before, edit.replaced, edit.after;
    var filled := Fill(x, first);
    var next := EditOf(two, a + filled + b).value;
    ForeignFill(one, two, x, first);
    Place(a, x, b, two.start);
    Place(a, x, b, two.end);
    if PartOf(a, x, two.start) == 0 && PartOf(a, x, two.end) == 2 {
      FirstDropped(one, two, a, filled, b, next);
      DroppedIsStale(one, two, next.before, next.after, first, second);
    } else {
      Pieces(a, filled, b, two.start);
      Pieces(a, filled, b, two.end);
      HalfRegionIsRefused(two, one, a + filled + b, second, next);
    }
  }

  datatype Files = Files(reference: string, readme: string)

  /** What the generator renders. */
  datatype Rendered = Rendered(reference: string, index: string, matrix: string)

  ghost predicate WellRendered(rendered: Rendered)
  {
    RegionsAreSound();
    Generated(rendered.index, INDEX, MATRIX) && Generated(rendered.matrix, MATRIX, INDEX)
  }

  /** writeCommandReference: the files it leaves, or the problems it throws. */
  function Write(files: Files, rendered: Rendered): Result<Files, seq<Problem>> {
    RegionsAreSound();
    var markerErrors := Validate(INDEX, files.readme) + Validate(MATRIX, files.readme);
    if markerErrors != [] then Err(markerErrors)
    else
      var generated := Regenerate(INDEX, MATRIX, files.readme, rendered.index, rendered.matrix);
      if generated.Err? then Err([generated.error])
      else Ok(Files(rendered.reference, generated.value))
  }

  /** checkCommandReference: the problems it reports, or the one it throws. */
  function Check(files: Files, rendered: Rendered): Result<seq<Problem>, Problem> {
    RegionsAreSound();
    var markerErrors := Validate(INDEX, files.readme) + Validate(MATRIX, files.readme);
    var errors := markerErrors + if files.reference != rendered.reference then [ReferenceStale] else [];
    var generated := Regenerate(INDEX, MATRIX, files.readme, rendered.index, rendered.matrix);
    if generated.Err? then Err(generated.error)
    else if errors == [] && files.readme != generated.value then Ok(errors + [ReadmeStale])
    else Ok(errors)
  }

  /** The check is silent exactly about files that writing leaves as they are. */
  lemma CheckAgreesWithWrite(files: Files, rendered: Rendered)
    ensures Check(files, rendered) == Ok([]) <==> Write(files, rendered) == Ok(files)
  {
  }

  ghost predicate ReadmeCompatible(readme: string) {
    RegionsAreSound();
    Compatible(INDEX, MATRIX, readme)
  }

  ghost predicate ReadmeRewritten(was: string, now: string, rendered: Rendered) {
    RegionsAreSound();
    Rewritten(was, now, INDEX, rendered.index, MATRIX, rendered.matrix)
  }

  ghost predicate ReadmeAccepted(readme: string, rendered: Rendered) {
    RegionsAreSound();
    Accepted(INDEX, MATRIX, readme, rendered.index, rendered.matrix)
  }

  lemma CheckMeaning(files: Files, rendered: Rendered)
    ensures Check(files, rendered) == Ok([])
       <==> files.reference == rendered.reference && ReadmeAccepted(files.readme, rendered)
  {
    RegionsAreSound();
    var a, b := Validate(INDEX, files.readme), Validate(MATRIX, files.readme);
    assert a + b == [] <==> a == [] && b == [];
    assert a + b + [ReferenceStale] != [] && a + b + [] == a + b;
  }

  /** What is written passes the check exactly when the matrix leaves the place of the index alone. */
  lemma WrittenPassesCheck(files: Files, rendered: Rendered)
    requires WellRendered(rendered) && Write(files, rendered).Ok?
    ensures Check(Write(files, rendered).value, rendered) == Ok([]) <==> ReadmeCompatible(files.readme)
    ensures ReadmeCompatible(files.readme) ==>
              ReadmeRewritten(files.readme, Write(files, rendered).value.readme, rendered)
  {
    RegionsAreSound();
    WrittenAgrees(INDEX, MATRIX, files.readme, rendered.index, rendered.matrix);
    CheckMeaning(Write(files, rendered).value, rendered);
  }

  lemma WrittenAgrees(one: Region, two: Region, readme: string, first: string, second: string)
    requires Sound(one) && Sound(two) && Different(one, two)
    requires Generated(first, one, two) && Generated(second, two, one)
    requires Validate(one, readme) == [] && Validate(two, readme) == []
    requires Regenerate(one, two, readme, first, second).Ok?
    ensures var now := Regenerate(one, two, readme, first, second).value;
            && (Compatible(one, two, readme) ==> Rewritten(readme, now, one, first, two, second))
            && (Compatible(one, two, readme) <==> Accepted(one, two, now, first, second))
  {
    var edit := EditOf(one, readme).value;
    ValidEdit(one, readme);
    LeavesAloneMeansAside(two, readme, edit);
    if Compatible(one, two, readme) {
      AsideAgrees(one, two, readme, first, second, edit);
    } else {
      NotAsideFails(one, two, readme, first, second, edit);
    }
  }

  /** Text that is valid and that generating reproduces. */
  ghost predicate Accepted(one: Region, two: Region, text: string, first: string, second: string)
    requires Sound(one) && Sound(two)
  {
    && Validate(one, text) == [] && Validate(two, text) == []
    && Regenerate(one, two, text, first, second) == Ok(text)
  }

  /** Writing twice is writing once, for a README that is compatible. */
  lemma WriteIdempotent(files: Files, rendered: Rendered)
    requires WellRendered(rendered) && Write(files, rendered).Ok? && ReadmeCompatible(files.readme)
    ensures Write(Write(files, rendered).value, rendered) == Write(files, rendered)
  {
    WrittenPassesCheck(files, rendered);
    CheckAgreesWithWrite(Write(files, rendered).value, rendered);
  }

  // ----- a README that is not compatible

  /** Empty markers of the one region inside empty markers of the other. */
  function Nested(one: Region, two: Region): string {
    two.start + (one.start + "" + one.end) + two.end
  }

  lemma NestedMarkers(one: Region, two: Region, inside: string)
    requires Sound(one) && Sound(two) && Different(one, two) && Generated(inside, one, two)
    ensures Clear(two.start, one) && Clear(two.end, one)
    ensures Validate(two, two.start + inside + two.end) == []
    ensures IndexOf(two.start + inside + two.end, two.start) == 0
    ensures IndexOf(two.start + inside + two.end, two.end) == |two.start| + |inside|
  {
    NotInMarker(one.start, two.start);
    NotInMarker(one.start, two.end);
    NotInMarker(one.end, two.start);
    NotInMarker(one.end, two.end);
    NotInMarker(two.start, two.end);
    NotInMarker(two.end, two.start);
    MarkerInItself(two.start);
    MarkerInItself(two.end);
    OwnMarkers(inside, one, two);
    NoForeignMarkers(inside, one, two);
    Pieces(two.start, inside, two.end, two.start);
    Pieces(two.start, inside, two.end, two.end);
    CountedIsFound(two.start, two.end);
    CountedIsFound(inside, two.end);
  }

  lemma NestedIsWritten(one: Region, two: Region, first: string, second: string)
    requires Sound(one) && Sound(two) && Different(one, two) && Generated(first, one, two)
    ensures Validate(one, Nested(one, two)) == [] && Validate(two, Nested(one, two)) == []
    ensures Regenerate(one, two, Nested(one, two), first, second).Ok?
    ensures !Compatible(one, two, Nested(one, two))
  {
    var inside := one.start + "" + one.end;
    assert GeneratedAround(inside, "", one, two);
    NestedMarkers(one, two, inside);
    NestedMarkers(one, two, first);
    Settled(one, two, two.start, inside, two.end);
    OwnMarkers(inside, one, two);
  }

  /** The index inside the matrix: writing succeeds, and the check complains about what was written. */
  lemma NestedIndexFails(rendered: Rendered, reference: string)
    requires WellRendered(rendered)
    ensures var written := Write(Files(reference, Nested(INDEX, MATRIX)), rendered);
            written.Ok? && Check(written.value, rendered) != Ok([])
  {
    RegionsAreSound();
    NestedIsWritten(INDEX, MATRIX, rendered.index, rendered.matrix);
    WrittenPassesCheck(Files(reference, Nested(INDEX, MATRIX)), rendered);
  }
}
