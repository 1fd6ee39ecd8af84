/** What generate-command-reference.ts looks for, writes and reports, in terms of the text alone. */
module ReadmeForms {
  import opened Results
  import opened ReadmeRegions

  // ----- occurrences

  predicate Stands(text: string, m: string, i: nat) {
    i + |m| <= |text| && forall k :: 0 <= k < |m| ==> text[i + k] == m[k]
  }

  predicate First(text: string, m: string, i: nat) {
    Stands(text, m, i) && forall j :: 0 <= j < i ==> !Stands(text, m, j)
  }

  predicate Absent(text: string, m: string) {
    forall j :: 0 <= j <= |text| - |m| ==> !Stands(text, m, j)
  }

  lemma StandsExactly(text: string, m: string, i: nat)
    ensures Stands(text, m, i) <==> At(text, m, i)
  {
    if i + |m| <= |text| {
      var part := text[i..i + |m|];
      assert |part| == |m| && forall k :: 0 <= k < |m| ==> part[k] == text[i + k];
    }
  }

  lemma {:induction false} FoundFrom(text: string, m: string, i: nat)
    ensures IndexFrom(text, m, i) == -1 ==> forall j: nat :: i <= j ==> !Stands(text, m, j)
    ensures IndexFrom(text, m, i) != -1
            ==> Stands(text, m, IndexFrom(text, m, i)) && forall j :: i <= j < IndexFrom(text, m, i) ==> !Stands(text, m, j)
    decreases |text| - i
  {
    StandsExactly(text, m, i);
    if i + |m| <= |text| && !At(text, m, i) {
      FoundFrom(text, m, i + 1);
    }
  }

  /** A search finds the first occurrence, or there is none. */
  lemma FoundFirst(text: string, m: string)
    ensures if IndexOf(text, m) == -1 then Absent(text, m) else IndexOf(text, m) >= 0 && First(text, m, IndexOf(text, m))
  {
    FoundFrom(text, m, 0);
  }

  lemma FirstIsFound(text: string, m: string, i: nat)
    requires First(text, m, i)
    ensures IndexOf(text, m) == i
  {
    FoundFirst(text, m);
  }

  /** Where `m` stands in the text, from `i` on. */
  function Places(text: string, m: string, i: nat): set<nat> {
    set j: nat | i <= j <= |text| && Stands(text, m, j)
  }

  /** Two places of a marker never overlap. */
  lemma PlacesApart(text: string, m: string, i: nat, j: nat)
    requires Marker(m) && Stands(text, m, i) && i < j < i + |m|
    ensures !Stands(text, m, j)
  {
    InsideMarker(m, j - i);
    assert text[i + (j - i)] == m[j - i];
  }

  lemma InsideMarker(m: string, k: nat)
    requires Marker(m) && 0 < k < |m|
    ensures m[k] != m[0]
  {
    assert m[1..][k - 1] == m[k];
  }

  /** Counting a marker counts its places. */
  lemma {:induction false} CountedPlaces(text: string, m: string, i: nat)
    requires Marker(m)
    ensures CountFrom(text, m, i) == |Places(text, m, i)|
    decreases |text| - i
  {
    StandsExactly(text, m, i);
    if i + |m| > |text| {
      assert Places(text, m, i) == {};
    } else if At(text, m, i) {
      CountedPlaces(text, m, i + |m|);
      forall j: nat | i < j < i + |m|
        ensures !Stands(text, m, j)
      {
        PlacesApart(text, m, i, j);
      }
      assert Places(text, m, i) == {i} + Places(text, m, i + |m|);
    } else {
      CountedPlaces(text, m, i + 1);
      assert Places(text, m, i) == Places(text, m, i + 1);
    }
  }

  // ----- the two regions

  lemma MarkersAndAnchors()
    ensures INDEX.start == "<" + "!-- skillsmith-command-index:start --" + ">"
    ensures INDEX.end == "<" + "!-- skillsmith-command-index:end --" + ">"
    ensures MATRIX.start == "<" + "!-- skillsmith-capability-matrix:start --" + ">"
    ensures MATRIX.end == "<" + "!-- skillsmith-capability-matrix:end --" + ">"
    ensures INDEX.anchor == "\n" + "## Example output" && MATRIX.anchor == "\n" + "## Supported tools"
  {
  }

  /** No markers, or one start and then one end. */
  ghost predicate Paired(region: Region, text: string) {
    var starts, ends := Places(text, region.start, 0), Places(text, region.end, 0);
    || (starts == {} && ends == {})
    || exists i, j :: starts == {i} && ends == {j} && i < j
  }

  ghost predicate Backwards(region: Region, text: string) {
    exists i, j :: Places(text, region.start, 0) == {i} && Places(text, region.end, 0) == {j} && j <= i
  }

  lemma Singleton(s: set<nat>, i: nat)
    requires |s| == 1 && i in s
    ensures s == {i}
  {
    assert |s - {i}| == 0;
  }

  lemma OnePlace(text: string, m: string)
    requires Marker(m) && Occurrences(text, m) == 1
    ensures IndexOf(text, m) >= 0 && Places(text, m, 0) == {IndexOf(text, m)}
  {
    CountedPlaces(text, m, 0);
    CountedIsFound(text, m);
    FoundFirst(text, m);
    Singleton(Places(text, m, 0), IndexOf(text, m));
  }

  /** Which markers are accepted, and what is said of others. */
  lemma ValidExactly(region: Region, text: string)
    requires Sound(region)
    ensures Validate(region, text) == if Paired(region, text) then []
                                      else if Backwards(region, text) then [MarkersReversed(region)]
                                      else [MarkersNotPaired(region)]
  {
    CountedPlaces(text, region.start, 0);
    CountedPlaces(text, region.end, 0);
    if Occurrences(text, region.start) == 1 && Occurrences(text, region.end) == 1 {
      OnePlace(text, region.start);
      OnePlace(text, region.end);
    }
  }

  // ----- what is written

  /** A region whose markers are found in order is replaced, markers included. */
  lemma RegionReplaced(region: Region, text: string, generated: string, i: nat, j: nat)
    requires Sound(region) && First(text, region.start, i) && First(text, region.end, j) && i < j
    ensures Replace(region, text, generated) == Ok(text[..i] + generated + text[j + |region.end|..])
  {
    FirstIsFound(text, region.start, i);
    FirstIsFound(text, region.end, j);
  }

  /** Otherwise the generated text goes in front of the anchor, behind a blank line. */
  lemma RegionInserted(region: Region, text: string, generated: string)
    requires Sound(region) && forall i: nat, j: nat :: First(text, region.start, i) && First(text, region.end, j) ==> j <= i
    ensures forall k: nat :: First(text, region.anchor, k)
              ==> Replace(region, text, generated) == Ok(text[..k] + ("\n\n" + generated) + text[k..])
    ensures Absent(text, region.anchor) ==> Replace(region, text, generated) == Err(AnchorMissing(region))
  {
    FoundFirst(text, region.start);
    FoundFirst(text, region.end);
    FoundFirst(text, region.anchor);
    forall k: nat | First(text, region.anchor, k)
      ensures IndexOf(text, region.anchor) == k
    {
      FirstIsFound(text, region.anchor, k);
    }
  }

  // ----- what is reported

  /** What is said of a region's markers. */
  ghost function MarkerReport(region: Region, text: string): seq<Problem> {
    if Paired(region, text) then []
    else if Backwards(region, text) then [MarkersReversed(region)]
    else [MarkersNotPaired(region)]
  }

  /** The README that writing would leave: the index first, then the matrix. */
  function Regenerated(readme: string, rendered: Rendered): Result<string, Problem> {
    RegionsAreSound();
    var first := Replace(INDEX, readme, rendered.index);
    if first.Err? then first else Replace(MATRIX, first.value, rendered.matrix)
  }

  /**
   The report: the markers of the index, those of the matrix, a stale reference, and a stale
   README only if there is nothing else.
   */
  ghost predicate ReportsExactly(problems: seq<Problem>, now: string, files: Files, rendered: Rendered) {
    var others := MarkerReport(INDEX, files.readme) + MarkerReport(MATRIX, files.readme)
                  + if files.reference == rendered.reference then [] else [ReferenceStale];
    problems == if others == [] && files.readme != now then [ReadmeStale] else others
  }

  lemma ReportedExactly(files: Files, rendered: Rendered)
    ensures match Regenerated(files.readme, rendered)
            case Err(missing) => Check(files, rendered) == Err(missing)
            case Ok(now) => Check(files, rendered).Ok? && ReportsExactly(Check(files, rendered).value, now, files, rendered)
  {
    RegionsAreSound();
    ValidExactly(INDEX, files.readme);
    ValidExactly(MATRIX, files.readme);
  }
}
