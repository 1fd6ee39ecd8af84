/**
 Array.prototype.toSorted over a strict total order, and the order JavaScript's `<`
 puts on strings.
 */
module Sorting {
  import opened Utf16

  /** `before` orders any two different values one way and no value before itself. */
  ghost predicate StrictTotalOrder<T(!new)>(before: (T, T) -> bool) {
    && (forall a :: !before(a, a))
    && (forall a, b, c :: before(a, b) && before(b, c) ==> before(a, c))
    && (forall a, b :: a == b || before(a, b) || before(b, a))
  }

  /** No later element belongs before an earlier one. */
  ghost predicate SortedBy<T>(s: seq<T>, before: (T, T) -> bool) {
    forall i, j :: 0 <= i < j < |s| ==> !before(s[j], s[i])
  }

  ghost predicate Distinct<T>(s: seq<T>) {
    forall i, j :: 0 <= i < j < |s| ==> s[i] != s[j]
  }

  function Insert<T>(x: T, s: seq<T>, before: (T, T) -> bool): (r: seq<T>)
    ensures multiset(r) == multiset(s) + multiset{x}
  {
    if s == [] || !before(s[0], x) then [x] + s
    else
      assert s == [s[0]] + s[1..];
      [s[0]] + Insert(x, s[1..], before)
  }

  function Sort<T>(s: seq<T>, before: (T, T) -> bool): (r: seq<T>)
    ensures multiset(r) == multiset(s)
    ensures |r| == |s|
  {
    if s == [] then []
    else
      assert s == [s[0]] + s[1..];
      var r := Insert(s[0], Sort(s[1..], before), before);
      assert |multiset(r)| == |multiset(s)|;
      r
  }

  lemma InsertElements<T>(x: T, s: seq<T>, before: (T, T) -> bool)
    ensures forall y :: y in Insert(x, s, before) <==> y == x || y in s
  {
    forall y
      ensures y in Insert(x, s, before) <==> y == x || y in s
    {
      assert y in Insert(x, s, before) <==> y in multiset(Insert(x, s, before));
    }
  }

  lemma {:induction false} InsertSorted<T(!new)>(x: T, s: seq<T>, before: (T, T) -> bool)
    requires StrictTotalOrder(before) && SortedBy(s, before)
    ensures SortedBy(Insert(x, s, before), before)
  {
    if s == [] || !before(s[0], x) {
      forall j | 0 < j < |s| + 1
        ensures !before(([x] + s)[j], x)
      {
        if j > 1 {
          assert !before(s[j - 1], s[0]);
        }
      }
    } else {
      InsertSorted(x, s[1..], before);
      InsertElements(x, s[1..], before);
      var r := Insert(x, s[1..], before);
      forall j | 0 <= j < |r|
        ensures !before(r[j], s[0])
      {
        assert r[j] in r;
      }
    }
  }

  lemma {:induction false} SortSorted<T(!new)>(s: seq<T>, before: (T, T) -> bool)
    requires StrictTotalOrder(before)
    ensures SortedBy(Sort(s, before), before)
  {
    if s != [] {
      SortSorted(s[1..], before);
      InsertSorted(s[0], Sort(s[1..], before), before);
    }
  }

  /** Under a strict total order there is only one sorted arrangement of a multiset. */
  lemma {:induction false} SortedUnique<T(!new)>(a: seq<T>, b: seq<T>, before: (T, T) -> bool)
    requires StrictTotalOrder(before)
    requires SortedBy(a, before) && SortedBy(b, before)
    requires multiset(a) == multiset(b)
    ensures a == b
  {
    assert |multiset(a)| == |multiset(b)|;
    if a != [] {
      assert a[0] in multiset(b) && b[0] in multiset(a);
      FirstComesFirst(a, b[0], before);
      FirstComesFirst(b, a[0], before);
      assert a[0] == b[0];
      assert a == [a[0]] + a[1..] && b == [b[0]] + b[1..];
      assert multiset(a[1..]) == multiset(a) - multiset{a[0]};
      assert multiset(b[1..]) == multiset(b) - multiset{b[0]};
      SortedUnique(a[1..], b[1..], before);
    }
  }

  lemma FirstComesFirst<T(!new)>(a: seq<T>, x: T, before: (T, T) -> bool)
    requires a != [] && SortedBy(a, before) && x in a
    ensures x == a[0] || !before(x, a[0])
  {
  }

  /** Sorting forgets the order it was given the elements in. */
  lemma SortDependsOnElements<T(!new)>(a: seq<T>, b: seq<T>, before: (T, T) -> bool)
    requires StrictTotalOrder(before)
    requires multiset(a) == multiset(b)
    ensures Sort(a, before) == Sort(b, before)
  {
    SortSorted(a, before);
    SortSorted(b, before);
    SortedUnique(Sort(a, before), Sort(b, before), before);
  }

  lemma SortFixesSorted<T(!new)>(a: seq<T>, before: (T, T) -> bool)
    requires StrictTotalOrder(before) && SortedBy(a, before)
    ensures Sort(a, before) == a
  {
    SortSorted(a, before);
    SortedUnique(Sort(a, before), a, before);
  }

  lemma SameMembers<T>(a: seq<T>, b: seq<T>)
    requires multiset(a) == multiset(b)
    ensures forall x :: x in a <==> x in b
  {
    forall x
      ensures x in a <==> x in b
    {
      assert x in a <==> x in multiset(a);
    }
  }

  /** A rearrangement of distinct values is distinct and has the same members. */
  lemma {:induction false} PermutationDistinct<T>(a: seq<T>, b: seq<T>)
    requires multiset(a) == multiset(b) && Distinct(a)
    ensures Distinct(b)
    ensures |a| == |b|
    ensures forall x :: x in a <==> x in b
  {
    assert |multiset(a)| == |multiset(b)|;
    SameMembers(a, b);
    forall i, j | 0 <= i < j < |b|
      ensures b[i] != b[j]
    {
      if b[i] == b[j] {
        assert b == b[..i] + [b[i]] + b[i + 1..j] + [b[j]] + b[j + 1..];
        assert multiset(a)[b[i]] >= 2;
        DistinctMultiplicity(a, b[i]);
      }
    }
  }

  lemma {:induction false} DistinctMultiplicity<T>(a: seq<T>, x: T)
    requires Distinct(a)
    ensures multiset(a)[x] == if x in a then 1 else 0
  {
    if a != [] {
      assert a == [a[0]] + a[1..];
      DistinctMultiplicity(a[1..], x);
    }
  }

  /** Distinct sequences with the same members are rearrangements of each other. */
  lemma SameMembersSameMultiset<T>(a: seq<T>, b: seq<T>)
    requires Distinct(a) && Distinct(b)
    requires forall x :: x in a <==> x in b
    ensures multiset(a) == multiset(b)
  {
    forall x
      ensures multiset(a)[x] == multiset(b)[x]
    {
      DistinctMultiplicity(a, x);
      DistinctMultiplicity(b, x);
    }
  }

  /**
   Where a character falls when strings are compared by UTF-16 code units: a character
   above U+FFFF sorts by its surrogate pair, below U+E000.
   */
  function Utf16Rank(c: char): nat {
    var n := c as int;
    if n < 0x10000 then n * 0x400
    else (0xD800 + (n - 0x10000) / 0x400) * 0x400 + (n - 0x10000) % 0x400
  }

  lemma Utf16RankInjective(a: char, b: char)
    requires Utf16Rank(a) == Utf16Rank(b)
    ensures a == b
  {
    var m, n := a as int, b as int;
    if m >= 0x10000 && n >= 0x10000 {
      SplitRank(0xD800 + (m - 0x10000) / 0x400, (m - 0x10000) % 0x400,
                0xD800 + (n - 0x10000) / 0x400, (n - 0x10000) % 0x400);
    }
  }

  lemma SplitRank(a: int, b: int, c: int, d: int)
    requires 0 <= b < 0x400 && 0 <= d < 0x400
    requires a * 0x400 + b == c * 0x400 + d
    ensures a == c && b == d
  {
  }

  /** JavaScript's `left < right` on strings. */
  predicate TextBefore(left: string, right: string) {
    if right == [] then false
    else if left == [] then true
    else if left[0] == right[0] then TextBefore(left[1..], right[1..])
    else Utf16Rank(left[0]) < Utf16Rank(right[0])
  }

  lemma {:induction false} TextBeforeTransitive(a: string, b: string, c: string)
    requires TextBefore(a, b) && TextBefore(b, c)
    ensures TextBefore(a, c)
  {
    if a != [] && b != [] && c != [] && a[0] == b[0] && b[0] == c[0] {
      TextBeforeTransitive(a[1..], b[1..], c[1..]);
    }
  }

  lemma {:induction false} TextBeforeConnected(a: string, b: string)
    ensures !TextBefore(a, a)
    ensures a == b || TextBefore(a, b) || TextBefore(b, a)
  {
    if a != [] {
      TextBeforeConnected(a[1..], a[1..]);
    }
    if a != [] && b != [] {
      if a[0] == b[0] {
        TextBeforeConnected(a[1..], b[1..]);
        assert a == [a[0]] + a[1..] && b == [b[0]] + b[1..];
      } else if Utf16Rank(a[0]) == Utf16Rank(b[0]) {
        Utf16RankInjective(a[0], b[0]);
      }
    }
  }

  lemma TextBeforeTotal()
    ensures StrictTotalOrder(TextBefore)
  {
    forall a: string, b: string, c: string | TextBefore(a, b) && TextBefore(b, c)
      ensures TextBefore(a, c)
    {
      TextBeforeTransitive(a, b, c);
    }
    forall a: string, b: string
      ensures !TextBefore(a, a) && (a == b || TextBefore(a, b) || TextBefore(b, a))
    {
      TextBeforeConnected(a, b);
    }
  }

  // ----- what that order is

  /** The UTF-16 code units of a character. */
  function CharUnits(c: char): Text {
    var n := c as int;
    if n < 0x1_0000 then [n]
    else [0xd800 + (n - 0x1_0000) / 0x400, 0xdc00 + (n - 0x1_0000) % 0x400]
  }

  function Units(s: string): Text {
    if s == "" then [] else CharUnits(s[0]) + Units(s[1..])
  }

  /** The units are those of the character with that code point. */
  lemma UnitsOfChar(c: char)
    ensures CodePoint(CharUnits(c)) == c as int && WellPaired(CharUnits(c))
    ensures |CharUnits(c)| == if c as int < 0x1_0000 then 1 else 2
  {
  }

  /** The first place where two texts differ. */
  ghost predicate DifferAt(a: Text, b: Text, k: nat) {
    k < |a| && k < |b| && a[k] != b[k] && forall i :: 0 <= i < k ==> a[i] == b[i]
  }

  /** A proper prefix comes before; otherwise the smaller number at the first place where two texts differ. */
  ghost predicate UnitsBefore(a: Text, b: Text) {
    a < b || exists k: nat :: DifferAt(a, b, k) && a[k] < b[k]
  }

  lemma SameFirst(u: Unit, a: Text, b: Text)
    ensures UnitsBefore([u] + a, [u] + b) <==> UnitsBefore(a, b)
  {
    var x, y := [u] + a, [u] + b;
    assert x[1..] == a && y[1..] == b;
    if a < b {
      assert x < y;
    } else if UnitsBefore(a, b) {
      var k: nat :| DifferAt(a, b, k) && a[k] < b[k];
      assert DifferAt(x, y, k + 1);
    }
    if x < y {
      assert forall i :: 0 <= i < |a| ==> a[i] == x[i + 1] == y[i + 1] == b[i];
      assert a < b;
    } else if UnitsBefore(x, y) {
      var k: nat :| DifferAt(x, y, k) && x[k] < y[k];
      assert k > 0;
      assert DifferAt(a, b, k - 1) by {
        assert forall i :: 0 <= i < k - 1 ==> a[i] == x[i + 1] && b[i] == y[i + 1];
      }
    }
  }

  /** Where two texts differ first, the units there decide. */
  lemma DecidedAt(a: Text, b: Text, k: nat)
    requires DifferAt(a, b, k)
    ensures UnitsBefore(a, b) <==> a[k] < b[k]
  {
    if UnitsBefore(a, b) {
      assert !(a < b);
      var j: nat :| DifferAt(a, b, j) && a[j] < b[j];
      assert j == k;
    }
  }

  lemma DecidedByChar(c: char, d: char, x: Text, y: Text)
    requires c != d
    ensures UnitsBefore(CharUnits(c) + x, CharUnits(d) + y) <==> Utf16Rank(c) < Utf16Rank(d)
  {
    var a, b := CharUnits(c) + x, CharUnits(d) + y;
    RankByUnits(c, d);
    if CharUnits(c)[0] != CharUnits(d)[0] {
      DecidedAt(a, b, 0);
    } else {
      DecidedAt(a, b, 1);
    }
  }

  /** Characters are ranked by their first unit, and pairs with the same first unit by the second. */
  lemma RankByUnits(c: char, d: char)
    requires c != d
    ensures var u, v := CharUnits(c), CharUnits(d);
            if u[0] != v[0] then Utf16Rank(c) < Utf16Rank(d) <==> u[0] < v[0]
            else |u| == |v| == 2 && u[1] != v[1] && (Utf16Rank(c) < Utf16Rank(d) <==> u[1] < v[1])
  {
  }

  /** `<` on strings compares their code units from the front. */
  lemma {:induction false} TextBeforeByUnits(a: string, b: string)
    ensures TextBefore(a, b) <==> UnitsBefore(Units(a), Units(b))
  {
    if b == "" {
    } else if a == "" {
      assert Units(b) != [] && Units(a) < Units(b);
    } else if a[0] == b[0] {
      TextBeforeByUnits(a[1..], b[1..]);
      SameChar(a[0], Units(a[1..]), Units(b[1..]));
    } else {
      DecidedByChar(a[0], b[0], Units(a[1..]), Units(b[1..]));
    }
  }

  lemma SameChar(c: char, x: Text, y: Text)
    ensures UnitsBefore(CharUnits(c) + x, CharUnits(c) + y) <==> UnitsBefore(x, y)
  {
    var u := CharUnits(c);
    if |u| == 1 {
      SameFirst(u[0], x, y);
    } else {
      SameFirst(u[1], x, y);
      SameFirst(u[0], [u[1]] + x, [u[1]] + y);
      assert u + x == [u[0]] + ([u[1]] + x) && u + y == [u[0]] + ([u[1]] + y);
    }
  }
}
