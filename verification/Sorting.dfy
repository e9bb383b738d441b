/** Array.prototype.sort: the stable sort, and the order JavaScript puts strings in. */
module Sorting {
  import opened Prelude

  type Order<!T> = (T, T) -> bool

  /** Total and transitive on the elements at hand. */
  ghost predicate TotalPreorder<T(!new)>(le: Order<T>) {
    (forall x, y :: le(x, y) || le(y, x)) &&
    (forall x, y, z :: le(x, y) && le(y, z) ==> le(x, z))
  }

  ghost predicate Sorted<T>(xs: seq<T>, le: Order<T>) {
    forall i: nat, j: nat :: i < j < |xs| ==> le(xs[i], xs[j])
  }

  /** Puts x behind the last element that may stand before it. */
  function Insert<T>(xs: seq<T>, x: T, le: Order<T>): seq<T> {
    if |xs| == 0 then [x]
    else if le(Last(xs), x) then xs + [x]
    else Insert(Init(xs), x, le) + [Last(xs)]
  }

  function Sort<T>(xs: seq<T>, le: Order<T>): seq<T> {
    if |xs| == 0 then [] else Insert(Sort(Init(xs), le), Last(xs), le)
  }

  lemma {:induction false} InsertMultiset<T>(xs: seq<T>, x: T, le: Order<T>)
    ensures multiset(Insert(xs, x, le)) == multiset(xs) + multiset{x}
  {
    if |xs| > 0 && !le(Last(xs), x) {
      InsertMultiset(Init(xs), x, le);
      assert xs == Init(xs) + [Last(xs)];
    }
  }

  lemma {:induction false} SortMultiset<T>(xs: seq<T>, le: Order<T>)
    ensures multiset(Sort(xs, le)) == multiset(xs)
  {
    if |xs| > 0 {
      SortMultiset(Init(xs), le);
      InsertMultiset(Sort(Init(xs), le), Last(xs), le);
      assert xs == Init(xs) + [Last(xs)];
    }
  }

  lemma SameMultisetSameMembers<T>(xs: seq<T>, ys: seq<T>, x: T)
    requires multiset(xs) == multiset(ys)
    ensures x in xs <==> x in ys
  {
    assert x in multiset(xs) <==> x in xs;
    assert x in multiset(ys) <==> x in ys;
  }

  /** Behind a sorted prefix, an element not below the last keeps it sorted. */
  lemma SortedSnoc<T(!new)>(xs: seq<T>, x: T, le: Order<T>)
    requires Sorted(xs, le) && forall y :: y in xs ==> le(y, x)
    ensures Sorted(xs + [x], le)
  {
  }

  lemma {:induction false} InsertSorted<T(!new)>(xs: seq<T>, x: T, le: Order<T>)
    requires TotalPreorder(le) && Sorted(xs, le)
    ensures Sorted(Insert(xs, x, le), le)
  {
    if |xs| > 0 {
      var n := |xs| - 1;
      assert forall y :: y in xs[..n] ==> le(y, xs[n]);
      if le(xs[n], x) {
        assert forall y :: y in xs ==> y == xs[n] || y in xs[..n];
        SortedSnoc(xs, x, le);
      } else {
        InsertSorted(xs[..n], x, le);
        InsertMultiset(xs[..n], x, le);
        forall y | y in Insert(xs[..n], x, le)
          ensures le(y, xs[n])
        {
          assert y in multiset(xs[..n]) + multiset{x};
          assert y == x || y in xs[..n];
        }
        SortedSnoc(Insert(xs[..n], x, le), xs[n], le);
      }
    }
  }

  lemma {:induction false} SortSorted<T(!new)>(xs: seq<T>, le: Order<T>)
    requires TotalPreorder(le)
    ensures Sorted(Sort(xs, le), le)
  {
    if |xs| > 0 {
      SortSorted(Init(xs), le);
      InsertSorted(Sort(Init(xs), le), Last(xs), le);
    }
  }

  /** No two different elements tie. */
  ghost predicate NoTies<T>(xs: seq<T>, le: Order<T>) {
    forall x, y :: x in xs && y in xs && le(x, y) && le(y, x) ==> x == y
  }

  /** Without ties, sorted arrangements of the same elements end alike. */
  lemma SameLast<T(!new)>(xs: seq<T>, ys: seq<T>, le: Order<T>)
    requires TotalPreorder(le) && Sorted(xs, le) && Sorted(ys, le)
    requires multiset(xs) == multiset(ys) && NoTies(xs, le) && |xs| > 0 && |ys| > 0
    ensures Last(xs) == Last(ys)
  {
    var x, y := Last(xs), Last(ys);
    SameMultisetSameMembers(xs, ys, x);
    SameMultisetSameMembers(xs, ys, y);
    assert le(x, y) && le(y, x);
  }

  lemma SameInit<T>(xs: seq<T>, ys: seq<T>)
    requires multiset(xs) == multiset(ys) && |xs| > 0 && |ys| > 0 && Last(xs) == Last(ys)
    ensures multiset(Init(xs)) == multiset(Init(ys))
  {
    assert xs == Init(xs) + [Last(xs)] && ys == Init(ys) + [Last(ys)];
    assert multiset(Init(xs)) == multiset(xs) - multiset{Last(xs)};
    assert multiset(Init(ys)) == multiset(ys) - multiset{Last(ys)};
  }

  lemma InitSorted<T(!new)>(xs: seq<T>, le: Order<T>)
    requires |xs| > 0 && Sorted(xs, le) && NoTies(xs, le)
    ensures Sorted(Init(xs), le) && NoTies(Init(xs), le)
  {
    assert forall x :: x in Init(xs) ==> x in xs;
  }

  /** Without ties there is one sorted arrangement. */
  lemma {:induction false} SortedUnique<T(!new)>(xs: seq<T>, ys: seq<T>, le: Order<T>)
    requires TotalPreorder(le) && Sorted(xs, le) && Sorted(ys, le)
    requires multiset(xs) == multiset(ys) && NoTies(xs, le)
    ensures xs == ys
  {
    assert |multiset(xs)| == |xs| && |multiset(ys)| == |ys|;
    if |xs| > 0 {
      SameLast(xs, ys, le);
      SameInit(xs, ys);
      InitSorted(xs, le);
      SortedUnique(Init(xs), Init(ys), le);
      assert xs == Init(xs) + [Last(xs)] && ys == Init(ys) + [Last(ys)];
    }
  }

  /** So the sorted result does not depend on the order the elements came in. */
  lemma SortIgnoresOrder<T(!new)>(xs: seq<T>, ys: seq<T>, le: Order<T>)
    requires TotalPreorder(le) && multiset(xs) == multiset(ys) && NoTies(xs, le)
    ensures Sort(xs, le) == Sort(ys, le)
  {
    SortMultiset(xs, le);
    SortMultiset(ys, le);
    SortSorted(xs, le);
    SortSorted(ys, le);
    forall x, y | x in Sort(xs, le) && y in Sort(xs, le) && le(x, y) && le(y, x)
      ensures x == y
    {
      SameMultisetSameMembers(xs, Sort(xs, le), x);
      SameMultisetSameMembers(xs, Sort(xs, le), y);
    }
    SortedUnique(Sort(xs, le), Sort(ys, le), le);
  }

  // ---------- stability ----------

  predicate Ties<T>(x: T, k: T, le: Order<T>) {
    le(x, k) && le(k, x)
  }

  /** The elements that tie with k, in their order. */
  function TiesWith<T>(xs: seq<T>, k: T, le: Order<T>): seq<T> {
    if |xs| == 0 then []
    else if Ties(Last(xs), k, le) then TiesWith(Init(xs), k, le) + [Last(xs)]
    else TiesWith(Init(xs), k, le)
  }

  lemma {:induction false} InsertIsStable<T(!new)>(xs: seq<T>, x: T, k: T, le: Order<T>)
    requires TotalPreorder(le)
    ensures TiesWith(Insert(xs, x, le), k, le) == TiesWith(xs, k, le) + if Ties(x, k, le) then [x] else []
  {
    if |xs| == 0 {
      assert Init([x]) == [];
    } else if le(Last(xs), x) {
      assert Init(xs + [x]) == xs;
    } else {
      InsertIsStable(Init(xs), x, k, le);
      assert Init(Insert(Init(xs), x, le) + [Last(xs)]) == Insert(Init(xs), x, le);
      assert Ties(x, k, le) ==> !Ties(Last(xs), k, le);
    }
  }

  /** Elements that tie keep the order they came in. */
  lemma {:induction false} SortIsStable<T(!new)>(xs: seq<T>, k: T, le: Order<T>)
    requires TotalPreorder(le)
    ensures TiesWith(Sort(xs, le), k, le) == TiesWith(xs, k, le)
  {
    if |xs| > 0 {
      SortIsStable(Init(xs), k, le);
      InsertIsStable(Sort(Init(xs), le), Last(xs), k, le);
    }
  }

  // ---------- strings ----------

  /** Position of a character when strings are compared by UTF-16 code units: surrogate pairs sort before U+E000. */
  function UnitRank(c: char): int {
    var code := c as int;
    if code < 0xE000 then code
    else if code < 0x10000 then code + 0x100000
    else code - 0x10000 + 0xE000
  }

  predicate StringLe(a: string, b: string) {
    |a| == 0 ||
    (|b| > 0 && if a[0] == b[0] then StringLe(a[1..], b[1..]) else UnitRank(a[0]) < UnitRank(b[0]))
  }

  lemma {:induction false} StringTotal(a: string, b: string)
    ensures StringLe(a, b) || StringLe(b, a)
  {
    if |a| > 0 && |b| > 0 {
      StringTotal(a[1..], b[1..]);
    }
  }

  lemma {:induction false} StringAntisymmetric(a: string, b: string)
    requires StringLe(a, b) && StringLe(b, a)
    ensures a == b
  {
    if |a| > 0 {
      StringAntisymmetric(a[1..], b[1..]);
      assert a == [a[0]] + a[1..] && b == [b[0]] + b[1..];
    }
  }

  lemma {:induction false} StringTransitive(a: string, b: string, c: string)
    requires StringLe(a, b) && StringLe(b, c)
    ensures StringLe(a, c)
  {
    if |a| > 0 && a[0] == b[0] && b[0] == c[0] {
      StringTransitive(a[1..], b[1..], c[1..]);
    }
  }

  lemma StringOrder()
    ensures TotalPreorder(StringLe)
    ensures forall a, b :: StringLe(a, b) && StringLe(b, a) ==> a == b
  {
    forall a, b
      ensures StringLe(a, b) || StringLe(b, a)
      ensures StringLe(a, b) && StringLe(b, a) ==> a == b
    {
      StringTotal(a, b);
      if StringLe(a, b) && StringLe(b, a) {
        StringAntisymmetric(a, b);
      }
    }
    forall a, b, c | StringLe(a, b) && StringLe(b, c)
      ensures StringLe(a, c)
    {
      StringTransitive(a, b, c);
    }
  }

  /** The UTF-16 code units of a character: one below U+10000, a surrogate pair from there on. */
  function CharUnits(c: char): seq<int> {
    var code := c as int;
    if code < 0x10000 then [code] else [0xD800 + (code - 0x10000) / 0x400, 0xDC00 + (code - 0x10000) % 0x400]
  }

  function Units(s: string): seq<int> {
    if |s| == 0 then [] else CharUnits(s[0]) + Units(s[1..])
  }

  /** The dictionary order of number sequences. */
  predicate LexLe(u: seq<int>, v: seq<int>) {
    |u| == 0 || (|v| > 0 && (u[0] < v[0] || (u[0] == v[0] && LexLe(u[1..], v[1..]))))
  }

  lemma LexLeStrip(x: int, u: seq<int>, v: seq<int>)
    ensures LexLe([x] + u, [x] + v) <==> LexLe(u, v)
  {
    assert ([x] + u)[1..] == u && ([x] + v)[1..] == v;
  }

  lemma LexLeSameChar(c: char, u: seq<int>, v: seq<int>)
    ensures LexLe(CharUnits(c) + u, CharUnits(c) + v) <==> LexLe(u, v)
  {
    var cu := CharUnits(c);
    if |cu| == 1 {
      LexLeStrip(cu[0], u, v);
      assert cu == [cu[0]];
    } else {
      LexLeStrip(cu[1], u, v);
      LexLeStrip(cu[0], [cu[1]] + u, [cu[1]] + v);
      assert cu + u == [cu[0]] + ([cu[1]] + u) && cu + v == [cu[0]] + ([cu[1]] + v);
    }
  }

  /** Characters outside the surrogate range, as a scalar value is. */
  lemma LexLeOtherChar(c: char, d: char, u: seq<int>, v: seq<int>)
    requires c != d
    ensures LexLe(CharUnits(c) + u, CharUnits(d) + v) <==> UnitRank(c) < UnitRank(d)
  {
    var cu, du := CharUnits(c), CharUnits(d);
    if cu[0] == du[0] {
      assert |cu| == 2 && |du| == 2;
      LexLeStrip(cu[0], [cu[1]] + u, [du[1]] + v);
      assert cu + u == [cu[0]] + ([cu[1]] + u) && du + v == [cu[0]] + ([du[1]] + v);
    } else {
      assert (cu + u)[0] == cu[0] && (du + v)[0] == du[0];
    }
  }

  /** The order strings are sorted in is the dictionary order of their UTF-16 code units. */
  lemma {:induction false} StringLeIsCodeUnitOrder(a: string, b: string)
    ensures StringLe(a, b) <==> LexLe(Units(a), Units(b))
  {
    if |a| > 0 && |b| > 0 {
      if a[0] == b[0] {
        StringLeIsCodeUnitOrder(a[1..], b[1..]);
        LexLeSameChar(a[0], Units(a[1..]), Units(b[1..]));
      } else {
        LexLeOtherChar(a[0], b[0], Units(a[1..]), Units(b[1..]));
      }
    }
  }

  /** Sorted strings ascend in that order. */
  ghost predicate AscendingUnits(xs: seq<string>) {
    forall i: nat, j: nat :: i < j < |xs| ==> LexLe(Units(xs[i]), Units(xs[j]))
  }

  lemma AscendingIsSorted(xs: seq<string>)
    ensures Sorted(xs, StringLe) <==> AscendingUnits(xs)
  {
    forall i: nat, j: nat | i < j < |xs|
      ensures StringLe(xs[i], xs[j]) <==> LexLe(Units(xs[i]), Units(xs[j]))
    {
      StringLeIsCodeUnitOrder(xs[i], xs[j]);
    }
  }

  // ---------- first in sorted order ----------

  function First<T>(xs: seq<T>, p: T -> bool): Option<T> {
    if |xs| == 0 then None
    else
      match First(Init(xs), p)
      case Some(x) => Some(x)
      case None => if p(Last(xs)) then Some(Last(xs)) else None
  }

  /** The element satisfying p that is least, the leftmost of equals. */
  function LeftmostLeast<T>(xs: seq<T>, p: T -> bool, le: Order<T>): Option<T> {
    if |xs| == 0 then None
    else
      match LeftmostLeast(Init(xs), p, le)
      case None => if p(Last(xs)) then Some(Last(xs)) else None
      case Some(x) => if p(Last(xs)) && !le(x, Last(xs)) then Some(Last(xs)) else Some(x)
  }

  lemma {:induction false} FirstOfInsert<T(!new)>(xs: seq<T>, x: T, p: T -> bool, le: Order<T>)
    requires TotalPreorder(le) && Sorted(xs, le)
    ensures First(Insert(xs, x, le), p) ==
            match First(xs, p)
            case None => if p(x) then Some(x) else None
            case Some(y) => if p(x) && !le(y, x) then Some(x) else Some(y)
    decreases |xs|
  {
    if |xs| > 0 {
      var n := |xs| - 1;
      assert Init(xs) == xs[..n];
      if le(xs[n], x) {
        assert Init(xs + [x]) == xs;
        if First(xs, p).Some? {
          FirstMember(xs, p);
        }
      } else {
        FirstOfInsert(xs[..n], x, p, le);
        assert Init(Insert(xs[..n], x, le) + [xs[n]]) == Insert(xs[..n], x, le);
      }
    } else {
      assert Init([x]) == [];
    }
  }

  lemma {:induction false} FirstMember<T>(xs: seq<T>, p: T -> bool)
    requires First(xs, p).Some?
    ensures First(xs, p).value in xs && p(First(xs, p).value)
  {
    if First(Init(xs), p).Some? {
      FirstMember(Init(xs), p);
    }
  }

  /** A stable sort puts the leftmost least first. */
  lemma {:induction false} FirstOfSort<T(!new)>(xs: seq<T>, p: T -> bool, le: Order<T>)
    requires TotalPreorder(le)
    ensures First(Sort(xs, le), p) == LeftmostLeast(xs, p, le)
  {
    if |xs| > 0 {
      FirstOfSort(Init(xs), p, le);
      SortSorted(Init(xs), le);
      FirstOfInsert(Sort(Init(xs), le), Last(xs), p, le);
    }
  }
}
