/**
  Strings as the library compares them, and ordered insertion.

  `StrCmp` is the zero-terminated comparison of xmlstring.c; `Insert` is the ordered
  insertion of list.c, which skips every element strictly below the new one and places the
  new one in front of the rest.
 */
module Ordering {

  datatype Option<+T> = None | Some(value: T)

  /** The unsigned char of the libraries' byte strings. */
  type Byte = b: int | 0 <= b < 256

  /** xmlStrcmp: the difference at the first position where the strings differ. */
  function StrCmp(a: string, b: string): int {
    if a == [] then (if b == [] then 0 else -1)
    else if b == [] then 1
    else if a[0] != b[0] then a[0] as int - b[0] as int
    else StrCmp(a[1..], b[1..])
  }

  predicate StrLess(a: string, b: string) {
    StrCmp(a, b) < 0
  }

  /**
    The order of dictionaries: where the strings part, the first one ends or has the lower
    character. For strings in UTF-8 the order of the bytes is that of the code points.
   */
  predicate LexLess(a: string, b: string) {
    exists k :: 0 <= k <= |a| && k < |b| && a[..k] == b[..k] && (k == |a| || a[k] < b[k])
  }

  /** The comparison computes that order. */
  lemma {:induction false} StrLessIff(a: string, b: string)
    ensures StrLess(a, b) <==> LexLess(a, b)
  {
    if b == [] {
    } else if a == [] {
      assert a[..0] == b[..0];
    } else if a[0] != b[0] {
      assert a[..0] == b[..0];
      forall k | 0 < k <= |a| && k < |b| ensures a[..k] != b[..k] {
        assert a[..k][0] == a[0] && b[..k][0] == b[0];
      }
    } else {
      StrLessIff(a[1..], b[1..]);
      LexTail(a, b);
    }
  }

  lemma LexTail(a: string, b: string)
    requires a != [] && b != [] && a[0] == b[0]
    ensures LexLess(a, b) <==> LexLess(a[1..], b[1..])
  {
    if LexLess(a, b) {
      var k :| 0 <= k <= |a| && k < |b| && a[..k] == b[..k] && (k == |a| || a[k] < b[k]);
      assert a[1..][..k - 1] == a[..k][1..] && b[1..][..k - 1] == b[..k][1..];
    }
    if LexLess(a[1..], b[1..]) {
      var k :| 0 <= k <= |a[1..]| && k < |b[1..]| && a[1..][..k] == b[1..][..k] &&
        (k == |a[1..]| || a[1..][k] < b[1..][k]);
      assert a[..k + 1] == [a[0]] + a[1..][..k] && b[..k + 1] == [b[0]] + b[1..][..k];
    }
  }

  lemma {:induction false} StrCmpAntisymmetric(a: string, b: string)
    ensures StrCmp(a, b) == 0 <==> a == b
    ensures StrLess(a, b) <==> StrCmp(b, a) > 0
  {
    if a != [] && b != [] && a[0] == b[0] {
      StrCmpAntisymmetric(a[1..], b[1..]);
      assert a == [a[0]] + a[1..] && b == [b[0]] + b[1..];
    }
  }

  lemma {:induction false} StrLessTransitive(a: string, b: string, c: string)
    requires StrLess(a, b) && StrLess(b, c)
    ensures StrLess(a, c)
  {
    if a != [] && b != [] && c != [] && a[0] == b[0] == c[0] {
      StrLessTransitive(a[1..], b[1..], c[1..]);
    }
  }

  /** xmlListInsert, for the order whose strict part is `before`. */
  function Insert<T(!new)>(l: seq<T>, x: T, before: (T, T) -> bool): (r: seq<T>)
    ensures |r| == |l| + 1
    ensures forall y :: y in r <==> y in l || y == x
  {
    assert l != [] ==> l == [l[0]] + l[1..];
    if l != [] && before(l[0], x) then [l[0]] + Insert(l[1..], x, before) else [x] + l
  }

  /** The new element goes in front of the first that is not below it. */
  lemma {:induction false} InsertPlace<T(!new)>(l: seq<T>, x: T, before: (T, T) -> bool) returns (k: nat)
    ensures k <= |l| && Insert(l, x, before) == l[..k] + [x] + l[k..]
    ensures (forall i :: 0 <= i < k ==> before(l[i], x)) && (k < |l| ==> !before(l[k], x))
  {
    hide Insert;
    k := 0;
    if l != [] && before(l[0], x) {
      var t := l[1..];
      k := InsertPlace(t, x, before);
      InsertStep(l, x, before);
      assert l[..k + 1] == [l[0]] + t[..k] && l[k + 1..] == t[k..];
      assert [l[0]] + (t[..k] + [x] + t[k..]) == [l[0]] + t[..k] + [x] + t[k..];
      assert forall i :: 0 < i < k + 1 ==> l[i] == t[i - 1];
      k := k + 1;
    } else {
      if l != [] { InsertStep(l, x, before); } else { InsertFirst(x, before); }
      assert l[..0] == [] && l[0..] == l;
    }
  }

  lemma InsertFirst<T(!new)>(x: T, before: (T, T) -> bool)
    ensures Insert([], x, before) == [x]
  {
  }

  lemma InsertStep<T(!new)>(l: seq<T>, x: T, before: (T, T) -> bool)
    requires l != []
    ensures Insert(l, x, before) == if before(l[0], x) then [l[0]] + Insert(l[1..], x, before) else [x] + l
  {
  }

  function InsertAll<T(!new)>(l: seq<T>, xs: seq<T>, before: (T, T) -> bool): seq<T>
    decreases xs
  {
    if xs == [] then l else InsertAll(Insert(l, xs[0], before), xs[1..], before)
  }

  ghost predicate Sorted<T>(l: seq<T>, before: (T, T) -> bool) {
    forall i, j :: 0 <= i < j < |l| ==> before(l[i], l[j])
  }

  ghost predicate StrictTotalOn<T>(s: set<T>, before: (T, T) -> bool) {
    && (forall a :: a in s ==> !before(a, a))
    && (forall a, b :: a in s && b in s && a != b ==> before(a, b) || before(b, a))
    && (forall a, b, c :: a in s && b in s && c in s && before(a, b) && before(b, c) ==> before(a, c))
  }

  ghost predicate Distinct<T>(l: seq<T>) {
    forall i, j :: 0 <= i < j < |l| ==> l[i] != l[j]
  }

  ghost predicate Within<T>(l: seq<T>, s: set<T>) {
    forall x :: x in l ==> x in s
  }

  /** Ordered insertion of a new element into an ordered list gives an ordered list. */
  lemma {:induction false} InsertSorted<T(!new)>(l: seq<T>, x: T, s: set<T>, before: (T, T) -> bool)
    requires StrictTotalOn(s, before) && Within(l, s) && x in s && x !in l
    requires Sorted(l, before)
    ensures Sorted(Insert(l, x, before), before)
  {
    if l != [] && before(l[0], x) {
      var t := l[1..];
      InsertSorted(t, x, s, before);
      var r := Insert(t, x, before);
      forall i | 0 <= i < |r| ensures before(l[0], r[i]) {
        assert r[i] in r;
        if r[i] in t {
          var j :| 0 <= j < |t| && t[j] == r[i];
          assert before(l[0], l[j + 1]);
        }
      }
    }
  }

  /** An ordered list is determined by the set of its elements. */
  lemma {:induction false} SortedUnique<T>(l1: seq<T>, l2: seq<T>, s: set<T>, before: (T, T) -> bool)
    requires StrictTotalOn(s, before) && Within(l1, s) && Within(l2, s)
    requires Sorted(l1, before) && Sorted(l2, before)
    requires forall x :: x in l1 <==> x in l2
    ensures l1 == l2
  {
    assert l1 != [] ==> l1[0] in l1;
    assert l2 != [] ==> l2[0] in l2;
    if l1 != [] && l2 != [] {
      HeadsAgree(l1, l2, s, before);
      forall x ensures x in l1[1..] <==> x in l2[1..] {
        TailMembers(l1, x, s, before);
        TailMembers(l2, x, s, before);
      }
      SortedUnique(l1[1..], l2[1..], s, before);
      assert l1 == [l1[0]] + l1[1..] && l2 == [l2[0]] + l2[1..];
    }
  }

  lemma HeadsAgree<T>(l1: seq<T>, l2: seq<T>, s: set<T>, before: (T, T) -> bool)
    requires StrictTotalOn(s, before) && Within(l1, s) && Within(l2, s)
    requires Sorted(l1, before) && Sorted(l2, before)
    requires forall x :: x in l1 <==> x in l2
    requires l1 != [] && l2 != []
    ensures l1[0] == l2[0]
  {
    var a, b := l1[0], l2[0];
    assert a in l2 && b in l1;
    var i :| 0 <= i < |l2| && l2[i] == a;
    var j :| 0 <= j < |l1| && l1[j] == b;
  }

  lemma TailMembers<T>(l: seq<T>, x: T, s: set<T>, before: (T, T) -> bool)
    requires StrictTotalOn(s, before) && Within(l, s) && Sorted(l, before) && l != []
    ensures x in l[1..] <==> x in l && x != l[0]
  {
    assert l == [l[0]] + l[1..];
    if x in l[1..] {
      var i :| 0 <= i < |l[1..]| && l[1..][i] == x;
      assert l[i + 1] == x;
    }
  }

  /** Inserting distinct elements one by one sorts them. */
  lemma {:induction false} InsertAllSorted<T(!new)>(l: seq<T>, xs: seq<T>, s: set<T>, before: (T, T) -> bool)
    requires StrictTotalOn(s, before) && Within(l, s) && Within(xs, s)
    requires Distinct(xs) && (forall x :: x in xs ==> x !in l)
    requires Sorted(l, before)
    ensures Sorted(InsertAll(l, xs, before), before)
    ensures forall y :: y in InsertAll(l, xs, before) <==> y in l || y in xs
    decreases xs
  {
    if xs != [] {
      var l' := Insert(l, xs[0], before);
      InsertSorted(l, xs[0], s, before);
      forall x | x in xs[1..] ensures x !in l' {
        var i :| 0 <= i < |xs[1..]| && xs[1..][i] == x;
        assert xs[i + 1] == x;
        assert xs[0] != xs[i + 1];
      }
      assert xs == [xs[0]] + xs[1..];
      assert xs[0] in xs;
      InsertAllSorted(l', xs[1..], s, before);
    }
  }
}
