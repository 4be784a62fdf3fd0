/**
 Python's `sorted`: a stable sort by a total preorder, and the facts the callers rely on.
 `leq(a, b)` says that `a` may stand before `b`.
 */
module Ordering {
  import opened Common

  ghost predicate TotalPreorder<T(!new)>(leq: (T, T) -> bool) {
    && (forall a, b :: leq(a, b) || leq(b, a))
    && (forall a, b, c :: leq(a, b) && leq(b, c) ==> leq(a, c))
  }

  ghost predicate SortedBy<T>(s: seq<T>, leq: (T, T) -> bool) {
    forall i, j :: 0 <= i < j < |s| ==> leq(s[i], s[j])
  }

  /** No two different elements of `s` tie. */
  ghost predicate AntisymmetricOn<T>(s: seq<T>, leq: (T, T) -> bool) {
    forall i, j :: 0 <= i < |s| && 0 <= j < |s| && leq(s[i], s[j]) && leq(s[j], s[i]) ==> s[i] == s[j]
  }

  /** Inserts before the first element that `x` may precede, so equal elements keep their order. */
  function InsertBy<T>(x: T, s: seq<T>, leq: (T, T) -> bool): seq<T> {
    if s == [] then [x]
    else if leq(x, s[0]) then [x] + s
    else [s[0]] + InsertBy(x, s[1..], leq)
  }

  function SortBy<T>(s: seq<T>, leq: (T, T) -> bool): seq<T> {
    if s == [] then [] else InsertBy(s[0], SortBy(s[1..], leq), leq)
  }

  lemma {:induction false} InsertPermutes<T>(x: T, s: seq<T>, leq: (T, T) -> bool)
    ensures multiset(InsertBy(x, s, leq)) == multiset{x} + multiset(s)
    ensures |InsertBy(x, s, leq)| == |s| + 1
  {
    if s == [] {
    } else {
      assert s == [s[0]] + s[1..];
      if !leq(x, s[0]) {
        InsertPermutes(x, s[1..], leq);
      }
    }
  }

  lemma {:induction false} SortPermutes<T>(s: seq<T>, leq: (T, T) -> bool)
    ensures multiset(SortBy(s, leq)) == multiset(s)
    ensures |SortBy(s, leq)| == |s|
  {
    if s == [] {
    } else {
      assert s == [s[0]] + s[1..];
      SortPermutes(s[1..], leq);
      InsertPermutes(s[0], SortBy(s[1..], leq), leq);
    }
  }

  lemma {:induction false} InsertSorts<T(!new)>(x: T, s: seq<T>, leq: (T, T) -> bool)
    requires TotalPreorder(leq) && SortedBy(s, leq)
    ensures SortedBy(InsertBy(x, s, leq), leq)
  {
    if s == [] {
    } else if leq(x, s[0]) {
    } else {
      var rest := InsertBy(x, s[1..], leq);
      InsertSorts(x, s[1..], leq);
      InsertPermutes(x, s[1..], leq);
      forall j | 0 <= j < |rest|
        ensures leq(s[0], rest[j])
      {
        assert rest[j] in multiset(rest);
        assert rest[j] == x || rest[j] in s[1..];
      }
    }
  }

  lemma {:induction false} SortSorts<T(!new)>(s: seq<T>, leq: (T, T) -> bool)
    requires TotalPreorder(leq)
    ensures SortedBy(SortBy(s, leq), leq)
  {
    if s == [] {
    } else {
      SortSorts(s[1..], leq);
      InsertSorts(s[0], SortBy(s[1..], leq), leq);
    }
  }

  /** All elements that satisfy `p` tie with each other. */
  ghost predicate TiedWithin<T(!new)>(leq: (T, T) -> bool, p: T -> bool) {
    forall a, b :: p(a) && p(b) ==> leq(a, b)
  }

  lemma {:induction false} InsertKeepsTies<T(!new)>(x: T, s: seq<T>, leq: (T, T) -> bool, p: T -> bool)
    requires TiedWithin(leq, p)
    ensures Filter(InsertBy(x, s, leq), p) == (if p(x) then [x] else []) + Filter(s, p)
  {
    if s == [] {
      assert [x][1..] == [];
    } else if leq(x, s[0]) {
      FilterCons(x, s, p);
    } else {
      InsertKeepsTies(x, s[1..], leq, p);
      FilterCons(s[0], InsertBy(x, s[1..], leq), p);
    }
  }

  /** The sort is stable: elements that tie keep their order. */
  lemma {:induction false} SortKeepsTies<T(!new)>(s: seq<T>, leq: (T, T) -> bool, p: T -> bool)
    requires TiedWithin(leq, p)
    ensures Filter(SortBy(s, leq), p) == Filter(s, p)
  {
    if s != [] {
      SortKeepsTies(s[1..], leq, p);
      InsertKeepsTies(s[0], SortBy(s[1..], leq), leq, p);
    }
  }

  lemma SortedFirst<T>(a: seq<T>, b: seq<T>, leq: (T, T) -> bool)
    requires SortedBy(a, leq) && SortedBy(b, leq) && AntisymmetricOn(a, leq)
    requires multiset(a) == multiset(b) && a != [] && b != []
    ensures a[0] == b[0]
  {
    assert a[0] in multiset(b) && b[0] in multiset(a);
    var i :| 0 <= i < |b| && b[i] == a[0];
    var j :| 0 <= j < |a| && a[j] == b[0];
    if i != 0 && j != 0 {
      assert leq(a[0], a[j]) && leq(b[0], b[i]);
    }
  }

  /** Cutting a sorted sequence: no element is lost, and the front ranks above the rest. */
  lemma SortedCut<T>(s: seq<T>, n: nat, leq: (T, T) -> bool)
    requires SortedBy(s, leq) && n <= |s|
    ensures forall w, l :: w in s[..n] && l in s[n..] ==> leq(w, l)
  {
    forall w, l | w in s[..n] && l in s[n..]
      ensures leq(w, l)
    {
      var i :| 0 <= i < n && s[i] == w;
      var j :| n <= j < |s| && s[j] == l;
    }
  }

  lemma CutLosesNone<T>(s: seq<T>, n: nat)
    requires n <= |s|
    ensures multiset(s[..n]) + multiset(s[n..]) == multiset(s)
  {
    assert s == s[..n] + s[n..];
  }

  lemma SortedTail<T>(s: seq<T>, leq: (T, T) -> bool)
    requires SortedBy(s, leq) && s != []
    ensures SortedBy(s[1..], leq) && multiset(s[1..]) == multiset(s) - multiset{s[0]}
  {
    assert s == [s[0]] + s[1..];
  }

  lemma AntisymmetricTail<T>(s: seq<T>, leq: (T, T) -> bool)
    requires AntisymmetricOn(s, leq) && s != []
    ensures AntisymmetricOn(s[1..], leq)
  {
  }

  lemma ConsIsEqual<T>(a: seq<T>, b: seq<T>)
    requires a != [] && b != [] && a[0] == b[0] && a[1..] == b[1..]
    ensures a == b
  {
    assert a == [a[0]] + a[1..] && b == [b[0]] + b[1..];
  }

  /** A sorted arrangement of a multiset without ties is unique. */
  lemma {:induction false} SortedIsUnique<T>(a: seq<T>, b: seq<T>, leq: (T, T) -> bool)
    requires SortedBy(a, leq) && SortedBy(b, leq) && AntisymmetricOn(a, leq)
    requires multiset(a) == multiset(b)
    ensures a == b
    decreases |a|
  {
    assert |a| == |multiset(a)| == |multiset(b)| == |b|;
    if a != [] {
      SortedFirst(a, b, leq);
      SortedTail(a, leq);
      SortedTail(b, leq);
      AntisymmetricTail(a, leq);
      SortedIsUnique(a[1..], b[1..], leq);
      ConsIsEqual(a, b);
    }
  }

  ghost predicate Tied<T>(leq: (T, T) -> bool, a: T, b: T) {
    leq(a, b) && leq(b, a)
  }

  /** Moving b[j] out of the way when it ties with b[0] shifts only tied elements. */
  lemma RemoveTied<T(!new)>(b: seq<T>, j: nat, leq: (T, T) -> bool)
    requires TotalPreorder(leq) && SortedBy(b, leq) && j < |b| && leq(b[j], b[0])
    ensures SortedBy(RemoveAt(b, j), leq)
    ensures forall i :: 0 <= i < |b| - 1 ==> Tied(leq, RemoveAt(b, j)[i], b[i + 1])
  {
    forall i | 0 <= i < |b| - 1
      ensures Tied(leq, RemoveAt(b, j)[i], b[i + 1])
    {
      if i < j {
        assert leq(b[i], b[i + 1]);
        assert leq(b[i + 1], b[j]) && leq(b[j], b[0]) && leq(b[0], b[i]);
      }
    }
  }

  /** The first elements of two sorted arrangements of one multiset tie. */
  lemma FirstsTie<T(!new)>(a: seq<T>, b: seq<T>, leq: (T, T) -> bool) returns (j: nat)
    requires TotalPreorder(leq) && SortedBy(a, leq) && SortedBy(b, leq) && multiset(a) == multiset(b) && a != []
    ensures b != [] && Tied(leq, a[0], b[0]) && j < |b| && b[j] == a[0]
  {
    assert a[0] in multiset(b);
    j :| 0 <= j < |b| && b[j] == a[0];
    assert b[0] in multiset(a);
    var k :| 0 <= k < |a| && a[k] == b[0];
    assert leq(a[0], a[k]) && leq(b[0], b[j]);
  }

  lemma TiesAreTransitive<T(!new)>(leq: (T, T) -> bool, a: T, b: T, c: T)
    requires TotalPreorder(leq) && Tied(leq, a, b) && Tied(leq, b, c)
    ensures Tied(leq, a, c)
  {
  }

  /** Ties of the tails carry over to the wholes, where `b'` is `b` with an element tied with its first moved out. */
  lemma TiesCarryOver<T(!new)>(a: seq<T>, a': seq<T>, b': seq<T>, b: seq<T>, leq: (T, T) -> bool)
    requires TotalPreorder(leq) && |a| == |b| == |a'| + 1 == |b'| + 1 && Tied(leq, a[0], b[0])
    requires forall i :: 0 <= i < |a'| ==> a'[i] == a[i + 1]
    requires forall i :: 0 <= i < |a'| ==> Tied(leq, a'[i], b'[i])
    requires forall i :: 0 <= i < |b'| ==> Tied(leq, b'[i], b[i + 1])
    ensures forall i :: 0 <= i < |a| ==> Tied(leq, a[i], b[i])
  {
    forall i | 0 <= i < |a|
      ensures Tied(leq, a[i], b[i])
    {
      if i > 0 {
        var k := i - 1;
        assert a'[k] == a[i] && Tied(leq, b'[k], b[k + 1]);
        TiesAreTransitive(leq, a'[k], b'[k], b[i]);
      }
    }
  }

  /** Two sorted arrangements of one multiset are equal up to ties, position by position. */
  lemma {:induction false} SortedUpToTies<T(!new)>(a: seq<T>, b: seq<T>, leq: (T, T) -> bool)
    requires TotalPreorder(leq) && SortedBy(a, leq) && SortedBy(b, leq) && multiset(a) == multiset(b)
    ensures |a| == |b| && forall i :: 0 <= i < |a| ==> Tied(leq, a[i], b[i])
    decreases |a|
  {
    assert |a| == |multiset(a)| == |multiset(b)| == |b|;
    if a != [] {
      var j := FirstsTie(a, b, leq);
      var a', b' := RemoveAt(a, 0), RemoveAt(b, j);
      RemoveTied(b, j, leq);
      RemoveAtMultiset(a, 0);
      RemoveAtMultiset(b, j);
      SortedUpToTies(a', b', leq);
      TiesCarryOver(a, a', b', b, leq);
    }
  }

  /** Removing from the list an element was inserted into commutes with the insertion. */
  lemma {:induction false} InsertAfterRemove<T(!new)>(x: T, s: seq<T>, q: nat, leq: (T, T) -> bool) returns (j: nat)
    requires TotalPreorder(leq) && SortedBy(s, leq) && q < |s|
    ensures j < |InsertBy(x, s, leq)| && InsertBy(x, s, leq)[j] == s[q]
    ensures InsertBy(x, RemoveAt(s, q), leq) == RemoveAt(InsertBy(x, s, leq), j)
    decreases |s|
  {
    var t := RemoveAt(s, q);
    if leq(x, s[0]) {
      j := q + 1;
      InsertFirst(x, t, s, leq);
      assert RemoveAt([x] + s, j) == [x] + t;
    } else if q == 0 {
      j := 0;
      assert t == s[1..];
      assert RemoveAt([s[0]] + InsertBy(x, s[1..], leq), 0) == InsertBy(x, s[1..], leq);
    } else {
      var k := InsertAfterRemove(x, s[1..], q - 1, leq);
      j := k + 1;
      assert t[0] == s[0] && t[1..] == RemoveAt(s[1..], q - 1);
      RemoveLater(s[0], InsertBy(x, s[1..], leq), k);
    }
  }

  /** `x` also goes in front of what is left of a list it goes in front of. */
  lemma InsertFirst<T(!new)>(x: T, t: seq<T>, s: seq<T>, leq: (T, T) -> bool)
    requires TotalPreorder(leq) && SortedBy(s, leq) && s != [] && leq(x, s[0])
    requires t != [] ==> t[0] in s
    ensures InsertBy(x, t, leq) == [x] + t
  {
    if t != [] {
      var i :| 0 <= i < |s| && s[i] == t[0];
      assert i > 0 ==> leq(s[0], s[i]);
    }
  }

  lemma RemoveLater<T>(x: T, s: seq<T>, k: nat)
    requires k < |s|
    ensures RemoveAt([x] + s, k + 1) == [x] + RemoveAt(s, k)
  {
  }

  lemma {:induction false} InsertThenRemove<T>(x: T, s: seq<T>, leq: (T, T) -> bool) returns (j: nat)
    ensures j < |InsertBy(x, s, leq)| && InsertBy(x, s, leq)[j] == x
    ensures RemoveAt(InsertBy(x, s, leq), j) == s
  {
    if s == [] || leq(x, s[0]) {
      j := 0;
    } else {
      var k := InsertThenRemove(x, s[1..], leq);
      j := k + 1;
      assert RemoveAt(InsertBy(x, s, leq), j) == [s[0]] + RemoveAt(InsertBy(x, s[1..], leq), k);
    }
  }

  /** Sorting without one element gives the sorted list without that element. */
  lemma {:induction false} SortAfterRemove<T(!new)>(s: seq<T>, i: nat, leq: (T, T) -> bool) returns (j: nat)
    requires TotalPreorder(leq) && i < |s|
    ensures j < |SortBy(s, leq)| && SortBy(s, leq)[j] == s[i]
    ensures SortBy(RemoveAt(s, i), leq) == RemoveAt(SortBy(s, leq), j)
  {
    var rest := SortBy(s[1..], leq);
    if i == 0 {
      assert RemoveAt(s, 0) == s[1..];
      j := InsertThenRemove(s[0], rest, leq);
    } else {
      var k := SortAfterRemove(s[1..], i - 1, leq);
      assert RemoveAt(s, i)[1..] == RemoveAt(s[1..], i - 1);
      SortSorts(s[1..], leq);
      j := InsertAfterRemove(s[0], rest, k, leq);
    }
  }

  /** Lexicographic order on strings by code point, as Python compares them. */
  predicate StringLeq(a: string, b: string) {
    a == [] || (b != [] && (a[0] < b[0] || (a[0] == b[0] && StringLeq(a[1..], b[1..]))))
  }

  /** `StringLeq` is the order of Python's strings: by the first differing character, or the shorter one first. */
  lemma {:induction false} StringLeqIsLexicographic(a: string, b: string, n: nat)
    requires n <= |a| && n <= |b| && (forall i :: 0 <= i < n ==> a[i] == b[i])
    requires n < |a| && n < |b| ==> a[n] != b[n]
    ensures StringLeq(a, b) <==> n == |a| || (n < |b| && a[n] < b[n])
    decreases n
  {
    if n > 0 {
      StringLeqIsLexicographic(a[1..], b[1..], n - 1);
    }
  }

  lemma {:induction false} StringLeqTotal(a: string, b: string)
    ensures StringLeq(a, b) || StringLeq(b, a)
    ensures StringLeq(a, b) && StringLeq(b, a) ==> a == b
  {
    if a != [] && b != [] {
      StringLeqTotal(a[1..], b[1..]);
      assert a == [a[0]] + a[1..] && b == [b[0]] + b[1..];
    }
  }

  lemma {:induction false} StringLeqTransitive(a: string, b: string, c: string)
    requires StringLeq(a, b) && StringLeq(b, c)
    ensures StringLeq(a, c)
  {
    if a != [] && a[0] == b[0] && b[0] == c[0] {
      StringLeqTransitive(a[1..], b[1..], c[1..]);
    }
  }
}
