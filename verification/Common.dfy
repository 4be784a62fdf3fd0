/** Small datatypes and sequence operations shared by every module. */
module Common {

  datatype Option<+T> = None | Some(value: T)

  /** The elements of `s` that satisfy `p`, in order. */
  function Filter<T(!new)>(s: seq<T>, p: T -> bool): (r: seq<T>)
    ensures forall x :: x in r <==> x in s && p(x)
    ensures |r| <= |s|
  {
    if s == [] then []
    else if p(s[0]) then [s[0]] + Filter(s[1..], p)
    else Filter(s[1..], p)
  }

  function Map<T, U>(f: T -> U, s: seq<T>): (r: seq<U>)
    ensures |r| == |s|
    ensures forall i :: 0 <= i < |s| ==> r[i] == f(s[i])
  {
    seq(|s|, i requires 0 <= i < |s| => f(s[i]))
  }

  function Min(a: nat, b: nat): nat {
    if a <= b then a else b
  }

  /** The first `n` elements, or all of them when there are fewer. */
  function Take<T>(s: seq<T>, n: nat): seq<T> {
    s[..Min(n, |s|)]
  }

  function RemoveAt<T>(s: seq<T>, i: nat): seq<T>
    requires i < |s|
  {
    s[..i] + s[i + 1..]
  }

  ghost predicate Distinct<T>(s: seq<T>) {
    forall i, j :: 0 <= i < j < |s| ==> s[i] != s[j]
  }

  lemma ConcatAssociates<T>(a: seq<T>, b: seq<T>, c: seq<T>)
    ensures (a + b) + c == a + (b + c)
  {
  }

  lemma FilterCons<T(!new)>(x: T, s: seq<T>, p: T -> bool)
    ensures Filter([x] + s, p) == (if p(x) then [x] + Filter(s, p) else Filter(s, p))
  {
    assert ([x] + s)[1..] == s;
  }

  lemma {:induction false} FilterConcat<T(!new)>(a: seq<T>, b: seq<T>, p: T -> bool)
    ensures Filter(a + b, p) == Filter(a, p) + Filter(b, p)
  {
    if a == [] {
      assert a + b == b;
    } else {
      var x, rest := a[0], a[1..];
      FilterConcat(rest, b, p);
      assert a == [x] + rest;
      ConcatAssociates([x], rest, b);
      FilterCons(x, rest, p);
      FilterCons(x, rest + b, p);
      ConcatAssociates([x], Filter(rest, p), Filter(b, p));
    }
  }

  lemma {:induction false} FilterSame<T(!new)>(s: seq<T>, p: T -> bool, q: T -> bool)
    requires forall x :: x in s ==> (p(x) <==> q(x))
    ensures Filter(s, p) == Filter(s, q)
  {
    if s != [] {
      assert s == [s[0]] + s[1..];
      FilterSame(s[1..], p, q);
    }
  }

  lemma {:induction false} FilterIsPart<T(!new)>(s: seq<T>, p: T -> bool)
    ensures multiset(Filter(s, p)) <= multiset(s)
  {
    if s != [] {
      assert s == [s[0]] + s[1..];
      FilterIsPart(s[1..], p);
    }
  }

  lemma FilterOneMore<T(!new)>(s: seq<T>, i: nat, p: T -> bool)
    requires i < |s|
    ensures Filter(s[..i + 1], p) == Filter(s[..i], p) + if p(s[i]) then [s[i]] else []
  {
    assert s[..i + 1] == s[..i] + [s[i]];
    FilterConcat(s[..i], [s[i]], p);
  }

  lemma OneMoreTimes(n: nat, m: nat)
    ensures (n + 1) * m == n * m + m
  {
  }

  lemma MultisetInsert<T>(a: seq<T>, x: T, b: seq<T>)
    ensures multiset(a + [x] + b) == multiset(a + b) + multiset{x}
  {
    assert multiset(a + [x] + b) == multiset(a + [x]) + multiset(b);
    assert multiset(a + [x]) == multiset(a) + multiset{x};
    assert multiset(a + b) == multiset(a) + multiset(b);
  }

  lemma RemoveAtMultiset<T>(s: seq<T>, i: nat)
    requires i < |s|
    ensures multiset(s) == multiset(RemoveAt(s, i)) + multiset{s[i]}
    ensures multiset(RemoveAt(s, i)) == multiset(s) - multiset{s[i]}
  {
    assert s == s[..i] + [s[i]] + s[i + 1..];
    MultisetInsert(s[..i], s[i], s[i + 1..]);
  }

  /** Removing position j from a list, seen through its first `n` elements. */
  lemma TakeAfterRemove<T>(s: seq<T>, j: nat, n: nat)
    requires j < |s|
    ensures j >= n ==> Take(RemoveAt(s, j), n) == Take(s, n)
    ensures j < n ==> Take(RemoveAt(s, j), n) == RemoveAt(Take(s, n), j) + if n < |s| then [s[n]] else []
  {
    var r := RemoveAt(s, j);
    if j >= n {
      assert Take(r, n) == r[..n] && Take(s, n) == s[..n];
      assert r[..n] == s[..n];
    } else if n < |s| {
      assert Take(r, n) == r[..n] && Take(s, n) == s[..n];
      assert r[..n] == s[..j] + s[j + 1..n + 1];
      assert s[j + 1..n + 1] == s[..n][j + 1..] + [s[n]];
      assert s[..n][..j] == s[..j];
    } else {
      assert Take(r, n) == r && Take(s, n) == s;
    }
  }

  lemma MapRemoveAt<T, U>(f: T -> U, s: seq<T>, j: nat)
    requires j < |s|
    ensures multiset(Map(f, s)) == multiset(Map(f, RemoveAt(s, j))) + multiset{f(s[j])}
  {
    assert Map(f, RemoveAt(s, j)) == RemoveAt(Map(f, s), j);
    RemoveAtMultiset(Map(f, s), j);
  }

  lemma {:induction false} MapMultiset<T, U>(f: T -> U, a: seq<T>, b: seq<T>)
    requires multiset(a) == multiset(b)
    ensures multiset(Map(f, a)) == multiset(Map(f, b))
    decreases |a|
  {
    if a == [] {
      assert |b| == |multiset(b)| == 0;
    } else {
      assert a[0] in multiset(b);
      var j :| 0 <= j < |b| && b[j] == a[0];
      RemoveAtMultiset(a, 0);
      RemoveAtMultiset(b, j);
      MapMultiset(f, RemoveAt(a, 0), RemoveAt(b, j));
      MapRemoveAt(f, a, 0);
      MapRemoveAt(f, b, j);
    }
  }

  lemma MapCons<T, U>(f: T -> U, x: T, s: seq<T>)
    ensures Map(f, [x] + s) == [f(x)] + Map(f, s)
  {
  }

  /** Filtering one image of `s` is the lifted filtering of another, when the test sees no difference. */
  lemma {:induction false} FilterOfMap<A(!new), B(!new)>(s: seq<A>, f: A -> B, g: A -> B, w: B -> bool, lift: B -> B)
    requires forall x :: x in s ==> w(f(x)) == w(g(x)) && lift(f(x)) == g(x)
    ensures Filter(Map(g, s), w) == Map(lift, Filter(Map(f, s), w))
  {
    if s != [] {
      var x, rest := s[0], s[1..];
      assert s == [x] + rest && x in s;
      FilterOfMap(rest, f, g, w, lift);
      MapCons(f, x, rest);
      MapCons(g, x, rest);
      FilterCons(f(x), Map(f, rest), w);
      FilterCons(g(x), Map(g, rest), w);
      if w(f(x)) {
        MapCons(lift, f(x), Filter(Map(f, rest), w));
      }
    }
  }

  lemma InMap<T, U>(f: T -> U, s: seq<T>, y: U) returns (x: T)
    requires y in Map(f, s)
    ensures x in s && f(x) == y
  {
    var k :| 0 <= k < |s| && Map(f, s)[k] == y;
    x := s[k];
  }
}
