/** How the database compares text: a column's collation as an equality of characters. */
module Collation {

  type CharEq = (char, char) -> bool

  /** An equivalence under which a dot equals only a dot. */
  ghost predicate ValidCollation(eq: CharEq) {
    && (forall a :: eq(a, a))
    && (forall a, b :: eq(a, b) ==> eq(b, a))
    && (forall a, b, c :: eq(a, b) && eq(b, c) ==> eq(a, c))
    && (forall a :: eq(a, '.') ==> a == '.')
  }

  predicate SameText(eq: CharEq, a: string, b: string) {
    |a| == |b| && forall i :: 0 <= i < |a| ==> eq(a[i], b[i])
  }

  lemma SameTextSymmetric(eq: CharEq, a: string, b: string)
    requires ValidCollation(eq) && SameText(eq, a, b)
    ensures SameText(eq, b, a)
  {
  }

  lemma SameTextTransitive(eq: CharEq, a: string, b: string, c: string)
    requires ValidCollation(eq) && SameText(eq, a, b) && SameText(eq, b, c)
    ensures SameText(eq, a, c)
  {
    forall i | 0 <= i < |a|
      ensures eq(a[i], c[i])
    {
      assert eq(a[i], b[i]) && eq(b[i], c[i]);
    }
  }

  /** Text equal to a concatenation splits the same way. */
  lemma SameConcat(eq: CharEq, a: string, b: string, x: string, y: string)
    requires |a| == |x|
    ensures SameText(eq, a + b, x + y) <==> SameText(eq, a, x) && SameText(eq, b, y)
  {
    if SameText(eq, a + b, x + y) {
      forall i | 0 <= i < |a|
        ensures eq(a[i], x[i])
      {
        assert (a + b)[i] == a[i] && (x + y)[i] == x[i];
      }
      forall i | 0 <= i < |b|
        ensures eq(b[i], y[i])
      {
        assert (a + b)[|a| + i] == b[i] && (x + y)[|a| + i] == y[i];
      }
    }
  }
}
