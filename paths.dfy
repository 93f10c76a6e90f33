/**
 Nesting of slash-separated file-system paths, as filepath.Walk produces them
 below its root: filepath.Join makes a child entry's path from its clean
 directory path, a separator and the child's name.
 */
module Paths {

  /** `p` lies strictly inside directory `q`: `q` followed by a separator is a prefix of `p`. */
  predicate Under(p: string, q: string)
  {
    |q| < |p| && p[..|q|] == q && p[|q|] == '/'
  }

  /** `p` is `q` itself or lies inside it. */
  predicate AtOrUnder(p: string, q: string)
  {
    p == q || Under(p, q)
  }

  /** Neither path is, or lies inside, the other. */
  predicate Apart(p: string, q: string)
  {
    !AtOrUnder(p, q) && !AtOrUnder(q, p)
  }

  /** Nesting is transitive. */
  lemma AtOrUnderTransitive(a: string, b: string, c: string)
    requires AtOrUnder(a, b) && AtOrUnder(b, c)
    ensures AtOrUnder(a, c)
  {
    if a != b && b != c {
      assert a[..|c|] == a[..|b|][..|c|];
      assert a[|c|] == b[|c|];
    }
  }

  /** Two directories that both contain the same path are themselves nested one in the other. */
  lemma CommonDescendant(x: string, a: string, b: string)
    requires AtOrUnder(x, a) && AtOrUnder(x, b)
    ensures AtOrUnder(a, b) || AtOrUnder(b, a)
  {
    if x != a && x != b {
      if |a| == |b| {
        assert a == x[..|a|] == b;
      } else if |a| < |b| {
        assert b[..|a|] == x[..|b|][..|a|];
        assert b[|a|] == x[|a|];
        assert Under(b, a);
      } else {
        assert a[..|b|] == x[..|a|][..|b|];
        assert a[|b|] == x[|b|];
        assert Under(a, b);
      }
    }
  }

  /** Whatever lies inside two apart directories is itself apart. */
  lemma ApartDescendants(a: string, b: string, x: string, y: string)
    requires Apart(a, b) && AtOrUnder(x, a) && AtOrUnder(y, b)
    ensures Apart(x, y)
  {
    if AtOrUnder(x, y) {
      AtOrUnderTransitive(x, y, b);
      CommonDescendant(x, a, b);
    }
    if AtOrUnder(y, x) {
      AtOrUnderTransitive(y, x, a);
      CommonDescendant(y, a, b);
    }
  }
}
