/** Cosine similarity of two embedding vectors (cosineSimilarity in app/api/match/route.ts),
    over exact reals. `Math.sqrt` is the parameter `sqrt`; the lemmas that need it to behave
    like a square root say so with IsRoot. */
module Cosine {

  import opened Domain

  /** The sum of `a[i] * b[i]` over every index, accumulated from index 0. */
  function Dot(a: seq<real>, b: seq<real>): real
    requires |a| == |b|
  {
    if a == [] then 0.0
    else Dot(a[..|a| - 1], b[..|b| - 1]) + a[|a| - 1] * b[|b| - 1]
  }

  /** A square root on the non-negative reals. */
  ghost predicate IsRoot(sqrt: real -> real) {
    forall x: real :: 0.0 <= x ==> 0.0 <= sqrt(x) && sqrt(x) * sqrt(x) == x
  }

  /** What the function computes: the dot product over the product of the two Euclidean norms,
      and 0 when that product is 0. Only defined on vectors of equal length. */
  function Similarity(a: seq<real>, b: seq<real>, sqrt: real -> real): real
    requires |a| == |b|
  {
    var denominator := sqrt(Dot(a, a)) * sqrt(Dot(b, b));
    if denominator == 0.0 then 0.0 else Dot(a, b) / denominator
  }

  /** The source's loop: one pass over every index, accumulating the dot product and both sums
      of squares. Vectors of different lengths throw (None) before any arithmetic. */
  method CosineSimilarity(a: seq<real>, b: seq<real>, sqrt: real -> real) returns (r: Option<real>)
    ensures r.None? <==> |a| != |b|
    ensures r.Some? ==> |a| == |b| && r.value == Similarity(a, b, sqrt)
  {
    if |a| != |b| {
      return None;
    }
    var dotProduct, normA, normB := 0.0, 0.0, 0.0;
    for i := 0 to |a|
      invariant dotProduct == Dot(a[..i], b[..i])
      invariant normA == Dot(a[..i], a[..i])
      invariant normB == Dot(b[..i], b[..i])
    {
      assert a[..i + 1][..i] == a[..i] && b[..i + 1][..i] == b[..i];
      dotProduct := dotProduct + a[i] * b[i];
      normA := normA + a[i] * a[i];
      normB := normB + b[i] * b[i];
    }
    assert a[..|a|] == a && b[..|b|] == b;
    var denominator := sqrt(normA) * sqrt(normB);
    if denominator == 0.0 {
      return Some(0.0);
    }
    return Some(dotProduct / denominator);
  }

  /** The dot product does not depend on the order of its operands. */
  lemma {:induction false} DotSymmetric(a: seq<real>, b: seq<real>)
    requires |a| == |b|
    ensures Dot(a, b) == Dot(b, a)
  {
    if a != [] {
      DotSymmetric(a[..|a| - 1], b[..|b| - 1]);
    }
  }

  /** Swapping the two vectors gives the same similarity. */
  lemma SimilaritySymmetric(a: seq<real>, b: seq<real>, sqrt: real -> real)
    requires |a| == |b|
    ensures Similarity(a, b, sqrt) == Similarity(b, a, sqrt)
  {
    DotSymmetric(a, b);
  }

  /** A sum of squares is never negative, and is zero exactly for the zero vector. */
  lemma {:induction false} SumOfSquares(a: seq<real>)
    ensures Dot(a, a) >= 0.0
    ensures Dot(a, a) == 0.0 <==> forall i :: 0 <= i < |a| ==> a[i] == 0.0
  {
    if a != [] {
      var p := a[..|a| - 1];
      var x := a[|a| - 1];
      SumOfSquares(p);
      SquareSign(x);
      assert Dot(a, a) == Dot(p, p) + Mul(x, x);
      assert forall i :: 0 <= i < |p| ==> p[i] == a[i];
      if x == 0.0 {
        assert Dot(a, a) == Dot(p, p);
      } else {
        PositiveSum(Dot(a, a), Dot(p, p), Mul(x, x));
      }
    }
  }

  /** Real multiplication behind a function, so that facts about a square stay about the square. */
  function Mul(x: real, y: real): real { x * y }

  lemma MulPositive(x: real, y: real)
    requires (0.0 < x && 0.0 < y) || (x < 0.0 && y < 0.0)
    ensures Mul(x, y) > 0.0
  {
  }

  lemma SquareSign(x: real)
    ensures Mul(x, x) >= 0.0
    ensures x != 0.0 ==> Mul(x, x) > 0.0
  {
    if x != 0.0 { MulPositive(x, x); }
  }

  lemma PositiveSum(total: real, rest: real, last: real)
    requires total == rest + last && rest >= 0.0 && last > 0.0
    ensures total > 0.0
  {
  }

  lemma DivideBySelf(n: real)
    requires n != 0.0
    ensures n / n == 1.0 && -n / n == -1.0
  {
  }

  /** The zero guard: when either sum of squares is 0, the similarity is exactly 0. */
  lemma ZeroNormSimilarity(a: seq<real>, b: seq<real>, sqrt: real -> real)
    requires |a| == |b| && IsRoot(sqrt)
    requires Dot(a, a) == 0.0 || Dot(b, b) == 0.0
    ensures Similarity(a, b, sqrt) == 0.0
  {
    RootOfZero(sqrt);
    assert sqrt(Dot(a, a)) == 0.0 || sqrt(Dot(b, b)) == 0.0;
  }

  lemma RootOfZero(sqrt: real -> real)
    requires IsRoot(sqrt)
    ensures sqrt(0.0) == 0.0
  {
    var z := sqrt(0.0);
    assert Mul(z, z) == 0.0;
    SquareSign(z);
  }

  lemma RootSquared(sqrt: real -> real, n: real)
    requires IsRoot(sqrt) && 0.0 <= n
    ensures sqrt(n) * sqrt(n) == n
  {
  }

  /** A zero vector is similar to nothing, including another zero vector. */
  lemma ZeroVectorSimilarity(a: seq<real>, b: seq<real>, sqrt: real -> real)
    requires |a| == |b| && IsRoot(sqrt)
    requires forall i :: 0 <= i < |a| ==> a[i] == 0.0
    ensures Similarity(a, b, sqrt) == 0.0 && Similarity(b, a, sqrt) == 0.0
  {
    SumOfSquares(a);
    ZeroNormSimilarity(a, b, sqrt);
    ZeroNormSimilarity(b, a, sqrt);
  }

  /** In exact arithmetic a non-zero vector is maximally similar to itself. */
  lemma SelfSimilarity(a: seq<real>, sqrt: real -> real)
    requires IsRoot(sqrt)
    requires exists i :: 0 <= i < |a| && a[i] != 0.0
    ensures Similarity(a, a, sqrt) == 1.0
  {
    var k :| 0 <= k < |a| && a[k] != 0.0;
    SumOfSquares(a);
    var n := Dot(a, a);
    assert n != 0.0;
    RootSquared(sqrt, n);
    DivideBySelf(n);
  }

  /** The vector pointing the opposite way. */
  function Negated(a: seq<real>): (r: seq<real>)
    ensures |r| == |a| && forall i :: 0 <= i < |a| ==> r[i] == -a[i]
  {
    seq(|a|, i requires 0 <= i < |a| => -a[i])
  }

  /** Negating one operand negates the dot product. */
  lemma {:induction false} DotNegated(a: seq<real>, b: seq<real>)
    requires |a| == |b|
    ensures Dot(a, Negated(b)) == -Dot(a, b)
    ensures Dot(Negated(a), Negated(b)) == Dot(a, b)
  {
    if a != [] {
      var a', b' := a[..|a| - 1], b[..|b| - 1];
      assert Negated(b)[..|b| - 1] == Negated(b');
      assert Negated(a)[..|a| - 1] == Negated(a');
      DotNegated(a', b');
    }
  }

  /** In exact arithmetic a non-zero vector and its negation have similarity -1. */
  lemma OppositeSimilarity(a: seq<real>, sqrt: real -> real)
    requires IsRoot(sqrt)
    requires exists i :: 0 <= i < |a| && a[i] != 0.0
    ensures Similarity(a, Negated(a), sqrt) == -1.0
  {
    var k :| 0 <= k < |a| && a[k] != 0.0;
    SumOfSquares(a);
    DotNegated(a, a);
    var n := Dot(a, a);
    assert n != 0.0;
    RootSquared(sqrt, n);
    var denominator := sqrt(Dot(a, a)) * sqrt(Dot(Negated(a), Negated(a)));
    assert denominator == n;
    assert Similarity(a, Negated(a), sqrt) == -n / n;
    DivideBySelf(n);
  }
}
