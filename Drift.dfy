/**
  Drift scoring of generated text against a user's style vector: cosine
  similarity with a length check and a zero-magnitude guard, a three-tier
  drift level and a display percentage (the drift-detect handler).

  Vectors are sequences of exact reals. `Math.sqrt` is not modelled: the
  similarity takes a square-root function as a parameter, and the
  properties hold for any function that returns the non-negative root.
*/
module Drift {

  datatype Result<T> = Success(value: T) | Failure(error: string)

  /** The message `calculateCosineSimilarity` throws. */
  const LengthMismatch: string := "Vectors must have the same length"

  // ------------------------------------------------------------------
  // Cosine similarity
  // ------------------------------------------------------------------

  /** Σ a[i]·b[i] */
  function Dot(a: seq<real>, b: seq<real>): real
    requires |a| == |b|
  {
    if a == [] then 0.0 else Dot(a[..|a| - 1], b[..|b| - 1]) + a[|a| - 1] * b[|b| - 1]
  }

  /** `sqrt` returns the non-negative square root of every non-negative real. */
  ghost predicate IsSqrt(sqrt: real -> real) {
    forall x :: x >= 0.0 ==> sqrt(x) >= 0.0 && sqrt(x) * sqrt(x) == x
  }

  /** `calculateCosineSimilarity(vecA, vecB)`, or the error it throws. */
  function Cosine(a: seq<real>, b: seq<real>, sqrt: real -> real): Result<real> {
    if |a| != |b| then Failure(LengthMismatch)
    else
      var magnitudeA := sqrt(Dot(a, a));
      var magnitudeB := sqrt(Dot(b, b));
      if magnitudeA == 0.0 || magnitudeB == 0.0 then Success(0.0)
      else Success(Dot(a, b) / (magnitudeA * magnitudeB))
  }

  method CalculateCosineSimilarity(vecA: seq<real>, vecB: seq<real>, sqrt: real -> real) returns (r: Result<real>)
    ensures r == Cosine(vecA, vecB, sqrt)
  {
    if |vecA| != |vecB| {
      return Failure(LengthMismatch);
    }
    var dotProduct := 0.0;
    var magnitudeA := 0.0;
    var magnitudeB := 0.0;
    for i := 0 to |vecA|
      invariant dotProduct == Dot(vecA[..i], vecB[..i])
      invariant magnitudeA == Dot(vecA[..i], vecA[..i])
      invariant magnitudeB == Dot(vecB[..i], vecB[..i])
    {
      assert vecA[..i + 1][..i] == vecA[..i] && vecB[..i + 1][..i] == vecB[..i];
      dotProduct := dotProduct + vecA[i] * vecB[i];
      magnitudeA := magnitudeA + vecA[i] * vecA[i];
      magnitudeB := magnitudeB + vecB[i] * vecB[i];
    }
    assert vecA[..|vecA|] == vecA && vecB[..|vecB|] == vecB;
    assert dotProduct == Dot(vecA, vecB);
    magnitudeA := sqrt(magnitudeA);
    magnitudeB := sqrt(magnitudeB);
    assert magnitudeA == sqrt(Dot(vecA, vecA)) && magnitudeB == sqrt(Dot(vecB, vecB));
    if magnitudeA == 0.0 || magnitudeB == 0.0 {
      return Success(0.0);
    }
    QuotientOfMagnitudes(vecA, vecB, sqrt, dotProduct, magnitudeA, magnitudeB);
    assert Product(magnitudeA, magnitudeB) != 0.0;
    return Success(dotProduct / (magnitudeA * magnitudeB));
  }

  /** With both magnitudes non-zero, the score is the quotient the source computes. */
  lemma QuotientOfMagnitudes(a: seq<real>, b: seq<real>, sqrt: real -> real, d: real, ma: real, mb: real)
    requires |a| == |b| && d == Dot(a, b) && ma == sqrt(Dot(a, a)) && mb == sqrt(Dot(b, b))
    requires ma != 0.0 && mb != 0.0
    ensures Cosine(a, b, sqrt) == Success(d / Product(ma, mb))
  {
    DividedScore(a, b, sqrt);
  }

  // ------------------------------------------------------------------
  // Properties of the similarity
  // ------------------------------------------------------------------

  /** A score exists exactly when the lengths agree. */
  lemma ScoreIffSameLength(a: seq<real>, b: seq<real>, sqrt: real -> real)
    ensures Cosine(a, b, sqrt).Success? <==> |a| == |b|
    ensures Cosine(a, b, sqrt).Failure? ==> Cosine(a, b, sqrt).error == LengthMismatch
  {
  }

  lemma {:induction false} DotSymmetric(a: seq<real>, b: seq<real>)
    requires |a| == |b|
    ensures Dot(a, b) == Dot(b, a)
  {
    if a != [] {
      DotSymmetric(a[..|a| - 1], b[..|b| - 1]);
    }
  }

  /** A vector's squared magnitude is non-negative, and zero exactly when
      every component is zero. */
  lemma {:induction false} SquaredMagnitude(a: seq<real>)
    ensures Dot(a, a) >= 0.0
    ensures Dot(a, a) == 0.0 <==> forall i :: 0 <= i < |a| ==> a[i] == 0.0
  {
    if a != [] {
      var n := |a| - 1;
      var init, x := a[..n], a[n];
      SquaredMagnitude(init);
      assert Dot(a, a) == Dot(init, init) + Square(x);
      if forall i :: 0 <= i < |a| ==> a[i] == 0.0 {
        assert forall i :: 0 <= i < n ==> init[i] == a[i];
      } else {
        var i :| 0 <= i < |a| && a[i] != 0.0;
        if i < n {
          assert init[i] != 0.0;
        }
      }
    }
  }

  /** The magnitude `sqrt(Σ a[i]²)` is zero exactly for the zero vector. */
  lemma ZeroMagnitude(a: seq<real>, sqrt: real -> real)
    requires IsSqrt(sqrt)
    ensures sqrt(Dot(a, a)) >= 0.0
    ensures sqrt(Dot(a, a)) == 0.0 <==> forall i :: 0 <= i < |a| ==> a[i] == 0.0
  {
    SquaredMagnitude(a);
    var m := sqrt(Dot(a, a));
    assert m >= 0.0 && Square(m) == Dot(a, a);
  }

  /** A vector with a non-zero component has a positive magnitude. */
  lemma PositiveMagnitude(a: seq<real>, sqrt: real -> real)
    requires IsSqrt(sqrt)
    requires exists i :: 0 <= i < |a| && a[i] != 0.0
    ensures sqrt(Dot(a, a)) > 0.0
  {
    ZeroMagnitude(a, sqrt);
  }

  /** The similarity is 0, with no division, when either vector is all zeros
      (two empty vectors included). */
  lemma ZeroVectorScoresZero(a: seq<real>, b: seq<real>, sqrt: real -> real)
    requires IsSqrt(sqrt) && |a| == |b|
    requires (forall i :: 0 <= i < |a| ==> a[i] == 0.0) || (forall i :: 0 <= i < |b| ==> b[i] == 0.0)
    ensures Cosine(a, b, sqrt) == Success(0.0)
  {
    ZeroMagnitude(a, sqrt);
    ZeroMagnitude(b, sqrt);
  }

  /** For two non-zero vectors the similarity is the dot product over the
      product of the magnitudes, which are positive. */
  lemma NonZeroScore(a: seq<real>, b: seq<real>, sqrt: real -> real)
    requires IsSqrt(sqrt) && |a| == |b|
    requires exists i :: 0 <= i < |a| && a[i] != 0.0
    requires exists i :: 0 <= i < |b| && b[i] != 0.0
    ensures sqrt(Dot(a, a)) > 0.0 && sqrt(Dot(b, b)) > 0.0
    ensures Cosine(a, b, sqrt) == Success(Dot(a, b) / Product(sqrt(Dot(a, a)), sqrt(Dot(b, b))))
  {
    PositiveMagnitude(a, sqrt);
    PositiveMagnitude(b, sqrt);
    DividedScore(a, b, sqrt);
  }

  lemma DividedScore(a: seq<real>, b: seq<real>, sqrt: real -> real)
    requires |a| == |b| && sqrt(Dot(a, a)) != 0.0 && sqrt(Dot(b, b)) != 0.0
    ensures Cosine(a, b, sqrt) == Success(Dot(a, b) / Product(sqrt(Dot(a, a)), sqrt(Dot(b, b))))
  {
  }

  /** The similarity is symmetric in its two arguments. */
  lemma Symmetric(a: seq<real>, b: seq<real>, sqrt: real -> real)
    ensures Cosine(a, b, sqrt) == Cosine(b, a, sqrt)
  {
    if |a| == |b| {
      DotSymmetric(a, b);
      var ma, mb := sqrt(Dot(a, a)), sqrt(Dot(b, b));
      assert Product(ma, mb) == Product(mb, ma);
    }
  }

  /** The sign of the similarity is the sign of the dot product. */
  lemma Sign(a: seq<real>, b: seq<real>, sqrt: real -> real)
    requires IsSqrt(sqrt) && |a| == |b|
    requires exists i :: 0 <= i < |a| && a[i] != 0.0
    requires exists i :: 0 <= i < |b| && b[i] != 0.0
    ensures Cosine(a, b, sqrt).value > 0.0 <==> Dot(a, b) > 0.0
    ensures Cosine(a, b, sqrt).value == 0.0 <==> Dot(a, b) == 0.0
    ensures Cosine(a, b, sqrt).value < 0.0 <==> Dot(a, b) < 0.0
  {
    NonZeroScore(a, b, sqrt);
    QuotientScore(a, b, sqrt);
  }

  lemma QuotientScore(a: seq<real>, b: seq<real>, sqrt: real -> real)
    requires |a| == |b| && sqrt(Dot(a, a)) > 0.0 && sqrt(Dot(b, b)) > 0.0
    ensures Product(sqrt(Dot(a, a)), sqrt(Dot(b, b))) > 0.0
    ensures Cosine(a, b, sqrt) == Success(Quotient(Dot(a, b), Product(sqrt(Dot(a, a)), sqrt(Dot(b, b)))))
  {
    DividedScore(a, b, sqrt);
  }

  /** Σ (s·a[i] - t·b[i])², which is never negative. */
  ghost function SquaredDistance(a: seq<real>, b: seq<real>, s: real, t: real): (r: real)
    requires |a| == |b|
    ensures r >= 0.0
  {
    if a == [] then 0.0
    else SquaredDistance(a[..|a| - 1], b[..|b| - 1], s, t) + Square(s * a[|a| - 1] - t * b[|b| - 1])
  }

  /** s²·A - 2st·D + t²·B */
  ghost function Poly(s: real, t: real, A: real, D: real, B: real): real {
    s * s * A - 2.0 * s * t * D + t * t * B
  }

  /** The squared distance expanded: s²·Σa[i]² - 2st·Σa[i]·b[i] + t²·Σb[i]². */
  lemma {:induction false} SquaredDistanceExpanded(a: seq<real>, b: seq<real>, s: real, t: real)
    requires |a| == |b|
    ensures SquaredDistance(a, b, s, t) == Poly(s, t, Dot(a, a), Dot(a, b), Dot(b, b))
  {
    if a != [] {
      SquaredDistanceExpanded(a[..|a| - 1], b[..|b| - 1], s, t);
      assert SquareExpanded(s, t, a[|a| - 1], b[|b| - 1]) == Square(s * a[|a| - 1] - t * b[|b| - 1]);
      PolySum(s, t, Dot(a[..|a| - 1], a[..|a| - 1]), Dot(a[..|a| - 1], b[..|b| - 1]), Dot(b[..|b| - 1], b[..|b| - 1]),
        a[|a| - 1] * a[|a| - 1], a[|a| - 1] * b[|b| - 1], b[|b| - 1] * b[|b| - 1]);
    }
  }

  /** Cauchy–Schwarz: (Σ a[i]·b[i])² ≤ Σ a[i]² · Σ b[i]². */
  lemma CauchySchwarz(a: seq<real>, b: seq<real>)
    requires |a| == |b|
    ensures Dot(a, b) * Dot(a, b) <= Dot(a, a) * Dot(b, b)
  {
    SquaredMagnitude(a);
    SquaredMagnitude(b);
    if Dot(b, b) == 0.0 {
      DotWithZero(a, b);
      assert Square(Dot(a, b)) == 0.0 && Product(Dot(a, a), Dot(b, b)) == 0.0;
    } else {
      SquaredDistanceExpanded(a, b, Dot(b, b), Dot(a, b));
      assert SquaredDistance(a, b, Dot(b, b), Dot(a, b)) >= 0.0;
      var gram := Gram(Dot(a, a), Dot(b, b), Dot(a, b), Dot(a, a) * Dot(b, b) - Dot(a, b) * Dot(a, b));
      assert gram == Poly(Dot(b, b), Dot(a, b), Dot(a, a), Dot(a, b), Dot(b, b));
      assert gram >= 0.0;
    }
  }

  lemma {:induction false} DotWithZero(a: seq<real>, b: seq<real>)
    requires |a| == |b|
    requires forall i :: 0 <= i < |b| ==> b[i] == 0.0
    ensures Dot(a, b) == 0.0
  {
    if a != [] {
      var n := |b| - 1;
      assert forall i :: 0 <= i < n ==> b[..n][i] == b[i];
      DotWithZero(a[..n], b[..n]);
      assert Product(a[n], b[n]) == 0.0;
    }
  }

  /** Every similarity lies in [-1, 1]. */
  lemma ScoreBounds(a: seq<real>, b: seq<real>, sqrt: real -> real)
    requires IsSqrt(sqrt) && |a| == |b|
    ensures -1.0 <= Cosine(a, b, sqrt).value <= 1.0
  {
    var A, B, D := Dot(a, a), Dot(b, b), Dot(a, b);
    SquaredMagnitude(a);
    SquaredMagnitude(b);
    var ma, mb := sqrt(A), sqrt(B);
    assert ma >= 0.0 && Square(ma) == A;
    assert mb >= 0.0 && Square(mb) == B;
    if ma != 0.0 && mb != 0.0 {
      var m := Product(ma, mb);
      assert Square(m) == A * B;
      CauchySchwarz(a, b);
      assert Within(D, m);
      assert Cosine(a, b, sqrt).value == Quotient(D, m);
    }
  }

  // ------------------------------------------------------------------
  // Real arithmetic, stated as function postconditions so that the
  // solver applies them to the caller's own terms
  // ------------------------------------------------------------------

  ghost function Product(x: real, y: real): (p: real)
    ensures p == x * y && p == y * x
    ensures x > 0.0 && y > 0.0 ==> p > 0.0
    ensures x < 0.0 && y < 0.0 ==> p > 0.0
    ensures x > 0.0 && y < 0.0 ==> p < 0.0
    ensures x == 0.0 || y == 0.0 ==> p == 0.0
    ensures x != 0.0 && y != 0.0 ==> p != 0.0
  {
    x * y
  }

  ghost function Square(x: real): (sq: real)
    ensures sq == x * x && sq >= 0.0
    ensures sq == 0.0 <==> x == 0.0
  {
    Product(x, x)
  }

  /** `(s·x - t·y)²` expanded. */
  ghost function SquareExpanded(s: real, t: real, x: real, y: real): (r: real)
    ensures r == Square(s * x - t * y) && r == Poly(s, t, x * x, x * y, y * y)
  {
    Square(s * x - t * y)
  }

  /** `Poly` is linear in its last three arguments. */
  lemma PolySum(s: real, t: real, A1: real, D1: real, B1: real, A2: real, D2: real, B2: real)
    ensures Poly(s, t, A1 + A2, D1 + D2, B1 + B2) == Poly(s, t, A1, D1, B1) + Poly(s, t, A2, D2, B2)
  {
  }

  /** `Poly(B, D, A, D, B)` factored as `B·(A·B - D²)`. */
  ghost function Gram(A: real, B: real, D: real, X: real): (r: real)
    requires X == A * B - D * D
    ensures r == Poly(B, D, A, D, B) && r == Product(B, X)
  {
    Poly(B, D, A, D, B)
  }

  /** `d / m` for positive `m`: same sign as `d`, within [-1, 1] when `d` is within [-m, m]. */
  ghost function Quotient(d: real, m: real): (q: real)
    requires m > 0.0
    ensures q == d / m
    ensures q > 0.0 <==> d > 0.0
    ensures q == 0.0 <==> d == 0.0
    ensures q < 0.0 <==> d < 0.0
    ensures -m <= d <= m ==> -1.0 <= q <= 1.0
  {
    var q := d / m;
    assert Product(q, m) == d;
    assert Product(q - 1.0, m) == d - m;
    assert Product(q + 1.0, m) == d + m;
    q
  }

  /** From d² ≤ m² and m > 0: -m ≤ d ≤ m. */
  ghost predicate Within(d: real, m: real)
    requires m > 0.0
    ensures Square(d) <= Square(m) ==> Within(d, m)
  {
    assert Product(d - m, d + m) == Square(d) - Square(m);
    -m <= d <= m
  }

  // ------------------------------------------------------------------
  // Worked examples
  // ------------------------------------------------------------------

  lemma SqrtOfOne(sqrt: real -> real)
    requires IsSqrt(sqrt)
    ensures sqrt(1.0) == 1.0
  {
    var s := sqrt(1.0);
    assert s >= 0.0 && Square(s) == 1.0;
    assert Product(s - 1.0, s + 1.0) == Square(s) - 1.0;
  }

  /** `[1, 0]` against itself, against `[0, 1]` and against `[-1, 0]`
      scores 1, 0 and -1; `[0, 0]` against `[1, 1]` scores 0. */
  lemma Examples(sqrt: real -> real)
    requires IsSqrt(sqrt)
    ensures Cosine([1.0, 0.0], [1.0, 0.0], sqrt) == Success(1.0)
    ensures Cosine([1.0, 0.0], [0.0, 1.0], sqrt) == Success(0.0)
    ensures Cosine([1.0, 0.0], [-1.0, 0.0], sqrt) == Success(-1.0)
    ensures Cosine([0.0, 0.0], [1.0, 1.0], sqrt) == Success(0.0)
  {
    SqrtOfOne(sqrt);
    var x, y, z := [1.0, 0.0], [0.0, 1.0], [-1.0, 0.0];
    assert x[..1] == [1.0] && y[..1] == [0.0] && z[..1] == [-1.0];
    assert Dot(x, x) == 1.0 && Dot(y, y) == 1.0 && Dot(z, z) == 1.0;
    assert Dot(x, y) == 0.0 && Dot(x, z) == -1.0;
    ZeroVectorScoresZero([0.0, 0.0], [1.0, 1.0], sqrt);
  }

  // ------------------------------------------------------------------
  // Drift level and percentage
  // ------------------------------------------------------------------

  datatype DriftLevel = Low | Medium | High

  /** Score ≥ 0.85 is low drift, 0.75 ≤ score < 0.85 medium, anything
      lower high; both boundaries belong to the better tier. */
  function LevelOf(score: real): (level: DriftLevel)
    ensures level == Low <==> score >= 0.85
    ensures level == Medium <==> 0.75 <= score < 0.85
    ensures level == High <==> score < 0.75
  {
    if score >= 0.85 then Low else if score >= 0.75 then Medium else High
  }

  function Severity(level: DriftLevel): nat {
    match level
    case Low => 0
    case Medium => 1
    case High => 2
  }

  /** A higher score never yields a worse tier. */
  lemma LevelMonotone(s: real, t: real)
    requires s <= t
    ensures Severity(LevelOf(t)) <= Severity(LevelOf(s))
  {
  }

  /** `Math.round(score * 100)`: the integer nearest to the percentage,
      halves rounded up. */
  function Percentage(score: real): (p: int)
    ensures p as real - 0.5 <= score * 100.0 < p as real + 0.5
  {
    (score * 100.0 + 0.5).Floor
  }

  /** What the handler returns: the unclamped score, its tier and its percentage. */
  datatype DriftReport = DriftReport(driftScore: real, driftLevel: DriftLevel, similarityPercentage: int)

  function Report(score: real): (r: DriftReport)
    ensures r.driftScore == score
  {
    DriftReport(score, LevelOf(score), Percentage(score))
  }

  /** The handler's computation from the two vectors: the error propagates,
      otherwise the report of the similarity. */
  function DetectDrift(generated: seq<real>, style: seq<real>, sqrt: real -> real): (r: Result<DriftReport>)
    ensures r.Success? <==> |generated| == |style|
    ensures r.Failure? ==> r.error == LengthMismatch
    ensures r.Success? ==> r.value.driftScore == Cosine(generated, style, sqrt).value
  {
    match Cosine(generated, style, sqrt)
    case Failure(e) => Failure(e)
    case Success(score) => Success(Report(score))
  }

  /** The percentage of any similarity lies in [-100, 100]. */
  lemma PercentageBounds(generated: seq<real>, style: seq<real>, sqrt: real -> real)
    requires IsSqrt(sqrt) && |generated| == |style|
    ensures DetectDrift(generated, style, sqrt).Success?
    ensures -100 <= DetectDrift(generated, style, sqrt).value.similarityPercentage <= 100
  {
    ScoreBounds(generated, style, sqrt);
  }
}
