/**
  The style vector of a user: the element-wise mean of the embeddings of
  their writing samples (`calculateAverageEmbedding` in the sample handler).

  Components are exact reals. The dimension is the first vector's length;
  every vector is required to be at least that long (a shorter one makes
  the JavaScript sum `NaN`, which is not modelled).
*/
module Centroid {

  /** Every vector has at least as many components as the first one. */
  predicate Rectangular(vs: seq<seq<real>>) {
    vs != [] ==> forall k :: 0 <= k < |vs| ==> |vs[0]| <= |vs[k]|
  }

  /** Sum of component `i` over the vectors, in order. */
  function ColumnSum(vs: seq<seq<real>>, i: nat): real
    requires forall k :: 0 <= k < |vs| ==> i < |vs[k]|
  {
    if vs == [] then 0.0 else ColumnSum(vs[..|vs| - 1], i) + vs[|vs| - 1][i]
  }

  /** The mean vector, `[]` for no vectors. */
  function Average(vs: seq<seq<real>>): (avg: seq<real>)
    requires Rectangular(vs)
    ensures vs == [] ==> avg == []
    ensures vs != [] ==> |avg| == |vs[0]|
  {
    if vs == [] then []
    else seq(|vs[0]|, i requires 0 <= i < |vs[0]| => ColumnSum(vs, i) / |vs| as real)
  }

  method CalculateAverageEmbedding(embeddings: seq<seq<real>>) returns (avg: seq<real>)
    requires Rectangular(embeddings)
    ensures avg == Average(embeddings)
  {
    if |embeddings| == 0 {
      return [];
    }
    var dimensions := |embeddings[0]|;
    var avgEmbedding := new real[dimensions](_ => 0.0);
    for k := 0 to |embeddings|
      invariant forall j :: 0 <= j < dimensions ==> avgEmbedding[j] == ColumnSum(embeddings[..k], j)
    {
      var embedding := embeddings[k];
      assert embeddings[..k + 1][..k] == embeddings[..k];
      for i := 0 to dimensions
        invariant forall j :: 0 <= j < i ==> avgEmbedding[j] == ColumnSum(embeddings[..k + 1], j)
        invariant forall j :: i <= j < dimensions ==> avgEmbedding[j] == ColumnSum(embeddings[..k], j)
      {
        avgEmbedding[i] := avgEmbedding[i] + embedding[i];
      }
    }
    assert embeddings[..|embeddings|] == embeddings;
    for i := 0 to dimensions
      invariant forall j :: 0 <= j < i ==> avgEmbedding[j] == ColumnSum(embeddings, j) / |embeddings| as real
      invariant forall j :: i <= j < dimensions ==> avgEmbedding[j] == ColumnSum(embeddings, j)
    {
      avgEmbedding[i] := avgEmbedding[i] / |embeddings| as real;
    }
    avg := avgEmbedding[..];
  }

  // ------------------------------------------------------------------
  // Properties of the mean
  // ------------------------------------------------------------------

  /** The column sum of `n` copies of one vector is `n` times its component. */
  lemma {:induction false} ColumnSumOfCopies(vs: seq<seq<real>>, v: seq<real>, i: nat)
    requires i < |v|
    requires forall k :: 0 <= k < |vs| ==> vs[k] == v
    ensures ColumnSum(vs, i) == |vs| as real * v[i]
  {
    if vs != [] {
      ColumnSumOfCopies(vs[..|vs| - 1], v, i);
    }
  }

  /** Averaging copies of one vector gives that vector back. */
  lemma AverageOfCopies(vs: seq<seq<real>>, v: seq<real>)
    requires vs != []
    requires forall k :: 0 <= k < |vs| ==> vs[k] == v
    ensures Rectangular(vs) && Average(vs) == v
  {
    var avg := Average(vs);
    var n := |vs| as real;
    forall i | 0 <= i < |v| ensures avg[i] == v[i] {
      ColumnSumOfCopies(vs, v, i);
      QuotientWithin(ColumnSum(vs, i), n, v[i], v[i]);
    }
  }

  /** A column sum of values within `[lo, hi]` lies within `n·lo` and `n·hi`. */
  lemma {:induction false} ColumnSumBounds(vs: seq<seq<real>>, i: nat, lo: real, hi: real)
    requires forall k :: 0 <= k < |vs| ==> i < |vs[k]| && lo <= vs[k][i] <= hi
    ensures |vs| as real * lo <= ColumnSum(vs, i) <= |vs| as real * hi
  {
    if vs != [] {
      ColumnSumBounds(vs[..|vs| - 1], i, lo, hi);
    }
  }

  /** Each mean component lies between the least and greatest value of its column. */
  lemma AverageWithinColumn(vs: seq<seq<real>>, i: nat, lo: real, hi: real)
    requires Rectangular(vs) && vs != [] && i < |vs[0]|
    requires forall k :: 0 <= k < |vs| ==> lo <= vs[k][i] <= hi
    ensures lo <= Average(vs)[i] <= hi
  {
    ColumnSumBounds(vs, i, lo, hi);
    QuotientWithin(ColumnSum(vs, i), |vs| as real, lo, hi);
  }

  /** Dividing by a positive `n` keeps `n·lo <= s <= n·hi` as `lo <= s/n <= hi`. */
  lemma QuotientWithin(s: real, n: real, lo: real, hi: real)
    requires n > 0.0 && n * lo <= s <= n * hi
    ensures lo <= s / n <= hi
  {
    var q := s / n;
    assert q * n == s;
    assert (q - lo) * n == s - n * lo;
    assert (hi - q) * n == n * hi - s;
  }

  /** `[[1, 2], [3, 4]]` averages to `[2, 3]`. */
  lemma AverageExample()
    ensures Average([[1.0, 2.0], [3.0, 4.0]]) == [2.0, 3.0]
  {
    var vs := [[1.0, 2.0], [3.0, 4.0]];
    var none: seq<seq<real>> := [];
    assert vs[..1][..0] == none;
    assert ColumnSum(vs, 0) == 4.0;
    assert ColumnSum(vs, 1) == 6.0;
  }
}
