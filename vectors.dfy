/**
 * Face embeddings and the vector arithmetic the scripts apply to them:
 * the dot product behind cosine similarity, scaling by a norm, and the
 * element-wise mean used at enrollment. Reals stand in for numpy's
 * floats; the Euclidean norm (a square root) stays an abstract
 * function supplied by the caller.
 */
module Vectors {

  /** Length of the embeddings the face model produces (ArcFace, buffalo_l). */
  const Dim: nat := 512

  type Embedding = v: seq<real> | |v| == Dim witness seq(Dim, _ => 0.0)

  function Dot(a: seq<real>, b: seq<real>): real
    requires |a| == |b|
    decreases |a|
  {
    if |a| == 0 then 0.0 else a[0] * b[0] + Dot(a[1..], b[1..])
  }

  lemma {:induction false} DotSymmetric(a: seq<real>, b: seq<real>)
    requires |a| == |b|
    ensures Dot(a, b) == Dot(b, a)
    decreases |a|
  {
    if |a| > 0 {
      DotSymmetric(a[1..], b[1..]);
    }
  }

  function Scale(v: Embedding, c: real): (r: Embedding)
    ensures forall j :: 0 <= j < Dim ==> r[j] == c * v[j]
  {
    seq(Dim, j requires 0 <= j < Dim => c * v[j])
  }

  /** A sequence scaled element-wise by `c` has `c` times the dot product. */
  lemma {:induction false} DotScaled(a: seq<real>, s: seq<real>, b: seq<real>, c: real)
    requires |a| == |s| == |b|
    requires forall j :: 0 <= j < |a| ==> s[j] == c * a[j]
    ensures Dot(s, b) == c * Dot(a, b)
    decreases |a|
  {
    if |a| > 0 {
      DotScaled(a[1..], s[1..], b[1..], c);
      assert s[0] * b[0] == c * (a[0] * b[0]);
    }
  }

  /** Scaling a vector by `c` scales its dot product with any vector by `c`. */
  lemma DotScale(v: Embedding, c: real, w: Embedding)
    ensures Dot(Scale(v, c), w) == c * Dot(v, w)
  {
    DotScaled(v, Scale(v, c), w, c);
  }

  /** `v / norm(v)`: the vector divided by its (non-zero) norm. */
  function Normalized(norm: Embedding -> real, v: Embedding): Embedding
    requires norm(v) != 0.0
  {
    Scale(v, 1.0 / norm(v))
  }

  /** Sum of coordinate `j` over all vectors of `s`. */
  function ColumnSum(s: seq<Embedding>, j: nat): real
    requires j < Dim
    decreases |s|
  {
    if s == [] then 0.0 else s[0][j] + ColumnSum(s[1..], j)
  }

  /** `np.mean(s, axis=0)`: the element-wise mean of a non-empty list of vectors. */
  function Mean(s: seq<Embedding>): Embedding
    requires |s| > 0
  {
    seq(Dim, j requires 0 <= j < Dim => ColumnSum(s, j) / (|s| as real))
  }

  lemma {:induction false} ColumnSumAppend(a: seq<Embedding>, b: seq<Embedding>, j: nat)
    requires j < Dim
    ensures ColumnSum(a + b, j) == ColumnSum(a, j) + ColumnSum(b, j)
    decreases |a|
  {
    if a != [] {
      assert (a + b)[0] == a[0];
      assert (a + b)[1..] == a[1..] + b;
      ColumnSumAppend(a[1..], b, j);
    } else {
      assert a + b == b;
    }
  }

  /** Taking one vector out of a list takes its coordinate out of the column sum. */
  lemma ColumnSumRemove(t: seq<Embedding>, i: nat, j: nat)
    requires i < |t| && j < Dim
    ensures ColumnSum(t, j) == t[i][j] + ColumnSum(t[..i] + t[i + 1..], j)
  {
    var x := t[i];
    assert t == t[..i] + ([x] + t[i + 1..]);
    ColumnSumAppend(t[..i], [x] + t[i + 1..], j);
    ColumnSumAppend(t[..i], t[i + 1..], j);
    assert ([x] + t[i + 1..])[1..] == t[i + 1..];
  }

  lemma MultisetRemove(t: seq<Embedding>, i: nat)
    requires i < |t|
    ensures multiset(t[..i] + t[i + 1..]) == multiset(t) - multiset{t[i]}
  {
    assert t == t[..i] + [t[i]] + t[i + 1..];
  }

  /** A column sum depends only on the multiset of vectors, not on their order. */
  lemma {:induction false} ColumnSumPermutation(s: seq<Embedding>, t: seq<Embedding>, j: nat)
    requires j < Dim
    requires multiset(s) == multiset(t)
    ensures ColumnSum(s, j) == ColumnSum(t, j)
    decreases |s|
  {
    if s == [] {
      assert |t| == |multiset(t)| == 0;
    } else {
      var x := s[0];
      assert x in multiset(t) by { assert x in multiset(s); }
      var i :| 0 <= i < |t| && t[i] == x;
      var rest := t[..i] + t[i + 1..];
      MultisetRemove(t, i);
      MultisetRemove(s, 0);
      assert s[..0] + s[1..] == s[1..];
      assert multiset(s[1..]) == multiset(rest);
      ColumnSumPermutation(s[1..], rest, j);
      ColumnSumRemove(t, i, j);
      assert ColumnSum(s, j) == x[j] + ColumnSum(s[1..], j);
    }
  }

  /** The mean does not depend on the order in which embeddings were collected. */
  lemma MeanPermutation(s: seq<Embedding>, t: seq<Embedding>)
    requires |s| > 0
    requires multiset(s) == multiset(t)
    ensures |t| == |s|
    ensures Mean(s) == Mean(t)
  {
    assert |t| == |multiset(t)| == |multiset(s)| == |s|;
    forall j | 0 <= j < Dim
      ensures Mean(s)[j] == Mean(t)[j]
    {
      ColumnSumPermutation(s, t, j);
    }
  }

  /** The mean of a single embedding is that embedding. */
  lemma MeanSingleton(e: Embedding)
    ensures Mean([e]) == e
  {
    forall j | 0 <= j < Dim
      ensures Mean([e])[j] == e[j]
    {
      assert [e][1..] == [];
      assert ColumnSum([e], j) == e[j];
      assert Mean([e])[j] == ColumnSum([e], j) / 1.0;
    }
  }
}
