/**
 * Detection fusion for one image: the detector runs on three
 * preprocessing variants, the detections are pooled in order, and
 * boxes that overlap an already accepted box by more than 70% of the
 * smaller area are dropped, first seen wins.
 */
module Detection {
  import opened Vectors
  import opened Boxes

  /** A face reported by the detector: its box and its (normed) embedding. */
  datatype Face = Face(box: Box, embedding: Embedding)

  /** What one preprocessing pass yields: its faces, or nothing when the pass raised. */
  datatype PassResult = Detected(faces: seq<Face>) | PassFailed

  /** The variants tried, in order: original, enhanced, histogram-equalised. */
  const PreprocessingPasses: nat := 3

  type PassResults = s: seq<PassResult> | |s| == PreprocessingPasses
    witness [PassFailed, PassFailed, PassFailed]

  function FacesOf(p: PassResult): seq<Face>
  {
    if p.Detected? then p.faces else []
  }

  /** The pooled detections: the faces of every successful pass, pass by pass. */
  function Pooled(passes: seq<PassResult>): seq<Face>
    decreases |passes|
  {
    if passes == [] then [] else Pooled(passes[..|passes| - 1]) + FacesOf(passes[|passes| - 1])
  }

  /** A face is pooled exactly when some successful pass reported it. */
  lemma {:induction false} PooledMembership(passes: seq<PassResult>, f: Face)
    ensures f in Pooled(passes) <==> exists p :: 0 <= p < |passes| && passes[p].Detected? && f in passes[p].faces
    decreases |passes|
  {
    if passes != [] {
      var n := |passes| - 1;
      PooledMembership(passes[..n], f);
      assert forall p :: 0 <= p < n ==> passes[..n][p] == passes[p];
    }
  }

  /** Lines 67-87: `all_faces.extend(faces)` for each pass that found faces. */
  method PoolDetections(passes: seq<PassResult>) returns (allFaces: seq<Face>)
    ensures allFaces == Pooled(passes)
  {
    allFaces := [];
    for p := 0 to |passes|
      invariant allFaces == Pooled(passes[..p])
    {
      assert passes[..p + 1][..p] == passes[..p];
      match passes[p]
      case Detected(faces) =>
        allFaces := allFaces + faces;
      case PassFailed =>
    }
    assert passes[..|passes|] == passes;
  }

  /** `f` overlaps some box in `kept`. */
  predicate DuplicateOfKept(f: Face, kept: seq<Face>)
  {
    exists k :: 0 <= k < |kept| && IsDuplicate(f.box, kept[k].box)
  }

  /** The deduplicated faces: each face is kept unless it overlaps a face kept before it. */
  function Dedup(s: seq<Face>): seq<Face>
    decreases |s|
  {
    if s == [] then []
    else
      var u := Dedup(s[..|s| - 1]);
      if DuplicateOfKept(s[|s| - 1], u) then u else u + [s[|s| - 1]]
  }

  /** The positions in `s` of the faces Dedup keeps. */
  function KeptIndices(s: seq<Face>): (r: seq<nat>)
    ensures |r| == |Dedup(s)|
    decreases |s|
  {
    if s == [] then []
    else
      var n := |s| - 1;
      if DuplicateOfKept(s[n], Dedup(s[..n])) then KeptIndices(s[..n]) else KeptIndices(s[..n]) + [n]
  }

  /**
   * Dedup is a selection from `s`: KeptIndices are strictly increasing
   * positions of `s`, and Dedup lists the faces at those positions.
   */
  lemma {:induction false} DedupIsSubsequence(s: seq<Face>)
    ensures forall k :: 0 <= k < |Dedup(s)| ==> KeptIndices(s)[k] < |s| && Dedup(s)[k] == s[KeptIndices(s)[k]]
    ensures forall j, k :: 0 <= j < k < |Dedup(s)| ==> KeptIndices(s)[j] < KeptIndices(s)[k]
    decreases |s|
  {
    if s != [] {
      var n := |s| - 1;
      DedupIsSubsequence(s[..n]);
      assert forall i :: 0 <= i < n ==> s[..n][i] == s[i];
    }
  }

  /** Running Dedup on a prefix of the pool gives a prefix of the result. */
  lemma {:induction false} DedupPrefix(s: seq<Face>, i: nat)
    requires i <= |s|
    ensures |Dedup(s[..i])| <= |Dedup(s)|
    ensures Dedup(s[..i]) == Dedup(s)[..|Dedup(s[..i])|]
    ensures KeptIndices(s[..i]) == KeptIndices(s)[..|Dedup(s[..i])|]
    decreases |s| - i
  {
    DedupIsSubsequence(s[..i]);
    DedupIsSubsequence(s);
    if i < |s| {
      var n := |s| - 1;
      assert s[..n][..i] == s[..i];
      DedupPrefix(s[..n], i);
      DedupIsSubsequence(s[..n]);
    } else {
      assert s[..i] == s;
    }
  }

  /** The first pooled detection is always kept. */
  lemma DedupKeepsFirst(s: seq<Face>)
    requires |s| > 0
    ensures |Dedup(s)| > 0 && Dedup(s)[0] == s[0]
    ensures KeptIndices(s)[0] == 0
  {
    DedupPrefix(s, 1);
    assert s[..1][..0] == [];
    assert Dedup(s[..1]) == [s[0]];
    DedupIsSubsequence(s);
  }

  /** No two kept faces are duplicates of each other, in either order. */
  lemma {:induction false} DedupSeparated(s: seq<Face>)
    ensures forall j, k :: 0 <= j < |Dedup(s)| && 0 <= k < |Dedup(s)| && j != k ==>
      !IsDuplicate(Dedup(s)[j].box, Dedup(s)[k].box)
    decreases |s|
  {
    if s != [] {
      var n := |s| - 1;
      var u := Dedup(s[..n]);
      DedupSeparated(s[..n]);
      if !DuplicateOfKept(s[n], u) {
        var r := u + [s[n]];
        forall j, k | 0 <= j < |r| && 0 <= k < |r| && j != k
          ensures !IsDuplicate(r[j].box, r[k].box)
        {
          if k == n || k == |u| {
            if k == |u| {
              DuplicateSymmetric(r[j].box, r[k].box);
              assert !IsDuplicate(s[n].box, u[j].box);
            }
          }
          if j == |u| {
            assert !IsDuplicate(s[n].box, u[k].box);
          }
        }
      }
    }
  }

  /**
   * The faces kept from the first `i` pooled faces are the first
   * |Dedup(s[..i])| kept ones; every later kept face sits at position `i` or beyond.
   */
  lemma {:induction false} KeptIndicesSplit(s: seq<Face>, i: nat)
    requires i <= |s|
    ensures |Dedup(s[..i])| <= |Dedup(s)|
    ensures forall k :: 0 <= k < |Dedup(s[..i])| ==> KeptIndices(s)[k] < i
    ensures |Dedup(s[..i])| < |Dedup(s)| ==> KeptIndices(s)[|Dedup(s[..i])|] >= i
    decreases |s|
  {
    DedupPrefix(s, i);
    DedupIsSubsequence(s[..i]);
    var m := |Dedup(s[..i])|;
    assert forall k :: 0 <= k < m ==> KeptIndices(s)[k] == KeptIndices(s[..i])[k];
    if i < |s| {
      var n := |s| - 1;
      assert s[..n][..i] == s[..i];
      KeptIndicesSplit(s[..n], i);
    } else {
      assert s[..i] == s;
    }
  }

  /** A kept face from before position `i` is also among the faces kept from `s[..i]`. */
  lemma KeptBefore(s: seq<Face>, i: nat, k: nat)
    requires i <= |s| && k < |Dedup(s)| && KeptIndices(s)[k] < i
    ensures k < |Dedup(s[..i])| && Dedup(s)[k] == Dedup(s[..i])[k]
  {
    var m := |Dedup(s[..i])|;
    KeptIndicesSplit(s, i);
    DedupPrefix(s, i);
    DedupIsSubsequence(s);
  }

  /** If position `i` is kept, the face there overlaps none kept before it. */
  lemma KeptNotDuplicate(s: seq<Face>, i: nat, q: nat)
    requires i < |s| && q < |Dedup(s)| && KeptIndices(s)[q] == i
    ensures !DuplicateOfKept(s[i], Dedup(s[..i]))
  {
    var pre := s[..i + 1];
    assert pre[..i] == s[..i];
    var m := |Dedup(s[..i])|;
    KeptIndicesSplit(s, i);
    KeptBefore(s, i + 1, q);
    assert m <= q < |Dedup(pre)|;
  }

  /** A face that overlaps one kept before it is dropped, and that earlier face is its witness. */
  lemma DedupDrops(s: seq<Face>, i: nat)
    requires i < |s| && DuplicateOfKept(s[i], Dedup(s[..i]))
    ensures i !in KeptIndices(s)
    ensures exists k :: 0 <= k < |Dedup(s)| && KeptIndices(s)[k] < i && IsDuplicate(s[i].box, Dedup(s)[k].box)
  {
    var u := Dedup(s[..i]);
    var k :| 0 <= k < |u| && IsDuplicate(s[i].box, u[k].box);
    DedupPrefix(s, i);
    KeptIndicesSplit(s, i);
    assert Dedup(s)[k] == u[k];
    if i in KeptIndices(s) {
      var q :| 0 <= q < |KeptIndices(s)| && KeptIndices(s)[q] == i;
      KeptNotDuplicate(s, i, q);
    }
  }

  /** A face that overlaps no face kept before it is kept. */
  lemma DedupKeeps(s: seq<Face>, i: nat)
    requires i < |s| && !DuplicateOfKept(s[i], Dedup(s[..i]))
    ensures i in KeptIndices(s)
    ensures forall k :: 0 <= k < |Dedup(s)| && KeptIndices(s)[k] < i ==> !IsDuplicate(s[i].box, Dedup(s)[k].box)
  {
    var pre := s[..i + 1];
    assert pre[..i] == s[..i];
    var m := |Dedup(s[..i])|;
    assert KeptIndices(pre) == KeptIndices(s[..i]) + [i];
    assert |KeptIndices(pre)| == m + 1 && KeptIndices(pre)[m] == i;
    DedupPrefix(s, i + 1);
    assert KeptIndices(s)[..m + 1][m] == i;
    forall k | 0 <= k < |Dedup(s)| && KeptIndices(s)[k] < i
      ensures !IsDuplicate(s[i].box, Dedup(s)[k].box)
    {
      KeptBefore(s, i, k);
    }
  }

  /**
   * A pooled face is kept exactly when no face kept before it (at an
   * earlier pooled position) overlaps it; so every dropped face has a
   * kept witness that precedes it.
   */
  lemma DedupCharacterization(s: seq<Face>, i: nat)
    requires i < |s|
    ensures i in KeptIndices(s) <==>
      !exists k :: 0 <= k < |Dedup(s)| && KeptIndices(s)[k] < i && IsDuplicate(s[i].box, Dedup(s)[k].box)
  {
    if DuplicateOfKept(s[i], Dedup(s[..i])) {
      DedupDrops(s, i);
    } else {
      DedupKeeps(s, i);
    }
  }

  /** Lines 89-110: the `unique_faces` loop with its inner `break`. */
  method Deduplicate(pooled: seq<Face>) returns (unique: seq<Face>)
    ensures unique == Dedup(pooled)
  {
    unique := [];
    for i := 0 to |pooled|
      invariant unique == Dedup(pooled[..i])
    {
      var face := pooled[i];
      var isDuplicate := false;
      var k := 0;
      while k < |unique|
        invariant 0 <= k <= |unique|
        invariant forall m :: 0 <= m < k ==> !IsDuplicate(face.box, unique[m].box)
        invariant !isDuplicate
      {
        if IsDuplicate(face.box, unique[k].box) {
          isDuplicate := true;
          break;
        }
        k := k + 1;
      }
      assert pooled[..i + 1][..i] == pooled[..i];
      assert isDuplicate <==> DuplicateOfKept(face, unique);
      if !isDuplicate {
        unique := unique + [face];
      }
    }
    assert pooled[..|pooled|] == pooled;
  }
}
