/**
 * Greedy no-reuse identity matching for the unique faces of one image:
 * each face, in order, takes the unused gallery identity of highest
 * cosine similarity above the threshold; a matched identity is not
 * offered to later faces of the same image.
 */
module Matching {
  import opened Results
  import opened Vectors
  import opened Boxes
  import opened Detection
  import opened Gallery

  /** `confidence_threshold` when the caller does not pass one. */
  const DefaultThreshold: real := 0.45

  /**
   * `cosine_similarity(a, b)`: the dot product over the product of the
   * norms. None when that product is zero: numpy then yields nan, and
   * nan compares greater than nothing.
   */
  function Cosine(norm: Embedding -> real, a: Embedding, b: Embedding): Option<real>
  {
    var d := norm(a) * norm(b);
    if d == 0.0 then None else Some(Dot(a, b) / d)
  }

  lemma CosineSymmetric(norm: Embedding -> real, a: Embedding, b: Embedding)
    ensures Cosine(norm, a, b) == Cosine(norm, b, a)
  {
    DotSymmetric(a, b);
  }

  lemma DivSelf(x: real)
    requires x > 0.0
    ensures x / x == 1.0
  {
  }

  /**
   * A non-zero vector has similarity 1 with itself, for a norm whose
   * square is the vector's dot product with itself (the Euclidean norm).
   */
  lemma CosineSelf(norm: Embedding -> real, a: Embedding)
    requires Dot(a, a) > 0.0 && norm(a) * norm(a) == Dot(a, a)
    ensures Cosine(norm, a, a) == Some(1.0)
  {
    DivSelf(Dot(a, a));
  }

  /** One gallery entry as seen by the scan: its key and its similarity to the face. */
  datatype Candidate = Candidate(key: string, similarity: Option<real>)

  /** The similarity of a (normalised) face embedding to every gallery entry, in gallery order. */
  function Candidates(norm: Embedding -> real, unit: Embedding, g: Gallery): (r: seq<Candidate>)
    ensures |r| == |g|
    ensures forall i :: 0 <= i < |g| ==> r[i] == Candidate(g[i].key, Cosine(norm, unit, g[i].vec))
  {
    seq(|g|, i requires 0 <= i < |g| => Candidate(g[i].key, Cosine(norm, unit, g[i].vec)))
  }

  /** A candidate the scan may pick: above the threshold, above 0.0, and not yet used in this image. */
  predicate Eligible(c: Candidate, threshold: real, used: set<string>)
  {
    c.similarity.Some? && c.similarity.value > threshold && c.similarity.value > 0.0 && c.key !in used
  }

  /** The state of `best_match`/`best_similarity`: nothing yet, or the position, key and similarity chosen. */
  datatype Best = NoMatch | Match(index: nat, key: string, similarity: real)

  /** `best_similarity`, which starts at 0.0. */
  function Confidence(b: Best): real
  {
    if b.Match? then b.similarity else 0.0
  }

  /**
   * The outcome of scanning `cands` in order, replacing the current best
   * only by a strictly greater similarity that is above the threshold
   * and belongs to an unused key.
   */
  function BestIn(cands: seq<Candidate>, threshold: real, used: set<string>): Best
    decreases |cands|
  {
    if cands == [] then NoMatch
    else
      var n := |cands| - 1;
      var prev := BestIn(cands[..n], threshold, used);
      var c := cands[n];
      if c.similarity.Some? && c.similarity.value > Confidence(prev)
         && c.similarity.value > threshold && c.key !in used
      then Match(n, c.key, c.similarity.value)
      else prev
  }

  /**
   * The scan finds nothing exactly when no candidate is eligible, and
   * then reports 0.0; otherwise it picks an eligible candidate of
   * maximal similarity, the first one in gallery order among equals.
   */
  lemma {:induction false} BestInIsFirstMaximum(cands: seq<Candidate>, threshold: real, used: set<string>)
    ensures BestIn(cands, threshold, used).NoMatch? <==>
      forall i :: 0 <= i < |cands| ==> !Eligible(cands[i], threshold, used)
    ensures BestIn(cands, threshold, used).NoMatch? ==> Confidence(BestIn(cands, threshold, used)) == 0.0
    ensures BestIn(cands, threshold, used).Match? ==>
      var b := BestIn(cands, threshold, used);
      && b.index < |cands|
      && Eligible(cands[b.index], threshold, used)
      && b.key == cands[b.index].key
      && b.similarity == cands[b.index].similarity.value
      && (forall i :: 0 <= i < b.index && Eligible(cands[i], threshold, used) ==> cands[i].similarity.value < b.similarity)
      && (forall i :: b.index < i < |cands| && Eligible(cands[i], threshold, used) ==> cands[i].similarity.value <= b.similarity)
    decreases |cands|
  {
    if cands != [] {
      var n := |cands| - 1;
      BestInIsFirstMaximum(cands[..n], threshold, used);
      assert forall i :: 0 <= i < n ==> cands[..n][i] == cands[i];
    }
  }

  /** Lines 130-145: the scan over `known_faces.items()` for one face. */
  method FindBestMatch(unit: Embedding, g: Gallery, norm: Embedding -> real, threshold: real, used: set<string>)
    returns (bestMatch: Option<string>, bestSimilarity: real)
    ensures var b := BestIn(Candidates(norm, unit, g), threshold, used);
      bestMatch == (if b.Match? then Some(b.key) else None) && bestSimilarity == Confidence(b)
  {
    ghost var cands := Candidates(norm, unit, g);
    bestMatch := None;
    bestSimilarity := 0.0;
    for k := 0 to |g|
      invariant var b := BestIn(cands[..k], threshold, used);
        bestMatch == (if b.Match? then Some(b.key) else None) && bestSimilarity == Confidence(b)
    {
      assert cands[..k + 1][..k] == cands[..k];
      var similarity := Cosine(norm, unit, g[k].vec);
      if similarity.Some? && similarity.value > bestSimilarity && similarity.value > threshold
         && g[k].key !in used
      {
        bestMatch := Some(g[k].key);
        bestSimilarity := similarity.value;
      }
    }
    assert cands[..|g|] == cands;
  }

  /** One element of the output: `imageIndex`, `faceIndex`, `bbox`, `confidence`, `studentId`. */
  datatype DetectionRecord = DetectionRecord(
    imageIndex: nat, faceIndex: nat, bbox: IntBox, confidence: real, studentId: Option<string>)

  /** `best_match if best_match else None`: an empty key is falsy in the source's test. */
  function StudentId(b: Best): Option<string>
  {
    if b.Match? && b.key != "" then Some(b.key) else None
  }

  /** The scan's outcome for face `i` given the identities already used in the image. */
  function Decide(faces: seq<Face>, g: Gallery, norm: Embedding -> real, threshold: real, i: nat, used: set<string>): Best
    requires i < |faces| && norm(faces[i].embedding) > 0.0
  {
    BestIn(Candidates(norm, Normalized(norm, faces[i].embedding), g), threshold, used)
  }

  /**
   * The records for faces `i..` of one image, given the identities
   * already used: faces whose embedding has zero norm are skipped, every
   * other face yields one record, and a matched identity is added to the
   * used set for the faces after it.
   */
  function MatchFrom(faces: seq<Face>, g: Gallery, norm: Embedding -> real, threshold: real,
                     imageIndex: nat, i: nat, used: set<string>): seq<DetectionRecord>
    requires i <= |faces|
    decreases |faces| - i
  {
    if i == |faces| then []
    else if !(norm(faces[i].embedding) > 0.0) then
      MatchFrom(faces, g, norm, threshold, imageIndex, i + 1, used)
    else
      var b := Decide(faces, g, norm, threshold, i, used);
      var id := StudentId(b);
      [DetectionRecord(imageIndex, i, ToIntBox(faces[i].box), Confidence(b), id)]
      + MatchFrom(faces, g, norm, threshold, imageIndex, i + 1, if id.Some? then used + {id.value} else used)
  }

  /** Lines 114-164: the per-face loop with the `recognized_in_image` set. */
  method MatchUniqueFaces(uniqueFaces: seq<Face>, g: Gallery, norm: Embedding -> real, threshold: real, imageIndex: nat)
    returns (detections: seq<DetectionRecord>)
    ensures detections == MatchFrom(uniqueFaces, g, norm, threshold, imageIndex, 0, {})
  {
    detections := [];
    var recognizedInImage: set<string> := {};
    for faceIdx := 0 to |uniqueFaces|
      invariant detections + MatchFrom(uniqueFaces, g, norm, threshold, imageIndex, faceIdx, recognizedInImage)
                == MatchFrom(uniqueFaces, g, norm, threshold, imageIndex, 0, {})
    {
      var face := uniqueFaces[faceIdx];
      var bbox := ToIntBox(face.box);
      if !(norm(face.embedding) > 0.0) {
        continue;
      }
      var embedding := Normalized(norm, face.embedding);
      var bestMatch, bestSimilarity := FindBestMatch(embedding, g, norm, threshold, recognizedInImage);
      var studentId := if bestMatch.Some? && bestMatch.value != "" then bestMatch else None;
      detections := detections + [DetectionRecord(imageIndex, faceIdx, bbox, bestSimilarity, studentId)];
      if studentId.Some? {
        recognizedInImage := recognizedInImage + {studentId.value};
      }
    }
  }

  /** The identities named by a list of records. */
  function IdsOf(rs: seq<DetectionRecord>): set<string>
  {
    set k | 0 <= k < |rs| && rs[k].studentId.Some? :: rs[k].studentId.value
  }

  function IdOf(r: DetectionRecord): set<string>
  {
    if r.studentId.Some? then {r.studentId.value} else {}
  }

  lemma IdsOfCons(r: DetectionRecord, rs: seq<DetectionRecord>)
    ensures IdsOf([r] + rs) == IdOf(r) + IdsOf(rs)
  {
    var c := [r] + rs;
    forall x | x in IdsOf(c)
      ensures x in IdOf(r) + IdsOf(rs)
    {
      var k :| 0 <= k < |c| && c[k].studentId.Some? && c[k].studentId.value == x;
      if k > 0 {
        assert rs[k - 1] == c[k];
      }
    }
    forall x | x in IdOf(r) + IdsOf(rs)
      ensures x in IdsOf(c)
    {
      if x !in IdOf(r) {
        var k :| 0 <= k < |rs| && rs[k].studentId.Some? && rs[k].studentId.value == x;
        assert c[k + 1] == rs[k];
      } else {
        assert c[0] == r;
      }
    }
  }

  /** The identities excluded for the faces after face `i`. */
  function UsedAfter(used: set<string>, b: Best): set<string>
  {
    if StudentId(b).Some? then used + {StudentId(b).value} else used
  }

  /** One step of MatchFrom on a face with non-zero norm. */
  lemma MatchFromStep(faces: seq<Face>, g: Gallery, norm: Embedding -> real, threshold: real,
                      imageIndex: nat, i: nat, used: set<string>)
    requires i < |faces| && norm(faces[i].embedding) > 0.0
    ensures var b := Decide(faces, g, norm, threshold, i, used);
      MatchFrom(faces, g, norm, threshold, imageIndex, i, used)
      == [DetectionRecord(imageIndex, i, ToIntBox(faces[i].box), Confidence(b), StudentId(b))]
         + MatchFrom(faces, g, norm, threshold, imageIndex, i + 1, UsedAfter(used, b))
  {
  }

  /** A face with zero norm contributes no record. */
  lemma MatchFromSkip(faces: seq<Face>, g: Gallery, norm: Embedding -> real, threshold: real,
                      imageIndex: nat, i: nat, used: set<string>)
    requires i < |faces| && !(norm(faces[i].embedding) > 0.0)
    ensures MatchFrom(faces, g, norm, threshold, imageIndex, i, used)
         == MatchFrom(faces, g, norm, threshold, imageIndex, i + 1, used)
  {
  }

  /**
   * Every record carries the image index and the truncated box of a face
   * at or after `i` whose norm is non-zero.
   */
  lemma {:induction false} MatchRecordsInRange(faces: seq<Face>, g: Gallery, norm: Embedding -> real, threshold: real,
                                              imageIndex: nat, i: nat, used: set<string>)
    requires i <= |faces|
    ensures var r := MatchFrom(faces, g, norm, threshold, imageIndex, i, used);
      forall k :: 0 <= k < |r| ==>
        && i <= r[k].faceIndex < |faces|
        && norm(faces[r[k].faceIndex].embedding) > 0.0
        && r[k].imageIndex == imageIndex
        && r[k].bbox == ToIntBox(faces[r[k].faceIndex].box)
    decreases |faces| - i
  {
    if i < |faces| {
      if !(norm(faces[i].embedding) > 0.0) {
        MatchRecordsInRange(faces, g, norm, threshold, imageIndex, i + 1, used);
        MatchFromSkip(faces, g, norm, threshold, imageIndex, i, used);
      } else {
        var b := Decide(faces, g, norm, threshold, i, used);
        MatchFromStep(faces, g, norm, threshold, imageIndex, i, used);
        MatchRecordsInRange(faces, g, norm, threshold, imageIndex, i + 1, UsedAfter(used, b));
      }
    }
  }

  /** Records appear in strictly increasing face order. */
  lemma {:induction false} MatchOrdered(faces: seq<Face>, g: Gallery, norm: Embedding -> real, threshold: real,
                                       imageIndex: nat, i: nat, used: set<string>)
    requires i <= |faces|
    ensures var r := MatchFrom(faces, g, norm, threshold, imageIndex, i, used);
      forall j, k :: 0 <= j < k < |r| ==> r[j].faceIndex < r[k].faceIndex
    decreases |faces| - i
  {
    if i < |faces| {
      if !(norm(faces[i].embedding) > 0.0) {
        MatchOrdered(faces, g, norm, threshold, imageIndex, i + 1, used);
        MatchFromSkip(faces, g, norm, threshold, imageIndex, i, used);
      } else {
        var b := Decide(faces, g, norm, threshold, i, used);
        MatchFromStep(faces, g, norm, threshold, imageIndex, i, used);
        MatchOrdered(faces, g, norm, threshold, imageIndex, i + 1, UsedAfter(used, b));
        MatchRecordsInRange(faces, g, norm, threshold, imageIndex, i + 1, UsedAfter(used, b));
      }
    }
  }

  /**
   * Every face at or after `i` with a non-zero norm gets a record, and
   * every record belongs to such a face: zero-norm faces are skipped.
   */
  lemma {:induction false} MatchComplete(faces: seq<Face>, g: Gallery, norm: Embedding -> real, threshold: real,
                                        imageIndex: nat, i: nat, used: set<string>)
    requires i <= |faces|
    ensures var r := MatchFrom(faces, g, norm, threshold, imageIndex, i, used);
      forall f :: i <= f < |faces| && norm(faces[f].embedding) > 0.0 ==>
        exists k :: 0 <= k < |r| && r[k].faceIndex == f
    ensures var r := MatchFrom(faces, g, norm, threshold, imageIndex, i, used);
      forall k :: 0 <= k < |r| ==> i <= r[k].faceIndex < |faces| && norm(faces[r[k].faceIndex].embedding) > 0.0
    decreases |faces| - i
  {
    MatchRecordsInRange(faces, g, norm, threshold, imageIndex, i, used);
    if i < |faces| {
      if !(norm(faces[i].embedding) > 0.0) {
        MatchComplete(faces, g, norm, threshold, imageIndex, i + 1, used);
        MatchFromSkip(faces, g, norm, threshold, imageIndex, i, used);
      } else {
        var b := Decide(faces, g, norm, threshold, i, used);
        MatchFromStep(faces, g, norm, threshold, imageIndex, i, used);
        MatchComplete(faces, g, norm, threshold, imageIndex, i + 1, UsedAfter(used, b));
        var rest := MatchFrom(faces, g, norm, threshold, imageIndex, i + 1, UsedAfter(used, b));
        var r := MatchFrom(faces, g, norm, threshold, imageIndex, i, used);
        forall f | i <= f < |faces| && norm(faces[f].embedding) > 0.0
          ensures exists k :: 0 <= k < |r| && r[k].faceIndex == f
        {
          if f == i {
            assert r[0].faceIndex == f;
          } else {
            var k :| 0 <= k < |rest| && rest[k].faceIndex == f;
            assert r[k + 1].faceIndex == f;
          }
        }
      }
    }
  }

  /**
   * Within one image no identity is given to two records, and none is
   * given that was already used when the records start.
   */
  lemma {:induction false} MatchNoReuse(faces: seq<Face>, g: Gallery, norm: Embedding -> real, threshold: real,
                                       imageIndex: nat, i: nat, used: set<string>)
    requires i <= |faces|
    ensures var r := MatchFrom(faces, g, norm, threshold, imageIndex, i, used);
      && (forall k :: 0 <= k < |r| && r[k].studentId.Some? ==> r[k].studentId.value !in used)
      && (forall j, k :: 0 <= j < k < |r| && r[j].studentId.Some? && r[k].studentId.Some? ==>
            r[j].studentId.value != r[k].studentId.value)
    decreases |faces| - i
  {
    if i < |faces| {
      if !(norm(faces[i].embedding) > 0.0) {
        MatchNoReuse(faces, g, norm, threshold, imageIndex, i + 1, used);
        MatchFromSkip(faces, g, norm, threshold, imageIndex, i, used);
      } else {
        var b := Decide(faces, g, norm, threshold, i, used);
        BestInIsFirstMaximum(Candidates(norm, Normalized(norm, faces[i].embedding), g), threshold, used);
        MatchFromStep(faces, g, norm, threshold, imageIndex, i, used);
        var used' := UsedAfter(used, b);
        MatchNoReuse(faces, g, norm, threshold, imageIndex, i + 1, used');
        var rest := MatchFrom(faces, g, norm, threshold, imageIndex, i + 1, used');
        var rec := DetectionRecord(imageIndex, i, ToIntBox(faces[i].box), Confidence(b), StudentId(b));
        var r := [rec] + rest;
        assert rec.studentId.Some? ==> rec.studentId.value !in used && rec.studentId.value in used';
        forall k | 0 <= k < |r| && r[k].studentId.Some?
          ensures r[k].studentId.value !in used
        {
          if k > 0 {
            assert r[k] == rest[k - 1];
          }
        }
        forall j, k | 0 <= j < k < |r| && r[j].studentId.Some? && r[k].studentId.Some?
          ensures r[j].studentId.value != r[k].studentId.value
        {
          assert r[k] == rest[k - 1];
          if j > 0 {
            assert r[j] == rest[j - 1];
          }
        }
      }
    }
  }

  /**
   * A matched record's confidence is above the threshold and above 0.0
   * and its identity is a gallery key; when no key is empty, an
   * unmatched record reports confidence 0.0, not the best rejected
   * similarity.
   */
  lemma {:induction false} MatchConfidence(faces: seq<Face>, g: Gallery, norm: Embedding -> real, threshold: real,
                                          imageIndex: nat, i: nat, used: set<string>)
    requires i <= |faces|
    ensures var r := MatchFrom(faces, g, norm, threshold, imageIndex, i, used);
      && (forall k :: 0 <= k < |r| && r[k].studentId.Some? ==>
            r[k].confidence > threshold && r[k].confidence > 0.0 && r[k].studentId.value in Keys(g))
      && ((forall e :: e in g ==> e.key != "") ==>
            forall k :: 0 <= k < |r| && r[k].studentId.None? ==> r[k].confidence == 0.0)
    decreases |faces| - i
  {
    if i < |faces| {
      if !(norm(faces[i].embedding) > 0.0) {
        MatchConfidence(faces, g, norm, threshold, imageIndex, i + 1, used);
        MatchFromSkip(faces, g, norm, threshold, imageIndex, i, used);
      } else {
        var cands := Candidates(norm, Normalized(norm, faces[i].embedding), g);
        var b := Decide(faces, g, norm, threshold, i, used);
        BestInIsFirstMaximum(cands, threshold, used);
        MatchFromStep(faces, g, norm, threshold, imageIndex, i, used);
        var used' := UsedAfter(used, b);
        MatchConfidence(faces, g, norm, threshold, imageIndex, i + 1, used');
        var rest := MatchFrom(faces, g, norm, threshold, imageIndex, i + 1, used');
        var rec := DetectionRecord(imageIndex, i, ToIntBox(faces[i].box), Confidence(b), StudentId(b));
        var r := [rec] + rest;
        if b.Match? {
          assert g[b.index].key == b.key;
          assert b.key in Keys(g);
        }
        assert rec.studentId.Some? ==>
          rec.confidence > threshold && rec.confidence > 0.0 && rec.studentId.value in Keys(g);
        if (forall e :: e in g ==> e.key != "") {
          if b.Match? {
            assert g[b.index] in g;
          }
          assert rec.studentId.None? ==> rec.confidence == 0.0;
        }
        forall k | 0 <= k < |r| && k > 0
          ensures r[k] == rest[k - 1]
        {
        }
      }
    }
  }

  /**
   * Each record is the scan's outcome for its face against the gallery
   * with exactly the identities matched by the earlier records of the
   * image (plus `used`) excluded: the used set grows only by matches.
   */
  lemma {:induction false} MatchDecisions(faces: seq<Face>, g: Gallery, norm: Embedding -> real, threshold: real,
                                         imageIndex: nat, i: nat, used: set<string>)
    requires i <= |faces|
    ensures var r := MatchFrom(faces, g, norm, threshold, imageIndex, i, used);
      forall k :: 0 <= k < |r| ==>
        && r[k].faceIndex < |faces|
        && norm(faces[r[k].faceIndex].embedding) > 0.0
        && var b := Decide(faces, g, norm, threshold, r[k].faceIndex, used + IdsOf(r[..k]));
           r[k].confidence == Confidence(b) && r[k].studentId == StudentId(b)
    decreases |faces| - i
  {
    if i < |faces| {
      if !(norm(faces[i].embedding) > 0.0) {
        MatchDecisions(faces, g, norm, threshold, imageIndex, i + 1, used);
        MatchFromSkip(faces, g, norm, threshold, imageIndex, i, used);
      } else {
        var b := Decide(faces, g, norm, threshold, i, used);
        MatchFromStep(faces, g, norm, threshold, imageIndex, i, used);
        var used' := UsedAfter(used, b);
        MatchDecisions(faces, g, norm, threshold, imageIndex, i + 1, used');
        var rest := MatchFrom(faces, g, norm, threshold, imageIndex, i + 1, used');
        var rec := DetectionRecord(imageIndex, i, ToIntBox(faces[i].box), Confidence(b), StudentId(b));
        var r := [rec] + rest;
        assert IdsOf(r[..0]) == {} by { assert r[..0] == []; }
        assert used' == used + IdOf(rec);
        forall k | 0 <= k < |r|
          ensures r[k].faceIndex < |faces| && norm(faces[r[k].faceIndex].embedding) > 0.0
          ensures var d := Decide(faces, g, norm, threshold, r[k].faceIndex, used + IdsOf(r[..k]));
            r[k].confidence == Confidence(d) && r[k].studentId == StudentId(d)
        {
          if k == 0 {
            assert used + IdsOf(r[..0]) == used;
          } else {
            assert r[k] == rest[k - 1];
            assert r[..k] == [rec] + rest[..k - 1];
            IdsOfCons(rec, rest[..k - 1]);
            assert used + IdsOf(r[..k]) == used' + IdsOf(rest[..k - 1]);
          }
        }
      }
    }
  }

  /** With an empty gallery every face is unmatched with confidence 0.0. */
  lemma EmptyGalleryMatchesNothing(faces: seq<Face>, norm: Embedding -> real, threshold: real, imageIndex: nat)
    ensures var r := MatchFrom(faces, [], norm, threshold, imageIndex, 0, {});
      forall k :: 0 <= k < |r| ==> r[k].studentId.None? && r[k].confidence == 0.0
  {
    MatchDecisions(faces, [], norm, threshold, imageIndex, 0, {});
  }

  /**
   * The scan on small cases: a similarity below the threshold is rejected
   * and reported as 0.0; an identity already used in the image is not
   * offered again; of two equal similarities the earlier entry wins.
   */
  lemma ScanExamples()
    ensures BestIn([Candidate("alice", Some(0.45))], 0.5, {}) == NoMatch
    ensures BestIn([Candidate("alice", Some(0.85))], DefaultThreshold, {"alice"}) == NoMatch
    ensures BestIn([Candidate("alice", Some(0.9)), Candidate("bob", Some(0.9))], DefaultThreshold, {})
            == Match(0, "alice", 0.9)
    ensures BestIn([Candidate("alice", Some(0.5)), Candidate("bob", Some(0.95))], DefaultThreshold, {})
            == Match(1, "bob", 0.95)
  {
    var one := [Candidate("alice", Some(0.9)), Candidate("bob", Some(0.9))];
    assert one[..1] == [Candidate("alice", Some(0.9))];
    var two := [Candidate("alice", Some(0.5)), Candidate("bob", Some(0.95))];
    assert two[..1] == [Candidate("alice", Some(0.5))];
  }
}
