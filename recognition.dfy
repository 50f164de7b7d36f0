/**
 * One recognition run over a test folder: the error checks before any
 * image is read, the per-image pipeline (pool the preprocessing passes,
 * drop duplicate boxes, match the unique faces) and the summary that is
 * accumulated over the images in sorted name order.
 */
module Recognition {
  import opened Results
  import opened Text
  import opened Vectors
  import opened Detection
  import opened Gallery
  import opened Matching

  /**
   * What reading one image file yields: an image that cannot be decoded
   * (or has a zero dimension), or the detector's outcome on each of the
   * three preprocessed variants of it.
   */
  datatype ImageData = InvalidImage | Decoded(passes: PassResults)

  /** The records `process_single_image` returns for one image. */
  function ImageRecords(img: ImageData, g: Gallery, norm: Embedding -> real, threshold: real,
                        imageIndex: nat): seq<DetectionRecord>
  {
    match img
    case InvalidImage => []
    case Decoded(passes) => MatchFrom(Dedup(Pooled(passes)), g, norm, threshold, imageIndex, 0, {})
  }

  /** Lines 46-173: an invalid image yields no records; otherwise pool, deduplicate and match. */
  method ProcessSingleImage(img: ImageData, g: Gallery, norm: Embedding -> real, imageIndex: nat, threshold: real)
    returns (detections: seq<DetectionRecord>)
    ensures detections == ImageRecords(img, g, norm, threshold, imageIndex)
  {
    if img.InvalidImage? {
      return [];
    }
    var allFaces := PoolDetections(img.passes);
    var uniqueFaces := Deduplicate(allFaces);
    detections := MatchUniqueFaces(uniqueFaces, g, norm, threshold, imageIndex);
  }

  /**
   * The records of one image all carry its index, a matched one has a
   * confidence above the threshold and above 0.0 and names a gallery
   * key, and no identity is named twice.
   */
  lemma ImageRecordsFacts(img: ImageData, g: Gallery, norm: Embedding -> real, threshold: real, imageIndex: nat)
    ensures forall rec :: rec in ImageRecords(img, g, norm, threshold, imageIndex) ==>
      && rec.imageIndex == imageIndex
      && (rec.studentId.Some? ==> rec.confidence > threshold && rec.confidence > 0.0 && rec.studentId.value in Keys(g))
    ensures forall j, k :: 0 <= j < k < |ImageRecords(img, g, norm, threshold, imageIndex)| ==>
      var r := ImageRecords(img, g, norm, threshold, imageIndex);
      r[j].studentId.Some? && r[k].studentId.Some? ==> r[j].studentId.value != r[k].studentId.value
  {
    if img.Decoded? {
      var faces := Dedup(Pooled(img.passes));
      assert ImageRecords(img, g, norm, threshold, imageIndex) == MatchFrom(faces, g, norm, threshold, imageIndex, 0, {});
      MatchRecordsInRange(faces, g, norm, threshold, imageIndex, 0, {});
      MatchConfidence(faces, g, norm, threshold, imageIndex, 0, {});
      MatchNoReuse(faces, g, norm, threshold, imageIndex, 0, {});
    }
  }

  /** The file-name test of the test-folder listing, on the lower-cased name. */
  predicate HasImageExtension(name: string)
  {
    var l := Lower(name);
    EndsWith(l, ".jpg") || EndsWith(l, ".jpeg") || EndsWith(l, ".png") || EndsWith(l, ".bmp")
  }

  /** The listing entries that name images, in listing order. */
  function ImageFiles(listing: seq<string>): (r: seq<string>)
    ensures |r| <= |listing|
    ensures forall n :: n in r <==> n in listing && HasImageExtension(n)
    decreases |listing|
  {
    if listing == [] then []
    else
      var m := |listing| - 1;
      assert forall n :: n in listing <==> n in listing[..m] || n == listing[m] by {
        assert listing == listing[..m] + [listing[m]];
      }
      ImageFiles(listing[..m]) + (if HasImageExtension(listing[m]) then [listing[m]] else [])
  }

  /**
   * The filter keeps every image name exactly as many times as the
   * listing holds it, and no other name.
   */
  lemma {:induction false} ImageFilesCounts(listing: seq<string>)
    ensures forall n :: multiset(ImageFiles(listing))[n] == if HasImageExtension(n) then multiset(listing)[n] else 0
    decreases |listing|
  {
    if listing != [] {
      var m := |listing| - 1;
      ImageFilesCounts(listing[..m]);
      assert listing == listing[..m] + [listing[m]];
      assert multiset(listing) == multiset(listing[..m]) + multiset{listing[m]};
    }
  }

  /** The records of all images, the image at position `k` being processed with index `k`. */
  function AllRecords(imgs: seq<ImageData>, g: Gallery, norm: Embedding -> real, threshold: real): seq<DetectionRecord>
    decreases |imgs|
  {
    if imgs == [] then []
    else
      var n := |imgs| - 1;
      AllRecords(imgs[..n], g, norm, threshold) + ImageRecords(imgs[n], g, norm, threshold, n)
  }

  /** What reading each of `names` yields, in order. */
  function ReadAll(names: seq<string>, images: string -> ImageData): (r: seq<ImageData>)
    ensures |r| == |names|
    ensures forall k :: 0 <= k < |names| ==> r[k] == images(names[k])
  {
    seq(|names|, k requires 0 <= k < |names| => images(names[k]))
  }

  /** `confidence_scores`: the confidences of the matched records, in record order. */
  function MatchedConfidences(rs: seq<DetectionRecord>): (r: seq<real>)
    ensures |r| <= |rs|
    ensures forall x :: x in r ==> exists k :: 0 <= k < |rs| && rs[k].studentId.Some? && rs[k].confidence == x
    ensures (exists k :: 0 <= k < |rs| && rs[k].studentId.Some?) ==> |r| > 0
    decreases |rs|
  {
    if rs == [] then []
    else
      var n := |rs| - 1;
      var prev := MatchedConfidences(rs[..n]);
      assert forall k :: 0 <= k < n ==> rs[..n][k] == rs[k];
      if rs[n].studentId.Some? then prev + [rs[n].confidence] else prev
  }

  /** The positions of the matched records. */
  function MatchedIndices(rs: seq<DetectionRecord>): set<nat>
  {
    set k: nat | k < |rs| && rs[k].studentId.Some?
  }

  /**
   * `confidence_scores` holds exactly one score per matched record, and
   * the confidence of every matched record is among them.
   */
  lemma {:induction false} MatchedConfidencesExact(rs: seq<DetectionRecord>)
    ensures |MatchedConfidences(rs)| == |MatchedIndices(rs)|
    ensures forall k :: 0 <= k < |rs| && rs[k].studentId.Some? ==> rs[k].confidence in MatchedConfidences(rs)
    decreases |rs|
  {
    if rs != [] {
      var n := |rs| - 1;
      var pre := rs[..n];
      MatchedConfidencesExact(pre);
      assert forall k :: 0 <= k < n ==> pre[k] == rs[k];
      var a := MatchedIndices(pre);
      if rs[n].studentId.Some? {
        assert MatchedIndices(rs) == a + {n};
        assert n !in a;
      } else {
        assert MatchedIndices(rs) == a;
      }
    }
  }

  function Sum(s: seq<real>): real
    decreases |s|
  {
    if s == [] then 0.0 else Sum(s[..|s| - 1]) + s[|s| - 1]
  }

  /** `np.mean(scores) if scores else 0.0`. */
  function Average(s: seq<real>): real
  {
    if s == [] then 0.0 else Sum(s) / (|s| as real)
  }

  /** `matched / total if total > 0 else 0.0`. */
  function RecognitionRate(matched: nat, total: nat): real
  {
    if total > 0 then (matched as real) / (total as real) else 0.0
  }

  /** The result object of a successful run. */
  datatype Summary = Summary(
    totalFaces: nat,
    recognizedStudents: set<string>,
    averageConfidence: real,
    recognitionRate: real,
    detections: seq<DetectionRecord>,
    processedImages: nat)

  /** The summary of processing `names` (already filtered and sorted) in order. */
  function SummaryOf(names: seq<string>, images: string -> ImageData, g: Gallery, norm: Embedding -> real,
                     threshold: real): Summary
  {
    var rs := AllRecords(ReadAll(names, images), g, norm, threshold);
    var scores := MatchedConfidences(rs);
    Summary(|rs|, IdsOf(rs), Average(scores), RecognitionRate(|scores|, |rs|), rs, |names|)
  }

  /** The four failures reported before any image is processed. */
  datatype RunError = NoTrainedModel | NoTrainedFaces | NoTestFolder | NoImages

  /** The `error` field written for each failure. */
  function ErrorMessage(e: RunError): (m: string)
    ensures m != ""
  {
    match e
    case NoTrainedModel => "No trained model found"
    case NoTrainedFaces => "No trained faces found"
    case NoTestFolder => "Test images folder not found"
    case NoImages => "No images found in test folder"
  }

  /** The run's outcome as a function of its inputs. */
  function RunOutcome(trained: Option<Gallery>, testFolder: Option<seq<string>>, images: string -> ImageData,
                      norm: Embedding -> real): Result<Summary, RunError>
  {
    if trained.None? then Failure(NoTrainedModel)
    else if trained.value == [] then Failure(NoTrainedFaces)
    else if testFolder.None? then Failure(NoTestFolder)
    else if ImageFiles(testFolder.value) == [] then Failure(NoImages)
    else Success(SummaryOf(SortNames(ImageFiles(testFolder.value)), images, trained.value, norm, DefaultThreshold))
  }

  lemma IdsOfSnoc(rs: seq<DetectionRecord>, x: DetectionRecord)
    ensures IdsOf(rs + [x]) == IdsOf(rs) + IdOf(x)
  {
    var c := rs + [x];
    forall y | y in IdsOf(c)
      ensures y in IdsOf(rs) + IdOf(x)
    {
      var k :| 0 <= k < |c| && c[k].studentId.Some? && c[k].studentId.value == y;
      if k < |rs| {
        assert rs[k] == c[k];
      }
    }
    forall y | y in IdsOf(rs) + IdOf(x)
      ensures y in IdsOf(c)
    {
      if y in IdsOf(rs) {
        var k :| 0 <= k < |rs| && rs[k].studentId.Some? && rs[k].studentId.value == y;
        assert c[k] == rs[k];
      } else {
        assert c[|rs|] == x;
      }
    }
  }

  /**
   * Lines 356-361: one image's records are counted into `total_faces`,
   * and each matched one adds its identity to `recognized_students` and
   * its confidence to `confidence_scores`.
   */
  method Tally(detections: seq<DetectionRecord>, ghost before: seq<DetectionRecord>,
               totalFaces: nat, recognizedStudents: set<string>, confidenceScores: seq<real>)
    returns (totalFaces': nat, recognizedStudents': set<string>, confidenceScores': seq<real>)
    requires totalFaces == |before|
    requires recognizedStudents == IdsOf(before)
    requires confidenceScores == MatchedConfidences(before)
    ensures totalFaces' == |before + detections|
    ensures recognizedStudents' == IdsOf(before + detections)
    ensures confidenceScores' == MatchedConfidences(before + detections)
  {
    totalFaces', recognizedStudents', confidenceScores' := totalFaces, recognizedStudents, confidenceScores;
    assert before + detections[..0] == before;
    for j := 0 to |detections|
      invariant totalFaces' == |before| + j
      invariant recognizedStudents' == IdsOf(before + detections[..j])
      invariant confidenceScores' == MatchedConfidences(before + detections[..j])
    {
      var detection := detections[j];
      assert before + detections[..j + 1] == (before + detections[..j]) + [detection];
      IdsOfSnoc(before + detections[..j], detection);
      totalFaces' := totalFaces' + 1;
      if detection.studentId.Some? {
        recognizedStudents' := recognizedStudents' + {detection.studentId.value};
        confidenceScores' := confidenceScores' + [detection.confidence];
      }
    }
    assert detections[..|detections|] == detections;
  }

  /**
   * Lines 350-361, one iteration: the image's records are appended to
   * `all_detections` and tallied when there are any.
   */
  method ProcessImage(img: ImageData, knownFaces: Gallery, norm: Embedding -> real, idx: nat,
                      allDetections: seq<DetectionRecord>, totalFaces: nat, recognizedStudents: set<string>,
                      confidenceScores: seq<real>)
    returns (allDetections': seq<DetectionRecord>, totalFaces': nat, recognizedStudents': set<string>,
             confidenceScores': seq<real>)
    requires totalFaces == |allDetections|
    requires recognizedStudents == IdsOf(allDetections)
    requires confidenceScores == MatchedConfidences(allDetections)
    ensures allDetections' == allDetections + ImageRecords(img, knownFaces, norm, DefaultThreshold, idx)
    ensures totalFaces' == |allDetections'|
    ensures recognizedStudents' == IdsOf(allDetections')
    ensures confidenceScores' == MatchedConfidences(allDetections')
  {
    var detections := ProcessSingleImage(img, knownFaces, norm, idx, DefaultThreshold);
    if |detections| > 0 {
      totalFaces', recognizedStudents', confidenceScores' :=
        Tally(detections, allDetections, totalFaces, recognizedStudents, confidenceScores);
      allDetections' := allDetections + detections;
    } else {
      assert allDetections + detections == allDetections;
      allDetections', totalFaces', recognizedStudents', confidenceScores' :=
        allDetections, totalFaces, recognizedStudents, confidenceScores;
    }
  }

  /**
   * Lines 341-361: the images are processed in the order given, image
   * `idx` with index `idx`, and the records and running totals are
   * accumulated.
   */
  method ProcessImages(sorted: seq<string>, images: string -> ImageData, knownFaces: Gallery, norm: Embedding -> real)
    returns (allDetections: seq<DetectionRecord>, totalFaces: nat, recognizedStudents: set<string>,
             confidenceScores: seq<real>)
    ensures allDetections == AllRecords(ReadAll(sorted, images), knownFaces, norm, DefaultThreshold)
    ensures totalFaces == |allDetections|
    ensures recognizedStudents == IdsOf(allDetections)
    ensures confidenceScores == MatchedConfidences(allDetections)
  {
    ghost var imgs := ReadAll(sorted, images);
    allDetections, totalFaces, recognizedStudents, confidenceScores := [], 0, {}, [];
    for idx := 0 to |sorted|
      invariant allDetections == AllRecords(imgs[..idx], knownFaces, norm, DefaultThreshold)
      invariant totalFaces == |allDetections|
      invariant recognizedStudents == IdsOf(allDetections)
      invariant confidenceScores == MatchedConfidences(allDetections)
    {
      assert imgs[..idx + 1][..idx] == imgs[..idx];
      assert imgs[idx] == images(sorted[idx]);
      allDetections, totalFaces, recognizedStudents, confidenceScores :=
        ProcessImage(images(sorted[idx]), knownFaces, norm, idx,
                     allDetections, totalFaces, recognizedStudents, confidenceScores);
    }
    assert imgs[..|sorted|] == imgs;
  }

  /**
   * Lines 270-376 of `main`: the trained gallery is loaded (None when
   * the file is missing), the test folder listed (None when missing),
   * image names filtered and sorted, the images processed, and the
   * averages computed.
   */
  method Recognize(trained: Option<Gallery>, testFolder: Option<seq<string>>, images: string -> ImageData,
                   norm: Embedding -> real)
    returns (r: Result<Summary, RunError>)
    ensures r == RunOutcome(trained, testFolder, images, norm)
  {
    if trained.None? {
      return Failure(NoTrainedModel);
    }
    var knownFaces := trained.value;
    if knownFaces == [] {
      return Failure(NoTrainedFaces);
    }
    if testFolder.None? {
      return Failure(NoTestFolder);
    }
    var imageFiles := ImageFiles(testFolder.value);
    if imageFiles == [] {
      return Failure(NoImages);
    }
    var sorted := SortNames(imageFiles);
    var allDetections, totalFaces, recognizedStudents, confidenceScores :=
      ProcessImages(sorted, images, knownFaces, norm);
    var avgConfidence := Average(confidenceScores);
    var recognitionRate := RecognitionRate(|confidenceScores|, totalFaces);
    SortNamesOrdered(imageFiles);
    r := Success(Summary(totalFaces, recognizedStudents, avgConfidence, recognitionRate,
                         allDetections, |imageFiles|));
  }

  /** Every record of the run carries the position of the image it came from and is one of that image's records. */
  lemma {:induction false} RecordOrigins(imgs: seq<ImageData>, g: Gallery, norm: Embedding -> real, threshold: real)
    ensures forall rec :: rec in AllRecords(imgs, g, norm, threshold) ==>
      rec.imageIndex < |imgs| && rec in ImageRecords(imgs[rec.imageIndex], g, norm, threshold, rec.imageIndex)
    decreases |imgs|
  {
    if imgs != [] {
      var n := |imgs| - 1;
      var pre := imgs[..n];
      RecordOrigins(pre, g, norm, threshold);
      ImageRecordsFacts(imgs[n], g, norm, threshold, n);
      var a := AllRecords(pre, g, norm, threshold);
      assert AllRecords(imgs, g, norm, threshold) == a + ImageRecords(imgs[n], g, norm, threshold, n);
      forall rec | rec in a
        ensures rec.imageIndex < |imgs| && rec in ImageRecords(imgs[rec.imageIndex], g, norm, threshold, rec.imageIndex)
      {
        assert imgs[rec.imageIndex] == pre[rec.imageIndex];
      }
    }
  }

  /** Appending records of image `n` to records of earlier images keeps image indices nondecreasing. */
  lemma AppendImageOrder(a: seq<DetectionRecord>, b: seq<DetectionRecord>, n: nat)
    requires forall j, k :: 0 <= j < k < |a| ==> a[j].imageIndex <= a[k].imageIndex
    requires forall x :: x in a ==> x.imageIndex < n
    requires forall x :: x in b ==> x.imageIndex == n
    ensures forall j, k :: 0 <= j < k < |a + b| ==> (a + b)[j].imageIndex <= (a + b)[k].imageIndex
  {
    var r := a + b;
    forall j, k | 0 <= j < k < |r|
      ensures r[j].imageIndex <= r[k].imageIndex
    {
      if k >= |a| {
        assert r[k] == b[k - |a|] && b[k - |a|] in b;
        if j >= |a| {
          assert r[j] == b[j - |a|] && b[j - |a|] in b;
        } else {
          assert r[j] == a[j] && a[j] in a;
        }
      } else {
        assert r[j] == a[j] && r[k] == a[k];
      }
    }
  }

  /** The image indices of the run's records never decrease along the list. */
  lemma {:induction false} RecordOrder(imgs: seq<ImageData>, g: Gallery, norm: Embedding -> real, threshold: real)
    ensures forall j, k :: 0 <= j < k < |AllRecords(imgs, g, norm, threshold)| ==>
      AllRecords(imgs, g, norm, threshold)[j].imageIndex <= AllRecords(imgs, g, norm, threshold)[k].imageIndex
    decreases |imgs|
  {
    if imgs != [] {
      var n := |imgs| - 1;
      var pre := imgs[..n];
      RecordOrder(pre, g, norm, threshold);
      RecordOrigins(pre, g, norm, threshold);
      ImageRecordsFacts(imgs[n], g, norm, threshold, n);
      var a := AllRecords(pre, g, norm, threshold);
      var b := ImageRecords(imgs[n], g, norm, threshold, n);
      assert AllRecords(imgs, g, norm, threshold) == a + b;
      AppendImageOrder(a, b, n);
    }
  }

  /**
   * Every record of the run carries the position of the image it came
   * from, is one of that image's records, and the image indices never
   * decrease along the list.
   */
  lemma RecordImageIndices(imgs: seq<ImageData>, g: Gallery, norm: Embedding -> real, threshold: real)
    ensures forall rec :: rec in AllRecords(imgs, g, norm, threshold) ==>
      rec.imageIndex < |imgs| && rec in ImageRecords(imgs[rec.imageIndex], g, norm, threshold, rec.imageIndex)
    ensures forall j, k :: 0 <= j < k < |AllRecords(imgs, g, norm, threshold)| ==>
      AllRecords(imgs, g, norm, threshold)[j].imageIndex <= AllRecords(imgs, g, norm, threshold)[k].imageIndex
  {
    RecordOrigins(imgs, g, norm, threshold);
    RecordOrder(imgs, g, norm, threshold);
  }

  /**
   * Every matched record of the run has a confidence above the threshold
   * and above 0.0 and names a gallery key, and two records of the same
   * image never name the same identity.
   */
  lemma {:induction false} RunMatches(imgs: seq<ImageData>, g: Gallery, norm: Embedding -> real, threshold: real)
    ensures forall rec :: rec in AllRecords(imgs, g, norm, threshold) && rec.studentId.Some? ==>
      rec.confidence > threshold && rec.confidence > 0.0 && rec.studentId.value in Keys(g)
    ensures forall j, k :: 0 <= j < k < |AllRecords(imgs, g, norm, threshold)| ==>
      var r := AllRecords(imgs, g, norm, threshold);
      r[j].imageIndex == r[k].imageIndex && r[j].studentId.Some? && r[k].studentId.Some? ==>
        r[j].studentId.value != r[k].studentId.value
    decreases |imgs|
  {
    if imgs != [] {
      var n := |imgs| - 1;
      var pre := imgs[..n];
      RunMatches(pre, g, norm, threshold);
      RecordImageIndices(pre, g, norm, threshold);
      ImageRecordsFacts(imgs[n], g, norm, threshold, n);
      var a := AllRecords(pre, g, norm, threshold);
      var b := ImageRecords(imgs[n], g, norm, threshold, n);
      var r := a + b;
      assert AllRecords(imgs, g, norm, threshold) == r;
      forall j, k | 0 <= j < k < |r| && r[j].imageIndex == r[k].imageIndex &&
          r[j].studentId.Some? && r[k].studentId.Some?
        ensures r[j].studentId.value != r[k].studentId.value
      {
        if k >= |a| {
          assert r[k] == b[k - |a|] && b[k - |a|] in b;
          if j >= |a| {
            assert r[j] == b[j - |a|];
          }
        } else {
          assert r[j] == a[j] && r[k] == a[k];
        }
      }
    }
  }

  /** Every recognised student of a run is a key of the trained gallery. */
  lemma RecognizedAreKnown(names: seq<string>, images: string -> ImageData, g: Gallery, norm: Embedding -> real,
                           threshold: real)
    ensures SummaryOf(names, images, g, norm, threshold).recognizedStudents <= Keys(g)
  {
    var rs := AllRecords(ReadAll(names, images), g, norm, threshold);
    RunMatches(ReadAll(names, images), g, norm, threshold);
    forall x | x in IdsOf(rs)
      ensures x in Keys(g)
    {
      var k :| 0 <= k < |rs| && rs[k].studentId.Some? && rs[k].studentId.value == x;
    }
  }

  lemma {:induction false} SumAbove(s: seq<real>, t: real)
    requires s != []
    requires forall i :: 0 <= i < |s| ==> s[i] > t
    ensures Sum(s) > (|s| as real) * t
    decreases |s|
  {
    var n := |s| - 1;
    if n > 0 {
      SumAbove(s[..n], t);
      assert ((n + 1) as real) * t == (n as real) * t + t;
    }
  }

  /** The mean of values all above `t` is above `t`. */
  lemma AverageAbove(s: seq<real>, t: real)
    requires s != []
    requires forall i :: 0 <= i < |s| ==> s[i] > t
    ensures Average(s) > t
  {
    SumAbove(s, t);
    var n := |s| as real;
    assert Sum(s) / n * n == Sum(s);
  }

  /** The recognition rate of `matched` out of `total` faces lies in [0, 1]. */
  lemma RateWithinUnit(matched: nat, total: nat)
    requires matched <= total
    ensures 0.0 <= RecognitionRate(matched, total) <= 1.0
    ensures total == 0 ==> RecognitionRate(matched, total) == 0.0
  {
    if total > 0 {
      var m := matched as real;
      var t := total as real;
      assert m / t * t == m;
    }
  }

  /** Every score collected during a run is above the threshold and above 0.0. */
  lemma ScoresAboveThreshold(imgs: seq<ImageData>, g: Gallery, norm: Embedding -> real, threshold: real)
    ensures forall x :: x in MatchedConfidences(AllRecords(imgs, g, norm, threshold)) ==> x > threshold && x > 0.0
  {
    var rs := AllRecords(imgs, g, norm, threshold);
    RunMatches(imgs, g, norm, threshold);
    forall x | x in MatchedConfidences(rs)
      ensures x > threshold && x > 0.0
    {
      var k :| 0 <= k < |rs| && rs[k].studentId.Some? && rs[k].confidence == x;
      assert rs[k] in rs;
    }
  }

  /**
   * The summary's bookkeeping: `totalFaces` counts every record, the
   * recognition rate is the number of matched records over that total,
   * lies in [0, 1] and is 0.0 when no face was found,
   * and the average confidence is 0.0 when nothing matched and otherwise
   * above the threshold (and above 0.0).
   */
  lemma SummaryBounds(names: seq<string>, images: string -> ImageData, g: Gallery, norm: Embedding -> real,
                      threshold: real)
    ensures SummaryOf(names, images, g, norm, threshold).totalFaces
         == |SummaryOf(names, images, g, norm, threshold).detections|
    ensures SummaryOf(names, images, g, norm, threshold).processedImages == |names|
    ensures 0.0 <= SummaryOf(names, images, g, norm, threshold).recognitionRate <= 1.0
    ensures SummaryOf(names, images, g, norm, threshold).recognitionRate
         == RecognitionRate(|MatchedIndices(SummaryOf(names, images, g, norm, threshold).detections)|,
                            SummaryOf(names, images, g, norm, threshold).totalFaces)
    ensures SummaryOf(names, images, g, norm, threshold).totalFaces == 0 ==>
      SummaryOf(names, images, g, norm, threshold).recognitionRate == 0.0
    ensures (forall rec :: rec in SummaryOf(names, images, g, norm, threshold).detections ==> rec.studentId.None?) ==>
      SummaryOf(names, images, g, norm, threshold).averageConfidence == 0.0
    ensures (exists rec :: rec in SummaryOf(names, images, g, norm, threshold).detections && rec.studentId.Some?) ==>
      SummaryOf(names, images, g, norm, threshold).averageConfidence > threshold &&
      SummaryOf(names, images, g, norm, threshold).averageConfidence > 0.0
  {
    var imgs := ReadAll(names, images);
    var rs := AllRecords(imgs, g, norm, threshold);
    var scores := MatchedConfidences(rs);
    assert SummaryOf(names, images, g, norm, threshold)
        == Summary(|rs|, IdsOf(rs), Average(scores), RecognitionRate(|scores|, |rs|), rs, |names|);
    RateWithinUnit(|scores|, |rs|);
    MatchedConfidencesExact(rs);
    if scores != [] {
      ScoresAboveThreshold(imgs, g, norm, threshold);
      assert forall i :: 0 <= i < |scores| ==> scores[i] in scores;
      AverageAbove(scores, threshold);
      AverageAbove(scores, 0.0);
      assert scores[0] in scores;
    } else {
      forall rec | rec in rs
        ensures rec.studentId.None?
      {
        var k :| 0 <= k < |rs| && rs[k] == rec;
      }
    }
  }
}
