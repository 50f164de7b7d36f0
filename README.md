# FaceFlow recognition and enrollment core, in Dafny

FaceFlow takes attendance from classroom photos. Two Python scripts do the work:

- the **enrollment** script (`train`) walks a dataset folder with one directory per student. It collects face embeddings from each student's images and from two augmented copies of each image. It stores one normalised mean embedding per student in a gallery keyed by the lower-cased directory name.
- the **recognition** script (`recognize`) reads a folder of test photos. For each photo it:
  - runs the face detector on three preprocessed variants;
  - pools the detections and drops duplicate boxes;
  - matches each remaining face greedily against the gallery by cosine similarity, with no identity used twice in one photo.

  It then summarises the run: faces found, students recognised, mean confidence and recognition rate.

This project models that selection and aggregation logic and proves its properties. The face detector, the augmenter, image decoding and the vector norm are left abstract. They appear as input data or as function parameters.

Modules (one file each):

| module | file | what it holds |
|---|---|---|
| `Results` | `results.dfy` | `Option` and `Result` |
| `Text` | `text.dfy` | ASCII lower-casing, suffix test, code-point string order, insertion sort |
| `Vectors` | `vectors.dfy` | 512-dimensional embeddings, dot product, scaling, element-wise mean |
| `Boxes` | `boxes.dfy` | boxes, intersection area, the duplicate test, `astype(int)` truncation |
| `Gallery` | `gallery.dfy` | the key → embedding dictionary as an ordered entry list (Python dict semantics) |
| `Detection` | `detection.dfy` | pooling of the preprocessing passes and duplicate-box suppression |
| `Matching` | `matching.dfy` | cosine similarity, the gallery scan, per-image greedy no-reuse matching |
| `Recognition` | `recognition.dfy` | the per-image pipeline, the file filter and order, the run summary |
| `Enrollment` | `enrollment.dfy` | the enrollment pass and the gallery it builds |

Each loop in the scripts is a `method` with loop invariants. Each method is proved equal to a specification function defined by recursion on prefixes. The properties are lemmas about those functions.

## Model

| member | source | states |
|---|---|---|
| Matching.CosineSymmetric | attached_assets/recognize_1755929175698.py:42-44 | cosine similarity does not depend on argument order |
| Matching.CosineSelf | attached_assets/recognize_1755929175698.py:42-44 | any non-zero vector has similarity exactly 1 with itself, for a norm whose square is the vector's dot product with itself |
| Vectors.DotSymmetric | attached_assets/recognize_1755929175698.py:44 | the dot product does not depend on argument order |
| Detection.PoolDetections | attached_assets/recognize_1755929175698.py:67-87 | the loop produces exactly the faces of every successful pass, pass by pass in order |
| Detection.PooledMembership | attached_assets/recognize_1755929175698.py:67-87 | a face is pooled iff some pass that did not fail reported it |
| Detection.Deduplicate | attached_assets/recognize_1755929175698.py:89-110 | the nested loop with `is_duplicate` and `break` computes the specified suppression |
| Detection.DedupIsSubsequence | attached_assets/recognize_1755929175698.py:89-110 | the kept faces are an order-preserving subsequence of the pooled ones (strictly increasing indices) |
| Detection.DedupKeepsFirst | attached_assets/recognize_1755929175698.py:89-110 | the first pooled detection is always kept |
| Detection.DedupSeparated | attached_assets/recognize_1755929175698.py:95-105 | no two kept boxes, in either order, overlap by more than 0.7 of the smaller area |
| Detection.DedupDrops | attached_assets/recognize_1755929175698.py:95-110 | a dropped detection overlaps some earlier kept box by more than 0.7 |
| Detection.DedupKeeps | attached_assets/recognize_1755929175698.py:95-110 | a detection overlapping no earlier kept box is kept |
| Detection.DedupCharacterization | attached_assets/recognize_1755929175698.py:89-110 | a pooled detection is kept iff it duplicates no kept box that precedes it |
| Boxes.DuplicateIsRatioTest | attached_assets/recognize_1755929175698.py:98-105 | for a positive smaller area, the division-free test equals `intersection / min(area) > 0.7` |
| Boxes.DegenerateBoxesDoNotIntersect | attached_assets/recognize_1755929175698.py:98-102 | a box of non-positive area has intersection 0, so the source's quotient never exceeds 0.7 |
| Boxes.DuplicateSymmetric | attached_assets/recognize_1755929175698.py:98-105 | the overlap test is symmetric in the two boxes |
| Boxes.Truncate | attached_assets/recognize_1755929175698.py:120 | `astype(int)` truncates toward zero: within 1 below a positive coordinate, within 1 above a negative one |
| Matching.FindBestMatch | attached_assets/recognize_1755929175698.py:130-145 | the scan over the gallery returns the key and similarity of the specified best candidate, and 0.0 with no key when nothing qualifies |
| Matching.BestInIsFirstMaximum | attached_assets/recognize_1755929175698.py:134-142 | no match iff no candidate is above the threshold, above 0 and unused; otherwise the match is such a candidate, strictly above every earlier one and at least every later one (ties keep the earlier) |
| Matching.ScanExamples | attached_assets/recognize_1755929175698.py:134-142 | concrete scans: a similarity at or below the threshold is rejected; a used identity is skipped; a tie keeps the first entry; a later higher entry wins |
| Matching.MatchUniqueFaces | attached_assets/recognize_1755929175698.py:114-164 | the per-face loop with `recognized_in_image` produces exactly the specified records |
| Matching.MatchRecordsInRange | attached_assets/recognize_1755929175698.py:118-156 | each record carries the image index, the truncated box and the index of a face with non-zero norm |
| Matching.MatchOrdered | attached_assets/recognize_1755929175698.py:118-156 | record face indices are strictly increasing |
| Matching.MatchComplete | attached_assets/recognize_1755929175698.py:118-156 | every face with non-zero norm gets a record, and every record belongs to a face with non-zero norm (zero-norm faces are skipped) |
| Matching.MatchNoReuse | attached_assets/recognize_1755929175698.py:115-159 | within one image no identity is named twice, and none already used is named |
| Matching.MatchConfidence | attached_assets/recognize_1755929175698.py:131-153 | a matched record has confidence above the threshold and above 0 and names a gallery key; with non-empty keys an unmatched record has confidence exactly 0.0 |
| Matching.MatchDecisions | attached_assets/recognize_1755929175698.py:130-159 | each record is the scan's result for its face, excluding exactly the identities matched by the earlier records |
| Matching.EmptyGalleryMatchesNothing | attached_assets/recognize_1755929175698.py:130-153 | with an empty gallery every record is unmatched with confidence 0.0 |
| Recognition.ProcessSingleImage | attached_assets/recognize_1755929175698.py:46-173 | an invalid image gives no records; otherwise pool, deduplicate and match, as specified |
| Recognition.ImageRecordsFacts | attached_assets/recognize_1755929175698.py:114-164 | the records of one image carry its index; matched ones are above the threshold and name gallery keys; no identity repeats |
| Recognition.ImageFiles | attached_assets/recognize_1755929175698.py:325-326 | a listing entry is kept iff its lower-cased name ends in .jpg, .jpeg, .png or .bmp |
| Recognition.ImageFilesCounts | attached_assets/recognize_1755929175698.py:325-326 | the filtered list holds each image name exactly as often as the listing does, and no other name |
| Text.Insert | attached_assets/recognize_1755929175698.py:349 | inserting a name adds exactly that name and keeps the head in place or puts the new name first |
| Text.InsertOrdered | attached_assets/recognize_1755929175698.py:349 | inserting into an ordered list keeps it ordered |
| Text.SortNames | attached_assets/recognize_1755929175698.py:349 | sorting keeps exactly the same names (as a multiset) |
| Text.SortNamesOrdered | attached_assets/recognize_1755929175698.py:349 | sorting yields names in code-point order, as Python's `sorted` on `str` |
| Text.LessEqTotal | attached_assets/recognize_1755929175698.py:349 | any two names are comparable in that order |
| Recognition.Tally | attached_assets/recognize_1755929175698.py:355-361 | counting one image's records adds them to `total_faces`, `recognized_students` and `confidence_scores` as specified |
| Recognition.ProcessImage | attached_assets/recognize_1755929175698.py:350-361 | one iteration appends that image's records to the run and keeps the three totals equal to the tallies of all records so far |
| Recognition.ProcessImages | attached_assets/recognize_1755929175698.py:349-361 | the image loop accumulates the records of every image, processed with its position as index |
| Recognition.Recognize | attached_assets/recognize_1755929175698.py:276-385 | missing model, empty model, missing folder and no images fail in that order; otherwise the summary of the sorted, filtered images |
| Recognition.ErrorMessage | attached_assets/recognize_1755929175698.py:276-338 | every failure carries a non-empty error text |
| Recognition.MatchedConfidences | attached_assets/recognize_1755929175698.py:359-361 | the collected scores are confidences of matched records, at most one per record, and not empty when some record matched |
| Recognition.MatchedConfidencesExact | attached_assets/recognize_1755929175698.py:359-361 | there are exactly as many scores as matched records, and every matched record's confidence is among them |
| Recognition.RecordImageIndices | attached_assets/recognize_1755929175698.py:349-356 | each record's `imageIndex` is the position of its image in the sorted list, it is one of that image's records, and indices never decrease |
| Recognition.RunMatches | attached_assets/recognize_1755929175698.py:349-361 | across the run, matched records are above the threshold and name gallery keys; records of one image never share an identity |
| Recognition.RecognizedAreKnown | attached_assets/recognize_1755929175698.py:359-360 | every recognised student is a key of the trained gallery |
| Recognition.AverageAbove | attached_assets/recognize_1755929175698.py:364 | the mean of scores all above t is above t |
| Recognition.RateWithinUnit | attached_assets/recognize_1755929175698.py:365 | matched/total lies in [0, 1], and is 0 when there are no faces |
| Recognition.ScoresAboveThreshold | attached_assets/recognize_1755929175698.py:359-361 | every collected score is above the threshold and above 0 |
| Recognition.SummaryBounds | attached_assets/recognize_1755929175698.py:355-385 | `totalFaces` counts every record; `processedImages` counts the images; the rate is the number of matched records over `totalFaces`, in [0, 1], and 0 with no faces; the average is 0.0 with no matches and otherwise above the threshold |
| Vectors.DotScale | attached_assets/train_1755929175701.py:95 | scaling a vector by c (as dividing by its norm does) scales its dot product with any vector by c |
| Vectors.MeanPermutation | attached_assets/train_1755929175701.py:94 | the element-wise mean does not depend on the order of the embeddings |
| Vectors.MeanSingleton | attached_assets/train_1755929175701.py:94 | the mean of one embedding is that embedding |
| Gallery.Find | attached_assets/train_1755929175701.py:96 | a lookup fails iff the key is absent; a hit is the value stored under that key |
| Gallery.Put | attached_assets/train_1755929175701.py:96 | assignment adds the key; when the key is present its entry (in a gallery with distinct keys) now holds v in place, first-insertion order kept; otherwise `Entry(k, v)` is appended; other entries are untouched |
| Gallery.PutKeepsKeysDistinct | attached_assets/train_1755929175701.py:96 | assignment never creates a second entry for a key |
| Gallery.FindPut | attached_assets/train_1755929175701.py:96 | after assigning v to k, looking up k gives v and every other key is unchanged |
| Text.LowerIdempotent | attached_assets/train_1755929175701.py:96 | lower-casing a lower-cased name changes nothing |
| Enrollment.FirstFace | attached_assets/train_1755929175701.py:72-73 | at most one embedding per detection, `faces[0]`, and only when a face was found |
| Enrollment.AugEmbedding | attached_assets/train_1755929175701.py:83-85 | a failed augmentation contributes nothing; a successful one at most its `faces[0]` |
| Enrollment.AugEmbeddings | attached_assets/train_1755929175701.py:80-90 | at most one embedding per augmentation attempt |
| Enrollment.ImageEmbeddings | attached_assets/train_1755929175701.py:57-90 | one file yields at most 1 + 2 embeddings |
| Enrollment.ImageContribution | attached_assets/train_1755929175701.py:57-90 | a file contributes at most 3 embeddings, only if it has a training extension and is readable, and each is `faces[0]` of the original or of an augmentation |
| Enrollment.AugEmbeddingsOrigin | attached_assets/train_1755929175701.py:80-90 | each augmentation embedding is the first face of one augmentation |
| Enrollment.CollectAugmentation | attached_assets/train_1755929175701.py:82-88 | one augmentation attempt appends its first face, if any, to the person's list, the vectors and the labels alike |
| Enrollment.PersonCounts | attached_assets/train_1755929175701.py:53-90 | `images_for_person` is at most the number of embeddings collected, which is at most 3 per file |
| Enrollment.CollectImage | attached_assets/train_1755929175701.py:71-90 | one image appends its original's first face, then each augmentation's, to the person's list, the vectors and the labels alike |
| Enrollment.CollectFile | attached_assets/train_1755929175701.py:57-90 | a file with another extension or that cannot be read changes nothing; otherwise its embeddings are appended and its original counted when it had a face |
| Enrollment.CollectPerson | attached_assets/train_1755929175701.py:57-90 | the file loop skips other extensions and unreadable files and collects the specified embeddings, keeping vectors and labels in step |
| Enrollment.TrainEntry | attached_assets/train_1755929175701.py:46-100 | one directory entry moves the enrollment state exactly as the specification step does: a non-directory leaves it unchanged; a directory counts a student and appends its embeddings and labels; the lower-cased name receives the normalised mean only when the person yielded an embedding |
| Enrollment.Train | attached_assets/train_1755929175701.py:20-113 | a missing dataset fails; non-directories are skipped; each contributing person is stored under the lower-cased name; an empty gallery fails |
| Enrollment.EnrolledInvariant | attached_assets/train_1755929175701.py:46-100 | vectors and labels have equal length; `total_students` counts directories; images counted never exceed vectors; gallery keys are distinct and lower-case |
| Enrollment.EnrolledImages | attached_assets/train_1755929175701.py:93-97 | `total_images_processed` is the sum of `images_for_person` over exactly the directories that received a gallery entry |
| Enrollment.StepKeys | attached_assets/train_1755929175701.py:93-100 | one entry adds its lower-cased name to the keys iff it is a directory that yielded embeddings |
| Enrollment.ContributorSplit | attached_assets/train_1755929175701.py:46-100 | a contributing directory for a key is in the earlier entries or is the last entry |
| Enrollment.EnrolledKeys | attached_assets/train_1755929175701.py:46-100 | a key is in the gallery iff some directory with that lower-cased name yielded embeddings |
| Enrollment.EnrolledValue | attached_assets/train_1755929175701.py:93-96 | the value under a key is the normalised mean of the last contributing directory with that lower-cased name |
| Enrollment.TrainFailsWhenNothingCollected | attached_assets/train_1755929175701.py:103-113 | the run fails iff no directory yielded an embedding; a success has a non-empty gallery |
| Enrollment.SingleFaceDirectory | attached_assets/train_1755929175701.py:71-90 | a file whose original has one face and whose augmentations found none contributes just that face |
| Enrollment.CaseCollision | attached_assets/train_1755929175701.py:96 | directories "Alice" then "alice" give a single key "alice" holding the later embedding; both are counted and labelled with their own case |
| Enrollment.EnrollSingleFace | attached_assets/train_1755929175701.py:93-96 | a directory yielding one embedding is stored as that embedding, normalised, under its lower-cased name, with one label and one more student |
| Enrollment.ExampleNames | attached_assets/train_1755929175701.py:58-96 | "Alice" and "alice" both lower-case to "alice"; ".JPG" and ".png" files are accepted for training |

## Left out

- Face detection and embedding are external data. This covers InsightFace `FaceAnalysis` on an image or an augmented copy. The model takes their results as input: the faces of each preprocessing pass, each file's faces and each augmentation's faces.
- Image decoding, colour conversion, PIL enhancement, histogram equalisation and the `imgaug` augmentation pipeline all work on pixels. An image that fails to decode, and a pass or augmentation that raises, are modelled as `InvalidImage`, `PassFailed`, `Unreadable` and `AugFailed`.
- The Euclidean norm is an abstract function parameter, because it is a square root over floats. Enrollment assumes it is positive. Recognition models the zero-norm branch through the norm's value.
- Gallery.Put: the in-place overwrite is stated for galleries with distinct keys. A Python dict cannot hold a key twice, and every gallery enrollment builds has distinct keys (Enrollment.EnrolledInvariant).
- Matching.Cosine: the similarity uses the abstract norm. The model does not prove that `Normalized` produces a unit vector.
- Floating point is modelled with exact reals, so rounding, `float32` storage and nan/inf arithmetic are not captured. A zero norm product in cosine similarity yields no similarity (`None`), which is how nan behaves in the strict comparisons.
- Text.Lower: lower-cases ASCII letters only. Python's `str.lower` also maps other Unicode letters, and the model does not capture that.
- `save_annotated_image` is not part of this model. It draws boxes and labels on the image and saves it, re-running a separate copy of the matching.
- Pickle persistence, JSON printing, logging, `sys.exit` and the t-SNE visualisation are left out. Only their outcomes remain: the error variants `RunError` and `TrainError`, and the `Summary`/`Enrollment` values.
- Broad `except` blocks around a whole image, a single face or a whole run are not modelled. Under this model they cannot fire, because every model operation is total. The exceptions that the model does cover are the pass, augmentation and imread failures above.
- Recognition.Summary: `recognizedStudents` is a set. The order of the source's `list(recognized_students)` is not modelled.
- The directory listing order (`os.listdir`) is taken as given, as the input sequence order.
- Matching.MatchConfidence: the "unmatched ⇒ 0.0" conclusion assumes no gallery key is the empty string. Python treats an empty `best_match` as false. A match on an empty key therefore produces `studentId` None while keeping the matched similarity as confidence.

Two behaviours of the code worth noting:
- An unmatched record reports confidence 0.0, the initial `best_similarity`, even when some gallery entry had a positive similarity at or below the threshold.
- Enrollment takes the first face the detector lists (`faces[0]`) for each image and augmentation, and combines a person's embeddings with the arithmetic mean.
