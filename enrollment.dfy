/**
 * Enrollment: one pass over the dataset folder, one sub-directory per
 * person. Each accepted image of a person contributes the embedding of
 * the first face found in it and of the first face found in each of two
 * augmented copies; a person with at least one embedding is stored in
 * the gallery under the lower-cased directory name as the normalised
 * element-wise mean of those embeddings.
 */
module Enrollment {
  import opened Results
  import opened Text
  import opened Vectors
  import opened Gallery

  /** The augmented copies made of every readable image. */
  const AugmentationsPerImage: nat := 2

  /** One augmentation: it raised (and was skipped), or the detector's embeddings for the augmented copy. */
  datatype AugAttempt = AugFailed | AugDetected(faces: seq<Embedding>)

  type AugAttempts = s: seq<AugAttempt> | |s| == AugmentationsPerImage witness [AugFailed, AugFailed]

  /**
   * Reading one image file: unreadable (`cv2.imread` gave None), or the
   * detector's embeddings for the image and the outcome of each
   * augmentation.
   */
  datatype ImageRead = Unreadable | Readable(faces: seq<Embedding>, augmented: AugAttempts)

  datatype ImageFile = ImageFile(name: string, read: ImageRead)

  /** One entry of the dataset folder: its name, whether it is a directory, and its files. */
  datatype DatasetEntry = DatasetEntry(name: string, isDir: bool, files: seq<ImageFile>)

  /** The embedding norm is taken to be positive, so the stored mean can always be normalised. */
  ghost predicate PositiveNorm(norm: Embedding -> real)
  {
    forall v :: norm(v) > 0.0
  }

  /** The file-name test for training images, on the lower-cased name. */
  predicate HasTrainingExtension(name: string)
  {
    var l := Lower(name);
    EndsWith(l, ".jpg") || EndsWith(l, ".jpeg") || EndsWith(l, ".png")
  }

  /** `faces[0]` when a face was found, as a zero- or one-element list. */
  function FirstFace(faces: seq<Embedding>): (r: seq<Embedding>)
    ensures |r| <= 1
    ensures r == [] <==> faces == []
    ensures r != [] ==> r[0] == faces[0]
  {
    if |faces| > 0 then [faces[0]] else []
  }

  /** The embedding one augmentation contributes. */
  function AugEmbedding(a: AugAttempt): (r: seq<Embedding>)
    ensures |r| <= 1
    ensures r != [] ==> a.AugDetected? && a.faces != [] && r[0] == a.faces[0]
  {
    if a.AugDetected? then FirstFace(a.faces) else []
  }

  /** The embeddings of a list of augmentations, in order. */
  function AugEmbeddings(augs: seq<AugAttempt>): (r: seq<Embedding>)
    ensures |r| <= |augs|
    decreases |augs|
  {
    if augs == [] then []
    else
      var n := |augs| - 1;
      AugEmbeddings(augs[..n]) + AugEmbedding(augs[n])
  }

  /** The embeddings one file contributes: none unless it is an accepted, readable image. */
  function ImageEmbeddings(f: ImageFile): (r: seq<Embedding>)
    ensures |r| <= 1 + AugmentationsPerImage
  {
    if !HasTrainingExtension(f.name) || f.read.Unreadable? then []
    else FirstFace(f.read.faces) + AugEmbeddings(f.read.augmented)
  }

  /** `person_embeddings` after all of a person's files. */
  function PersonEmbeddings(files: seq<ImageFile>): seq<Embedding>
    decreases |files|
  {
    if files == [] then []
    else
      var n := |files| - 1;
      PersonEmbeddings(files[..n]) + ImageEmbeddings(files[n])
  }

  /** Whether a file is an accepted, readable image in which the detector found a face. */
  predicate OriginalWithFace(f: ImageFile)
  {
    HasTrainingExtension(f.name) && f.read.Readable? && f.read.faces != []
  }

  /** `images_for_person`: the number of original images in which a face was found. */
  function OriginalsWithFace(files: seq<ImageFile>): nat
    decreases |files|
  {
    if files == [] then 0
    else
      var n := |files| - 1;
      OriginalsWithFace(files[..n]) + (if OriginalWithFace(files[n]) then 1 else 0)
  }

  /** `n` copies of `name`: the labels appended for `n` embeddings of one person. */
  function Repeat(name: string, n: nat): (r: seq<string>)
    ensures |r| == n
    ensures forall i :: 0 <= i < n ==> r[i] == name
  {
    seq(n, _ => name)
  }

  /** The state the enrollment pass keeps: `face_dict`, the flat embedding and label lists and two counters. */
  datatype Enrollment = Enrollment(
    faceDict: Gallery,
    vectors: seq<Embedding>,
    labels: seq<string>,
    totalStudents: nat,
    totalImagesProcessed: nat)

  /** The state after processing one dataset entry. */
  function EnrollStep(st: Enrollment, e: DatasetEntry, norm: Embedding -> real): Enrollment
    requires PositiveNorm(norm)
  {
    if !e.isDir then st
    else
      var pe := PersonEmbeddings(e.files);
      var st' := st.(vectors := st.vectors + pe, labels := st.labels + Repeat(e.name, |pe|),
                     totalStudents := st.totalStudents + 1);
      if pe == [] then st'
      else st'.(faceDict := Put(st.faceDict, Lower(e.name), Normalized(norm, Mean(pe))),
                totalImagesProcessed := st.totalImagesProcessed + OriginalsWithFace(e.files))
  }

  /** The state after processing `entries` in order, from the empty state. */
  function Enrolled(entries: seq<DatasetEntry>, norm: Embedding -> real): Enrollment
    requires PositiveNorm(norm)
    decreases |entries|
  {
    if entries == [] then Enrollment([], [], [], 0, 0)
    else
      var n := |entries| - 1;
      EnrollStep(Enrolled(entries[..n], norm), entries[n], norm)
  }

  datatype TrainError = DatasetMissing | NoFacesDetected

  /** The outcome of a training run: the dataset folder may be missing, and an empty gallery is a failure. */
  function TrainOutcome(dataset: Option<seq<DatasetEntry>>, norm: Embedding -> real): Result<Enrollment, TrainError>
    requires PositiveNorm(norm)
  {
    if dataset.None? then Failure(DatasetMissing)
    else
      var st := Enrolled(dataset.value, norm);
      if st.faceDict == [] then Failure(NoFacesDetected) else Success(st)
  }

  /** Concatenation is associative; called where the solver would otherwise prove it element by element. */
  lemma AppendAssoc<T>(a: seq<T>, b: seq<T>, c: seq<T>)
    ensures (a + b) + c == a + (b + c)
  {
  }

  lemma RepeatAppend(name: string, n: nat, m: nat)
    ensures Repeat(name, n) + Repeat(name, m) == Repeat(name, n + m)
  {
  }

  /** Lines 82-88: one augmentation attempt appends its first face, if any, to all three lists. */
  method CollectAugmentation(personName: string, attempt: AugAttempt,
                             personEmbeddings: seq<Embedding>, vectors: seq<Embedding>, labels: seq<string>)
    returns (personEmbeddings': seq<Embedding>, vectors': seq<Embedding>, labels': seq<string>)
    ensures personEmbeddings' == personEmbeddings + AugEmbedding(attempt)
    ensures vectors' == vectors + AugEmbedding(attempt)
    ensures labels' == labels + Repeat(personName, |AugEmbedding(attempt)|)
  {
    if attempt.AugDetected? && |attempt.faces| > 0 {
      var emb := attempt.faces[0];
      personEmbeddings', vectors', labels' := personEmbeddings + [emb], vectors + [emb], labels + [personName];
    } else {
      personEmbeddings', vectors', labels' := personEmbeddings, vectors, labels;
    }
  }

  /**
   * Lines 71-90: the embeddings of one accepted, readable image are
   * appended to `person_embeddings`, `embedding_vectors` and `labels`.
   */
  method CollectImage(personName: string, read: ImageRead,
                      personEmbeddings: seq<Embedding>, imagesForPerson: nat,
                      vectors: seq<Embedding>, labels: seq<string>)
    returns (personEmbeddings': seq<Embedding>, imagesForPerson': nat,
             vectors': seq<Embedding>, labels': seq<string>)
    requires read.Readable?
    ensures var added := FirstFace(read.faces) + AugEmbeddings(read.augmented);
      && personEmbeddings' == personEmbeddings + added
      && vectors' == vectors + added
      && labels' == labels + Repeat(personName, |added|)
    ensures imagesForPerson' == imagesForPerson + (if read.faces != [] then 1 else 0)
  {
    personEmbeddings', imagesForPerson', vectors', labels' := personEmbeddings, imagesForPerson, vectors, labels;
    var faces := read.faces;
    if |faces| > 0 {
      var emb := faces[0];
      personEmbeddings' := personEmbeddings' + [emb];
      vectors' := vectors' + [emb];
      labels' := labels' + [personName];
      imagesForPerson' := imagesForPerson' + 1;
    }
    ghost var first := FirstFace(faces);
    assert labels' == labels + Repeat(personName, |first|);
    ghost var p0, v0, l0 := personEmbeddings', vectors', labels';
    var augs := read.augmented;
    for augIdx := 0 to AugmentationsPerImage
      invariant personEmbeddings' == p0 + AugEmbeddings(augs[..augIdx])
      invariant vectors' == v0 + AugEmbeddings(augs[..augIdx])
      invariant labels' == l0 + Repeat(personName, |AugEmbeddings(augs[..augIdx])|)
    {
      assert augs[..augIdx + 1][..augIdx] == augs[..augIdx];
      ghost var done := AugEmbeddings(augs[..augIdx]);
      ghost var one := AugEmbedding(augs[augIdx]);
      assert AugEmbeddings(augs[..augIdx + 1]) == done + one;
      personEmbeddings', vectors', labels' :=
        CollectAugmentation(personName, augs[augIdx], personEmbeddings', vectors', labels');
      AppendAssoc(p0, done, one);
      AppendAssoc(v0, done, one);
      AppendAssoc(l0, Repeat(personName, |done|), Repeat(personName, |one|));
      RepeatAppend(personName, |done|, |one|);
    }
    assert augs[..AugmentationsPerImage] == augs;
    ghost var rest := AugEmbeddings(augs);
    AppendAssoc(personEmbeddings, first, rest);
    AppendAssoc(vectors, first, rest);
    AppendAssoc(labels, Repeat(personName, |first|), Repeat(personName, |rest|));
    RepeatAppend(personName, |first|, |rest|);
  }

  /**
   * Lines 57-90 for one file: a name without a training extension or an
   * unreadable file is skipped, otherwise its embeddings are collected.
   */
  method CollectFile(personName: string, f: ImageFile,
                     personEmbeddings: seq<Embedding>, imagesForPerson: nat,
                     vectors: seq<Embedding>, labels: seq<string>)
    returns (personEmbeddings': seq<Embedding>, imagesForPerson': nat,
             vectors': seq<Embedding>, labels': seq<string>)
    ensures personEmbeddings' == personEmbeddings + ImageEmbeddings(f)
    ensures imagesForPerson' == imagesForPerson + (if OriginalWithFace(f) then 1 else 0)
    ensures vectors' == vectors + ImageEmbeddings(f)
    ensures labels' == labels + Repeat(personName, |ImageEmbeddings(f)|)
  {
    if !HasTrainingExtension(f.name) || f.read.Unreadable? {
      return personEmbeddings, imagesForPerson, vectors, labels;
    }
    personEmbeddings', imagesForPerson', vectors', labels' :=
      CollectImage(personName, f.read, personEmbeddings, imagesForPerson, vectors, labels);
  }

  /** Lines 57-90: the files of one person directory are scanned in listing order. */
  method CollectPerson(personName: string, files: seq<ImageFile>, vectors: seq<Embedding>, labels: seq<string>)
    returns (personEmbeddings: seq<Embedding>, imagesForPerson: nat,
             vectors': seq<Embedding>, labels': seq<string>)
    ensures personEmbeddings == PersonEmbeddings(files)
    ensures imagesForPerson == OriginalsWithFace(files)
    ensures vectors' == vectors + personEmbeddings
    ensures labels' == labels + Repeat(personName, |personEmbeddings|)
  {
    personEmbeddings, imagesForPerson, vectors', labels' := [], 0, vectors, labels;
    for i := 0 to |files|
      invariant personEmbeddings == PersonEmbeddings(files[..i])
      invariant imagesForPerson == OriginalsWithFace(files[..i])
      invariant vectors' == vectors + personEmbeddings
      invariant labels' == labels + Repeat(personName, |personEmbeddings|)
    {
      assert files[..i + 1][..i] == files[..i];
      ghost var before := personEmbeddings;
      ghost var added := ImageEmbeddings(files[i]);
      assert PersonEmbeddings(files[..i + 1]) == before + added;
      personEmbeddings, imagesForPerson, vectors', labels' :=
        CollectFile(personName, files[i], personEmbeddings, imagesForPerson, vectors', labels');
      AppendAssoc(vectors, before, added);
      AppendAssoc(labels, Repeat(personName, |before|), Repeat(personName, |added|));
      RepeatAppend(personName, |before|, |added|);
    }
    assert files[..|files|] == files;
  }

  /** One pass of the loop over the dataset directory: enrolls one person if the entry is a directory. */
  method TrainEntry(entry: DatasetEntry, norm: Embedding -> real, faceDict: Gallery, vectors: seq<Embedding>,
                    labels: seq<string>, totalStudents: nat, totalImagesProcessed: nat)
    returns (faceDict': Gallery, vectors': seq<Embedding>, labels': seq<string>,
             totalStudents': nat, totalImagesProcessed': nat)
    requires PositiveNorm(norm)
    ensures Enrollment(faceDict', vectors', labels', totalStudents', totalImagesProcessed')
         == EnrollStep(Enrollment(faceDict, vectors, labels, totalStudents, totalImagesProcessed), entry, norm)
  {
    faceDict', vectors', labels', totalStudents', totalImagesProcessed' :=
      faceDict, vectors, labels, totalStudents, totalImagesProcessed;
    if !entry.isDir {
      return;
    }
    totalStudents' := totalStudents + 1;
    var personEmbeddings, imagesForPerson;
    personEmbeddings, imagesForPerson, vectors', labels' := CollectPerson(entry.name, entry.files, vectors, labels);
    if |personEmbeddings| > 0 {
      var avgEmbedding := Mean(personEmbeddings);
      avgEmbedding := Normalized(norm, avgEmbedding);
      faceDict' := Put(faceDict, Lower(entry.name), avgEmbedding);
      totalImagesProcessed' := totalImagesProcessed + imagesForPerson;
    }
  }

  /**
   * Lines 17-113 of `main`: every directory of the dataset is enrolled in
   * listing order, then the run fails when no person received an entry.
   */
  method Train(dataset: Option<seq<DatasetEntry>>, norm: Embedding -> real)
    returns (r: Result<Enrollment, TrainError>)
    requires PositiveNorm(norm)
    ensures r == TrainOutcome(dataset, norm)
  {
    if dataset.None? {
      return Failure(DatasetMissing);
    }
    var entries := dataset.value;
    var faceDict: Gallery := [];
    var vectors: seq<Embedding> := [];
    var labels: seq<string> := [];
    var totalStudents := 0;
    var totalImagesProcessed := 0;
    for i := 0 to |entries|
      invariant Enrollment(faceDict, vectors, labels, totalStudents, totalImagesProcessed)
             == Enrolled(entries[..i], norm)
    {
      assert entries[..i + 1][..i] == entries[..i];
      assert Enrolled(entries[..i + 1], norm) == EnrollStep(Enrolled(entries[..i], norm), entries[i], norm);
      faceDict, vectors, labels, totalStudents, totalImagesProcessed :=
        TrainEntry(entries[i], norm, faceDict, vectors, labels, totalStudents, totalImagesProcessed);
    }
    assert entries[..|entries|] == entries;
    if faceDict == [] {
      return Failure(NoFacesDetected);
    }
    r := Success(Enrollment(faceDict, vectors, labels, totalStudents, totalImagesProcessed));
  }

  /** Every embedding of a list of augmentations is the first face of one of them. */
  lemma {:induction false} AugEmbeddingsOrigin(augs: seq<AugAttempt>)
    ensures forall e :: e in AugEmbeddings(augs) ==>
      exists k :: 0 <= k < |augs| && augs[k].AugDetected? && augs[k].faces != [] && e == augs[k].faces[0]
    decreases |augs|
  {
    if augs != [] {
      var n := |augs| - 1;
      AugEmbeddingsOrigin(augs[..n]);
      forall e | e in AugEmbeddings(augs)
        ensures exists k :: 0 <= k < |augs| && augs[k].AugDetected? && augs[k].faces != [] && e == augs[k].faces[0]
      {
        if e in AugEmbeddings(augs[..n]) {
          var k :| 0 <= k < n && augs[..n][k].AugDetected? && augs[..n][k].faces != [] && e == augs[..n][k].faces[0];
          assert augs[k] == augs[..n][k];
        } else {
          assert e in AugEmbedding(augs[n]);
        }
      }
    }
  }

  /**
   * One file contributes at most one embedding per detection (original
   * plus two augmentations), only when it is an accepted, readable image,
   * and only `faces[0]` of any detection; the original's first face comes
   * first.
   */
  lemma ImageContribution(f: ImageFile)
    ensures |ImageEmbeddings(f)| <= 1 + AugmentationsPerImage
    ensures ImageEmbeddings(f) != [] ==> HasTrainingExtension(f.name) && f.read.Readable?
    ensures OriginalWithFace(f) ==> ImageEmbeddings(f)[0] == f.read.faces[0]
    ensures forall e :: e in ImageEmbeddings(f) ==>
      (f.read.faces != [] && e == f.read.faces[0]) ||
      (exists k :: 0 <= k < AugmentationsPerImage && f.read.augmented[k].AugDetected? &&
         f.read.augmented[k].faces != [] && e == f.read.augmented[k].faces[0])
  {
    if HasTrainingExtension(f.name) && f.read.Readable? {
      AugEmbeddingsOrigin(f.read.augmented);
    }
  }

  /**
   * `images_for_person` never exceeds the number of embeddings collected
   * for the person, which is at most three per file.
   */
  lemma {:induction false} PersonCounts(files: seq<ImageFile>)
    ensures OriginalsWithFace(files) <= |PersonEmbeddings(files)|
    ensures |PersonEmbeddings(files)| <= (1 + AugmentationsPerImage) * |files|
    decreases |files|
  {
    if files != [] {
      var n := |files| - 1;
      PersonCounts(files[..n]);
      ImageContribution(files[n]);
    }
  }

  /** A directory that yields at least one embedding: it gets a gallery entry. */
  predicate Contributes(e: DatasetEntry)
  {
    e.isDir && PersonEmbeddings(e.files) != []
  }

  /** The number of directories among `entries`. */
  function DirCount(entries: seq<DatasetEntry>): nat
    decreases |entries|
  {
    if entries == [] then 0
    else
      var n := |entries| - 1;
      DirCount(entries[..n]) + (if entries[n].isDir then 1 else 0)
  }

  /** `images_for_person` summed over the directories that received a gallery entry. */
  function ContribImages(entries: seq<DatasetEntry>): nat
    decreases |entries|
  {
    if entries == [] then 0
    else
      var n := |entries| - 1;
      ContribImages(entries[..n]) + (if Contributes(entries[n]) then OriginalsWithFace(entries[n].files) else 0)
  }

  /**
   * `total_images_processed` grows only for a directory that received a
   * gallery entry, and then by its `images_for_person`.
   */
  lemma {:induction false} EnrolledImages(entries: seq<DatasetEntry>, norm: Embedding -> real)
    requires PositiveNorm(norm)
    ensures Enrolled(entries, norm).totalImagesProcessed == ContribImages(entries)
    decreases |entries|
  {
    if entries != [] {
      var n := |entries| - 1;
      EnrolledImages(entries[..n], norm);
      assert Enrolled(entries, norm) == EnrollStep(Enrolled(entries[..n], norm), entries[n], norm);
    }
  }

  /**
   * What the pass keeps in step: as many labels as vectors, one count per
   * directory, no more images counted than vectors collected, and a
   * gallery whose keys are distinct and lower-case.
   */
  lemma {:induction false} EnrolledInvariant(entries: seq<DatasetEntry>, norm: Embedding -> real)
    requires PositiveNorm(norm)
    ensures |Enrolled(entries, norm).vectors| == |Enrolled(entries, norm).labels|
    ensures Enrolled(entries, norm).totalStudents == DirCount(entries)
    ensures Enrolled(entries, norm).totalImagesProcessed <= |Enrolled(entries, norm).vectors|
    ensures DistinctKeys(Enrolled(entries, norm).faceDict)
    ensures forall i :: 0 <= i < |Enrolled(entries, norm).faceDict| ==>
      Lower(Enrolled(entries, norm).faceDict[i].key) == Enrolled(entries, norm).faceDict[i].key
    decreases |entries|
  {
    if entries != [] {
      var n := |entries| - 1;
      var e := entries[n];
      var prev := Enrolled(entries[..n], norm);
      EnrolledInvariant(entries[..n], norm);
      assert Enrolled(entries, norm) == EnrollStep(prev, e, norm);
      if Contributes(e) {
        var g := Put(prev.faceDict, Lower(e.name), Normalized(norm, Mean(PersonEmbeddings(e.files))));
        PutKeepsKeysDistinct(prev.faceDict, Lower(e.name), Normalized(norm, Mean(PersonEmbeddings(e.files))));
        PersonCounts(e.files);
        LowerIdempotent(e.name);
        forall i | 0 <= i < |g|
          ensures Lower(g[i].key) == g[i].key
        {
          if i < |prev.faceDict| {
            assert g[i].key == prev.faceDict[i].key;
          } else {
            assert g[i].key in Keys(g);
          }
        }
      }
    }
  }

  /** The keys after one entry: a contributing directory adds its lower-cased name. */
  lemma StepKeys(st: Enrollment, e: DatasetEntry, norm: Embedding -> real)
    requires PositiveNorm(norm)
    ensures Keys(EnrollStep(st, e, norm).faceDict)
         == if Contributes(e) then Keys(st.faceDict) + {Lower(e.name)} else Keys(st.faceDict)
  {
  }

  /** Some directory among `entries` maps to key `k` and yields embeddings. */
  predicate HasContributor(entries: seq<DatasetEntry>, k: string)
  {
    exists i :: 0 <= i < |entries| && Contributes(entries[i]) && Lower(entries[i].name) == k
  }

  lemma ContributorInPrefix(entries: seq<DatasetEntry>, k: string, n: nat)
    requires n <= |entries| && HasContributor(entries[..n], k)
    ensures HasContributor(entries, k)
  {
    var i :| 0 <= i < n && Contributes(entries[..n][i]) && Lower(entries[..n][i].name) == k;
    assert entries[i] == entries[..n][i];
  }

  lemma ContributorSplit(entries: seq<DatasetEntry>, k: string)
    requires entries != []
    ensures HasContributor(entries, k) <==>
      HasContributor(entries[..|entries| - 1], k) ||
      (Contributes(entries[|entries| - 1]) && Lower(entries[|entries| - 1].name) == k)
  {
    var n := |entries| - 1;
    if HasContributor(entries, k) {
      var i :| 0 <= i < |entries| && Contributes(entries[i]) && Lower(entries[i].name) == k;
      if i < n {
        assert entries[..n][i] == entries[i];
      }
    }
    if HasContributor(entries[..n], k) {
      ContributorInPrefix(entries, k, n);
    }
  }

  /**
   * A key is in the gallery exactly when some directory with that
   * lower-cased name yielded at least one embedding: a directory without
   * embeddings, or an entry that is not a directory, adds no key.
   */
  lemma {:induction false} EnrolledKeys(entries: seq<DatasetEntry>, norm: Embedding -> real, k: string)
    requires PositiveNorm(norm)
    ensures k in Keys(Enrolled(entries, norm).faceDict) <==> HasContributor(entries, k)
    decreases |entries|
  {
    if entries != [] {
      var n := |entries| - 1;
      var pre := entries[..n];
      EnrolledKeys(pre, norm, k);
      assert Enrolled(entries, norm) == EnrollStep(Enrolled(pre, norm), entries[n], norm);
      StepKeys(Enrolled(pre, norm), entries[n], norm);
      ContributorSplit(entries, k);
    }
  }

  /**
   * The value under a key is the normalised mean of the embeddings of the
   * last directory, in listing order, that maps to that key and yielded
   * embeddings: a later directory whose name differs only in case
   * overwrites an earlier one.
   */
  lemma {:induction false} EnrolledValue(entries: seq<DatasetEntry>, norm: Embedding -> real, i: nat)
    requires PositiveNorm(norm)
    requires i < |entries| && Contributes(entries[i])
    requires forall j :: i < j < |entries| && Contributes(entries[j]) ==> Lower(entries[j].name) != Lower(entries[i].name)
    ensures Find(Enrolled(entries, norm).faceDict, Lower(entries[i].name))
         == Some(Normalized(norm, Mean(PersonEmbeddings(entries[i].files))))
    decreases |entries|
  {
    var n := |entries| - 1;
    var pre := entries[..n];
    var prev := Enrolled(pre, norm);
    var k := Lower(entries[i].name);
    assert Enrolled(entries, norm) == EnrollStep(prev, entries[n], norm);
    EnrolledInvariant(pre, norm);
    if i < n {
      assert pre[i] == entries[i];
      EnrolledValue(pre, norm, i);
      if Contributes(entries[n]) {
        FindPut(prev.faceDict, Lower(entries[n].name), Normalized(norm, Mean(PersonEmbeddings(entries[n].files))), k);
      }
    } else {
      FindPut(prev.faceDict, k, Normalized(norm, Mean(PersonEmbeddings(entries[n].files))), k);
    }
  }

  /** A run fails with "no faces" exactly when no directory yielded an embedding. */
  lemma TrainFailsWhenNothingCollected(entries: seq<DatasetEntry>, norm: Embedding -> real)
    requires PositiveNorm(norm)
    ensures TrainOutcome(Some(entries), norm) == Failure(NoFacesDetected) <==>
      forall i :: 0 <= i < |entries| ==> !Contributes(entries[i])
    ensures TrainOutcome(Some(entries), norm).Success? ==> |TrainOutcome(Some(entries), norm).value.faceDict| > 0
  {
    var g := Enrolled(entries, norm).faceDict;
    if g != [] {
      assert g[0].key in Keys(g);
      EnrolledKeys(entries, norm, g[0].key);
    } else {
      forall i | 0 <= i < |entries|
        ensures !Contributes(entries[i])
      {
        EnrolledKeys(entries, norm, Lower(entries[i].name));
      }
    }
  }

  /** The file names of the example below pass the extension test, whatever their case. */
  lemma ExampleNames()
    ensures Lower("Alice") == "alice" && Lower("alice") == "alice"
    ensures HasTrainingExtension("a.JPG") && HasTrainingExtension("b.png")
  {
    assert Lower("a.JPG") == "a.jpg";
    assert "a.jpg"[5 - 4..] == ".jpg";
    assert Lower("b.png") == "b.png";
    assert "b.png"[5 - 4..] == ".png";
  }

  /** A directory holding one file whose original has face `e` and whose augmentations found none. */
  lemma SingleFaceDirectory(name: string, fileName: string, e: Embedding, augs: AugAttempts)
    requires HasTrainingExtension(fileName)
    requires forall k :: 0 <= k < AugmentationsPerImage ==> augs[k].AugFailed? || augs[k].faces == []
    ensures PersonEmbeddings([ImageFile(fileName, Readable([e], augs))]) == [e]
    ensures OriginalsWithFace([ImageFile(fileName, Readable([e], augs))]) == 1
  {
    AugEmbeddingsOrigin(augs);
    var f := ImageFile(fileName, Readable([e], augs));
    assert forall x :: x !in AugEmbeddings(augs);
    assert [f][..0] == [];
  }

  /** A directory whose files yield exactly one embedding `e` is stored as the normalised `e` under its lower-cased name. */
  lemma EnrollSingleFace(st: Enrollment, d: DatasetEntry, e: Embedding, norm: Embedding -> real)
    requires PositiveNorm(norm) && d.isDir && PersonEmbeddings(d.files) == [e]
    ensures EnrollStep(st, d, norm).faceDict == Put(st.faceDict, Lower(d.name), Normalized(norm, e))
    ensures EnrollStep(st, d, norm).labels == st.labels + [d.name]
    ensures EnrollStep(st, d, norm).totalStudents == st.totalStudents + 1
  {
    MeanSingleton(e);
    assert Repeat(d.name, 1) == [d.name];
  }

  /** Enrolling two entries is two steps from the empty state. */
  lemma EnrolledTwo(d1: DatasetEntry, d2: DatasetEntry, norm: Embedding -> real)
    requires PositiveNorm(norm)
    ensures Enrolled([d1, d2], norm) == EnrollStep(EnrollStep(Enrollment([], [], [], 0, 0), d1, norm), d2, norm)
  {
    assert [d1, d2][..1] == [d1];
    assert [d1][..0] == [];
    assert Enrolled([d1, d2], norm) == EnrollStep(Enrolled([d1], norm), d2, norm);
    assert Enrolled([d1], norm) == EnrollStep(Enrolled([], norm), d1, norm);
  }

  /**
   * Two directories "Alice" and "alice", each with one image yielding a
   * face only in the original, produce a single key "alice" holding the
   * later directory's embedding, normalised; both are counted as students
   * and their labels keep the directory names' case.
   */
  lemma CaseCollision(norm: Embedding -> real, e1: Embedding, e2: Embedding)
    requires PositiveNorm(norm)
    ensures var entries := [
        DatasetEntry("Alice", true, [ImageFile("a.JPG", Readable([e1], [AugFailed, AugDetected([])]))]),
        DatasetEntry("alice", true, [ImageFile("b.png", Readable([e2], [AugFailed, AugFailed]))])];
      && Keys(Enrolled(entries, norm).faceDict) == {"alice"}
      && |Enrolled(entries, norm).faceDict| == 1
      && Find(Enrolled(entries, norm).faceDict, "alice") == Some(Normalized(norm, e2))
      && Enrolled(entries, norm).totalStudents == 2
      && Enrolled(entries, norm).labels == ["Alice", "alice"]
  {
    var d1 := DatasetEntry("Alice", true, [ImageFile("a.JPG", Readable([e1], [AugFailed, AugDetected([])]))]);
    var d2 := DatasetEntry("alice", true, [ImageFile("b.png", Readable([e2], [AugFailed, AugFailed]))]);
    var entries := [d1, d2];
    var st0 := Enrollment([], [], [], 0, 0);
    var st1 := EnrollStep(st0, d1, norm);
    EnrolledTwo(d1, d2, norm);
    ExampleNames();
    SingleFaceDirectory("Alice", "a.JPG", e1, [AugFailed, AugDetected([])]);
    SingleFaceDirectory("alice", "b.png", e2, [AugFailed, AugFailed]);
    EnrollSingleFace(st0, d1, e1, norm);
    EnrollSingleFace(st1, d2, e2, norm);
    assert |st1.faceDict| == 1 && Keys(st1.faceDict) == {"alice"};
    OverwriteOnlyKey(st1.faceDict, "alice", Normalized(norm, e2));
  }

  /** Assigning to the only key of a one-entry gallery keeps one entry and stores the new value. */
  lemma OverwriteOnlyKey(g: Gallery, k: string, v: Embedding)
    requires |g| == 1 && Keys(g) == {k}
    ensures Keys(Put(g, k, v)) == {k} && |Put(g, k, v)| == 1 && Find(Put(g, k, v), k) == Some(v)
  {
    FindPut(g, k, v, k);
  }
}
