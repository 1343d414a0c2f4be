/** The verdict on one image: is there exactly one dog, and does it fill enough of the frame?
    (ProcessDogImages.determine_dog_proportion_is_valid and the DogStatus enumeration.) */
module DogStatus {
  import opened Fs

  /** One box from the detector: class id, confidence, and the corners in xyxy order. */
  datatype Detection = Detection(cls: int, conf: real, xmin: real, ymin: real, xmax: real, ymax: real)

  /** The object detector, as a function of the decoded image. */
  type Detector = Image -> seq<Detection>

  /** Class 16 of the detector's label set is "dog". */
  const DogClass: int := 16

  /** NoFile is declared by the source but no path returns it. */
  datatype Status = NoFile | NoDog | TooManyDogs | Valid | Invalid

  /** The constructor arguments of ProcessDogImages; dogThreshold is a percentage. */
  datatype Settings = Settings(confidenceThreshold: real, dogThreshold: real, imageCountMinimum: int)

  const Defaults: Settings := Settings(0.5, 20.0, 10)

  predicate Qualifies(d: Detection, confidenceThreshold: real) {
    d.cls == DogClass && d.conf > confidenceThreshold
  }

  /** dog_results: the detections of class 16 whose confidence is strictly above the threshold,
      each as often as the detector reported it. */
  function DogResults(ds: seq<Detection>, t: real): (r: seq<Detection>)
    ensures |r| <= |ds|
    ensures forall i :: 0 <= i < |r| ==> Qualifies(r[i], t)
  {
    if ds == [] then []
    else (if Qualifies(ds[0], t) then [ds[0]] else []) + DogResults(ds[1..], t)
  }

  /** The filter keeps each qualifying detection as often as the detector reported it, and
      nothing else. */
  lemma {:induction false} DogResultsCounts(ds: seq<Detection>, t: real)
    ensures forall d :: multiset(DogResults(ds, t))[d] == if Qualifies(d, t) then multiset(ds)[d] else 0
    decreases |ds|
  {
    if ds != [] {
      assert ds == [ds[0]] + ds[1..];
      DogResultsCounts(ds[1..], t);
    }
  }

  /** (xmax - xmin) * (ymax - ymin) */
  function DogArea(d: Detection): real {
    (d.xmax - d.xmin) * (d.ymax - d.ymin)
  }

  /** percentage_dog_area > dog_threshold, with percentage_dog_area = dog_area / total_area * 100.
      A zero total area (an image with rows but no columns) makes the tensor division give +inf
      for a positive area and nan or -inf otherwise, so then only a positive area passes. */
  predicate AreaPasses(area: real, totalArea: nat, threshold: real) {
    if totalArea > 0 then area / totalArea as real * 100.0 > threshold else area > 0.0
  }

  /** The verdict once the image is known to have rows: count the qualifying detections first
      and compute an area only when there is exactly one. */
  function Classify(ds: seq<Detection>, img: Image, s: Settings): Status {
    var dogs := DogResults(ds, s.confidenceThreshold);
    if |dogs| > 1 then TooManyDogs
    else if |dogs| == 0 then NoDog
    else if AreaPasses(DogArea(dogs[0]), Height(img) * img.width, s.dogThreshold) then Valid
    else Invalid
  }

  /** determine_dog_proportion_is_valid: an image cv2.imread cannot decode gives None, on which
      len() raises; an image without rows is NO_DOG before the detector runs. */
  function DetermineStatus(file: File, detect: Detector, s: Settings): (r: Result<Status>)
    ensures r.Err? <==> ImRead(file.data).None?
    ensures r.Err? ==> r.fault == Unreadable(file.name)
    ensures r.Ok? ==> r.value != NoFile
    ensures r == Ok(Valid) ==>
              Height(file.data.image) > 0 && |DogResults(detect(file.data.image), s.confidenceThreshold)| == 1
  {
    match ImRead(file.data)
    case None => Err(Unreadable(file.name))
    case Some(img) => if Height(img) == 0 then Ok(NoDog) else Ok(Classify(detect(img), img, s))
  }

  // ---------------------------------------------------------------- the verdict, stated on positions

  /** Two different detections (positions i < j) qualify. */
  predicate TwoQualify(ds: seq<Detection>, t: real) {
    exists i, j :: 0 <= i < j < |ds| && Qualifies(ds[i], t) && Qualifies(ds[j], t)
  }

  /** The detection at position i is the only one that qualifies. */
  predicate OnlyQualifier(ds: seq<Detection>, i: int, t: real) {
    0 <= i < |ds| && Qualifies(ds[i], t) && forall j :: 0 <= j < |ds| && j != i ==> !Qualifies(ds[j], t)
  }

  lemma {:induction false} TwoQualifyCount(ds: seq<Detection>, t: real)
    ensures TwoQualify(ds, t) <==> |DogResults(ds, t)| > 1
    decreases |ds|
  {
    if ds != [] {
      var rest := ds[1..];
      TwoQualifyCount(rest, t);
      NoneQualifies(rest, t);
      TwoQualifyCons(ds, t);
      assert |DogResults(ds, t)| == (if Qualifies(ds[0], t) then 1 else 0) + |DogResults(rest, t)|;
    }
  }

  lemma TwoQualifyCons(ds: seq<Detection>, t: real)
    requires ds != []
    ensures TwoQualify(ds, t) <==>
              (TwoQualify(ds[1..], t) || (Qualifies(ds[0], t) && exists k :: 0 <= k < |ds[1..]| && Qualifies(ds[1..][k], t)))
  {
    var rest := ds[1..];
    assert forall k :: 0 <= k < |rest| ==> rest[k] == ds[k + 1];
    if TwoQualify(ds, t) {
      var i, j :| 0 <= i < j < |ds| && Qualifies(ds[i], t) && Qualifies(ds[j], t);
      if i > 0 {
        assert Qualifies(rest[i - 1], t) && Qualifies(rest[j - 1], t);
      } else {
        assert Qualifies(rest[j - 1], t);
      }
    }
    if TwoQualify(rest, t) {
      var i, j :| 0 <= i < j < |rest| && Qualifies(rest[i], t) && Qualifies(rest[j], t);
      assert Qualifies(ds[i + 1], t) && Qualifies(ds[j + 1], t);
    }
    if Qualifies(ds[0], t) && exists k :: 0 <= k < |rest| && Qualifies(rest[k], t) {
      var k :| 0 <= k < |rest| && Qualifies(rest[k], t);
      assert Qualifies(ds[0], t) && Qualifies(ds[k + 1], t);
    }
  }

  lemma NoneQualifies(ds: seq<Detection>, t: real)
    ensures |DogResults(ds, t)| == 0 <==> forall i :: 0 <= i < |ds| ==> !Qualifies(ds[i], t)
  {
    DogResultsCounts(ds, t);
    var dr := DogResults(ds, t);
    if |dr| > 0 {
      assert dr[0] in multiset(dr);
      assert dr[0] in multiset(ds);
    }
    forall i | 0 <= i < |ds| && Qualifies(ds[i], t) ensures |dr| > 0 {
      assert ds[i] in multiset(ds);
      assert ds[i] in multiset(dr);
    }
  }

  /** With exactly one qualifying detection, it is the one the area test looks at. */
  lemma SingleQualifier(ds: seq<Detection>, t: real)
    ensures |DogResults(ds, t)| == 1 <==> exists i :: OnlyQualifier(ds, i, t)
    ensures forall i :: OnlyQualifier(ds, i, t) ==> DogResults(ds, t) == [ds[i]]
  {
    TwoQualifyCount(ds, t);
    NoneQualifies(ds, t);
    DogResultsCounts(ds, t);
    var dr := DogResults(ds, t);
    if |dr| == 1 {
      assert dr[0] in multiset(dr);
      assert dr[0] in multiset(ds);
      var i :| 0 <= i < |ds| && ds[i] == dr[0];
      assert OnlyQualifier(ds, i, t);
    }
    forall i | OnlyQualifier(ds, i, t) ensures dr == [ds[i]] {
      assert ds[i] in multiset(ds);
      assert ds[i] in multiset(dr);
      assert !TwoQualify(ds, t);
      assert |dr| == 1;
      assert dr[0] in multiset(dr);
    }
  }

  /** The verdict, stated on the detector's output without reference to the filter:
      no qualifying detection gives NO_DOG, two or more give TOO_MANY_DOGS, and exactly one gives
      VALID or INVALID by the strict area test; NO_FILE never comes out. */
  lemma ClassifySpec(ds: seq<Detection>, img: Image, s: Settings)
    ensures Classify(ds, img, s) != NoFile
    ensures Classify(ds, img, s) == NoDog <==> forall i :: 0 <= i < |ds| ==> !Qualifies(ds[i], s.confidenceThreshold)
    ensures Classify(ds, img, s) == TooManyDogs <==> TwoQualify(ds, s.confidenceThreshold)
    ensures Classify(ds, img, s) == Valid <==>
              exists i :: (OnlyQualifier(ds, i, s.confidenceThreshold)
                           && AreaPasses(DogArea(ds[i]), Height(img) * img.width, s.dogThreshold))
    ensures Classify(ds, img, s) == Invalid <==>
              exists i :: (OnlyQualifier(ds, i, s.confidenceThreshold)
                           && !AreaPasses(DogArea(ds[i]), Height(img) * img.width, s.dogThreshold))
  {
    var t := s.confidenceThreshold;
    TwoQualifyCount(ds, t);
    NoneQualifies(ds, t);
    SingleQualifier(ds, t);
  }

  /** Detections of other classes, or not confident enough, never change the verdict. */
  lemma IgnoresNonQualifying(ds: seq<Detection>, extra: Detection, img: Image, s: Settings)
    requires !Qualifies(extra, s.confidenceThreshold)
    ensures Classify(ds + [extra], img, s) == Classify(ds, img, s)
  {
    var t := s.confidenceThreshold;
    DogResultsAppend(ds, [extra], t);
    assert DogResults([extra], t) == [];
    assert DogResults(ds + [extra], t) == DogResults(ds, t);
  }

  lemma {:induction false} DogResultsAppend(a: seq<Detection>, b: seq<Detection>, t: real)
    ensures DogResults(a + b, t) == DogResults(a, t) + DogResults(b, t)
    decreases |a|
  {
    if a == [] {
      assert a + b == b;
    } else {
      assert (a + b)[0] == a[0] && (a + b)[1..] == a[1..] + b;
      DogResultsAppend(a[1..], b, t);
    }
  }

  /** A single dog whose box is the whole frame covers 100% of it, so it is VALID whenever the
      threshold is below 100. */
  lemma FullFrameIsValid(img: Image, d: Detection, s: Settings)
    requires Height(img) > 0 && img.width > 0
    requires Qualifies(d, s.confidenceThreshold)
    requires d.xmin == 0.0 && d.ymin == 0.0 && d.xmax == img.width as real && d.ymax == Height(img) as real
    requires s.dogThreshold < 100.0
    ensures Classify([d], img, s) == Valid
  {
    var total := Height(img) * img.width;
    assert DogResults([d], s.confidenceThreshold) == [d];
    FullFrameArea(img, d);
    var a := DogArea(d);
    assert a / a == 1.0;
  }

  lemma FullFrameArea(img: Image, d: Detection)
    requires Height(img) > 0 && img.width > 0
    requires d.xmin == 0.0 && d.ymin == 0.0 && d.xmax == img.width as real && d.ymax == Height(img) as real
    ensures Height(img) * img.width > 0
    ensures DogArea(d) == (Height(img) * img.width) as real
  {
    var h, w := Height(img), img.width;
    assert (h * w) as real == h as real * w as real;
  }

  /** Raising dog_threshold can only turn VALID into INVALID, never the reverse. */
  lemma ThresholdMonotone(ds: seq<Detection>, img: Image, s: Settings, higher: real)
    requires s.dogThreshold <= higher
    requires Classify(ds, img, s.(dogThreshold := higher)) == Valid
    ensures Classify(ds, img, s) == Valid
  {
  }

  /** An image without rows is NO_DOG, whatever the detector would say. */
  lemma EmptyImageIsNoDog(file: File, detect: Detector, s: Settings)
    requires ImRead(file.data).Some? && Height(file.data.image) == 0
    ensures DetermineStatus(file, detect, s) == Ok(NoDog)
  {
  }
}
