/** Crop: cut the first detected dog out of every image, either over the image itself
    (process_single_directory) or into a mirrored output tree (process_directories). */
module Crop {
  import opened Fs
  import opened Naming
  import opened DogStatus

  /** The detector run on whatever cv2.imread returned (the detector is still called when the
      read failed). */
  type Model = Option<Image> -> seq<Detection>

  /** The four integers get_dog_xy returns, in its order: xmin, xmax, ymin, ymax. */
  datatype Coords = Coords(xmin: int, xmax: int, ymin: int, ymax: int)

  // ---------------------------------------------------------------- get_dog_xy

  /** The position of the first class-16 detection, whatever its confidence. */
  function FirstDog(ds: seq<Detection>): (r: Option<nat>)
    ensures r.None? <==> forall i :: 0 <= i < |ds| ==> ds[i].cls != DogClass
    ensures r.Some? ==> r.value < |ds| && ds[r.value].cls == DogClass
    ensures r.Some? ==> forall j :: 0 <= j < r.value ==> ds[j].cls != DogClass
    decreases |ds|
  {
    if ds == [] then None
    else if ds[0].cls == DogClass then Some(0)
    else match FirstDog(ds[1..])
      case None =>
        assert forall i :: 1 <= i < |ds| ==> ds[i] == ds[1..][i - 1];
        None
      case Some(i) =>
        assert forall j :: 1 <= j < i + 1 ==> ds[j] == ds[1..][j - 1];
        Some(i + 1)
  }

  /** get_dog_xy: the corners of the first dog box, each truncated toward zero by int();
      None (the IndexError caught by the handler) when there is no class-16 detection. */
  function GetDogXY(ds: seq<Detection>): (r: Option<Coords>)
    ensures r.None? <==> forall i :: 0 <= i < |ds| ==> ds[i].cls != DogClass
    ensures r.Some? ==>
              exists i :: 0 <= i < |ds| && ds[i].cls == DogClass
                && (forall j :: 0 <= j < i ==> ds[j].cls != DogClass)
                && r.value == Coords(Trunc(ds[i].xmin), Trunc(ds[i].xmax), Trunc(ds[i].ymin), Trunc(ds[i].ymax))
  {
    match FirstDog(ds)
    case None => None
    case Some(i) => Some(Coords(Trunc(ds[i].xmin), Trunc(ds[i].xmax), Trunc(ds[i].ymin), Trunc(ds[i].ymax)))
  }

  /** Confidence plays no part in the choice: a detection list that differs only in the
      confidences gives the same box. */
  lemma GetDogXYIgnoresConfidence(ds: seq<Detection>, es: seq<Detection>)
    requires |ds| == |es|
    requires forall i :: 0 <= i < |ds| ==> es[i] == ds[i].(conf := es[i].conf)
    ensures GetDogXY(es) == GetDogXY(ds)
  {
    FirstDogIgnoresConfidence(ds, es);
  }

  lemma {:induction false} FirstDogIgnoresConfidence(ds: seq<Detection>, es: seq<Detection>)
    requires |ds| == |es|
    requires forall i :: 0 <= i < |ds| ==> es[i] == ds[i].(conf := es[i].conf)
    ensures FirstDog(es) == FirstDog(ds)
    decreases |ds|
  {
    if ds != [] {
      assert es[0].cls == ds[0].cls;
      assert forall i :: 0 <= i < |ds| - 1 ==> es[1..][i] == es[i + 1] && ds[1..][i] == ds[i + 1];
      FirstDogIgnoresConfidence(ds[1..], es[1..]);
    }
  }

  // ---------------------------------------------------------------- slicing

  /** s[lo:hi] of a sequence of length n takes the positions start..stop. */
  function Span(lo: int, hi: int, n: nat): (r: (nat, nat))
    ensures r.0 <= r.1 <= n
    ensures r.0 == SliceBound(lo, n)
    ensures r.1 - r.0 == if SliceBound(hi, n) > SliceBound(lo, n) then SliceBound(hi, n) - SliceBound(lo, n) else 0
  {
    var start, stop := SliceBound(lo, n), SliceBound(hi, n);
    (start, if stop < start then start else stop)
  }

  /** image[ymin:ymax, xmin:xmax]: the rows of the row slice, each cut to the column slice. */
  function CropImage(img: Image, c: Coords): (r: Image)
    ensures Height(r) == Span(c.ymin, c.ymax, Height(img)).1 - Span(c.ymin, c.ymax, Height(img)).0
    ensures r.width == Span(c.xmin, c.xmax, img.width).1 - Span(c.xmin, c.xmax, img.width).0
    ensures forall y, x :: 0 <= y < Height(r) && 0 <= x < r.width ==>
              r.rows[y][x] == img.rows[Span(c.ymin, c.ymax, Height(img)).0 + y][Span(c.xmin, c.xmax, img.width).0 + x]
  {
    var ys := Span(c.ymin, c.ymax, Height(img));
    var xs := Span(c.xmin, c.xmax, img.width);
    var rows := seq(ys.1 - ys.0, y requires 0 <= y < ys.1 - ys.0 => img.rows[ys.0 + y][xs.0..xs.1]);
    assert forall y :: 0 <= y < |rows| ==> |rows[y]| == xs.1 - xs.0;
    Raster(xs.1 - xs.0, rows)
  }

  /** With non-negative bounds the crop has max(0, min(ymax, H) - min(ymin, H)) rows and
      max(0, min(xmax, W) - min(xmin, W)) columns, and its cell (y, x) is the original
      cell (ymin + y, xmin + x). */
  lemma CropNonNegative(img: Image, c: Coords)
    requires 0 <= c.xmin && 0 <= c.xmax && 0 <= c.ymin && 0 <= c.ymax
    ensures Height(CropImage(img, c)) == Gap(Min(c.ymin, Height(img)), Min(c.ymax, Height(img)))
    ensures CropImage(img, c).width == Gap(Min(c.xmin, img.width), Min(c.xmax, img.width))
    ensures forall y, x :: 0 <= y < Height(CropImage(img, c)) && 0 <= x < CropImage(img, c).width ==>
              CropImage(img, c).rows[y][x] == img.rows[c.ymin + y][c.xmin + x]
  {
  }

  function Min(a: int, b: int): int {
    if a < b then a else b
  }

  /** max(0, b - a) */
  function Gap(a: int, b: int): nat {
    if b > a then b - a else 0
  }

  /** A box covering the whole frame crops out the image itself. */
  lemma CropWholeFrame(img: Image)
    ensures CropImage(img, Coords(0, img.width, 0, Height(img))) == img
  {
    var r := CropImage(img, Coords(0, img.width, 0, Height(img)));
    assert forall y :: 0 <= y < Height(img) ==> img.rows[y][0..img.width] == img.rows[y];
    assert r.rows == img.rows;
  }

  // ---------------------------------------------------------------- crop_dog_out_of_image

  /** crop_dog_out_of_image: None when the detector finds no dog; otherwise the file is read
      again and sliced, and slicing None (a file cv2.imread cannot decode) raises TypeError. */
  function CropDogOut(file: File, model: Model): (r: Result<Option<Image>>)
    ensures r == Ok(None) <==> GetDogXY(model(ImRead(file.data))).None?
    ensures r.Err? <==> GetDogXY(model(ImRead(file.data))).Some? && ImRead(file.data).None?
    ensures r.Err? ==> r.fault == Unreadable(file.name)
    ensures r.Ok? && r.value.Some? ==>
              r.value == Some(CropImage(ImRead(file.data).value, GetDogXY(model(ImRead(file.data))).value))
  {
    match GetDogXY(model(ImRead(file.data)))
    case None => Ok(None)
    case Some(c) =>
      match ImRead(file.data)
      case None => Err(Unreadable(file.name))
      case Some(img) => Ok(Some(CropImage(img, c)))
  }

  /** cv2.imwrite refuses None and an image with no rows or no columns. */
  function ImWrite(name: Name, c: Option<Image>): (r: Result<Image>)
    ensures r.Ok? <==> c.Some? && !IsEmptyImage(c.value)
    ensures r.Ok? ==> r.value == c.value
    ensures c.None? ==> r == Err(NothingToWrite(name))
    ensures c.Some? && IsEmptyImage(c.value) ==> r == Err(EmptyImage(name))
  {
    match c
    case None => Err(NothingToWrite(name))
    case Some(img) => if IsEmptyImage(img) then Err(EmptyImage(name)) else Ok(img)
  }

  /** What crop_dog_out_of_image gives for a file: its crop, None, or the exception. */
  type Cropper = File -> Result<Option<Image>>

  /** What the directory loops do with a listing: the names they take up (pick), and what
      crop_dog_out_of_image gives for each file taken up (crop). */
  datatype Job = Job(pick: Name -> bool, crop: Cropper)

  /** The directory loops of Crop: case-sensitive .jpg/.jpeg names, cropped with the detector. */
  function JobOf(model: Model): (r: Job)
    ensures forall n :: r.pick(n) == IsCropTarget(n)
    ensures forall x :: r.crop(x) == CropDogOut(x, model)
  {
    Job(n => IsCropTarget(n), x => CropDogOut(x, model))
  }

  /** Cropping a file and handing the result to cv2.imwrite: the image written, or the exception. */
  function Saved(crop: Cropper, file: File): Result<Image> {
    match crop(file)
    case Err(e) => Err(e)
    case Ok(c) => ImWrite(file.name, c)
  }

  /** The crop of a file is written exactly when the detector finds a dog, the file decodes and
      the crop has rows and columns; what is written is that crop. */
  lemma SavedSpec(file: File, model: Model)
    ensures Saved(JobOf(model).crop, file).Ok? <==>
              GetDogXY(model(ImRead(file.data))).Some? && ImRead(file.data).Some?
              && !IsEmptyImage(CropImage(ImRead(file.data).value, GetDogXY(model(ImRead(file.data))).value))
    ensures Saved(JobOf(model).crop, file).Ok? ==>
              Saved(JobOf(model).crop, file).value == CropImage(ImRead(file.data).value, GetDogXY(model(ImRead(file.data))).value)
    ensures GetDogXY(model(ImRead(file.data))).Some? && ImRead(file.data).None? ==>
              Saved(JobOf(model).crop, file) == Err(Unreadable(file.name))
  {
  }

  /** No dog found is not a skip: the None that comes back is handed to cv2.imwrite. */
  lemma NoDogIsFault(file: File, model: Model)
    requires forall i :: 0 <= i < |model(ImRead(file.data))| ==> model(ImRead(file.data))[i].cls != DogClass
    ensures CropDogOut(file, model) == Ok(None)
    ensures Saved(JobOf(model).crop, file) == Err(NothingToWrite(file.name))
  {
  }

  // ---------------------------------------------------------------- the image files of a listing

  /** file.suffix in ['.jpg', '.jpeg'], case-sensitive, tested character by character. */
  predicate IsCropTarget(n: Name) {
    var x := Suffix(n);
    || (|x| == 4 && x[1] == 'j' && x[2] == 'p' && x[3] == 'g')
    || (|x| == 5 && x[1] == 'j' && x[2] == 'p' && x[3] == 'e' && x[4] == 'g')
  }

  /** The test is the suffix's membership in the two extensions, with no case folding. */
  lemma IsCropTargetSuffix(n: Name)
    ensures IsCropTarget(n) <==> Suffix(n) == ".jpg" || Suffix(n) == ".jpeg"
  {
    var x := Suffix(n);
    if |x| == 4 || |x| == 5 {
      assert x[0] == '.';
    }
  }

  /** The files of the listing that pick takes up, in listing order. */
  function Picked(s: seq<File>, pick: Name -> bool): (r: seq<File>)
    ensures |r| <= |s|
    ensures forall x :: x in r <==> x in s && pick(x.name)
    decreases |s|
  {
    if s == [] then []
    else
      assert s == [s[0]] + s[1..];
      (if pick(s[0].name) then [s[0]] else []) + Picked(s[1..], pick)
  }

  lemma {:induction false} PickedUnique(s: seq<File>, pick: Name -> bool)
    requires UniqueNames(s)
    ensures UniqueNames(Picked(s, pick))
    decreases |s|
  {
    if s != [] {
      PickedUnique(s[1..], pick);
      var rest := Picked(s[1..], pick);
      if !pick(s[0].name) {
        assert Picked(s, pick) == [] + rest == rest;
      } else {
        assert Picked(s, pick) == [s[0]] + rest;
        assert ([s[0]] + rest)[1..] == rest;
      }
    }
  }

  // ---------------------------------------------------------------- process_single_directory

  /** The file at position i is an image whose crop cannot be written. */
  predicate Fails(f: seq<File>, i: nat, job: Job)
    requires i < |f|
  {
    job.pick(f[i].name) && Saved(job.crop, f[i]).Err?
  }

  /** The first position, from p on, of an image whose crop cannot be written; |f| if none. */
  function FirstFailure(f: seq<File>, p: nat, job: Job): (q: nat)
    requires p <= |f|
    ensures p <= q <= |f|
    ensures q < |f| ==> Fails(f, q, job)
    ensures forall i :: p <= i < q ==> !Fails(f, i, job)
    decreases |f| - p
  {
    if p == |f| then p
    else if Fails(f, p, job) then p
    else FirstFailure(f, p + 1, job)
  }

  /** The file at position i as the run leaves it once it has passed position p: an image
      before p whose crop can be written holds that crop. */
  function StagedFile(f: seq<File>, p: nat, i: nat, job: Job): (r: File)
    requires i < |f|
    ensures r.name == f[i].name
  {
    if i < p && job.pick(f[i].name) && Saved(job.crop, f[i]).Ok?
    then File(f[i].name, Picture(Saved(job.crop, f[i]).value))
    else f[i]
  }

  /** f with every image before position p replaced by its crop, where that crop can be written. */
  function Stage(f: Folder, p: nat, job: Job): (r: Folder)
    ensures |r| == |f|
    ensures forall i :: 0 <= i < |f| ==> r[i] == StagedFile(f, p, i, job)
  {
    var r := seq(|f|, i requires 0 <= i < |f| => StagedFile(f, p, i, job));
    UniqueDistinct(f);
    UniqueDistinct(r);
    r
  }

  /** The outcome of process_single_directory: the images before the first one whose crop
      cannot be written hold their crops, and the exception of that first failing image (if
      any) ends the run. */
  function Cropped(f: Folder, job: Job): Outcome<Folder> {
    var q := FirstFailure(f, 0, job);
    Outcome(Stage(f, q, job), if q < |f| then Some(Saved(job.crop, f[q]).fault) else None)
  }

  /** Position by position: the files keep their names and places (each is overwritten in
      place); files that are not .jpg/.jpeg images are never touched; the run ends without an
      exception exactly when every image's crop can be written, and each image then holds its
      crop; an exception comes from the first image whose crop cannot be written, with the
      images before it cropped and everything from it on as it was. */
  lemma CroppedSpec(f: Folder, job: Job)
    ensures |Cropped(f, job).state| == |f|
    ensures forall i :: 0 <= i < |f| ==> Cropped(f, job).state[i].name == f[i].name
    ensures forall i :: 0 <= i < |f| && !job.pick(f[i].name) ==> Cropped(f, job).state[i] == f[i]
    ensures Cropped(f, job).fault.None? <==>
              forall i :: 0 <= i < |f| && job.pick(f[i].name) ==> Saved(job.crop, f[i]).Ok?
    ensures Cropped(f, job).fault.None? ==>
              forall i :: 0 <= i < |f| && job.pick(f[i].name) ==>
                Cropped(f, job).state[i].data == Picture(Saved(job.crop, f[i]).value)
    ensures Cropped(f, job).fault.Some? ==>
              exists q :: 0 <= q < |f| && job.pick(f[q].name) && Saved(job.crop, f[q]).Err?
                && Cropped(f, job).fault == Some(Saved(job.crop, f[q]).fault)
                && (forall i :: q <= i < |f| ==> Cropped(f, job).state[i] == f[i])
                && (forall i :: 0 <= i < q && job.pick(f[i].name) ==>
                      Saved(job.crop, f[i]).Ok? && Cropped(f, job).state[i].data == Picture(Saved(job.crop, f[i]).value))
  {
    var q := FirstFailure(f, 0, job);
    var r := Cropped(f, job);
    assert r.state == Stage(f, q, job);
    if q < |f| {
      assert Fails(f, q, job);
      assert forall i :: q <= i < |f| ==> r.state[i] == StagedFile(f, q, i, job) == f[i];
      forall i | 0 <= i < q && job.pick(f[i].name) ensures Saved(job.crop, f[i]).Ok? {
        assert !Fails(f, i, job);
      }
    } else {
      assert forall i :: 0 <= i < |f| && job.pick(f[i].name) ==> !Fails(f, i, job);
    }
  }

  /** The loop of process_single_directory over the listed images: each crop overwrites its
      file; the first exception ends it. */
  function CropEach(out: Folder, images: seq<File>, job: Job): Outcome<Folder>
    decreases |images|, 1
  {
    if images == [] then Outcome(out, None) else CropEachStep(out, images, job)
  }

  function CropEachStep(out: Folder, images: seq<File>, job: Job): Outcome<Folder>
    requires images != []
    decreases |images|, 0
  {
    match Saved(job.crop, images[0])
    case Err(e) => Outcome(out, Some(e))
    case Ok(img) => CropEach(Put(out, File(images[0].name, Picture(img))), images[1..], job)
  }

  lemma PickedFrom(f: seq<File>, p: nat, pick: Name -> bool)
    requires p < |f|
    ensures Picked(f[p..], pick) == (if pick(f[p].name) then [f[p]] else []) + Picked(f[p + 1..], pick)
  {
    assert f[p..][0] == f[p] && f[p..][1..] == f[p + 1..];
  }

  /** Passing a position whose file is not rewritten leaves the stage as it was. */
  lemma StageSkip(f: Folder, p: nat, job: Job)
    requires p < |f|
    requires !(job.pick(f[p].name) && Saved(job.crop, f[p]).Ok?)
    ensures Stage(f, p + 1, job) == Stage(f, p, job)
  {
    assert forall i :: 0 <= i < |f| ==> StagedFile(f, p + 1, i, job) == StagedFile(f, p, i, job);
  }

  /** Writing the crop of the image at position p moves the stage past it. */
  lemma StageWrite(f: Folder, p: nat, job: Job)
    requires p < |f|
    requires job.pick(f[p].name) && Saved(job.crop, f[p]).Ok?
    ensures Put(Stage(f, p, job), File(f[p].name, Picture(Saved(job.crop, f[p]).value))) == Stage(f, p + 1, job)
  {
    var g := Stage(f, p, job);
    var c := Picture(Saved(job.crop, f[p]).value);
    PutAt(g, p, c);
    var h, next := g[p := File(g[p].name, c)], p + 1;
    assert forall i :: 0 <= i < |f| ==> h[i] == StagedFile(f, next, i, job);
  }

  /** Where the run stops: at the end of the listing, or at the first image whose crop cannot be
      written once all earlier ones were. */
  lemma CropEachStops(f: Folder, p: nat, job: Job)
    requires p <= |f|
    requires forall i :: 0 <= i < p ==> !Fails(f, i, job)
    requires p < |f| ==> Fails(f, p, job)
    ensures CropEach(Stage(f, p, job), Picked(f[p..], job.pick), job) == Cropped(f, job)
  {
    if p == |f| {
      assert f[p..] == [];
    } else {
      var images := Picked(f[p..], job.pick);
      PickedFrom(f, p, job.pick);
      assert images[0] == f[p];
      assert CropEach(Stage(f, p, job), images, job) == CropEachStep(Stage(f, p, job), images, job);
    }
  }

  /** Running the loop over the images from position p on, with the earlier ones done. */
  lemma {:induction false} CropEachFrom(f: Folder, p: nat, job: Job)
    requires p <= |f|
    requires forall i :: 0 <= i < p ==> !Fails(f, i, job)
    ensures CropEach(Stage(f, p, job), Picked(f[p..], job.pick), job) == Cropped(f, job)
    decreases |f| - p
  {
    if p == |f| || Fails(f, p, job) {
      CropEachStops(f, p, job);
    } else {
      var images := Picked(f[p..], job.pick);
      var rest := Picked(f[p + 1..], job.pick);
      PickedFrom(f, p, job.pick);
      CropEachFrom(f, p + 1, job);
      if !job.pick(f[p].name) {
        assert images == [] + rest == rest;
        StageSkip(f, p, job);
      } else {
        assert images[0] == f[p] && images[1..] == rest;
        assert CropEach(Stage(f, p, job), images, job) == CropEachStep(Stage(f, p, job), images, job);
        StageWrite(f, p, job);
      }
    }
  }

  /** process_single_directory: each .jpg/.jpeg file of the listing is overwritten at its own
      path by its crop, in listing order, until one cannot be written. */
  method ProcessSingleDirectory(f: Folder, model: Model) returns (out: Folder, fault: Option<Fault>)
    ensures Outcome(out, fault) == Cropped(f, JobOf(model))
  {
    var job := JobOf(model);
    CropEachFrom(f, 0, job);
    assert Stage(f, 0, job) == f;
    assert f[0..] == f;
    out, fault := CropAll(f, Picked(f, job.pick), job);
  }

  /** The loop over the picked images: each is overwritten by its crop until one cannot be
      written. */
  method CropAll(out0: Folder, images: seq<File>, job: Job) returns (out: Folder, fault: Option<Fault>)
    ensures Outcome(out, fault) == CropEach(out0, images, job)
  {
    ghost var goal := CropEach(out0, images, job);
    out, fault := out0, None;
    var j := 0;
    while j < |images|
      invariant j <= |images|
      invariant CropEach(out, images[j..], job) == goal
      decreases |images| - j
    {
      var x := images[j];
      assert CropEach(out, images[j..], job) == CropEachStep(out, images[j..], job);
      assert images[j..][0] == x && images[j..][1..] == images[j + 1..];
      var w := Saved(job.crop, x);
      if w.Err? {
        fault := Some(w.fault);
        return;
      }
      out := Put(out, File(x.name, Picture(w.value)));
      j := j + 1;
    }
  }

  // ---------------------------------------------------------------- process_directories

  /** The entries of the input directory that are directories, in listing order. */
  function SubDirs(t: seq<Node>): (r: seq<Node>)
    ensures forall n :: n in r <==> n in t && n.entry.Sub?
    ensures forall i :: 0 <= i < |r| ==> r[i].entry.Sub?
    decreases |t|
  {
    if t == [] then []
    else
      assert t == [t[0]] + t[1..];
      (if t[0].entry.Sub? then [t[0]] else []) + SubDirs(t[1..])
  }

  lemma {:induction false} SubDirsUnique(t: seq<Node>)
    requires UniqueNodeNames(t)
    ensures UniqueNodeNames(SubDirs(t))
    decreases |t|
  {
    if t != [] {
      var rest := SubDirs(t[1..]);
      assert forall i :: 0 <= i < |t| - 1 ==> t[1..][i] == t[i + 1];
      SubDirsUnique(t[1..]);
      if t[0].entry.Sub? {
        forall k | 0 <= k < |rest| ensures rest[k].name != t[0].name {
          assert rest[k] in t[1..];
        }
        ConsUniqueNodes(t[0], rest);
      }
    }
  }

  lemma ConsUniqueNodes(x: Node, rest: seq<Node>)
    requires UniqueNodeNames(rest)
    requires forall k :: 0 <= k < |rest| ==> rest[k].name != x.name
    ensures UniqueNodeNames([x] + rest)
  {
    var r := [x] + rest;
    forall i, j | 0 <= i < j < |r| ensures r[i].name != r[j].name {
      assert r[j] == rest[j - 1];
      if i > 0 {
        assert r[i] == rest[i - 1];
      }
    }
  }

  /** The crops of the images, as the files written for them. */
  function Crops(images: seq<File>, job: Job): (r: seq<File>)
    requires forall i :: 0 <= i < |images| ==> Saved(job.crop, images[i]).Ok?
    ensures |r| == |images|
    ensures forall i :: 0 <= i < |images| ==>
              r[i] == File(images[i].name, Picture(Saved(job.crop, images[i]).value))
  {
    seq(|images|, i requires 0 <= i < |images| => File(images[i].name, Picture(Saved(job.crop, images[i]).value)))
  }

  lemma CropsCons(images: seq<File>, job: Job)
    requires images != []
    requires forall i :: 0 <= i < |images| ==> Saved(job.crop, images[i]).Ok?
    ensures Crops(images, job) == [File(images[0].name, Picture(Saved(job.crop, images[0]).value))] + Crops(images[1..], job)
  {
    assert forall i :: 1 <= i < |images| ==> images[1..][i - 1] == images[i];
  }

  lemma CropsUnique(images: seq<File>, job: Job)
    requires UniqueNames(images)
    requires forall i :: 0 <= i < |images| ==> Saved(job.crop, images[i]).Ok?
    ensures UniqueNames(Crops(images, job))
  {
    UniqueDistinct(images);
    UniqueDistinct(Crops(images, job));
  }

  /** The inner loop of process_directories over one sub-directory's images: crop, then
      mkdir(parents=True, exist_ok=True) of output_dir/<dir>, then cv2.imwrite there. */
  function MirrorImages(out: Tree, dir: Name, images: seq<File>, job: Job): Outcome<Tree>
    decreases |images|, 1
  {
    if images == [] then Outcome(out, None) else MirrorImagesStep(out, dir, images, job)
  }

  function MirrorImagesStep(out: Tree, dir: Name, images: seq<File>, job: Job): Outcome<Tree>
    requires images != []
    decreases |images|, 0
  {
    var x := images[0];
    match job.crop(x)
    case Err(e) => Outcome(out, Some(e))
    case Ok(c) =>
      match MakeDir(out, dir)
      case Err(e) => Outcome(out, Some(e))
      case Ok(t) =>
        match ImWrite(x.name, c)
        case Err(e) => Outcome(t, Some(e))
        case Ok(img) => MirrorImages(SetFolder(t, dir, Put(FolderAt(t, dir).value, File(x.name, Picture(img)))), dir, images[1..], job)
  }

  /** The outer loop of process_directories over the sub-directories. */
  function MirrorSubs(out: Tree, subs: seq<Node>, job: Job): Outcome<Tree>
    requires forall i :: 0 <= i < |subs| ==> subs[i].entry.Sub?
    decreases |subs|, 1
  {
    if subs == [] then Outcome(out, None) else MirrorSubsStep(out, subs, job)
  }

  function MirrorSubsStep(out: Tree, subs: seq<Node>, job: Job): Outcome<Tree>
    requires subs != [] && forall i :: 0 <= i < |subs| ==> subs[i].entry.Sub?
    decreases |subs|, 0
  {
    var r := MirrorImages(out, subs[0].name, Picked(subs[0].entry.files, job.pick), job);
    if r.fault.Some? then r else MirrorSubs(r.state, subs[1..], job)
  }

  /** process_directories on an input tree and a separate output tree. */
  function Mirror(input: Tree, output: Tree, job: Job): Outcome<Tree> {
    MirrorSubs(output, SubDirs(input), job)
  }

  /** Every image of a sub-directory can be cropped and written, and the output has room for
      its sub-directory when there is an image to write. */
  predicate SubOk(out: Tree, dir: Name, images: seq<File>, job: Job) {
    (forall i :: 0 <= i < |images| ==> Saved(job.crop, images[i]).Ok?)
    && (images == [] || !PlainAt(out, dir))
  }

  /** One sub-directory, one image taken: the crop, the mkdir and the write all succeed, and
      the run goes on from the output with the crop written into the sub-directory. */
  lemma MirrorImagesNext(out: Tree, dir: Name, images: seq<File>, job: Job)
    requires images != [] && Saved(job.crop, images[0]).Ok? && !PlainAt(out, dir)
    ensures MakeDir(out, dir).Ok?
    ensures MirrorImages(out, dir, images, job)
              == MirrorImages(Wrote(out, dir, File(images[0].name, Picture(Saved(job.crop, images[0]).value))), dir, images[1..], job)
  {
    assert MirrorImages(out, dir, images, job) == MirrorImagesStep(out, dir, images, job);
  }

  /** The output after the mkdir of dir and the write of file into it. */
  function Wrote(out: Tree, dir: Name, file: File): (r: Tree)
    requires !PlainAt(out, dir)
    ensures forall m :: m != dir ==> EntryAt(r, m) == EntryAt(out, m)
    ensures FolderAt(r, dir) == Some(Put(BaseAt(out, dir), file))
  {
    var t := MakeDir(out, dir).value;
    SetFolder(t, dir, Put(FolderAt(t, dir).value, file))
  }

  /** One sub-directory: output entries of other names are untouched. */
  lemma {:induction false} MirrorImagesKeeps(out: Tree, dir: Name, images: seq<File>, job: Job)
    ensures forall m :: m != dir ==> EntryAt(MirrorImages(out, dir, images, job).state, m) == EntryAt(out, m)
    decreases |images|
  {
    if images != [] {
      assert MirrorImages(out, dir, images, job) == MirrorImagesStep(out, dir, images, job);
      if Saved(job.crop, images[0]).Ok? && !PlainAt(out, dir) {
        MirrorImagesNext(out, dir, images, job);
        MirrorImagesKeeps(Wrote(out, dir, File(images[0].name, Picture(Saved(job.crop, images[0]).value))), dir, images[1..], job);
      }
    }
  }

  /** One sub-directory: the run ends without an exception exactly when every image's crop can
      be written and the output sub-directory can be made (when there is an image at all). */
  lemma {:induction false} MirrorImagesOk(out: Tree, dir: Name, images: seq<File>, job: Job)
    ensures MirrorImages(out, dir, images, job).fault.None? <==> SubOk(out, dir, images, job)
    decreases |images|
  {
    if images != [] {
      assert MirrorImages(out, dir, images, job) == MirrorImagesStep(out, dir, images, job);
      if Saved(job.crop, images[0]).Ok? && !PlainAt(out, dir) {
        var x := File(images[0].name, Picture(Saved(job.crop, images[0]).value));
        MirrorImagesNext(out, dir, images, job);
        MirrorImagesOk(Wrote(out, dir, x), dir, images[1..], job);
        assert forall i :: 1 <= i < |images| ==> images[1..][i - 1] == images[i];
        assert !PlainAt(Wrote(out, dir, x), dir);
      }
    }
  }

  /** One sub-directory where every crop can be written: the output sub-directory then holds
      the crops written, in order, over what it had; with no image the output is unchanged. */
  lemma {:induction false} MirrorImagesWrites(out: Tree, dir: Name, images: seq<File>, job: Job)
    requires SubOk(out, dir, images, job)
    ensures images == [] ==> MirrorImages(out, dir, images, job).state == out
    ensures images != [] ==>
              FolderAt(MirrorImages(out, dir, images, job).state, dir) == Some(PutAll(BaseAt(out, dir), Crops(images, job)))
    decreases |images|
  {
    if images != [] {
      var x := File(images[0].name, Picture(Saved(job.crop, images[0]).value));
      var t := Wrote(out, dir, x);
      MirrorImagesNext(out, dir, images, job);
      assert forall i :: 1 <= i < |images| ==> images[1..][i - 1] == images[i];
      assert !PlainAt(t, dir);
      MirrorImagesWrites(t, dir, images[1..], job);
      assert BaseAt(t, dir) == Put(BaseAt(out, dir), x);
      CropsCons(images, job);
      var cs := Crops(images, job);
      assert cs[0] == x && cs[1..] == Crops(images[1..], job);
    }
  }

  /** The names of the sub-directories listed in subs. */
  predicate Listed(subs: seq<Node>, m: Name) {
    exists i :: 0 <= i < |subs| && subs[i].name == m
  }

  /** Output entries not named after one of the sub-directories are untouched. */
  lemma {:induction false} MirrorSubsKeeps(out: Tree, subs: seq<Node>, job: Job)
    requires forall i :: 0 <= i < |subs| ==> subs[i].entry.Sub?
    ensures forall m :: !Listed(subs, m) ==> EntryAt(MirrorSubs(out, subs, job).state, m) == EntryAt(out, m)
    decreases |subs|
  {
    if subs != [] {
      var s := subs[0];
      assert MirrorSubs(out, subs, job) == MirrorSubsStep(out, subs, job);
      var r0 := MirrorImages(out, s.name, Picked(s.entry.files, job.pick), job);
      MirrorImagesKeeps(out, s.name, Picked(s.entry.files, job.pick), job);
      if r0.fault.None? {
        MirrorSubsKeeps(r0.state, subs[1..], job);
        assert forall m :: Listed(subs[1..], m) ==> Listed(subs, m) by {
          assert forall i :: 0 <= i < |subs| - 1 ==> subs[1..][i] == subs[i + 1];
        }
      }
    }
  }

  /** Equal entries give equal obstacles and equal starting folders. */
  lemma SameEntry(t: Tree, out: Tree, n: Name)
    requires EntryAt(t, n) == EntryAt(out, n)
    ensures PlainAt(t, n) == PlainAt(out, n)
    ensures BaseAt(t, n) == BaseAt(out, n)
  {
  }

  /** After the first sub-directory, the later ones meet the output as it was at the start. */
  lemma MirrorSubsRest(out: Tree, subs: seq<Node>, job: Job)
    requires subs != [] && forall i :: 0 <= i < |subs| ==> subs[i].entry.Sub?
    requires UniqueNodeNames(subs)
    ensures UniqueNodeNames(subs[1..])
    ensures forall i :: 0 <= i < |subs| - 1 ==> subs[1..][i] == subs[i + 1]
    ensures forall i :: 1 <= i < |subs| ==>
              var t := MirrorImages(out, subs[0].name, Picked(subs[0].entry.files, job.pick), job).state;
              EntryAt(t, subs[i].name) == EntryAt(out, subs[i].name)
              && PlainAt(t, subs[i].name) == PlainAt(out, subs[i].name)
              && BaseAt(t, subs[i].name) == BaseAt(out, subs[i].name)
  {
    var s := subs[0];
    var t := MirrorImages(out, s.name, Picked(s.entry.files, job.pick), job).state;
    MirrorImagesKeeps(out, s.name, Picked(s.entry.files, job.pick), job);
    forall i | 1 <= i < |subs|
      ensures EntryAt(t, subs[i].name) == EntryAt(out, subs[i].name)
      ensures PlainAt(t, subs[i].name) == PlainAt(out, subs[i].name)
      ensures BaseAt(t, subs[i].name) == BaseAt(out, subs[i].name)
    {
      assert subs[i].name != s.name;
      SameEntry(t, out, subs[i].name);
    }
  }

  /** The run ends without an exception exactly when every sub-directory succeeds against the
      output as it was at the start. */
  lemma {:induction false} MirrorSubsOk(out: Tree, subs: seq<Node>, job: Job)
    requires forall i :: 0 <= i < |subs| ==> subs[i].entry.Sub?
    requires UniqueNodeNames(subs)
    ensures MirrorSubs(out, subs, job).fault.None? <==>
              forall i :: 0 <= i < |subs| ==> SubOk(out, subs[i].name, Picked(subs[i].entry.files, job.pick), job)
    decreases |subs|
  {
    if subs != [] {
      var s := subs[0];
      assert MirrorSubs(out, subs, job) == MirrorSubsStep(out, subs, job);
      var r0 := MirrorImages(out, s.name, Picked(s.entry.files, job.pick), job);
      MirrorImagesOk(out, s.name, Picked(s.entry.files, job.pick), job);
      if r0.fault.None? {
        MirrorSubsRest(out, subs, job);
        MirrorSubsOk(r0.state, subs[1..], job);
        var rest := subs[1..];
        forall i | 1 <= i < |subs|
          ensures SubOk(r0.state, rest[i - 1].name, Picked(rest[i - 1].entry.files, job.pick), job)
                  == SubOk(out, subs[i].name, Picked(subs[i].entry.files, job.pick), job)
        {
          assert rest[i - 1] == subs[i];
        }
      } else {
        assert !SubOk(out, subs[0].name, Picked(subs[0].entry.files, job.pick), job);
      }
    }
  }

  /** When every sub-directory succeeds, each one with images holds its crops written over what
      it had, and each one without images keeps its output entry as it was. */
  lemma {:induction false} MirrorSubsWrites(out: Tree, subs: seq<Node>, job: Job)
    requires forall i :: 0 <= i < |subs| ==> subs[i].entry.Sub?
    requires UniqueNodeNames(subs)
    requires forall i :: 0 <= i < |subs| ==> SubOk(out, subs[i].name, Picked(subs[i].entry.files, job.pick), job)
    ensures forall i :: 0 <= i < |subs| && Picked(subs[i].entry.files, job.pick) != [] ==>
              SubOk(out, subs[i].name, Picked(subs[i].entry.files, job.pick), job)
              && FolderAt(MirrorSubs(out, subs, job).state, subs[i].name)
                   == Some(PutAll(BaseAt(out, subs[i].name), Crops(Picked(subs[i].entry.files, job.pick), job)))
    ensures forall i :: 0 <= i < |subs| && Picked(subs[i].entry.files, job.pick) == [] ==>
              EntryAt(MirrorSubs(out, subs, job).state, subs[i].name) == EntryAt(out, subs[i].name)
    decreases |subs|
  {
    if subs != [] {
      var s, rest := subs[0], subs[1..];
      var images := Picked(s.entry.files, job.pick);
      var t := MirrorImages(out, s.name, images, job).state;
      MirrorSubsFirst(out, subs, job);
      MirrorImagesWrites(out, s.name, images, job);
      MirrorSubsRest(out, subs, job);
      MirrorSubsWrites(t, rest, job);
      var r := MirrorSubs(out, subs, job);
      forall i | 1 <= i < |subs|
        ensures var pics := Picked(subs[i].entry.files, job.pick);
          if pics != [] then
            SubOk(out, subs[i].name, pics, job)
            && FolderAt(r.state, subs[i].name) == Some(PutAll(BaseAt(out, subs[i].name), Crops(pics, job)))
          else EntryAt(r.state, subs[i].name) == EntryAt(out, subs[i].name)
      {
        assert rest[i - 1] == subs[i];
      }
    }
  }

  /** The first sub-directory's run succeeds, the later ones follow from its output, and they
      leave its entry alone. */
  lemma MirrorSubsFirst(out: Tree, subs: seq<Node>, job: Job)
    requires subs != [] && forall i :: 0 <= i < |subs| ==> subs[i].entry.Sub?
    requires UniqueNodeNames(subs)
    requires SubOk(out, subs[0].name, Picked(subs[0].entry.files, job.pick), job)
    ensures var t := MirrorImages(out, subs[0].name, Picked(subs[0].entry.files, job.pick), job).state;
            MirrorSubs(out, subs, job) == MirrorSubs(t, subs[1..], job)
            && EntryAt(MirrorSubs(out, subs, job).state, subs[0].name) == EntryAt(t, subs[0].name)
  {
    var s, rest := subs[0], subs[1..];
    var images := Picked(s.entry.files, job.pick);
    assert MirrorSubs(out, subs, job) == MirrorSubsStep(out, subs, job);
    MirrorImagesOk(out, s.name, images, job);
    var t := MirrorImages(out, s.name, images, job).state;
    assert forall i :: 0 <= i < |rest| ==> rest[i] == subs[i + 1];
    MirrorSubsKeeps(t, rest, job);
    assert !Listed(rest, s.name);
  }

  /** process_directories never touches an output entry that is not named after a
      sub-directory of the input. */
  lemma MirrorKeeps(input: Tree, output: Tree, job: Job)
    ensures forall m :: (forall n :: n in input && n.entry.Sub? ==> n.name != m) ==>
              EntryAt(Mirror(input, output, job).state, m) == EntryAt(output, m)
  {
    var subs := SubDirs(input);
    MirrorSubsKeeps(output, subs, job);
    forall m | forall n :: n in input && n.entry.Sub? ==> n.name != m
      ensures !Listed(subs, m)
    {
      forall k | 0 <= k < |subs| ensures subs[k].name != m {
        assert subs[k] in subs;
      }
    }
  }

  /** process_directories ends without an exception exactly when, for every sub-directory of
      the input, every image's crop can be written and (if it has an image) no plain output
      file has its name. */
  lemma MirrorOk(input: Tree, output: Tree, job: Job)
    ensures Mirror(input, output, job).fault.None? <==>
              forall n :: n in input && n.entry.Sub? ==> SubOk(output, n.name, Picked(n.entry.files, job.pick), job)
  {
    var subs := SubDirs(input);
    SubDirsUnique(input);
    MirrorSubsOk(output, subs, job);
    if forall k :: 0 <= k < |subs| ==> SubOk(output, subs[k].name, Picked(subs[k].entry.files, job.pick), job) {
      forall n | n in input && n.entry.Sub? ensures SubOk(output, n.name, Picked(n.entry.files, job.pick), job) {
        assert n in subs;
      }
    }
    if forall n :: n in input && n.entry.Sub? ==> SubOk(output, n.name, Picked(n.entry.files, job.pick), job) {
      forall k | 0 <= k < |subs| ensures SubOk(output, subs[k].name, Picked(subs[k].entry.files, job.pick), job) {
        assert subs[k] in subs;
      }
    }
  }

  /** When process_directories succeeds, every .jpg/.jpeg image of every sub-directory of the
      input has its crop, under its own name, in the output sub-directory of the same name, and
      the files that sub-directory already held under other names are kept. */
  lemma MirrorWrites(input: Tree, output: Tree, job: Job)
    requires forall n :: n in input && n.entry.Sub? ==> SubOk(output, n.name, Picked(n.entry.files, job.pick), job)
    ensures Mirror(input, output, job).fault.None?
    ensures forall n, x :: n in input && n.entry.Sub? && x in n.entry.files && job.pick(x.name) ==>
              Saved(job.crop, x).Ok? && FolderAt(Mirror(input, output, job).state, n.name).Some?
              && File(x.name, Picture(Saved(job.crop, x).value)) in FolderAt(Mirror(input, output, job).state, n.name).value
    ensures forall n, g :: n in input && n.entry.Sub? && g in BaseAt(output, n.name) && !Has(n.entry.files, g.name) ==>
              FolderAt(Mirror(input, output, job).state, n.name).Some?
              && g in FolderAt(Mirror(input, output, job).state, n.name).value
  {
    var subs := SubDirs(input);
    SubDirsUnique(input);
    MirrorOk(input, output, job);
    forall k | 0 <= k < |subs| ensures SubOk(output, subs[k].name, Picked(subs[k].entry.files, job.pick), job) {
      assert subs[k] in subs;
    }
    MirrorSubsWrites(output, subs, job);
    var r := Mirror(input, output, job);
    forall n, x | n in input && n.entry.Sub? && x in n.entry.files && job.pick(x.name)
      ensures Saved(job.crop, x).Ok?
      ensures FolderAt(r.state, n.name).Some?
      ensures File(x.name, Picture(Saved(job.crop, x).value)) in FolderAt(r.state, n.name).value
    {
      assert n in subs;
      var images := Picked(n.entry.files, job.pick);
      assert x in images;
      PickedUnique(n.entry.files, job.pick);
      CropsIn(BaseAt(output, n.name), images, job, x);
    }
    forall n, g | n in input && n.entry.Sub? && g in BaseAt(output, n.name) && !Has(n.entry.files, g.name)
      ensures FolderAt(r.state, n.name).Some?
      ensures g in FolderAt(r.state, n.name).value
    {
      assert n in subs;
      var images := Picked(n.entry.files, job.pick);
      if images == [] {
        assert EntryAt(r.state, n.name) == EntryAt(output, n.name);
      } else {
        CropsKeep(BaseAt(output, n.name), n.entry.files, images, job, g);
      }
    }
  }

  /** Writing the crops of distinct images puts each of them in the folder. */
  lemma CropsIn(base: Folder, images: seq<File>, job: Job, x: File)
    requires UniqueNames(images) && x in images
    requires forall i :: 0 <= i < |images| ==> Saved(job.crop, images[i]).Ok?
    ensures File(x.name, Picture(Saved(job.crop, x).value)) in PutAll(base, Crops(images, job))
  {
    CropsUnique(images, job);
    var cs := Crops(images, job);
    PutAllContains(base, cs);
    var j :| 0 <= j < |images| && images[j] == x;
    assert cs[j] in cs;
  }

  /** Writing the crops of images taken from files keeps a file whose name is not among them. */
  lemma CropsKeep(base: Folder, files: seq<File>, images: seq<File>, job: Job, g: File)
    requires forall x :: x in images ==> x in files
    requires forall i :: 0 <= i < |images| ==> Saved(job.crop, images[i]).Ok?
    requires g in base && !Has(files, g.name)
    ensures g in PutAll(base, Crops(images, job))
  {
    var cs := Crops(images, job);
    PutAllKeeps(base, cs);
    forall j | 0 <= j < |cs| ensures cs[j].name != g.name {
      assert images[j] in files;
      var k :| 0 <= k < |files| && files[k] == images[j];
    }
  }

  // ---------------------------------------------------------------- the two loops as methods

  /** The inner loop of process_directories over the images of one sub-directory. */
  method MirrorSubdir(out0: Tree, dir: Name, files: Folder, model: Model) returns (out: Tree, fault: Option<Fault>)
    ensures Outcome(out, fault) == MirrorImages(out0, dir, Picked(files, JobOf(model).pick), JobOf(model))
  {
    var job := JobOf(model);
    var images := Picked(files, job.pick);
    out, fault := out0, None;
    var j := 0;
    while j < |images|
      invariant j <= |images|
      invariant MirrorImages(out, dir, images[j..], job) == MirrorImages(out0, dir, images, job)
      decreases |images| - j
    {
      var x := images[j];
      assert MirrorImages(out, dir, images[j..], job) == MirrorImagesStep(out, dir, images[j..], job);
      assert images[j..][0] == x && images[j..][1..] == images[j + 1..];
      var cropped := CropDogOut(x, model);
      if cropped.Err? {
        fault := Some(cropped.fault);
        return;
      }
      var made := MakeDir(out, dir);
      if made.Err? {
        fault := Some(made.fault);
        return;
      }
      out := made.value;
      var written := ImWrite(x.name, cropped.value);
      if written.Err? {
        fault := Some(written.fault);
        return;
      }
      out := SetFolder(out, dir, Put(FolderAt(out, dir).value, File(x.name, Picture(written.value))));
      j := j + 1;
    }
  }

  /** process_directories: every sub-directory of the input, in listing order, mirrored into
      the output tree; the input tree is only read. */
  method ProcessDirectories(input: Tree, output: Tree, model: Model) returns (out: Tree, fault: Option<Fault>)
    ensures Outcome(out, fault) == Mirror(input, output, JobOf(model))
  {
    var job := JobOf(model);
    var subdirs := SubDirs(input);
    ghost var goal := MirrorSubs(output, subdirs, job);
    out, fault := output, None;
    var k := 0;
    while k < |subdirs|
      invariant k <= |subdirs|
      invariant fault.None?
      invariant MirrorSubs(out, subdirs[k..], job) == goal
      decreases |subdirs| - k
    {
      var s := subdirs[k];
      assert MirrorSubs(out, subdirs[k..], job) == MirrorSubsStep(out, subdirs[k..], job);
      assert subdirs[k..][0] == s && subdirs[k..][1..] == subdirs[k + 1..];
      out, fault := MirrorSubdir(out, s.name, s.entry.files, model);
      if fault.Some? {
        return;
      }
      k := k + 1;
    }
  }
}
