/** ProcessDogImages.test_images_in_folder and ProcessDogImages.sort_dataset: move every image
    that is not VALID (and every file routed with it) into invalid_data/<folder>, then move the
    whole content of folders left with too few images there as well. */
module DatasetSorter {
  import opened Fs
  import opened Naming
  import opened DogStatus

  /** file.suffix.lower() in ['.jpg', '.jpeg'], tested character by character. */
  predicate IsImageName(n: Name) {
    var x := Suffix(n);
    || (|x| == 4 && LowerChar(x[1]) == 'j' && LowerChar(x[2]) == 'p' && LowerChar(x[3]) == 'g')
    || (|x| == 5 && LowerChar(x[1]) == 'j' && LowerChar(x[2]) == 'p' && LowerChar(x[3]) == 'e' && LowerChar(x[4]) == 'g')
  }

  /** The test is the lower-cased suffix's membership in the two extensions. */
  lemma IsImageNameLower(n: Name)
    ensures IsImageName(n) <==> Lower(Suffix(n)) == ".jpg" || Lower(Suffix(n)) == ".jpeg"
  {
    var x := Suffix(n);
    if |x| == 4 || |x| == 5 {
      assert x[0] == '.' && LowerChar('.') == '.';
    }
    if Lower(x) == ".jpg" {
      assert Lower(x)[1] == 'j' && Lower(x)[2] == 'p' && Lower(x)[3] == 'g';
    }
    if Lower(x) == ".jpeg" {
      assert Lower(x)[1] == 'j' && Lower(x)[2] == 'p' && Lower(x)[3] == 'e' && Lower(x)[4] == 'g';
    }
  }

  /** The verdict on an image file, None when it cannot be decoded. */
  function Verdict(f: File, detect: Detector, s: Settings): Option<Status> {
    match DetermineStatus(f, detect, s)
    case Ok(v) => Some(v)
    case Err(_) => None
  }

  // ---------------------------------------------------------------- test_images_in_folder

  /** The loop state: the visited files still in the folder, the invalid_data tree, and the
      loop-carried dog_proportion (None until an image has been judged). */
  datatype Scan = Scan(kept: Folder, invalid: Tree, status: Option<Status>)

  /** The folder and the invalid_data tree at the end of a loop. */
  datatype FolderState = FolderState(folder: Folder, invalid: Tree)

  /** dog_proportion after visiting f: reassigned for an image, left as it was otherwise. */
  function NextStatus(sc: Scan, f: File, detect: Detector, s: Settings): Option<Status> {
    if IsImageName(f.name) then Verdict(f, detect, s) else sc.status
  }

  /** One iteration: an image is judged; whatever the status now is decides the file's fate,
      so a non-image file follows the verdict on the last image before it. */
  function Step(sc: Scan, dir: Name, f: File, detect: Detector, s: Settings): Result<Scan>
    requires UniqueNames(sc.kept + [f])
  {
    var status := NextStatus(sc, f, detect, s);
    if IsImageName(f.name) && status.None? then Err(Unreadable(f.name))
    else if status.None? then Err(StatusUnbound(f.name))
    else if status.value == Valid then Ok(Scan(sc.kept + [f], sc.invalid, status))
    else match PutInto(sc.invalid, dir, f)
      case Err(e) => Err(e)
      case Ok(inv) => Ok(Scan(sc.kept, inv, status))
  }

  /** What one iteration does: it raises exactly when the status is still unbound, the image
      cannot be decoded, or invalid_data/<dir> cannot be created for a file that is not VALID;
      otherwise a VALID file stays and any other is written into invalid_data/<dir>. */
  lemma StepSpec(sc: Scan, dir: Name, f: File, detect: Detector, s: Settings)
    requires UniqueNames(sc.kept + [f])
    ensures Step(sc, dir, f, detect, s).Err? <==>
              (NextStatus(sc, f, detect, s).None?
               || (NextStatus(sc, f, detect, s) != Some(Valid) && MakeDir(sc.invalid, dir).Err?))
    ensures IsImageName(f.name) && Verdict(f, detect, s).None? ==>
              Step(sc, dir, f, detect, s) == Err(Unreadable(f.name))
    ensures !IsImageName(f.name) && sc.status.None? ==> Step(sc, dir, f, detect, s) == Err(StatusUnbound(f.name))
    ensures Step(sc, dir, f, detect, s).Err? && NextStatus(sc, f, detect, s).Some? ==>
              Step(sc, dir, f, detect, s).fault == FileExists(dir)
    ensures NextStatus(sc, f, detect, s) == Some(Valid) ==>
              Step(sc, dir, f, detect, s) == Ok(Scan(sc.kept + [f], sc.invalid, Some(Valid)))
    ensures NextStatus(sc, f, detect, s).Some? && NextStatus(sc, f, detect, s) != Some(Valid)
            && PutInto(sc.invalid, dir, f).Ok? ==>
              Step(sc, dir, f, detect, s) == Ok(Scan(sc.kept, PutInto(sc.invalid, dir, f).value, NextStatus(sc, f, detect, s)))
  {
  }

  /** Moving on from position k keeps the kept files and the unvisited ones a folder. */
  lemma VisitNext(kept: Folder, files: Folder, k: nat)
    requires k < |files|
    requires UniqueNames(kept + files[k..])
    ensures kept + [files[k]] + files[k + 1..] == kept + files[k..]
    ensures UniqueNames(kept + [files[k]])
    ensures UniqueNames(kept + files[k + 1..])
    ensures forall q :: 0 <= q < |kept| ==> kept[q].name != files[k].name
    ensures forall i :: 0 <= i < |files| && i != k ==> files[i].name != files[k].name
  {
    var c := kept + files[k..];
    assert files[k..] == [files[k]] + files[k + 1..];
    assert kept + [files[k]] + files[k + 1..] == c;
    VisitNextPrefix(kept, files, k);
    UniqueDrop(kept, files[k], files[k + 1..]);
    VisitNextApart(kept, files, k);
  }

  lemma VisitNextPrefix(kept: Folder, files: Folder, k: nat)
    requires k < |files|
    requires UniqueNames(kept + files[k..])
    ensures UniqueNames(kept + [files[k]])
  {
    var c := kept + files[k..];
    assert c[..|kept| + 1] == kept + [files[k]];
    UniquePrefix(c, |kept| + 1);
  }

  lemma VisitNextApart(kept: Folder, files: Folder, k: nat)
    requires k < |files|
    requires UniqueNames(kept + files[k..])
    ensures forall q :: 0 <= q < |kept| ==> kept[q].name != files[k].name
    ensures forall i :: 0 <= i < |files| && i != k ==> files[i].name != files[k].name
  {
    var c := kept + files[k..];
    UniqueDistinct(c);
    UniqueDistinct(files);
    assert c[|kept|] == files[k];
    forall q | 0 <= q < |kept| ensures kept[q].name != files[k].name {
      assert c[q] == kept[q];
    }
  }

  /** The loop from position k on. On an exception the files not yet visited are still in the
      folder. */
  function PartitionFrom(dir: Name, files: Folder, k: nat, sc: Scan, detect: Detector, s: Settings): (r: Outcome<FolderState>)
    requires k <= |files|
    requires UniqueNames(sc.kept + files[k..])
    decreases |files| - k
  {
    if k == |files| then Outcome(FolderState(sc.kept, sc.invalid), None)
    else
      VisitNext(sc.kept, files, k);
      StepKept(sc, dir, files[k], detect, s);
      match Step(sc, dir, files[k], detect, s)
      case Err(e) => Outcome(FolderState(sc.kept + files[k..], sc.invalid), Some(e))
      case Ok(sc') => PartitionFrom(dir, files, k + 1, sc', detect, s)
  }

  /** An iteration that does not raise keeps the file or leaves it out of the folder. */
  lemma StepKept(sc: Scan, dir: Name, f: File, detect: Detector, s: Settings)
    requires UniqueNames(sc.kept + [f])
    ensures Step(sc, dir, f, detect, s).Ok? ==>
              Step(sc, dir, f, detect, s).value.kept in {sc.kept, sc.kept + [f]}
  {
  }

  /** test_images_in_folder(dir) on the folder's files, with invalid_dir the sibling invalid_data. */
  function Partition(dir: Name, files: Folder, invalid: Tree, detect: Detector, s: Settings): Outcome<FolderState> {
    assert [] + files[0..] == files;
    PartitionFrom(dir, files, 0, Scan([], invalid, None), detect, s)
  }

  lemma RemoveVisited(kept: Folder, files: Folder, k: nat)
    requires k < |files|
    requires UniqueNames(kept + files[k..])
    ensures Remove(kept + files[k..], files[k].name) == kept + files[k + 1..]
  {
    var n := files[k].name;
    VisitNext(kept, files, k);
    assert files[k..] == [files[k]] + files[k + 1..];
    RemoveConcat(kept, files[k..], n);
    RemoveConcat([files[k]], files[k + 1..], n);
    RemoveAbsent(kept, n);
    RemoveAbsent(files[k + 1..], n);
    assert Remove([files[k]], n) == [];
  }

  lemma PartitionFromOk(dir: Name, files: Folder, k: nat, sc: Scan, detect: Detector, s: Settings)
    requires k < |files|
    requires UniqueNames(sc.kept + files[k..])
    requires UniqueNames(sc.kept + [files[k]])
    requires Step(sc, dir, files[k], detect, s).Ok?
    ensures UniqueNames(Step(sc, dir, files[k], detect, s).value.kept + files[k + 1..])
    ensures PartitionFrom(dir, files, k, sc, detect, s)
            == PartitionFrom(dir, files, k + 1, Step(sc, dir, files[k], detect, s).value, detect, s)
  {
    VisitNext(sc.kept, files, k);
  }

  lemma PartitionFromErr(dir: Name, files: Folder, k: nat, sc: Scan, detect: Detector, s: Settings)
    requires k < |files|
    requires UniqueNames(sc.kept + files[k..])
    requires UniqueNames(sc.kept + [files[k]])
    requires Step(sc, dir, files[k], detect, s).Err?
    ensures UniqueNames(sc.kept + files[k..])
    ensures PartitionFrom(dir, files, k, sc, detect, s)
            == Outcome(FolderState(sc.kept + files[k..], sc.invalid), Some(Step(sc, dir, files[k], detect, s).fault))
  {
    VisitNext(sc.kept, files, k);
  }

  lemma PartitionFromEnd(dir: Name, files: Folder, sc: Scan, detect: Detector, s: Settings)
    requires UniqueNames(sc.kept + files[|files|..])
    ensures PartitionFrom(dir, files, |files|, sc, detect, s) == Outcome(FolderState(sc.kept, sc.invalid), None)
  {
  }

  /** An image cv2.imread cannot decode ends the loop at position k. */
  lemma PartitionFromUnreadable(dir: Name, files: Folder, k: nat, sc: Scan, detect: Detector, s: Settings)
    requires k < |files|
    requires UniqueNames(sc.kept + files[k..])
    requires IsImageName(files[k].name) && DetermineStatus(files[k], detect, s).Err?
    ensures PartitionFrom(dir, files, k, sc, detect, s)
            == Outcome(FolderState(sc.kept + files[k..], sc.invalid), Some(Unreadable(files[k].name)))
  {
    VisitNext(sc.kept, files, k);
    StepSpec(sc, dir, files[k], detect, s);
    PartitionFromErr(dir, files, k, sc, detect, s);
  }

  /** A first entry that is not an image reads dog_proportion before it is bound. */
  lemma PartitionFromUnbound(dir: Name, files: Folder, k: nat, sc: Scan, detect: Detector, s: Settings)
    requires k < |files|
    requires UniqueNames(sc.kept + files[k..])
    requires !IsImageName(files[k].name) && sc.status.None?
    ensures PartitionFrom(dir, files, k, sc, detect, s)
            == Outcome(FolderState(sc.kept + files[k..], sc.invalid), Some(StatusUnbound(files[k].name)))
  {
    VisitNext(sc.kept, files, k);
    StepSpec(sc, dir, files[k], detect, s);
    PartitionFromErr(dir, files, k, sc, detect, s);
  }

  /** A file that is not VALID, where invalid_data/<dir> cannot be created, ends the loop. */
  lemma PartitionFromNoMove(dir: Name, files: Folder, k: nat, sc: Scan, detect: Detector, s: Settings)
    requires k < |files|
    requires UniqueNames(sc.kept + files[k..])
    requires NextStatus(sc, files[k], detect, s).Some? && NextStatus(sc, files[k], detect, s) != Some(Valid)
    requires PutInto(sc.invalid, dir, files[k]).Err?
    ensures PartitionFrom(dir, files, k, sc, detect, s)
            == Outcome(FolderState(sc.kept + files[k..], sc.invalid), Some(FileExists(dir)))
  {
    VisitNext(sc.kept, files, k);
    StepSpec(sc, dir, files[k], detect, s);
    PartitionFromErr(dir, files, k, sc, detect, s);
  }

  /** A file that is not VALID is written into invalid_data/<dir> and the loop goes on. */
  lemma PartitionFromMoves(dir: Name, files: Folder, k: nat, sc: Scan, sc': Scan, detect: Detector, s: Settings)
    requires k < |files|
    requires UniqueNames(sc.kept + files[k..])
    requires NextStatus(sc, files[k], detect, s).Some? && NextStatus(sc, files[k], detect, s) != Some(Valid)
    requires PutInto(sc.invalid, dir, files[k]) == Ok(sc'.invalid)
    requires sc'.kept == sc.kept && sc'.status == NextStatus(sc, files[k], detect, s)
    ensures UniqueNames(sc'.kept + files[k + 1..])
    ensures PartitionFrom(dir, files, k, sc, detect, s) == PartitionFrom(dir, files, k + 1, sc', detect, s)
  {
    VisitNext(sc.kept, files, k);
    StepSpec(sc, dir, files[k], detect, s);
    PartitionFromOk(dir, files, k, sc, detect, s);
  }

  /** A file whose status is VALID stays and the loop goes on. */
  lemma PartitionFromValid(dir: Name, files: Folder, k: nat, sc: Scan, sc': Scan, detect: Detector, s: Settings)
    requires k < |files|
    requires UniqueNames(sc.kept + files[k..])
    requires NextStatus(sc, files[k], detect, s) == Some(Valid)
    requires sc'.kept == sc.kept + [files[k]] && sc'.invalid == sc.invalid && sc'.status == Some(Valid)
    ensures UniqueNames(sc'.kept + files[k + 1..])
    ensures PartitionFrom(dir, files, k, sc, detect, s) == PartitionFrom(dir, files, k + 1, sc', detect, s)
  {
    VisitNext(sc.kept, files, k);
    StepSpec(sc, dir, files[k], detect, s);
    PartitionFromOk(dir, files, k, sc, detect, s);
  }

  /** The loop over a snapshot of the folder's listing, moving files out of it as it goes. */
  method TestImagesInFolder(dir: Name, files: Folder, invalid: Tree, detect: Detector, s: Settings)
    returns (folder: Folder, invalid': Tree, fault: Option<Fault>)
    ensures Outcome(FolderState(folder, invalid'), fault) == Partition(dir, files, invalid, detect, s)
  {
    folder := files;
    invalid' := invalid;
    var status: Option<Status> := None;
    ghost var kept: Folder := [];
    var k := 0;
    assert folder == kept + files[k..];
    while k < |files|
      invariant 0 <= k <= |files|
      invariant folder == kept + files[k..]
      invariant PartitionFrom(dir, files, k, Scan(kept, invalid', status), detect, s) == Partition(dir, files, invalid, detect, s)
    {
      folder, invalid', status, kept, fault := VisitFile(dir, files, k, folder, invalid', status, kept, detect, s);
      if fault.Some? {
        return;
      }
      k := k + 1;
    }
    assert files[k..] == [];
    assert folder == kept;
    PartitionFromEnd(dir, files, Scan(kept, invalid', status), detect, s);
    fault := None;
  }

  /** One turn of the loop: the file at position k is judged when it is an image, then stays in
      the folder or is moved into invalid_data/<dir>. */
  method VisitFile(dir: Name, files: Folder, k: nat, folder: Folder, invalid: Tree, status: Option<Status>,
                   ghost kept: Folder, detect: Detector, s: Settings)
    returns (folder': Folder, invalid': Tree, status': Option<Status>, ghost kept': Folder, fault: Option<Fault>)
    requires k < |files| && folder == kept + files[k..]
    ensures fault.None? ==>
              folder' == kept' + files[k + 1..]
              && PartitionFrom(dir, files, k, Scan(kept, invalid, status), detect, s)
                 == PartitionFrom(dir, files, k + 1, Scan(kept', invalid', status'), detect, s)
    ensures fault.Some? ==>
              PartitionFrom(dir, files, k, Scan(kept, invalid, status), detect, s) == Outcome(FolderState(folder', invalid'), fault)
  {
    var file := files[k];
    ghost var sc := Scan(kept, invalid, status);
    folder', invalid', status', kept' := folder, invalid, status, kept;
    VisitNext(kept, files, k);
    if IsImageName(file.name) {
      var judged := DetermineStatus(file, detect, s);
      if judged.Err? {
        PartitionFromUnreadable(dir, files, k, sc, detect, s);
        return folder', invalid', status', kept', Some(judged.fault);
      }
      status' := Some(judged.value);
    }
    assert status' == NextStatus(sc, file, detect, s);
    if status'.None? {
      PartitionFromUnbound(dir, files, k, sc, detect, s);
      return folder', invalid', status', kept', Some(StatusUnbound(file.name));
    }
    if status'.value != Valid {
      var moved := PutInto(invalid, dir, file);
      if moved.Err? {
        PartitionFromNoMove(dir, files, k, sc, detect, s);
        return folder', invalid', status', kept', Some(moved.fault);
      }
      invalid' := moved.value;
      RemoveVisited(kept, files, k);
      folder' := Remove(folder, file.name);
      PartitionFromMoves(dir, files, k, sc, Scan(kept, invalid', status'), detect, s);
    } else {
      PartitionFromValid(dir, files, k, sc, Scan(kept + [file], invalid', status'), detect, s);
      kept' := kept + [file];
      assert folder' == kept' + files[k + 1..];
    }
    fault := None;
  }

  // ---------------------------------------------------------------- what the partition does to each file

  /** The value of dog_proportion when position k is visited: the verdict on the last image at
      or before k, None when there is none. */
  function Judged(files: seq<File>, k: int, detect: Detector, s: Settings): Option<Status>
    requires k < |files|
    decreases k
  {
    if k < 0 then None
    else if IsImageName(files[k].name) then Verdict(files[k], detect, s)
    else Judged(files, k - 1, detect, s)
  }

  /** The invalid_data/<dir> folder, empty when it does not exist yet. */
  function SubOf(t: Tree, dir: Name): Folder {
    if FolderAt(t, dir).Some? then FolderAt(t, dir).value else []
  }

  /** A folder sort_dataset leaves alone: it starts with an image and all its images are VALID. */
  predicate Settled(files: seq<File>, detect: Detector, s: Settings) {
    && (files == [] || IsImageName(files[0].name))
    && forall i :: 0 <= i < |files| && IsImageName(files[i].name) ==> Verdict(files[i], detect, s) == Some(Valid)
  }

  /** The kept files are exactly those of the first k whose status is VALID. */
  ghost predicate KeptRouted(files: Folder, k: nat, kept: seq<File>, detect: Detector, s: Settings)
    requires k <= |files|
  {
    && (forall i :: 0 <= i < k ==> (files[i] in kept <==> Judged(files, i, detect, s) == Some(Valid)))
    && (forall g :: g in kept ==> exists i :: 0 <= i < k && files[i] == g)
  }

  /** Every one of the first k files whose status is not VALID is in the invalid folder sub,
      which otherwise holds only what the folder before held. */
  ghost predicate MovedRouted(files: Folder, k: nat, sub: Folder, before: Folder, detect: Detector, s: Settings)
    requires k <= |files|
  {
    && (forall i :: 0 <= i < k && Judged(files, i, detect, s) != Some(Valid) ==> files[i] in sub)
    && (forall g :: g in sub ==>
          (g in before || exists i :: 0 <= i < k && files[i] == g && Judged(files, i, detect, s) != Some(Valid)))
  }

  /** Which of the first k files stayed, and where the others went. */
  ghost predicate Routed(dir: Name, files: Folder, k: nat, sc: Scan, invalid: Tree, detect: Detector, s: Settings)
    requires k <= |files|
  {
    && KeptRouted(files, k, sc.kept, detect, s)
    && MovedRouted(files, k, SubOf(sc.invalid, dir), SubOf(invalid, dir), detect, s)
  }

  /** What holds once positions 0..k-1 have been visited. */
  ghost predicate Visited(dir: Name, files: Folder, k: nat, sc: Scan, invalid: Tree, detect: Detector, s: Settings)
    requires k <= |files|
  {
    && sc.status == Judged(files, k - 1, detect, s)
    && Routed(dir, files, k, sc, invalid, detect, s)
    && (forall m :: m != dir ==> EntryAt(sc.invalid, m) == EntryAt(invalid, m))
    && (FolderAt(invalid, dir).Some? ==> FolderAt(sc.invalid, dir).Some?)
    && Settled(sc.kept, detect, s)
    && (sc.status == Some(Valid) ==> sc.kept != [])
  }

  /** Earlier positions hold other files than position k, since the names are distinct. */
  lemma EarlierDiffer(files: Folder, k: nat)
    requires k < |files|
    ensures forall i :: 0 <= i < k ==> files[i].name != files[k].name && files[i] != files[k]
  {
    UniqueDistinct(files);
  }

  /** A file judged VALID joins the kept files. */
  lemma KeptGrows(files: Folder, k: nat, kept: Folder, detect: Detector, s: Settings)
    requires k < |files|
    requires forall i :: 0 <= i < k ==> files[i] != files[k]
    requires KeptRouted(files, k, kept, detect, s)
    requires Judged(files, k, detect, s) == Some(Valid)
    ensures KeptRouted(files, k + 1, kept + [files[k]], detect, s)
  {
    var f, kept' := files[k], kept + [files[k]];
    assert forall g :: g in kept' <==> g in kept || g == f;
    forall g | g in kept' ensures exists i :: 0 <= i < k + 1 && files[i] == g {
      if g != f {
        var i :| 0 <= i < k && files[i] == g;
      } else {
        assert files[k] == g;
      }
    }
  }

  /** A file judged otherwise does not join the kept files. */
  lemma KeptSame(files: Folder, k: nat, kept: Folder, detect: Detector, s: Settings)
    requires k < |files|
    requires files[k] !in kept
    requires KeptRouted(files, k, kept, detect, s)
    requires Judged(files, k, detect, s) != Some(Valid)
    ensures KeptRouted(files, k + 1, kept, detect, s)
  {
    forall g | g in kept ensures exists i :: 0 <= i < k + 1 && files[i] == g {
      var i :| 0 <= i < k && files[i] == g;
    }
  }

  /** A file judged VALID leaves the invalid folder alone. */
  lemma MovedSame(files: Folder, k: nat, sub: Folder, before: Folder, detect: Detector, s: Settings)
    requires k < |files|
    requires MovedRouted(files, k, sub, before, detect, s)
    requires Judged(files, k, detect, s) == Some(Valid)
    ensures MovedRouted(files, k + 1, sub, before, detect, s)
  {
    forall g | g in sub && g !in before
      ensures exists i :: 0 <= i < k + 1 && files[i] == g && Judged(files, i, detect, s) != Some(Valid)
    {
      var i :| 0 <= i < k && files[i] == g && Judged(files, i, detect, s) != Some(Valid);
    }
  }

  /** A file judged otherwise is written into the invalid folder, replacing nothing moved before. */
  lemma MovedGrows(files: Folder, k: nat, sub: Folder, sub': Folder, before: Folder, detect: Detector, s: Settings)
    requires k < |files|
    requires forall i :: 0 <= i < k ==> files[i].name != files[k].name
    requires MovedRouted(files, k, sub, before, detect, s)
    requires Judged(files, k, detect, s) != Some(Valid)
    requires sub' == Put(sub, files[k])
    ensures MovedRouted(files, k + 1, sub', before, detect, s)
  {
    var f := files[k];
    forall i | 0 <= i < k + 1 && Judged(files, i, detect, s) != Some(Valid) ensures files[i] in sub' {
      if i < k {
        assert files[i] in sub;
      }
    }
    forall g | g in sub' && g !in before
      ensures exists i :: 0 <= i < k + 1 && files[i] == g && Judged(files, i, detect, s) != Some(Valid)
    {
      if g == f {
        assert files[k] == g;
      } else {
        var i :| 0 <= i < k && files[i] == g && Judged(files, i, detect, s) != Some(Valid);
      }
    }
  }

  /** Appending a file judged VALID keeps a folder settled. */
  lemma SettledSnoc(kept: Folder, f: File, detect: Detector, s: Settings)
    requires Settled(kept, detect, s)
    requires kept == [] ==> IsImageName(f.name)
    requires IsImageName(f.name) ==> Verdict(f, detect, s) == Some(Valid)
    ensures Settled(kept + [f], detect, s)
  {
    var kept' := kept + [f];
    assert kept'[|kept|] == f;
    assert forall i :: 0 <= i < |kept| ==> kept'[i] == kept[i];
  }

  /** A run from position k that raises nothing visits position k without a fault. */
  lemma PartitionFromGoesOn(dir: Name, files: Folder, k: nat, sc: Scan, detect: Detector, s: Settings)
    requires k < |files|
    requires UniqueNames(sc.kept + files[k..])
    requires PartitionFrom(dir, files, k, sc, detect, s).fault.None?
    ensures NextStatus(sc, files[k], detect, s).Some?
    ensures NextStatus(sc, files[k], detect, s) != Some(Valid) ==> PutInto(sc.invalid, dir, files[k]).Ok?
  {
    VisitNext(sc.kept, files, k);
    StepSpec(sc, dir, files[k], detect, s);
  }

  /** Visiting a file whose status is VALID keeps what holds of the visited positions. */
  lemma VisitedValid(dir: Name, files: Folder, k: nat, sc: Scan, sc': Scan, invalid: Tree, detect: Detector, s: Settings)
    requires k < |files|
    requires Visited(dir, files, k, sc, invalid, detect, s)
    requires NextStatus(sc, files[k], detect, s) == Some(Valid)
    requires sc'.kept == sc.kept + [files[k]] && sc'.invalid == sc.invalid && sc'.status == Some(Valid)
    ensures Visited(dir, files, k + 1, sc', invalid, detect, s)
  {
    var f := files[k];
    assert sc'.status == Judged(files, k, detect, s);
    EarlierDiffer(files, k);
    KeptGrows(files, k, sc.kept, detect, s);
    MovedSame(files, k, SubOf(sc.invalid, dir), SubOf(invalid, dir), detect, s);
    SettledSnoc(sc.kept, f, detect, s);
  }

  /** Visiting a file whose status is not VALID keeps what holds of the visited positions. */
  lemma VisitedMoved(dir: Name, files: Folder, k: nat, sc: Scan, sc': Scan, invalid: Tree, detect: Detector, s: Settings)
    requires k < |files|
    requires UniqueNames(sc.kept + [files[k]])
    requires Visited(dir, files, k, sc, invalid, detect, s)
    requires NextStatus(sc, files[k], detect, s).Some? && NextStatus(sc, files[k], detect, s) != Some(Valid)
    requires PutInto(sc.invalid, dir, files[k]) == Ok(sc'.invalid)
    requires sc'.kept == sc.kept && sc'.status == NextStatus(sc, files[k], detect, s)
    ensures Visited(dir, files, k + 1, sc', invalid, detect, s)
  {
    var f := files[k];
    assert sc'.status == Judged(files, k, detect, s);
    EarlierDiffer(files, k);
    assert f !in sc.kept by {
      var c := sc.kept + [f];
      UniqueDistinct(c);
      assert forall q :: 0 <= q < |sc.kept| ==> c[q] == sc.kept[q];
      assert c[|sc.kept|] == f;
    }
    assert SubOf(sc'.invalid, dir) == Put(SubOf(sc.invalid, dir), f);
    KeptSame(files, k, sc.kept, detect, s);
    MovedGrows(files, k, SubOf(sc.invalid, dir), SubOf(sc'.invalid, dir), SubOf(invalid, dir), detect, s);
  }

  lemma {:induction false} PartitionFromVisited(dir: Name, files: Folder, k: nat, sc: Scan, invalid: Tree, detect: Detector, s: Settings)
    requires k <= |files|
    requires UniqueNames(sc.kept + files[k..])
    requires Visited(dir, files, k, sc, invalid, detect, s)
    requires PartitionFrom(dir, files, k, sc, detect, s).fault.None?
    ensures var r := PartitionFrom(dir, files, k, sc, detect, s).state;
            Visited(dir, files, |files|, Scan(r.folder, r.invalid, Judged(files, |files| - 1, detect, s)), invalid, detect, s)
    decreases |files| - k
  {
    if k == |files| {
      PartitionFromEnd(dir, files, sc, detect, s);
    } else {
      var f := files[k];
      VisitNext(sc.kept, files, k);
      PartitionFromGoesOn(dir, files, k, sc, detect, s);
      var st := NextStatus(sc, f, detect, s);
      if st == Some(Valid) {
        var sc' := Scan(sc.kept + [f], sc.invalid, st);
        PartitionFromValid(dir, files, k, sc, sc', detect, s);
        VisitedValid(dir, files, k, sc, sc', invalid, detect, s);
        PartitionFromVisited(dir, files, k + 1, sc', invalid, detect, s);
      } else {
        var sc' := Scan(sc.kept, PutInto(sc.invalid, dir, f).value, st);
        PartitionFromMoves(dir, files, k, sc, sc', detect, s);
        VisitedMoved(dir, files, k, sc, sc', invalid, detect, s);
        PartitionFromVisited(dir, files, k + 1, sc', invalid, detect, s);
      }
    }
  }

  /** After a run that raised nothing, every file of the folder is where its status sent it:
      it stayed iff the status it was judged by, its own for an image and the last image's
      before it otherwise, is VALID, and it is in invalid_data/<dir> when that status is not
      VALID. Nothing else enters either folder, and the rest of invalid_data is untouched. */
  lemma PartitionFate(dir: Name, files: Folder, invalid: Tree, detect: Detector, s: Settings)
    requires Partition(dir, files, invalid, detect, s).fault.None?
    ensures var r := Partition(dir, files, invalid, detect, s).state;
      && (forall i :: 0 <= i < |files| ==> (files[i] in r.folder <==> Judged(files, i, detect, s) == Some(Valid)))
      && (forall i :: 0 <= i < |files| && IsImageName(files[i].name) ==>
            (files[i] in r.folder <==> DetermineStatus(files[i], detect, s) == Ok(Valid)))
      && (forall g :: g in r.folder ==> g in files)
      && (forall i :: 0 <= i < |files| && Judged(files, i, detect, s) != Some(Valid) ==> files[i] in SubOf(r.invalid, dir))
      && (forall g :: g in SubOf(r.invalid, dir) ==> g in SubOf(invalid, dir) || (g in files && g !in r.folder))
      && (forall m :: m != dir ==> EntryAt(r.invalid, m) == EntryAt(invalid, m))
      && Settled(r.folder, detect, s)
  {
    var r := Partition(dir, files, invalid, detect, s).state;
    PartitionVisited(dir, files, invalid, detect, s);
    KeptFate(files, r.folder, detect, s);
    MovedFate(files, r.folder, SubOf(r.invalid, dir), SubOf(invalid, dir), detect, s);
  }

  lemma PartitionVisited(dir: Name, files: Folder, invalid: Tree, detect: Detector, s: Settings)
    requires Partition(dir, files, invalid, detect, s).fault.None?
    ensures var r := Partition(dir, files, invalid, detect, s).state;
      Visited(dir, files, |files|, Scan(r.folder, r.invalid, Judged(files, |files| - 1, detect, s)), invalid, detect, s)
  {
    assert [] + files[0..] == files;
    PartitionFromVisited(dir, files, 0, Scan([], invalid, None), invalid, detect, s);
  }

  /** Once every position is visited, only the folder's own files were kept, and an image was
      kept exactly when its own verdict was VALID. */
  lemma KeptFate(files: Folder, kept: seq<File>, detect: Detector, s: Settings)
    requires KeptRouted(files, |files|, kept, detect, s)
    ensures forall g :: g in kept ==> g in files
    ensures forall i :: 0 <= i < |files| && IsImageName(files[i].name) ==>
              (files[i] in kept <==> DetermineStatus(files[i], detect, s) == Ok(Valid))
  {
    forall g | g in kept ensures g in files {
      var i :| 0 <= i < |files| && files[i] == g;
    }
  }

  /** Once every position is visited, what is new in the invalid folder is what was not kept. */
  lemma MovedFate(files: Folder, kept: seq<File>, sub: Folder, before: Folder, detect: Detector, s: Settings)
    requires KeptRouted(files, |files|, kept, detect, s)
    requires MovedRouted(files, |files|, sub, before, detect, s)
    ensures forall g :: g in sub ==> g in before || (g in files && g !in kept)
  {
    forall g | g in sub && g !in before ensures g in files && g !in kept {
      var i :| 0 <= i < |files| && files[i] == g && Judged(files, i, detect, s) != Some(Valid);
    }
  }

  /** When invalid_data/<dir> holds none of the folder's names, every file ends up in exactly one
      of the two folders. */
  lemma PartitionExactlyOne(dir: Name, files: Folder, invalid: Tree, detect: Detector, s: Settings)
    requires Partition(dir, files, invalid, detect, s).fault.None?
    requires forall g :: g in files ==> !Has(SubOf(invalid, dir), g.name)
    ensures var r := Partition(dir, files, invalid, detect, s).state;
      forall g :: g in files ==> (g in r.folder <==> g !in SubOf(r.invalid, dir))
  {
    PartitionFate(dir, files, invalid, detect, s);
  }

  lemma {:induction false} PartitionFromSettled(dir: Name, files: Folder, k: nat, sc: Scan, detect: Detector, s: Settings)
    requires k <= |files|
    requires Settled(files, detect, s)
    requires UniqueNames(sc.kept + files[k..])
    requires sc.kept == files[..k] && sc.status == (if k == 0 then None else Some(Valid))
    ensures PartitionFrom(dir, files, k, sc, detect, s) == Outcome(FolderState(files, sc.invalid), None)
    decreases |files| - k
  {
    if k == |files| {
      assert files[..k] == files;
      PartitionFromEnd(dir, files, sc, detect, s);
    } else {
      SettledStatus(files, k, sc, detect, s);
      SettledStep(dir, files, k, sc, detect, s);
      SettledNext(files, k);
      PartitionFromSettled(dir, files, k + 1, Scan(files[..k + 1], sc.invalid, Some(Valid)), detect, s);
    }
  }

  /** A visit that finds dog_proportion VALID adds the file to the settled prefix. */
  lemma SettledStep(dir: Name, files: Folder, k: nat, sc: Scan, detect: Detector, s: Settings)
    requires k < |files|
    requires UniqueNames(sc.kept + files[k..])
    requires sc.kept == files[..k]
    requires NextStatus(sc, files[k], detect, s) == Some(Valid)
    ensures UniqueNames(files[..k + 1])
    ensures UniqueNames(files[..k + 1] + files[k + 1..])
    ensures PartitionFrom(dir, files, k, sc, detect, s)
            == PartitionFrom(dir, files, k + 1, Scan(files[..k + 1], sc.invalid, Some(Valid)), detect, s)
  {
    SettledNext(files, k);
    var sc' := Scan(files[..k + 1], sc.invalid, Some(Valid));
    PartitionFromValid(dir, files, k, sc, sc', detect, s);
  }

  /** The visited prefix of a folder and the file at position k have distinct names. */
  lemma SettledNext(files: Folder, k: nat)
    requires k < |files|
    ensures UniqueNames(files[..k + 1])
    ensures files[..k] + [files[k]] == files[..k + 1]
  {
    assert files[..k] + files[k..] == files;
    UniquePrefix(files, k);
    VisitNext(files[..k], files, k);
    assert files[..k] + [files[k]] == files[..k + 1];
  }

  /** In a settled folder every visit finds dog_proportion VALID. */
  lemma SettledStatus(files: Folder, k: nat, sc: Scan, detect: Detector, s: Settings)
    requires k < |files|
    requires Settled(files, detect, s)
    requires sc.status == (if k == 0 then None else Some(Valid))
    ensures NextStatus(sc, files[k], detect, s) == Some(Valid)
  {
    assert k == 0 ==> IsImageName(files[k].name);
    assert IsImageName(files[k].name) ==> Verdict(files[k], detect, s) == Some(Valid);
  }

  /** A settled folder goes through the partition unchanged. */
  lemma PartitionSettled(dir: Name, files: Folder, invalid: Tree, detect: Detector, s: Settings)
    requires Settled(files, detect, s)
    ensures Partition(dir, files, invalid, detect, s) == Outcome(FolderState(files, invalid), None)
  {
    assert [] + files[0..] == files && files[..0] == [];
    PartitionFromSettled(dir, files, 0, Scan([], invalid, None), detect, s);
  }

  lemma {:induction false} PartitionFromNoFault(dir: Name, files: Folder, k: nat, sc: Scan, detect: Detector, s: Settings)
    requires k <= |files|
    requires UniqueNames(sc.kept + files[k..])
    requires sc.status.Some? || k == |files| || IsImageName(files[k].name)
    requires forall i :: k <= i < |files| && IsImageName(files[i].name) ==> ImRead(files[i].data).Some?
    requires MakeDir(sc.invalid, dir).Ok?
    ensures PartitionFrom(dir, files, k, sc, detect, s).fault.None?
    decreases |files| - k
  {
    if k == |files| {
      PartitionFromEnd(dir, files, sc, detect, s);
    } else {
      var f := files[k];
      VisitNext(sc.kept, files, k);
      var st := NextStatus(sc, f, detect, s);
      assert st.Some? by {
        assert IsImageName(f.name) ==> Verdict(f, detect, s).Some?;
      }
      if st == Some(Valid) {
        var sc' := Scan(sc.kept + [f], sc.invalid, st);
        PartitionFromValid(dir, files, k, sc, sc', detect, s);
        PartitionFromNoFault(dir, files, k + 1, sc', detect, s);
      } else {
        var sc' := Scan(sc.kept, PutInto(sc.invalid, dir, f).value, st);
        PartitionFromMoves(dir, files, k, sc, sc', detect, s);
        assert MakeDir(sc'.invalid, dir).Ok?;
        PartitionFromNoFault(dir, files, k + 1, sc', detect, s);
      }
    }
  }

  /** The partition raises nothing when the folder starts with an image, every image decodes,
      and invalid_data/<dir> can be created. */
  lemma PartitionNoFault(dir: Name, files: Folder, invalid: Tree, detect: Detector, s: Settings)
    requires files == [] || IsImageName(files[0].name)
    requires forall i :: 0 <= i < |files| && IsImageName(files[i].name) ==> ImRead(files[i].data).Some?
    requires MakeDir(invalid, dir).Ok?
    ensures Partition(dir, files, invalid, detect, s).fault.None?
  {
    assert [] + files[0..] == files;
    PartitionFromNoFault(dir, files, 0, Scan([], invalid, None), detect, s);
  }

  /** A folder whose first entry is not an image raises UnboundLocalError at once and is left
      as it was. */
  lemma UnboundFirst(dir: Name, files: Folder, invalid: Tree, detect: Detector, s: Settings)
    requires files != [] && !IsImageName(files[0].name)
    ensures Partition(dir, files, invalid, detect, s) == Outcome(FolderState(files, invalid), Some(StatusUnbound(files[0].name)))
  {
    assert [] + files[0..] == files;
  }

  // ---------------------------------------------------------------- sort_dataset

  const InvalidDirName: Name := "invalid_data"

  /** The data directory: the subject entries, and the content of invalid_data (an absent
      invalid_data is the empty tree, as mkdir(exist_ok=True) creates it empty). */
  datatype DataDir = DataDir(subjects: Tree, invalid: Tree)

  type Dataset = d: DataDir | InvalidDirName !in NodeNames(d.subjects) witness DataDir([], [])

  /** The listing of the data directory: the subjects and invalid_data itself (where
      invalid_data stands in the listing does not matter, as both loops skip it). */
  function Listing(ds: Dataset): (r: seq<Name>)
    ensures forall i, j :: 0 <= i < j < |r| ==> r[i] != r[j]
    ensures forall i :: 0 <= i < |ds.subjects| ==> ds.subjects[i].name in r
  {
    var r := NodeNames(ds.subjects) + [InvalidDirName];
    assert forall i :: 0 <= i < |ds.subjects| ==> r[i] == ds.subjects[i].name;
    r
  }

  function Rebuild(ds: Dataset, n: Name, st: FolderState): (r: Dataset)
    requires FolderAt(ds.subjects, n).Some?
    ensures NodeNames(r.subjects) == NodeNames(ds.subjects)
  {
    DataDir(SetFolder(ds.subjects, n, st.folder), st.invalid)
  }

  /** The first loop's body for entry n: test_images_in_folder, which raises on a plain file. */
  function PartitionStep(ds: Dataset, n: Name, detect: Detector, s: Settings): (r: Outcome<Dataset>)
    ensures NodeNames(r.state.subjects) == NodeNames(ds.subjects)
    ensures forall m :: m != n ==> EntryAt(r.state.subjects, m) == EntryAt(ds.subjects, m)
  {
    if n == InvalidDirName then Outcome(ds, None)
    else match EntryAt(ds.subjects, n)
      case None => Outcome(ds, None)
      case Some(Plain(_)) => Outcome(ds, Some(NotADirectory(n)))
      case Some(Sub(files)) =>
        var o := Partition(n, files, ds.invalid, detect, s);
        Outcome(Rebuild(ds, n, o.state), o.fault)
  }

  function PartitionAll(ds: Dataset, names: seq<Name>, detect: Detector, s: Settings): (r: Outcome<Dataset>)
    ensures NodeNames(r.state.subjects) == NodeNames(ds.subjects)
    decreases |names|
  {
    if names == [] then Outcome(ds, None)
    else
      var o := PartitionStep(ds, names[0], detect, s);
      if o.fault.Some? then o else PartitionAll(o.state, names[1..], detect, s)
  }

  function ImageCount(files: seq<File>): nat {
    if files == [] then 0 else (if IsImageName(files[0].name) then 1 else 0) + ImageCount(files[1..])
  }

  /** The second loop's body for one folder: below the minimum image count, invalid_data/<dir>
      is created and every file of the folder, whatever its extension, is moved there; the
      emptied folder stays. */
  function Prune(dir: Name, files: Folder, invalid: Tree, minimum: int): (r: Outcome<FolderState>)
    ensures ImageCount(files) >= minimum ==> r == Outcome(FolderState(files, invalid), None)
    ensures ImageCount(files) < minimum ==> (r.fault.Some? <==> MakeDir(invalid, dir).Err?)
    ensures r.fault.Some? ==> r.state == FolderState(files, invalid)
    ensures ImageCount(files) < minimum && r.fault.None? ==>
              && r.state.folder == []
              && FolderAt(r.state.invalid, dir).Some?
              && (forall g :: g in files ==> g in SubOf(r.state.invalid, dir))
              && (forall g :: g in SubOf(r.state.invalid, dir) ==> g in files || g in SubOf(invalid, dir))
    ensures forall m :: m != dir ==> EntryAt(r.state.invalid, m) == EntryAt(invalid, m)
    ensures forall m :: FolderAt(invalid, m).Some? ==> FolderAt(r.state.invalid, m).Some?
  {
    if ImageCount(files) >= minimum then Outcome(FolderState(files, invalid), None)
    else match MakeDir(invalid, dir)
      case Err(e) => Outcome(FolderState(files, invalid), Some(e))
      case Ok(t) =>
        var sub := FolderAt(t, dir).value;
        PutAllContains(sub, files);
        PutAllKeeps(sub, files);
        Outcome(FolderState([], SetFolder(t, dir, PutAll(sub, files))), None)
  }

  /** The second loop's body for entry n: only directories other than invalid_data are pruned. */
  function PruneStep(ds: Dataset, n: Name, s: Settings): (r: Outcome<Dataset>)
    ensures NodeNames(r.state.subjects) == NodeNames(ds.subjects)
    ensures forall m :: m != n ==> EntryAt(r.state.subjects, m) == EntryAt(ds.subjects, m)
    ensures forall m :: FolderAt(ds.invalid, m).Some? ==> FolderAt(r.state.invalid, m).Some?
  {
    if n == InvalidDirName then Outcome(ds, None)
    else match FolderAt(ds.subjects, n)
      case None => Outcome(ds, None)
      case Some(files) =>
        var o := Prune(n, files, ds.invalid, s.imageCountMinimum);
        Outcome(Rebuild(ds, n, o.state), o.fault)
  }

  function PruneAll(ds: Dataset, names: seq<Name>, s: Settings): (r: Outcome<Dataset>)
    ensures NodeNames(r.state.subjects) == NodeNames(ds.subjects)
    ensures forall m :: FolderAt(ds.invalid, m).Some? ==> FolderAt(r.state.invalid, m).Some?
    decreases |names|
  {
    if names == [] then Outcome(ds, None)
    else
      var o := PruneStep(ds, names[0], s);
      if o.fault.Some? then o else PruneAll(o.state, names[1..], s)
  }

  /** sort_dataset: partition every subject folder, then prune the small ones; the second loop
      lists the directory afresh. */
  function Sort(ds: Dataset, detect: Detector, s: Settings): Outcome<Dataset> {
    var o := PartitionAll(ds, Listing(ds), detect, s);
    if o.fault.Some? then o else PruneAll(o.state, Listing(o.state), s)
  }

  /** sum(1 for file in subdir.iterdir() if <image suffix>) */
  method CountImages(files: Folder) returns (count: nat)
    ensures count == ImageCount(files)
  {
    count := 0;
    var k := |files|;
    assert files[..k] == files;
    while k > 0
      invariant 0 <= k <= |files|
      invariant count + ImageCount(files[..k]) == ImageCount(files)
    {
      // counting from the end keeps the invariant on the recursive definition
      k := k - 1;
      ImageCountSplit(files[..k + 1], k);
      assert files[..k + 1][..k] == files[..k];
      if IsImageName(files[k].name) {
        count := count + 1;
      }
    }
  }

  lemma {:induction false} ImageCountSplit(files: seq<File>, k: nat)
    requires k < |files| && k + 1 == |files|
    ensures ImageCount(files) == ImageCount(files[..k]) + (if IsImageName(files[k].name) then 1 else 0)
    decreases k
  {
    if k > 0 {
      ImageCountSplit(files[1..], k - 1);
      assert files[1..][..k - 1] == files[..k][1..];
    }
  }

  /** Writing file k into the invalid folder that holds the first k files. */
  lemma MoveOne(t: Tree, dir: Name, sub: Folder, files: Folder, k: nat)
    requires FolderAt(t, dir).Some? && k < |files|
    ensures FolderAt(SetFolder(t, dir, PutAll(sub, files[..k])), dir) == Some(PutAll(sub, files[..k]))
    ensures SetFolder(SetFolder(t, dir, PutAll(sub, files[..k])), dir, Put(PutAll(sub, files[..k]), files[k]))
            == SetFolder(t, dir, PutAll(sub, files[..k + 1]))
  {
    assert files[..k + 1] == files[..k] + [files[k]];
    PutAllSnoc(sub, files[..k], files[k]);
    SetFolderTwice(t, dir, PutAll(sub, files[..k]), Put(PutAll(sub, files[..k]), files[k]));
  }

  /** Taking the first unvisited file out of the folder. */
  lemma RemoveFirst(files: Folder, k: nat)
    requires k < |files|
    ensures Remove(files[k..], files[k].name) == files[k + 1..]
  {
    UniqueSuffix(files, k);
    assert [] + files[k..] == files[k..] && [] + files[k + 1..] == files[k + 1..];
    RemoveVisited([], files, k);
  }

  /** Moving the files one by one into invalid_data/<dir>, which exists: shutil.move takes each
      out of the subject folder and writes it into the invalid one. */
  method MoveAll(dir: Name, files: Folder, t: Tree) returns (folder: Folder, invalid': Tree)
    requires FolderAt(t, dir).Some?
    ensures folder == []
    ensures invalid' == SetFolder(t, dir, PutAll(FolderAt(t, dir).value, files))
  {
    var sub := FolderAt(t, dir).value;
    SetFolderSame(t, dir, sub);
    invalid' := t;
    folder := files;
    var k := 0;
    assert files[..k] == [] && files[k..] == files;
    while k < |files|
      invariant 0 <= k <= |files|
      invariant folder == files[k..]
      invariant invalid' == SetFolder(t, dir, PutAll(sub, files[..k]))
    {
      var file := files[k];
      MoveOne(t, dir, sub, files, k);
      var current := FolderAt(invalid', dir).value;
      invalid' := SetFolder(invalid', dir, Put(current, file));
      RemoveFirst(files, k);
      folder := Remove(folder, file.name);
      k := k + 1;
    }
    assert files[..k] == files;
  }

  method PruneFolder(dir: Name, files: Folder, invalid: Tree, minimum: int)
    returns (folder: Folder, invalid': Tree, fault: Option<Fault>)
    ensures Outcome(FolderState(folder, invalid'), fault) == Prune(dir, files, invalid, minimum)
  {
    var count := CountImages(files);
    if count >= minimum {
      return files, invalid, None;
    }
    var made := MakeDir(invalid, dir);
    if made.Err? {
      return files, invalid, Some(made.fault);
    }
    folder, invalid' := MoveAll(dir, files, made.value);
    fault := None;
  }

  /** The first loop's body for entry n. */
  method PartitionEntry(ds: Dataset, n: Name, detect: Detector, s: Settings) returns (r: Dataset, fault: Option<Fault>)
    ensures Outcome(r, fault) == PartitionStep(ds, n, detect, s)
  {
    r, fault := ds, None;
    if n != InvalidDirName {
      var entry := EntryAt(ds.subjects, n);
      if entry.Some? {
        if entry.value.Plain? {
          return ds, Some(NotADirectory(n));
        }
        var folder, invalid', fl := TestImagesInFolder(n, entry.value.files, ds.invalid, detect, s);
        r, fault := Rebuild(ds, n, FolderState(folder, invalid')), fl;
      }
    }
  }

  /** The first loop: test_images_in_folder on every subject, stopping at the first exception. */
  method PartitionFolders(ds: Dataset, detect: Detector, s: Settings) returns (r: Dataset, fault: Option<Fault>)
    ensures Outcome(r, fault) == PartitionAll(ds, Listing(ds), detect, s)
  {
    r := ds;
    var names := Listing(ds);
    var k := 0;
    while k < |names|
      invariant 0 <= k <= |names|
      invariant PartitionAll(r, names[k..], detect, s) == PartitionAll(ds, names, detect, s)
    {
      assert names[k..][0] == names[k] && names[k..][1..] == names[k + 1..];
      var r', fl := PartitionEntry(r, names[k], detect, s);
      if fl.Some? {
        return r', fl;
      }
      r := r';
      k := k + 1;
    }
    fault := None;
  }

  /** The second loop's body for entry n. */
  method PruneEntry(ds: Dataset, n: Name, s: Settings) returns (r: Dataset, fault: Option<Fault>)
    ensures Outcome(r, fault) == PruneStep(ds, n, s)
  {
    r, fault := ds, None;
    if n != InvalidDirName {
      var sub := FolderAt(ds.subjects, n);
      if sub.Some? {
        var folder, invalid', fl := PruneFolder(n, sub.value, ds.invalid, s.imageCountMinimum);
        r, fault := Rebuild(ds, n, FolderState(folder, invalid')), fl;
      }
    }
  }

  /** The second loop, over a fresh listing: prune every subject, stopping at the first exception. */
  method PruneFolders(ds: Dataset, s: Settings) returns (r: Dataset, fault: Option<Fault>)
    ensures Outcome(r, fault) == PruneAll(ds, Listing(ds), s)
  {
    r := ds;
    var names := Listing(ds);
    var k := 0;
    while k < |names|
      invariant 0 <= k <= |names|
      invariant PruneAll(r, names[k..], s) == PruneAll(ds, names, s)
    {
      assert names[k..][0] == names[k] && names[k..][1..] == names[k + 1..];
      var r', fl := PruneEntry(r, names[k], s);
      if fl.Some? {
        return r', fl;
      }
      r := r';
      k := k + 1;
    }
    fault := None;
  }

  /** sort_dataset: the two loops over the data directory. */
  method SortDataset(ds: Dataset, detect: Detector, s: Settings) returns (r: Dataset, fault: Option<Fault>)
    ensures Outcome(r, fault) == Sort(ds, detect, s)
  {
    r, fault := PartitionFolders(ds, detect, s);
    if fault.None? {
      r, fault := PruneFolders(r, s);
    }
  }

  // ---------------------------------------------------------------- properties of sort_dataset

  /** The state sort_dataset establishes: every subject is a settled folder holding at least
      the minimum number of images, or an emptied one whose invalid_data folder exists. */
  predicate Curated(ds: Dataset, detect: Detector, s: Settings) {
    forall i :: 0 <= i < |ds.subjects| ==>
      && ds.subjects[i].entry.Sub?
      && Settled(ds.subjects[i].entry.files, detect, s)
      && (ImageCount(ds.subjects[i].entry.files) >= s.imageCountMinimum
          || (ds.subjects[i].entry.files == [] && FolderAt(ds.invalid, ds.subjects[i].name).Some?))
  }

  /** Neither loop adds, removes or reorders subject entries: emptied folders are kept. */
  lemma SortKeepsSubjects(ds: Dataset, detect: Detector, s: Settings)
    ensures NodeNames(Sort(ds, detect, s).state.subjects) == NodeNames(ds.subjects)
  {
  }

  lemma PartitionStepSettles(ds: Dataset, n: Name, detect: Detector, s: Settings)
    requires PartitionStep(ds, n, detect, s).fault.None?
    ensures var e := EntryAt(PartitionStep(ds, n, detect, s).state.subjects, n);
            n != InvalidDirName && e.Some? ==> e.value.Sub? && Settled(e.value.files, detect, s)
  {
    if n != InvalidDirName && EntryAt(ds.subjects, n).Some? {
      var files := EntryAt(ds.subjects, n).value.files;
      PartitionFate(n, files, ds.invalid, detect, s);
    }
  }

  lemma {:induction false} PartitionAllSettles(ds: Dataset, names: seq<Name>, detect: Detector, s: Settings)
    requires forall i, j :: 0 <= i < j < |names| ==> names[i] != names[j]
    requires PartitionAll(ds, names, detect, s).fault.None?
    ensures var r := PartitionAll(ds, names, detect, s).state;
      && (forall m :: m in names && m != InvalidDirName && EntryAt(r.subjects, m).Some? ==>
            EntryAt(r.subjects, m).value.Sub? && Settled(EntryAt(r.subjects, m).value.files, detect, s))
      && (forall m :: m !in names ==> EntryAt(r.subjects, m) == EntryAt(ds.subjects, m))
    decreases |names|
  {
    if names != [] {
      var o := PartitionStep(ds, names[0], detect, s);
      PartitionStepSettles(ds, names[0], detect, s);
      assert forall i :: 0 <= i < |names[1..]| ==> names[1..][i] == names[i + 1] && names[i + 1] != names[0];
      PartitionAllSettles(o.state, names[1..], detect, s);
    }
  }

  predicate BigOrPruned(ds: Dataset, n: Name, s: Settings) {
    match EntryAt(ds.subjects, n)
    case Some(Sub(files)) =>
      ImageCount(files) >= s.imageCountMinimum || (files == [] && FolderAt(ds.invalid, n).Some?)
    case _ => true
  }

  predicate AllSettled(ds: Dataset, detect: Detector, s: Settings) {
    forall i :: 0 <= i < |ds.subjects| ==> ds.subjects[i].entry.Sub? && Settled(ds.subjects[i].entry.files, detect, s)
  }

  lemma PruneStepCurates(ds: Dataset, n: Name, detect: Detector, s: Settings)
    requires AllSettled(ds, detect, s)
    requires PruneStep(ds, n, s).fault.None?
    ensures AllSettled(PruneStep(ds, n, s).state, detect, s)
    ensures n != InvalidDirName ==> BigOrPruned(PruneStep(ds, n, s).state, n, s)
  {
    var r := PruneStep(ds, n, s).state;
    forall i | 0 <= i < |r.subjects| ensures r.subjects[i].entry.Sub? && Settled(r.subjects[i].entry.files, detect, s) {
      var m := ds.subjects[i].name;
      assert r.subjects[i].name == m;
      assert EntryAt(ds.subjects, m) == Some(ds.subjects[i].entry);
      assert EntryAt(r.subjects, m) == Some(r.subjects[i].entry);
    }
  }

  lemma {:induction false} PruneAllCurates(ds: Dataset, names: seq<Name>, detect: Detector, s: Settings)
    requires forall i, j :: 0 <= i < j < |names| ==> names[i] != names[j]
    requires AllSettled(ds, detect, s)
    requires PruneAll(ds, names, s).fault.None?
    ensures var r := PruneAll(ds, names, s).state;
      && AllSettled(r, detect, s)
      && (forall m :: m in names && m != InvalidDirName ==> BigOrPruned(r, m, s))
      && (forall m :: m !in names ==> EntryAt(r.subjects, m) == EntryAt(ds.subjects, m))
    decreases |names|
  {
    if names != [] {
      var n := names[0];
      var o := PruneStep(ds, n, s);
      PruneStepCurates(ds, n, detect, s);
      assert forall i :: 0 <= i < |names[1..]| ==> names[1..][i] == names[i + 1] && names[i + 1] != n;
      PruneAllCurates(o.state, names[1..], detect, s);
      var r := PruneAll(ds, names, s).state;
      if n != InvalidDirName {
        assert EntryAt(r.subjects, n) == EntryAt(o.state.subjects, n);
        assert BigOrPruned(r, n, s);
      }
    }
  }

  lemma AllSettledFrom(ds: Dataset, detect: Detector, s: Settings)
    requires forall m :: m in Listing(ds) && m != InvalidDirName && EntryAt(ds.subjects, m).Some? ==>
               EntryAt(ds.subjects, m).value.Sub? && Settled(EntryAt(ds.subjects, m).value.files, detect, s)
    ensures AllSettled(ds, detect, s)
  {
    forall i | 0 <= i < |ds.subjects| ensures ds.subjects[i].entry.Sub? && Settled(ds.subjects[i].entry.files, detect, s) {
      var m := ds.subjects[i].name;
      assert EntryAt(ds.subjects, m) == Some(ds.subjects[i].entry);
      assert m != InvalidDirName by {
        assert NodeNames(ds.subjects)[i] == m;
      }
    }
  }

  /** A run that raised nothing leaves the data directory curated. */
  lemma SortCurates(ds: Dataset, detect: Detector, s: Settings)
    requires Sort(ds, detect, s).fault.None?
    ensures Curated(Sort(ds, detect, s).state, detect, s)
  {
    var o := PartitionAll(ds, Listing(ds), detect, s);
    PartitionAllSettles(ds, Listing(ds), detect, s);
    assert Listing(o.state) == Listing(ds);
    AllSettledFrom(o.state, detect, s);
    PruneAllCurates(o.state, Listing(o.state), detect, s);
    var r := Sort(ds, detect, s).state;
    forall i | 0 <= i < |r.subjects|
      ensures ImageCount(r.subjects[i].entry.files) >= s.imageCountMinimum
              || (r.subjects[i].entry.files == [] && FolderAt(r.invalid, r.subjects[i].name).Some?)
    {
      var m := r.subjects[i].name;
      assert NodeNames(r.subjects)[i] == m;
      assert m in Listing(o.state);
      assert m != InvalidDirName;
      assert BigOrPruned(r, m, s);
      assert EntryAt(r.subjects, m) == Some(r.subjects[i].entry);
    }
  }

  lemma {:induction false} PartitionAllCurated(ds: Dataset, names: seq<Name>, detect: Detector, s: Settings)
    requires Curated(ds, detect, s)
    ensures PartitionAll(ds, names, detect, s) == Outcome(ds, None)
    decreases |names|
  {
    if names != [] {
      var n := names[0];
      if n != InvalidDirName && EntryAt(ds.subjects, n).Some? {
        var i := Locate(ds.subjects, n).value;
        assert EntryAt(ds.subjects, n) == Some(ds.subjects[i].entry);
        var files := ds.subjects[i].entry.files;
        PartitionSettled(n, files, ds.invalid, detect, s);
        SetFolderSame(ds.subjects, n, files);
      }
      assert PartitionStep(ds, n, detect, s) == Outcome(ds, None);
      PartitionAllCurated(ds, names[1..], detect, s);
    }
  }

  lemma {:induction false} PruneAllCurated(ds: Dataset, names: seq<Name>, detect: Detector, s: Settings)
    requires Curated(ds, detect, s)
    ensures PruneAll(ds, names, s) == Outcome(ds, None)
    decreases |names|
  {
    if names != [] {
      var n := names[0];
      if n != InvalidDirName && FolderAt(ds.subjects, n).Some? {
        var i := Locate(ds.subjects, n).value;
        assert EntryAt(ds.subjects, n) == Some(ds.subjects[i].entry);
        var files := ds.subjects[i].entry.files;
        if ImageCount(files) < s.imageCountMinimum {
          var sub := FolderAt(ds.invalid, n).value;
          assert MakeDir(ds.invalid, n) == Ok(ds.invalid);
          assert PutAll(sub, files) == sub;
          SetFolderSame(ds.invalid, n, sub);
        }
        SetFolderSame(ds.subjects, n, files);
      }
      assert PruneStep(ds, n, s) == Outcome(ds, None);
      PruneAllCurated(ds, names[1..], detect, s);
    }
  }

  /** A curated data directory is a fixed point of sort_dataset. */
  lemma CuratedFixpoint(ds: Dataset, detect: Detector, s: Settings)
    requires Curated(ds, detect, s)
    ensures Sort(ds, detect, s) == Outcome(ds, None)
  {
    PartitionAllCurated(ds, Listing(ds), detect, s);
    PruneAllCurated(ds, Listing(ds), detect, s);
  }

  /** With the same detector and settings, a second run of sort_dataset moves nothing. */
  lemma SortIdempotent(ds: Dataset, detect: Detector, s: Settings)
    requires Sort(ds, detect, s).fault.None?
    ensures Sort(Sort(ds, detect, s).state, detect, s) == Outcome(Sort(ds, detect, s).state, None)
  {
    SortCurates(ds, detect, s);
    CuratedFixpoint(Sort(ds, detect, s).state, detect, s);
  }
}
