/** Split: copy every class folder with enough images, in a shuffled order, into
    output/train/<class> and output/test/<class> (split_data). */
module Split {
  import opened Fs
  import opened Naming

  /** random.shuffle of one class folder's listing: the order the caller's random state gives
      the files of the class folder with that name. */
  type Shuffler = (Name, seq<File>) -> seq<File>

  /** The arguments of split_data besides the two folders. */
  datatype Plan = Plan(ratio: real, minImages: int, shuffle: Shuffler)

  /** The shuffle only reorders: every listing comes back as a permutation of itself. */
  ghost predicate Permutes(shuffle: Shuffler) {
    forall c, s :: multiset(shuffle(c, s)) == multiset(s)
  }

  // ---------------------------------------------------------------- counting images

  /** The name ends in .jpg, .png or .jpeg (case-sensitive). */
  predicate IsImageName(n: Name) {
    EndsWith(n, ".jpg") || EndsWith(n, ".png") || EndsWith(n, ".jpeg")
  }

  /** The number of image names in a listing. */
  function ImageCount(s: seq<File>): (r: nat)
    ensures r <= |s|
    ensures r == 0 <==> forall i :: 0 <= i < |s| ==> !IsImageName(s[i].name)
    ensures r == |s| <==> forall i :: 0 <= i < |s| ==> IsImageName(s[i].name)
    decreases |s|
  {
    if s == [] then 0
    else
      assert forall i :: 1 <= i < |s| ==> s[1..][i - 1] == s[i];
      (if IsImageName(s[0].name) then 1 else 0) + ImageCount(s[1..])
  }

  /** Counting a listing in two pieces adds up. */
  lemma {:induction false} ImageCountAppend(a: seq<File>, b: seq<File>)
    ensures ImageCount(a + b) == ImageCount(a) + ImageCount(b)
    decreases |a|
  {
    if a != [] {
      assert (a + b)[0] == a[0] && (a + b)[1..] == a[1..] + b;
      ImageCountAppend(a[1..], b);
    } else {
      assert a + b == b;
    }
  }

  /** A class folder is split when it has at least min_images image names. */
  predicate Chosen(files: Folder, plan: Plan) {
    ImageCount(files) >= plan.minImages
  }

  // ---------------------------------------------------------------- the split index

  /** int(split_ratio * len(files)), on an exact ratio. */
  function SplitIndex(ratio: real, n: nat): (k: int)
    ensures 0.0 <= ratio ==> 0 <= k && k as real <= ratio * n as real < k as real + 1.0
    ensures ratio <= 1.0 ==> k <= n
  {
    RatioBound(ratio, n);
    Trunc(ratio * n as real)
  }

  lemma RatioBound(ratio: real, n: nat)
    ensures ratio <= 1.0 ==> ratio * n as real <= n as real
  {
    if ratio <= 1.0 {
      assert (1.0 - ratio) * n as real >= 0.0;
    }
  }

  /** files[:k] and files[k:]. */
  function Cut(list: seq<File>, k: int): (r: (seq<File>, seq<File>))
    ensures r.0 + r.1 == list
    ensures |r.0| == SliceBound(k, |list|)
    ensures 0 <= k <= |list| ==> |r.0| == k && |r.1| == |list| - k
  {
    var m := SliceBound(k, |list|);
    (list[..m], list[m..])
  }

  /** The train part and the test part of one class folder, in copying order. */
  function Parts(c: Name, files: Folder, plan: Plan): (r: (seq<File>, seq<File>))
    ensures r.0 + r.1 == plan.shuffle(c, files)
  {
    var list := plan.shuffle(c, files);
    Cut(list, SplitIndex(plan.ratio, |list|))
  }

  /** Equal multisets of files: unique names carry over. */
  lemma PermutedUnique(p: seq<File>, s: seq<File>)
    requires multiset(p) == multiset(s) && UniqueNames(s)
    ensures UniqueNames(p)
  {
    UniqueDistinct(s);
    UniqueDistinct(p);
    forall i, j | 0 <= i < j < |p| ensures p[i].name != p[j].name {
      assert p[i] in multiset(s) && p[j] in multiset(s);
      assert p[i] in s && p[j] in s;
      if p[i] == p[j] {
        TwiceCounted(p, i, j);
        OnceCounted(s, p[i]);
      } else {
        var a :| 0 <= a < |s| && s[a] == p[i];
        var b :| 0 <= b < |s| && s[b] == p[j];
        assert a != b;
      }
    }
  }

  lemma TwiceCounted(p: seq<File>, i: nat, j: nat)
    requires i < j < |p| && p[i] == p[j]
    ensures multiset(p)[p[i]] >= 2
  {
    assert p == p[..i] + [p[i]] + p[i + 1..j] + [p[j]] + p[j + 1..];
  }

  lemma {:induction false} OnceCounted(s: seq<File>, x: File)
    requires DistinctNames(s)
    ensures multiset(s)[x] <= 1
    decreases |s|
  {
    if s != [] {
      assert s == [s[0]] + s[1..];
      assert forall i :: 0 <= i < |s| - 1 ==> s[1..][i] == s[i + 1];
      OnceCounted(s[1..], x);
      if x == s[0] {
        assert x !in s[1..];
      }
    }
  }

  /** Two pieces of a listing of unique names have no name in common. */
  lemma PiecesApart(a: seq<File>, b: seq<File>)
    requires UniqueNames(a + b)
    ensures forall x, y :: x in a && y in b ==> x.name != y.name
  {
    UniqueDistinct(a + b);
    forall x, y | x in a && y in b ensures x.name != y.name {
      var i :| 0 <= i < |a| && a[i] == x;
      var j :| 0 <= j < |b| && b[j] == y;
      assert (a + b)[i] == x && (a + b)[|a| + j] == y;
    }
  }

  /** For a shuffle that only reorders, the two parts share out the class folder's files: together
      they hold each file once, no name is in both, and for a ratio between 0 and 1 the train part
      has int(split_ratio * len(files)) files and the test part the rest. */
  lemma PartsCover(c: Name, files: Folder, plan: Plan)
    requires Permutes(plan.shuffle)
    ensures multiset(Parts(c, files, plan).0) + multiset(Parts(c, files, plan).1) == multiset(files)
    ensures UniqueNames(Parts(c, files, plan).0 + Parts(c, files, plan).1)
    ensures forall x, y :: x in Parts(c, files, plan).0 && y in Parts(c, files, plan).1 ==> x.name != y.name
    ensures 0.0 <= plan.ratio <= 1.0 ==>
              |Parts(c, files, plan).0| == SplitIndex(plan.ratio, |files|)
              && |Parts(c, files, plan).1| == |files| - SplitIndex(plan.ratio, |files|)
  {
    var list := plan.shuffle(c, files);
    var p := Parts(c, files, plan);
    assert multiset(list) == multiset(files);
    assert multiset(p.0 + p.1) == multiset(p.0) + multiset(p.1);
    assert |list| == |multiset(list)| == |files|;
    PermutedUnique(list, files);
    PiecesApart(p.0, p.1);
  }

  // ---------------------------------------------------------------- one class folder

  /** train/ and test/ under the output folder. */
  datatype Sides = Sides(train: Tree, test: Tree)

  /** shutil.copy of each file in turn into the existing sub-directory c of t. */
  function CopyAll(t: Tree, c: Name, files: seq<File>): (r: Tree)
    requires FolderAt(t, c).Some?
    ensures FolderAt(r, c) == Some(PutAll(BaseAt(t, c), files))
    ensures forall m :: m != c ==> EntryAt(r, m) == EntryAt(t, m)
  {
    SetFolder(t, c, PutAll(FolderAt(t, c).value, files))
  }

  /** One class folder c: skipped when it has too few images; otherwise makedirs of train/c and
      test/c, then the train part copied into train/c and the test part into test/c. */
  function ClassSplit(st: Sides, c: Name, files: Folder, plan: Plan): (r: Outcome<Sides>)
    ensures !Chosen(files, plan) ==> r == Outcome(st, None)
    ensures Chosen(files, plan) ==> (r.fault.None? <==> !PlainAt(st.train, c) && !PlainAt(st.test, c))
    ensures r.fault.Some? ==> r.fault.value == FileExists(c)
    ensures forall m :: m != c ==> EntryAt(r.state.train, m) == EntryAt(st.train, m)
    ensures forall m :: m != c ==> EntryAt(r.state.test, m) == EntryAt(st.test, m)
    ensures Chosen(files, plan) && r.fault.None? ==>
              FolderAt(r.state.train, c) == Some(PutAll(BaseAt(st.train, c), Parts(c, files, plan).0))
              && FolderAt(r.state.test, c) == Some(PutAll(BaseAt(st.test, c), Parts(c, files, plan).1))
  {
    if !Chosen(files, plan) then Outcome(st, None)
    else match MakeDir(st.train, c)
      case Err(e) => Outcome(st, Some(e))
      case Ok(tr) =>
        match MakeDir(st.test, c)
        case Err(e) => Outcome(Sides(tr, st.test), Some(e))
        case Ok(te) =>
          var p := Parts(c, files, plan);
          Outcome(Sides(CopyAll(tr, c, p.0), CopyAll(te, c, p.1)), None)
  }

  // ---------------------------------------------------------------- the loop over class folders

  /** The loop over the input folder's entries: plain files are passed over, class folders split
      in listing order, and the first exception ends the run. */
  function ClassSplits(st: Sides, nodes: seq<Node>, plan: Plan): Outcome<Sides>
    decreases |nodes|, 1
  {
    if nodes == [] then Outcome(st, None) else ClassSplitsStep(st, nodes, plan)
  }

  function ClassSplitsStep(st: Sides, nodes: seq<Node>, plan: Plan): Outcome<Sides>
    requires nodes != []
    decreases |nodes|, 0
  {
    var n := nodes[0];
    if n.entry.Plain? then ClassSplits(st, nodes[1..], plan)
    else
      var r := ClassSplit(st, n.name, n.entry.files, plan);
      if r.fault.Some? then r else ClassSplits(r.state, nodes[1..], plan)
  }

  /** n is a class folder of the listing that has enough images. */
  predicate SplitAt(nodes: seq<Node>, i: int, plan: Plan) {
    0 <= i < |nodes| && nodes[i].entry.Sub? && Chosen(nodes[i].entry.files, plan)
  }

  ghost predicate Splits(nodes: seq<Node>, m: Name, plan: Plan) {
    exists i :: SplitAt(nodes, i, plan) && nodes[i].name == m
  }

  /** There is room for class folder c under both train/ and test/. */
  predicate Room(st: Sides, c: Name) {
    !PlainAt(st.train, c) && !PlainAt(st.test, c)
  }

  /** Entries of train/ and test/ not named after a class folder that is split are untouched:
      skipped class folders and plain input files leave no trace. */
  lemma {:induction false} ClassSplitsKeeps(st: Sides, nodes: seq<Node>, plan: Plan)
    ensures forall m :: !Splits(nodes, m, plan) ==>
              EntryAt(ClassSplits(st, nodes, plan).state.train, m) == EntryAt(st.train, m)
              && EntryAt(ClassSplits(st, nodes, plan).state.test, m) == EntryAt(st.test, m)
    decreases |nodes|
  {
    if nodes != [] {
      var n, rest := nodes[0], nodes[1..];
      assert ClassSplits(st, nodes, plan) == ClassSplitsStep(st, nodes, plan);
      assert forall m :: Splits(rest, m, plan) ==> Splits(nodes, m, plan) by {
        assert forall i :: 0 <= i < |rest| ==> rest[i] == nodes[i + 1];
        forall m | Splits(rest, m, plan) ensures Splits(nodes, m, plan) {
          var i :| SplitAt(rest, i, plan) && rest[i].name == m;
          assert SplitAt(nodes, i + 1, plan);
        }
      }
      if n.entry.Plain? {
        ClassSplitsKeeps(st, rest, plan);
      } else {
        var r := ClassSplit(st, n.name, n.entry.files, plan);
        if r.fault.None? {
          ClassSplitsKeeps(r.state, rest, plan);
        }
        assert Chosen(n.entry.files, plan) ==> SplitAt(nodes, 0, plan);
      }
    }
  }

  /** After the first entry, the later ones meet train/ and test/ as they were at the start. */
  lemma ClassSplitsRest(st: Sides, nodes: seq<Node>, plan: Plan)
    requires nodes != [] && nodes[0].entry.Sub? && UniqueNodeNames(nodes)
    ensures UniqueNodeNames(nodes[1..])
    ensures forall i :: 0 <= i < |nodes| - 1 ==> nodes[1..][i] == nodes[i + 1]
    ensures forall i :: 1 <= i < |nodes| ==>
              var t := ClassSplit(st, nodes[0].name, nodes[0].entry.files, plan).state;
              EntryAt(t.train, nodes[i].name) == EntryAt(st.train, nodes[i].name)
              && EntryAt(t.test, nodes[i].name) == EntryAt(st.test, nodes[i].name)
              && Room(t, nodes[i].name) == Room(st, nodes[i].name)
              && BaseAt(t.train, nodes[i].name) == BaseAt(st.train, nodes[i].name)
              && BaseAt(t.test, nodes[i].name) == BaseAt(st.test, nodes[i].name)
  {
    var t := ClassSplit(st, nodes[0].name, nodes[0].entry.files, plan).state;
    forall i | 1 <= i < |nodes|
      ensures Room(t, nodes[i].name) == Room(st, nodes[i].name)
      ensures BaseAt(t.train, nodes[i].name) == BaseAt(st.train, nodes[i].name)
      ensures BaseAt(t.test, nodes[i].name) == BaseAt(st.test, nodes[i].name)
    {
      assert nodes[i].name != nodes[0].name;
    }
  }

  /** The loop ends without an exception exactly when every class folder that is split finds
      room under both train/ and test/. */
  lemma {:induction false} ClassSplitsOk(st: Sides, nodes: seq<Node>, plan: Plan)
    requires UniqueNodeNames(nodes)
    ensures ClassSplits(st, nodes, plan).fault.None? <==>
              forall i :: SplitAt(nodes, i, plan) ==> Room(st, nodes[i].name)
    decreases |nodes|
  {
    if nodes != [] {
      var n, rest := nodes[0], nodes[1..];
      assert ClassSplits(st, nodes, plan) == ClassSplitsStep(st, nodes, plan);
      assert forall i :: 0 <= i < |rest| ==> rest[i] == nodes[i + 1];
      assert forall i :: 1 <= i < |nodes| ==> (SplitAt(nodes, i, plan) <==> SplitAt(rest, i - 1, plan));
      if n.entry.Plain? {
        assert UniqueNodeNames(rest);
        ClassSplitsOk(st, rest, plan);
        assert !SplitAt(nodes, 0, plan);
      } else {
        var r := ClassSplit(st, n.name, n.entry.files, plan);
        ClassSplitsRest(st, nodes, plan);
        if r.fault.None? {
          ClassSplitsOk(r.state, rest, plan);
        } else {
          assert SplitAt(nodes, 0, plan);
        }
      }
    }
  }

  /** A run of the loop without an exception leaves, in train/c and test/c of every class folder
      c that is split, its train part and its test part copied over what was there. */
  lemma {:induction false} ClassSplitsWrites(st: Sides, nodes: seq<Node>, plan: Plan)
    requires UniqueNodeNames(nodes)
    ensures ClassSplits(st, nodes, plan).fault.None? ==>
              forall i :: SplitAt(nodes, i, plan) ==>
                var r, c, files := ClassSplits(st, nodes, plan).state, nodes[i].name, nodes[i].entry.files;
                FolderAt(r.train, c) == Some(PutAll(BaseAt(st.train, c), Parts(c, files, plan).0))
                && FolderAt(r.test, c) == Some(PutAll(BaseAt(st.test, c), Parts(c, files, plan).1))
    decreases |nodes|
  {
    if nodes != [] {
      var n, rest := nodes[0], nodes[1..];
      assert ClassSplits(st, nodes, plan) == ClassSplitsStep(st, nodes, plan);
      var r := ClassSplits(st, nodes, plan);
      if r.fault.None? {
        if n.entry.Plain? {
          assert forall i :: 0 <= i < |rest| ==> rest[i] == nodes[i + 1];
          assert UniqueNodeNames(rest);
          ClassSplitsWrites(st, rest, plan);
          forall i | SplitAt(nodes, i, plan) ensures SplitAt(rest, i - 1, plan) && rest[i - 1] == nodes[i] { }
        } else {
          var r0 := ClassSplit(st, n.name, n.entry.files, plan);
          var t := r0.state;
          ClassSplitsRest(st, nodes, plan);
          ClassSplitsWrites(t, rest, plan);
          ClassSplitsKeeps(t, rest, plan);
          forall k | 0 <= k < |rest| ensures rest[k].name != n.name {
            assert nodes[k + 1].name != nodes[0].name;
          }
          assert !Splits(rest, n.name, plan);
          forall i | SplitAt(nodes, i, plan)
            ensures FolderAt(r.state.train, nodes[i].name)
                      == Some(PutAll(BaseAt(st.train, nodes[i].name), Parts(nodes[i].name, nodes[i].entry.files, plan).0))
            ensures FolderAt(r.state.test, nodes[i].name)
                      == Some(PutAll(BaseAt(st.test, nodes[i].name), Parts(nodes[i].name, nodes[i].entry.files, plan).1))
          {
            if i > 0 {
              assert SplitAt(rest, i - 1, plan) && rest[i - 1] == nodes[i];
            }
          }
        }
      }
    }
  }

  // ---------------------------------------------------------------- split_data

  /** What output/train or output/test is before the run. */
  datatype Slot = Missing | Occupied | Dir(tree: Tree)

  datatype Output = Output(train: Slot, test: Slot)

  /** os.makedirs(output/<name>, exist_ok=True): a plain file of that name raises
      FileExistsError. */
  function MakeSlot(s: Slot, name: Name): (r: Result<Tree>)
    ensures r.Err? <==> s.Occupied?
    ensures r.Err? ==> r.fault == FileExists(name)
    ensures s.Dir? ==> r == Ok(s.tree)
    ensures s.Missing? ==> r == Ok([])
  {
    match s
    case Missing => Ok([])
    case Occupied => Err(FileExists(name))
    case Dir(t) => Ok(t)
  }

  /** The directory a slot holds once made (empty if it was missing). */
  function SlotTree(s: Slot): Tree {
    if s.Dir? then s.tree else []
  }

  /** split_data on an input tree and a separate output folder. */
  function SplitAll(input: Tree, out: Output, plan: Plan): Outcome<Output> {
    match MakeSlot(out.train, "train")
    case Err(e) => Outcome(out, Some(e))
    case Ok(tr) =>
      match MakeSlot(out.test, "test")
      case Err(e) => Outcome(Output(Dir(tr), out.test), Some(e))
      case Ok(te) =>
        var r := ClassSplits(Sides(tr, te), input, plan);
        Outcome(Output(Dir(r.state.train), Dir(r.state.test)), r.fault)
  }

  /** split_data ends without an exception exactly when train and test are not plain files and
      every class folder that is split finds room under both. */
  lemma SplitAllOk(input: Tree, out: Output, plan: Plan)
    ensures SplitAll(input, out, plan).fault.None? <==>
              !out.train.Occupied? && !out.test.Occupied?
              && forall i :: SplitAt(input, i, plan) ==> Room(Sides(SlotTree(out.train), SlotTree(out.test)), input[i].name)
  {
    if !out.train.Occupied? && !out.test.Occupied? {
      ClassSplitsOk(Sides(SlotTree(out.train), SlotTree(out.test)), input, plan);
    }
  }

  /** After split_data without an exception, train/c and test/c of a class folder c that is split
      hold its train and test parts copied over what was there; every other entry of train/ and
      test/ is as it was. */
  lemma SplitAllWrites(input: Tree, out: Output, plan: Plan)
    ensures var r := SplitAll(input, out, plan);
            r.fault.None? ==>
              r.state.train.Dir? && r.state.test.Dir?
              && (forall i :: SplitAt(input, i, plan) ==>
                    FolderAt(r.state.train.tree, input[i].name)
                      == Some(PutAll(BaseAt(SlotTree(out.train), input[i].name), Parts(input[i].name, input[i].entry.files, plan).0))
                    && FolderAt(r.state.test.tree, input[i].name)
                      == Some(PutAll(BaseAt(SlotTree(out.test), input[i].name), Parts(input[i].name, input[i].entry.files, plan).1)))
              && (forall m :: !Splits(input, m, plan) ==>
                    EntryAt(r.state.train.tree, m) == EntryAt(SlotTree(out.train), m)
                    && EntryAt(r.state.test.tree, m) == EntryAt(SlotTree(out.test), m))
  {
    if !out.train.Occupied? && !out.test.Occupied? {
      var st := Sides(SlotTree(out.train), SlotTree(out.test));
      ClassSplitsWrites(st, input, plan);
      ClassSplitsKeeps(st, input, plan);
    }
  }

  /** Writing files of distinct names into an empty folder gives exactly those files. */
  lemma {:induction false} PutAllFresh(files: seq<File>)
    requires UniqueNames(files)
    ensures PutAll([], files) == files
    decreases |files|
  {
    if files != [] {
      var n := |files| - 1;
      var x, front := files[n], files[..n];
      assert files == front + [x];
      UniquePrefix(files, n);
      PutAllFresh(front);
      PutAllSnoc([], front, x);
      UniqueDistinct(files);
      assert forall i :: 0 <= i < n ==> front[i] == files[i] && files[i].name != x.name;
      assert !Has(front, x.name);
    }
  }

  /** Into an output without train/ and test/, with a shuffle that only reorders: after split_data
      without an exception, train/c and test/c of a class folder c that is split are exactly its
      train and test parts, which share out its files with no name in both. */
  lemma FreshSplit(input: Tree, plan: Plan, i: nat)
    requires Permutes(plan.shuffle) && SplitAt(input, i, plan)
    ensures var r := SplitAll(input, Output(Missing, Missing), plan);
            var c, files := input[i].name, input[i].entry.files;
            r.fault.None? ==>
              r.state.train.Dir? && r.state.test.Dir?
              && FolderAt(r.state.train.tree, c) == Some(Parts(c, files, plan).0)
              && FolderAt(r.state.test.tree, c) == Some(Parts(c, files, plan).1)
              && multiset(Parts(c, files, plan).0) + multiset(Parts(c, files, plan).1) == multiset(files)
              && (forall x, y :: x in Parts(c, files, plan).0 && y in Parts(c, files, plan).1 ==> x.name != y.name)
  {
    var c, files := input[i].name, input[i].entry.files;
    var p := Parts(c, files, plan);
    SplitAllWrites(input, Output(Missing, Missing), plan);
    PartsCover(c, files, plan);
    UniquePrefix(p.0 + p.1, |p.0|);
    UniqueSuffix(p.0 + p.1, |p.0|);
    assert (p.0 + p.1)[..|p.0|] == p.0 && (p.0 + p.1)[|p.0|..] == p.1;
    PutAllFresh(p.0);
    PutAllFresh(p.1);
  }

  // ---------------------------------------------------------------- the program

  /** The copy loop: shutil.copy of each file, in order, into sub-directory c of t. */
  method CopyFiles(t: Tree, c: Name, files: seq<File>) returns (r: Tree)
    requires FolderAt(t, c).Some?
    ensures r == CopyAll(t, c, files)
  {
    var base := FolderAt(t, c).value;
    r := t;
    SetFolderSame(t, c, base);
    var j := 0;
    while j < |files|
      invariant 0 <= j <= |files|
      invariant r == SetFolder(t, c, PutAll(base, files[..j]))
    {
      assert files[..j + 1] == files[..j] + [files[j]];
      PutAllSnoc(base, files[..j], files[j]);
      SetFolderTwice(t, c, PutAll(base, files[..j]), PutAll(base, files[..j + 1]));
      r := SetFolder(r, c, Put(FolderAt(r, c).value, files[j]));
      j := j + 1;
    }
    assert files[..j] == files;
  }

  /** split_data(input_folder, output_folder, split_ratio, min_images). */
  method SplitData(input: Tree, out: Output, plan: Plan) returns (res: Output, fault: Option<Fault>)
    ensures Outcome(res, fault) == SplitAll(input, out, plan)
  {
    if out.train.Occupied? {
      return out, Some(FileExists("train"));
    }
    var train := SlotTree(out.train);
    if out.test.Occupied? {
      return Output(Dir(train), out.test), Some(FileExists("test"));
    }
    var test := SlotTree(out.test);
    ghost var goal := ClassSplits(Sides(train, test), input, plan);
    fault := None;
    var i := 0;
    while i < |input|
      invariant 0 <= i <= |input|
      invariant ClassSplits(Sides(train, test), input[i..], plan) == goal
    {
      assert ClassSplits(Sides(train, test), input[i..], plan) == ClassSplitsStep(Sides(train, test), input[i..], plan);
      assert input[i..][1..] == input[i + 1..];
      var n := input[i];
      if n.entry.Sub? {
        var c, files := n.name, n.entry.files;
        if ImageCount(files) >= plan.minImages {
          var made := MakeDir(train, c);
          if made.Err? {
            return Output(Dir(train), Dir(test)), Some(made.fault);
          }
          var made' := MakeDir(test, c);
          if made'.Err? {
            return Output(Dir(made.value), Dir(test)), Some(made'.fault);
          }
          var list := plan.shuffle(c, files);
          var k := SplitIndex(plan.ratio, |list|);
          var m := SliceBound(k, |list|);
          train := CopyFiles(made.value, c, list[..m]);
          test := CopyFiles(made'.value, c, list[m..]);
        }
      }
      i := i + 1;
    }
    assert Outcome(Sides(train, test), None) == goal;
    res := Output(Dir(train), Dir(test));
  }
}
