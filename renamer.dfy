/** ProcessDogImages.rename_folders_by_count: delete the empty subject folders, rename every
    other one after its 1-based position in the listing (dog001, dog002, ...) and its files after
    their position in the folder's own listing (dog001_001.jpg, dog001_002.jpg, ...). */
module Renamer {
  import opened Fs
  import opened Naming

  // ---------------------------------------------------------------- the generated names

  /** f"dog{i:03d}" */
  function DogName(i: nat): Name {
    "dog" + Pad3(i)
  }

  /** f"{folder}_{j:03d}.jpg" */
  function NumberedName(folder: Name, j: nat): Name {
    folder + "_" + Pad3(j) + ".jpg"
  }

  /** Different positions give different folder names. */
  lemma DogNameInjective(a: nat, b: nat)
    requires DogName(a) == DogName(b)
    ensures a == b
  {
    assert |Pad3(a)| == |Pad3(b)|;
    MiddleInjective("dog", Pad3(a), Pad3(b), "", "");
    Pad3Injective(a, b);
  }

  /** Different positions give different file names in one folder. */
  lemma NumberedNameInjective(folder: Name, a: nat, b: nat)
    requires NumberedName(folder, a) == NumberedName(folder, b)
    ensures a == b
  {
    assert |Pad3(a)| == |Pad3(b)|;
    assert NumberedName(folder, a) == (folder + "_") + Pad3(a) + ".jpg";
    assert NumberedName(folder, b) == (folder + "_") + Pad3(b) + ".jpg";
    MiddleInjective(folder + "_", Pad3(a), Pad3(b), ".jpg", ".jpg");
    Pad3Injective(a, b);
  }

  lemma NumberedNamesDiffer(folder: Name, a: nat, b: nat)
    requires a != b
    ensures NumberedName(folder, a) != NumberedName(folder, b)
  {
    if NumberedName(folder, a) == NumberedName(folder, b) {
      NumberedNameInjective(folder, a, b);
    }
  }

  // ---------------------------------------------------------------- renaming the files of one folder

  /** Path.rename of a file inside one directory, with POSIX semantics: a file already called
      dst is overwritten, renaming a file onto its own name changes nothing, and a missing source
      raises FileNotFoundError. */
  function RenameFile(f: Folder, src: Name, dst: Name): (r: Result<Folder>)
    ensures r.Err? <==> !Has(f, src)
    ensures r.Err? ==> r.fault == NotFound(src)
    ensures r.Ok? ==> forall g :: g in r.value <==>
              (g == File(dst, Read(f, src).value) || (g in f && g.name != src && g.name != dst))
    ensures r.Ok? ==> |r.value| == if src != dst && Has(f, dst) then |f| - 1 else |f|
  {
    if !Has(f, src) then Err(NotFound(src))
    else if src == dst then
      assert forall g :: g in f && g.name == src ==> g == File(src, Read(f, src).value);
      Ok(f)
    else
      RemoveUnique(f, src);
      RemoveOne(f, src);
      var rest: Folder := Remove(f, src);
      assert Has(rest, dst) <==> Has(f, dst) by {
        RemoveHas(f, src, dst);
      }
      Ok(Put(rest, File(dst, Read(f, src).value)))
  }

  /** The inner loop from position j of the folder's listing on. */
  function RenameFilesFrom(folder: Name, names: seq<Name>, j: nat, f: Folder): (r: Outcome<Folder>)
    requires j <= |names|
    decreases |names| - j, 1
  {
    if j == |names| then Outcome(f, None) else RenameFilesStep(folder, names, j, f)
  }

  /** One rename of the inner loop, then the rest. */
  function RenameFilesStep(folder: Name, names: seq<Name>, j: nat, f: Folder): Outcome<Folder>
    requires j < |names|
    decreases |names| - j, 0
  {
    match RenameFile(f, names[j], NumberedName(folder, j + 1))
    case Err(e) => Outcome(f, Some(e))
    case Ok(f') => RenameFilesFrom(folder, names, j + 1, f')
  }

  /** The inner loop over the listing of the renamed folder. */
  function RenameFiles(folder: Name, files: Folder): Outcome<Folder> {
    RenameFilesFrom(folder, Names(files), 0, files)
  }

  method RenumberFiles(folder: Name, files: Folder) returns (f: Folder, fault: Option<Fault>)
    ensures Outcome(f, fault) == RenameFiles(folder, files)
  {
    var names := Names(files);
    f := files;
    var j := 0;
    while j < |names|
      invariant 0 <= j <= |names|
      invariant RenameFilesFrom(folder, names, j, f) == RenameFiles(folder, files)
    {
      assert RenameFilesFrom(folder, names, j, f) == RenameFilesStep(folder, names, j, f);
      var renamed := RenameFile(f, names[j], NumberedName(folder, j + 1));
      if renamed.Err? {
        return f, Some(renamed.fault);
      }
      f := renamed.value;
      j := j + 1;
    }
    fault := None;
  }

  /** Every name of the listing not yet visited is still in the folder: the loop never reaches
      a missing file, so FileNotFoundError cannot happen. */
  lemma {:induction false} RenameFilesFromNoFault(folder: Name, names: seq<Name>, j: nat, f: Folder)
    requires j <= |names|
    requires forall m, n :: j <= m < n < |names| ==> names[m] != names[n]
    requires forall m :: j <= m < |names| ==> Has(f, names[m])
    ensures RenameFilesFrom(folder, names, j, f).fault.None?
    decreases |names| - j
  {
    if j < |names| {
      var dst := NumberedName(folder, j + 1);
      assert RenameFilesFrom(folder, names, j, f) == RenameFilesStep(folder, names, j, f);
      var f' := RenameFile(f, names[j], dst).value;
      forall m | j + 1 <= m < |names| ensures Has(f', names[m]) {
        if names[m] == dst {
          var g := File(dst, Read(f, names[j]).value);
          assert g in f';
        } else {
          var i :| 0 <= i < |f| && f[i].name == names[m];
          assert f[i] in f';
        }
      }
      RenameFilesFromNoFault(folder, names, j + 1, f');
    }
  }

  lemma RenameFilesNoFault(folder: Name, files: Folder)
    ensures RenameFiles(folder, files).fault.None?
  {
    var names := Names(files);
    UniqueDistinct(files);
    forall m | 0 <= m < |names| ensures Has(files, names[m]) {
      assert files[m].name == names[m];
    }
    RenameFilesFromNoFault(folder, names, 0, files);
  }

  /** No file of the folder already carries the number of another position. */
  predicate NoClash(folder: Name, files: seq<File>) {
    forall k, j :: 0 <= k < |files| && 1 <= j <= |files| && files[k].name == NumberedName(folder, j) ==> j == k + 1
  }

  /** The file at position k of the listing under its new name. */
  function Numbered(folder: Name, files: seq<File>, k: nat): File
    requires k < |files|
  {
    File(NumberedName(folder, k + 1), files[k].data)
  }

  /** What the folder holds after the first j renames: the renamed first j files and the
      others as they were. */
  ghost predicate RenamedUpTo(folder: Name, files: seq<File>, j: nat, f: seq<File>)
    requires j <= |files|
  {
    && |f| == |files|
    && forall g :: g in f <==>
         ((exists k :: 0 <= k < j && g == Numbered(folder, files, k))
          || (exists k :: j <= k < |files| && g == files[k]))
  }

  /** Before rename j, the file called files[j].name is files[j] itself. */
  lemma SourceIsOwn(folder: Name, files: Folder, j: nat, f: Folder)
    requires j < |files|
    requires NoClash(folder, files)
    requires RenamedUpTo(folder, files, j, f)
    ensures files[j] in f
    ensures Read(f, files[j].name) == Some(files[j].data)
  {
    assert files[j] in f;
  }

  /** Before rename j, no file is called by the new name unless files[j] already is. */
  lemma TargetIsFree(folder: Name, files: Folder, j: nat, f: Folder)
    requires j < |files|
    requires NoClash(folder, files)
    requires RenamedUpTo(folder, files, j, f)
    ensures files[j].name != NumberedName(folder, j + 1) ==> !Has(f, NumberedName(folder, j + 1))
  {
    var dst := NumberedName(folder, j + 1);
    UniqueDistinct(files);
    forall g | g in f && g.name == dst ensures g == files[j] {
      forall k | 0 <= k < j ensures Numbered(folder, files, k).name != dst {
        NumberedNamesDiffer(folder, k + 1, j + 1);
      }
    }
  }

  /** One rename of the inner loop, when nothing clashes. */
  lemma RenameOne(folder: Name, files: Folder, j: nat, f: Folder)
    requires j < |files|
    requires NoClash(folder, files)
    requires RenamedUpTo(folder, files, j, f)
    ensures RenameFile(f, files[j].name, NumberedName(folder, j + 1)).Ok?
    ensures RenamedUpTo(folder, files, j + 1, RenameFile(f, files[j].name, NumberedName(folder, j + 1)).value)
  {
    var src, dst := files[j].name, NumberedName(folder, j + 1);
    SourceIsOwn(folder, files, j, f);
    TargetIsFree(folder, files, j, f);
    RenamedMembers(folder, files, j, f, RenameFile(f, src, dst).value);
  }

  lemma RenamedMembers(folder: Name, files: Folder, j: nat, f: Folder, r: Folder)
    requires j < |files|
    requires NoClash(folder, files)
    requires RenamedUpTo(folder, files, j, f)
    requires Read(f, files[j].name) == Some(files[j].data)
    requires |r| == |f|
    requires forall g :: g in r <==>
               (g == Numbered(folder, files, j) || (g in f && g.name != files[j].name && g.name != NumberedName(folder, j + 1)))
    ensures RenamedUpTo(folder, files, j + 1, r)
  {
    var src, dst := files[j].name, NumberedName(folder, j + 1);
    forall g | g in r
      ensures (exists k :: 0 <= k < j + 1 && g == Numbered(folder, files, k))
              || (exists k :: j + 1 <= k < |files| && g == files[k])
    {
      if g != Numbered(folder, files, j) {
        assert g in f && g.name != src;
      }
    }
    forall k | 0 <= k < j ensures Numbered(folder, files, k) in r {
      var g := Numbered(folder, files, k);
      assert g in f;
      NumberedNamesDiffer(folder, k + 1, j + 1);
    }
    forall k | j + 1 <= k < |files| ensures files[k] in r {
      OtherNames(files, j, k);
      assert files[k] in f;
    }
  }

  lemma OtherNames(files: Folder, j: nat, k: nat)
    requires j < k < |files|
    ensures files[k].name != files[j].name
  {
    UniqueDistinct(files);
  }

  lemma {:induction false} RenameFilesFromNumbered(folder: Name, files: Folder, j: nat, f: Folder)
    requires j <= |files|
    requires NoClash(folder, files)
    requires RenamedUpTo(folder, files, j, f)
    ensures RenameFilesFrom(folder, Names(files), j, f).fault.None?
    ensures RenamedUpTo(folder, files, |files|, RenameFilesFrom(folder, Names(files), j, f).state)
    decreases |files| - j
  {
    if j < |files| {
      RenameOne(folder, files, j, f);
      var f' := RenameFile(f, files[j].name, NumberedName(folder, j + 1)).value;
      assert RenameFilesFrom(folder, Names(files), j, f) == RenameFilesFrom(folder, Names(files), j + 1, f') by {
        assert Names(files)[j] == files[j].name;
        assert RenameFilesFrom(folder, Names(files), j, f) == RenameFilesStep(folder, Names(files), j, f);
      }
      RenameFilesFromNumbered(folder, files, j + 1, f');
    }
  }

  /** When no file already carries another position's number, the folder ends up with exactly
      as many files as it had, the one at listing position j (from 1) now called
      <folder>_<j:03d>.jpg with its content unchanged. */
  lemma RenameFilesNumbered(folder: Name, files: Folder)
    requires NoClash(folder, files)
    ensures RenameFiles(folder, files).fault.None?
    ensures var r := RenameFiles(folder, files).state;
      && |r| == |files|
      && forall g :: g in r <==> exists k :: 0 <= k < |files| && g == Numbered(folder, files, k)
  {
    forall g | g in files ensures exists k :: 0 <= k < |files| && g == files[k] {
    }
    RenameFilesFromNumbered(folder, files, 0, files);
  }

  // ---------------------------------------------------------------- the data directory

  /** Path.rmdir of sub-directory n: its node leaves the listing. */
  function RemoveNode(t: Tree, n: Name): (r: Tree)
    ensures EntryAt(r, n).None?
    ensures forall m :: m != n ==> EntryAt(r, m) == EntryAt(t, m)
  {
    match Locate(t, n)
    case None => t
    case Some(i) =>
      var r := t[..i] + t[i + 1..];
      assert forall a :: 0 <= a < |r| ==> r[a] == t[if a < i then a else a + 1];
      forall m | m != n ensures EntryAt(r, m) == EntryAt(t, m) {
        if a :| 0 <= a < |t| && t[a].name == m {
          assert r[if a < i then a else a - 1] == t[a];
        }
      }
      r
  }

  /** Giving the node called src the free name dst, where it stands in the listing. */
  function Relabel(t: Tree, src: Name, dst: Name): (r: Tree)
    requires EntryAt(t, src).Some? && EntryAt(t, dst).None?
    ensures EntryAt(r, dst) == EntryAt(t, src)
    ensures EntryAt(r, src).None?
    ensures forall m :: m != src && m != dst ==> EntryAt(r, m) == EntryAt(t, m)
  {
    var i := Locate(t, src).value;
    var r := t[i := Node(dst, t[i].entry)];
    assert forall a :: 0 <= a < |t| && a != i ==> r[a] == t[a];
    assert r[i].name == dst;
    r
  }

  /** Path.rename of sub-directory src to dst, with POSIX semantics: onto a missing name the
      directory is renamed; an empty directory called dst is replaced; a non-empty one raises
      OSError and a plain file NotADirectoryError; renaming onto its own name changes nothing. */
  function RenameDir(t: Tree, src: Name, dst: Name): (r: Result<Tree>)
    requires FolderAt(t, src).Some?
    ensures r.Ok? <==> src == dst || EntryAt(t, dst).None? || EntryAt(t, dst) == Some(Sub([]))
    ensures r.Err? && EntryAt(t, dst).value.Plain? ==> r.fault == NotADirectory(dst)
    ensures r.Err? && EntryAt(t, dst).value.Sub? ==> r.fault == DirectoryNotEmpty(dst)
    ensures r.Ok? ==> FolderAt(r.value, dst) == FolderAt(t, src)
    ensures r.Ok? && src != dst ==> EntryAt(r.value, src).None?
    ensures r.Ok? ==> forall m :: m != src && m != dst ==> EntryAt(r.value, m) == EntryAt(t, m)
  {
    if src == dst then Ok(t)
    else match EntryAt(t, dst)
      case None => Ok(Relabel(t, src, dst))
      case Some(Plain(_)) => Err(NotADirectory(dst))
      case Some(Sub(files)) =>
        if files != [] then Err(DirectoryNotEmpty(dst)) else Ok(Relabel(RemoveNode(t, dst), src, dst))
  }

  /** The outer loop from listing position i (0-based; the folder name uses i + 1). A name
      whose entry is gone or is not a directory is passed over, but still counts. */
  function RenumberFrom(names: seq<Name>, i: nat, t: Tree): (r: Outcome<Tree>)
    requires i <= |names|
    decreases |names| - i, 1
  {
    if i == |names| then Outcome(t, None) else RenumberStep(names, i, t)
  }

  /** One visit of the outer loop, then the rest. */
  function RenumberStep(names: seq<Name>, i: nat, t: Tree): Outcome<Tree>
    requires i < |names|
    decreases |names| - i, 0
  {
    match FolderAt(t, names[i])
      case None => RenumberFrom(names, i + 1, t)
      case Some(files) =>
        if files == [] then RenumberFrom(names, i + 1, RemoveNode(t, names[i]))
        else
          var d := DogName(i + 1);
          match RenameDir(t, names[i], d)
          case Err(e) => Outcome(t, Some(e))
          case Ok(t') =>
            var o := RenameFiles(d, files);
            var t'' := SetFolder(t', d, o.state);
            if o.fault.Some? then Outcome(t'', o.fault) else RenumberFrom(names, i + 1, t'')
  }

  /** rename_folders_by_count over a snapshot of the data directory's listing. */
  function Renumber(t: Tree): Outcome<Tree> {
    RenumberFrom(NodeNames(t), 0, t)
  }

  method RenameFoldersByCount(t: Tree) returns (r: Tree, fault: Option<Fault>)
    ensures Outcome(r, fault) == Renumber(t)
  {
    var names := NodeNames(t);
    r := t;
    var i := 0;
    while i < |names|
      invariant 0 <= i <= |names|
      invariant RenumberFrom(names, i, r) == Renumber(t)
    {
      assert RenumberFrom(names, i, r) == RenumberStep(names, i, r);
      var sub := FolderAt(r, names[i]);
      if sub.Some? {
        if sub.value == [] {
          r := RemoveNode(r, names[i]);
        } else {
          var d := DogName(i + 1);
          var moved := RenameDir(r, names[i], d);
          if moved.Err? {
            return r, Some(moved.fault);
          }
          var files, fl := RenumberFiles(d, sub.value);
          r := SetFolder(moved.value, d, files);
          if fl.Some? {
            return r, fl;
          }
        }
      }
      i := i + 1;
    }
    fault := None;
  }

  // ---------------------------------------------------------------- the outer loop without clashes

  lemma DogNamesDiffer(a: nat, b: nat)
    requires a != b
    ensures DogName(a) != DogName(b)
  {
    if DogName(a) == DogName(b) {
      DogNameInjective(a, b);
    }
  }

  /** No entry of the data directory already carries the folder name of another position. */
  predicate NoDogClash(t: seq<Node>) {
    forall k, j :: 0 <= k < |t| && 1 <= j <= |t| && t[k].name == DogName(j) ==> k == j - 1
  }

  /** What the entry at listing position k becomes: a plain file stays, an empty directory is
      deleted, any other directory is called dog<k+1:03d> and its files are renumbered. */
  function Renumbered(k: nat, n: Node): seq<Node> {
    match n.entry
    case Plain(_) => [n]
    case Sub(files) =>
      if files == [] then [] else [Node(DogName(k + 1), Sub(RenameFiles(DogName(k + 1), files).state))]
  }

  /** The first i entries of the listing, renumbered. */
  function RenumberedUpTo(t: seq<Node>, i: nat): (r: seq<Node>)
    requires i <= |t|
    ensures |r| <= i
    decreases i
  {
    if i == 0 then [] else RenumberedUpTo(t, i - 1) + Renumbered(i - 1, t[i - 1])
  }

  /** Each of the first i entries contributes what Renumbered makes of it ... */
  lemma {:induction false} IntoRenumbered(t: seq<Node>, i: nat, k: nat, x: Node)
    requires k < i <= |t| && x in Renumbered(k, t[k])
    ensures x in RenumberedUpTo(t, i)
    decreases i
  {
    var a, b := RenumberedUpTo(t, i - 1), Renumbered(i - 1, t[i - 1]);
    assert RenumberedUpTo(t, i) == a + b;
    if k < i - 1 {
      IntoRenumbered(t, i - 1, k, x);
      assert x in a;
    } else {
      assert x in b;
    }
  }

  /** ... and nothing else. */
  lemma {:induction false} FromRenumbered(t: seq<Node>, i: nat, x: Node) returns (k: nat)
    requires i <= |t| && x in RenumberedUpTo(t, i)
    ensures k < i && x in Renumbered(k, t[k])
    decreases i
  {
    if x in Renumbered(i - 1, t[i - 1]) {
      k := i - 1;
    } else {
      k := FromRenumbered(t, i - 1, x);
    }
  }

  /** Position i's new name is not taken, unless the entry already carries it. */
  lemma DogNameUnused(t: seq<Node>, i: nat)
    requires NoDogClash(t) && i < |t|
    requires t[i].name != DogName(i + 1)
    ensures forall a :: 0 <= a < |RenumberedUpTo(t, i) + t[i..]| ==> (RenumberedUpTo(t, i) + t[i..])[a].name != DogName(i + 1)
  {
    var p := RenumberedUpTo(t, i);
    DoneNamesUnused(t, i);
    forall a | 0 <= a < |p + t[i..]| ensures (p + t[i..])[a].name != DogName(i + 1) {
      if a < |p| {
        assert (p + t[i..])[a] == p[a];
      } else {
        assert (p + t[i..])[a] == t[i + (a - |p|)];
      }
    }
  }

  /** The entries renumbered so far carry no later position's name. */
  lemma DoneNamesUnused(t: seq<Node>, i: nat)
    requires NoDogClash(t) && i < |t|
    ensures forall a :: 0 <= a < |RenumberedUpTo(t, i)| ==> RenumberedUpTo(t, i)[a].name != DogName(i + 1)
  {
    var p := RenumberedUpTo(t, i);
    forall a | 0 <= a < |p| ensures p[a].name != DogName(i + 1) {
      var x := p[a];
      assert x in p;
      var k := FromRenumbered(t, i, x);
      RenumberedName(k, t[k], x);
      if x == t[k] {
        NoClashAt(t, k, i + 1);
      } else {
        DogNamesDiffer(k + 1, i + 1);
      }
    }
  }

  lemma NoClashAt(t: seq<Node>, k: nat, j: nat)
    requires NoDogClash(t) && k < |t| && 1 <= j <= |t| && k != j - 1
    ensures t[k].name != DogName(j)
  {
  }

  lemma RenumberedName(k: nat, n: Node, x: Node)
    requires x in Renumbered(k, n)
    ensures x == n || x.name == DogName(k + 1)
  {
  }

  /** The entry at position i of the listing stands at position |p| of the current tree. */
  lemma AtPosition(t: Tree, i: nat, c: Tree)
    requires i < |t|
    requires c == RenumberedUpTo(t, i) + t[i..]
    ensures NodeNames(t)[i] == t[i].name
    ensures EntryAt(c, t[i].name) == Some(t[i].entry)
    ensures Locate(c, t[i].name) == Some(|RenumberedUpTo(t, i)|)
  {
    var p := RenumberedUpTo(t, i);
    assert c[|p|] == t[i];
    LocateAt(c, |p|);
  }

  /** One visit of the outer loop, when nothing clashes: the entry at position i is replaced by
      what Renumbered makes of it. */
  lemma RenumberOne(t: Tree, i: nat, c: Tree) returns (c': Tree)
    requires NoDogClash(t) && i < |t|
    requires c == RenumberedUpTo(t, i) + t[i..]
    ensures c' == RenumberedUpTo(t, i + 1) + t[i + 1..]
    ensures RenumberFrom(NodeNames(t), i, c) == RenumberFrom(NodeNames(t), i + 1, c')
  {
    AtPosition(t, i, c);
    assert RenumberFrom(NodeNames(t), i, c) == RenumberStep(NodeNames(t), i, c);
    match t[i].entry
    case Plain(_) =>
      c' := RenumberPasses(t, i, c);
    case Sub(files) =>
      if files == [] {
        c' := RenumberRemoves(t, i, c);
      } else {
        c' := RenumberMoves(t, i, c, files);
      }
  }

  lemma RenumberPasses(t: Tree, i: nat, c: Tree) returns (r: Tree)
    requires i < |t| && t[i].entry.Plain?
    requires c == RenumberedUpTo(t, i) + t[i..]
    ensures r == c
    ensures r == RenumberedUpTo(t, i + 1) + t[i + 1..]
  {
    r := c;
    assert t[i..] == [t[i]] + t[i + 1..];
  }

  lemma RenumberRemoves(t: Tree, i: nat, c: Tree) returns (r: Tree)
    requires i < |t| && t[i].entry == Sub([])
    requires c == RenumberedUpTo(t, i) + t[i..]
    requires Locate(c, t[i].name) == Some(|RenumberedUpTo(t, i)|)
    ensures r == RemoveNode(c, t[i].name)
    ensures r == RenumberedUpTo(t, i + 1) + t[i + 1..]
  {
    var p := RenumberedUpTo(t, i);
    r := RemoveNode(c, t[i].name);
    assert r == c[..|p|] + c[|p| + 1..];
    assert c[..|p|] == p && c[|p| + 1..] == t[i + 1..];
    assert RenumberedUpTo(t, i + 1) == p + Renumbered(i, t[i]) == p;
  }

  lemma RenumberMoves(t: Tree, i: nat, c: Tree, files: Folder) returns (r: Tree)
    requires NoDogClash(t) && i < |t|
    requires c == RenumberedUpTo(t, i) + t[i..]
    requires t[i].entry == Sub(files) && files != []
    requires Locate(c, t[i].name) == Some(|RenumberedUpTo(t, i)|)
    ensures RenameDir(c, t[i].name, DogName(i + 1)).Ok?
    ensures RenameFiles(DogName(i + 1), files).fault.None?
    ensures r == SetFolder(RenameDir(c, t[i].name, DogName(i + 1)).value, DogName(i + 1), RenameFiles(DogName(i + 1), files).state)
    ensures r == RenumberedUpTo(t, i + 1) + t[i + 1..]
  {
    var p, n, d := RenumberedUpTo(t, i), t[i], DogName(i + 1);
    RenameFilesNoFault(d, files);
    var files' := RenameFiles(d, files).state;
    RenumberRenames(t, i, c, files);
    var c' := RenameDir(c, n.name, d).value;
    SetFolderAt(c', |p|, files');
    r := SetFolder(c', d, files');
    assert r == c[|p| := Node(d, Sub(files'))];
    ReplaceAt(p, t[i..], Node(d, Sub(files')));
    assert t[i..][1..] == t[i + 1..];
    RenumberedNext(t, i, files);
  }

  lemma RenumberedNext(t: seq<Node>, i: nat, files: Folder)
    requires i < |t| && t[i].entry == Sub(files) && files != []
    ensures RenumberedUpTo(t, i + 1) == RenumberedUpTo(t, i) + [Node(DogName(i + 1), Sub(RenameFiles(DogName(i + 1), files).state))]
  {
  }

  /** The rename of position i's directory to its new name goes through and relabels it where
      it stands. */
  lemma RenumberRenames(t: Tree, i: nat, c: Tree, files: Folder)
    requires NoDogClash(t) && i < |t|
    requires c == RenumberedUpTo(t, i) + t[i..]
    requires t[i].entry == Sub(files)
    requires Locate(c, t[i].name) == Some(|RenumberedUpTo(t, i)|)
    ensures RenameDir(c, t[i].name, DogName(i + 1)).Ok?
    ensures RenameDir(c, t[i].name, DogName(i + 1)).value == c[|RenumberedUpTo(t, i)| := Node(DogName(i + 1), Sub(files))]
  {
    var p, n, d := RenumberedUpTo(t, i), t[i], DogName(i + 1);
    if n.name != d {
      DogNameUnused(t, i);
      assert EntryAt(c, d).None?;
    }
  }

  lemma ReplaceAt(p: seq<Node>, s: seq<Node>, x: Node)
    requires s != []
    ensures (p + s)[|p| := x] == p + [x] + s[1..]
  {
  }

  lemma {:induction false} RenumberFromClean(t: Tree, i: nat, c: Tree)
    requires NoDogClash(t) && i <= |t|
    requires c == RenumberedUpTo(t, i) + t[i..]
    ensures RenumberFrom(NodeNames(t), i, c).fault.None?
    ensures RenumberFrom(NodeNames(t), i, c).state == RenumberedUpTo(t, |t|)
    decreases |t| - i
  {
    if i == |t| {
      assert c == RenumberedUpTo(t, i);
    } else {
      var c' := RenumberOne(t, i, c);
      RenumberFromClean(t, i + 1, c');
    }
  }

  /** Without clashing names the outer loop never fails, and its result is the listing with
      every entry replaced by what Renumbered makes of it, in the same order. */
  lemma RenumberClean(t: Tree)
    requires NoDogClash(t)
    ensures Renumber(t).fault.None?
    ensures Renumber(t).state == RenumberedUpTo(t, |t|)
  {
    assert RenumberedUpTo(t, 0) == [] && t[0..] == t;
    RenumberFromClean(t, 0, t);
  }

  /** A plain file of the data directory is left where it is. */
  lemma RenumberKeepsPlain(t: Tree, k: nat)
    requires NoDogClash(t) && k < |t| && t[k].entry.Plain?
    ensures EntryAt(Renumber(t).state, t[k].name) == Some(t[k].entry)
  {
    RenumberClean(t);
    var r := Renumber(t).state;
    assert t[k] in Renumbered(k, t[k]);
    IntoRenumbered(t, |t|, k, t[k]);
    var a :| 0 <= a < |r| && r[a] == t[k];
  }

  /** An empty sub-directory is deleted and nothing else takes its name. */
  lemma RenumberDropsEmpty(t: Tree, k: nat)
    requires NoDogClash(t) && k < |t| && t[k].entry == Sub([])
    ensures EntryAt(Renumber(t).state, t[k].name).None?
  {
    RenumberClean(t);
    NameGone(t, k);
  }

  /** A non-empty sub-directory at listing position k becomes dog<k+1:03d>, holding its files
      under their new names; its old name, when different, is gone. */
  lemma RenumberMovesFolder(t: Tree, k: nat, files: Folder)
    requires NoDogClash(t) && k < |t| && t[k].entry == Sub(files) && files != []
    ensures FolderAt(Renumber(t).state, DogName(k + 1)) == Some(RenameFiles(DogName(k + 1), files).state)
    ensures t[k].name != DogName(k + 1) ==> EntryAt(Renumber(t).state, t[k].name).None?
  {
    RenumberClean(t);
    var r := Renumber(t).state;
    var n := Node(DogName(k + 1), Sub(RenameFiles(DogName(k + 1), files).state));
    assert n in Renumbered(k, t[k]);
    IntoRenumbered(t, |t|, k, n);
    var a :| 0 <= a < |r| && r[a] == n;
    if t[k].name != DogName(k + 1) {
      NameGone(t, k);
    }
  }

  /** The name of a directory at position k survives only as the name it is given. */
  lemma NameGone(t: Tree, k: nat)
    requires NoDogClash(t) && k < |t| && t[k].entry.Sub?
    requires t[k].entry.files == [] || t[k].name != DogName(k + 1)
    ensures forall x :: x in RenumberedUpTo(t, |t|) ==> x.name != t[k].name
  {
    forall x | x in RenumberedUpTo(t, |t|) ensures x.name != t[k].name {
      var m := FromRenumbered(t, |t|, x);
      if m == k {
        RenumberedSub(k, t[k], x);
      } else {
        RenumberedName(m, t[m], x);
        if x == t[m] {
          assert t[m].name != t[k].name;
        } else {
          assert x.name == DogName(m + 1);
        }
      }
    }
  }

  lemma RenumberedSub(k: nat, n: Node, x: Node)
    requires n.entry.Sub? && x in Renumbered(k, n)
    ensures n.entry.files != [] && x.name == DogName(k + 1)
  {
  }

  /** Nothing appears that does not come from some entry of the listing. */
  lemma RenumberNothingElse(t: Tree)
    requires NoDogClash(t)
    ensures forall x :: x in Renumber(t).state ==> exists k :: 0 <= k < |t| && x in Renumbered(k, t[k])
  {
    RenumberClean(t);
    forall x | x in Renumber(t).state ensures exists k :: 0 <= k < |t| && x in Renumbered(k, t[k]) {
      var k := FromRenumbered(t, |t|, x);
    }
  }

  /** Without clashes inside the folder either, a renamed folder keeps every one of its files. */
  lemma RenumberKeepsFiles(t: Tree, k: nat, files: Folder)
    requires NoDogClash(t) && k < |t| && t[k].entry == Sub(files) && files != []
    requires NoClash(DogName(k + 1), files)
    ensures exists g :: FolderAt(Renumber(t).state, DogName(k + 1)) == Some(g) && |g| == |files|
  {
    RenumberMovesFolder(t, k, files);
    RenameFilesNumbered(DogName(k + 1), files);
  }

  // ---------------------------------------------------------------- a clash inside one folder

  /** When the second file of a folder already carries the name the first one is given, renaming
      the first overwrites it and renaming it again leaves a single file: one image is lost and no
      error is raised. */
  lemma ClashLosesFile(folder: Name, x: File, y: File)
    requires y.name == NumberedName(folder, 1) && x.name != y.name
    ensures UniqueNames([x, y])
    ensures RenameFiles(folder, [x, y]).fault.None?
    ensures RenameFiles(folder, [x, y]).state == [File(NumberedName(folder, 2), x.data)]
  {
    PairUnique(x, y);
    PairUnique(File(y.name, x.data), File(NumberedName(folder, 2), x.data));
    var f: Folder := [x, y];
    var f1: Folder := [File(y.name, x.data)];
    var f2: Folder := [File(NumberedName(folder, 2), x.data)];
    ClashFirst(folder, x, y);
    ClashSecond(folder, x, y);
    assert Names(f) == [x.name, y.name];
    assert RenameFilesFrom(folder, Names(f), 2, f2) == Outcome(f2, None);
    assert RenameFilesFrom(folder, Names(f), 1, f1) == RenameFilesStep(folder, Names(f), 1, f1) == Outcome(f2, None);
    assert RenameFilesFrom(folder, Names(f), 0, f) == RenameFilesStep(folder, Names(f), 0, f);
  }

  /** The first rename of the clash: x takes the name y had, and y is gone. */
  lemma ClashFirst(folder: Name, x: File, y: File)
    requires y.name == NumberedName(folder, 1) && x.name != y.name
    ensures UniqueNames([x, y]) && UniqueNames([File(y.name, x.data)])
            && RenameFile([x, y], x.name, NumberedName(folder, 1)) == Ok([File(y.name, x.data)])
  {
    PairUnique(x, y);
    PairUnique(File(y.name, x.data), y);
    var f: Folder := [x, y];
    assert Read(f, x.name) == Some(x.data);
    var f1 := RenameFile(f, x.name, NumberedName(folder, 1)).value;
    assert |f1| == 1 && File(y.name, x.data) in f1;
    assert f1 == [File(y.name, x.data)];
  }

  /** The second rename of the clash: the one file left moves on to number 2. */
  lemma ClashSecond(folder: Name, x: File, y: File)
    requires y.name == NumberedName(folder, 1)
    ensures UniqueNames([File(y.name, x.data)]) && UniqueNames([File(NumberedName(folder, 2), x.data)])
            && RenameFile([File(y.name, x.data)], y.name, NumberedName(folder, 2)) == Ok([File(NumberedName(folder, 2), x.data)])
  {
    NumberedNamesDiffer(folder, 1, 2);
    PairUnique(File(y.name, x.data), File(NumberedName(folder, 2), x.data));
    var f1: Folder := [File(y.name, x.data)];
    assert Read(f1, y.name) == Some(x.data);
    var f2 := RenameFile(f1, y.name, NumberedName(folder, 2)).value;
    assert |f2| == 1 && File(NumberedName(folder, 2), x.data) in f2;
    assert f2 == [File(NumberedName(folder, 2), x.data)];
  }

  /** Two files with different names, and each alone, make folders. */
  lemma PairUnique(x: File, y: File)
    ensures UniqueNames([x]) && UniqueNames([y])
    ensures x.name != y.name ==> UniqueNames([x, y])
  {
    assert [x][1..] == [] && [y][1..] == [] && [x, y][1..] == [y];
    assert !Has([], x.name) && !Has([], y.name);
  }
}
