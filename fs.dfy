/** The abstract filesystem the pipeline works on.

    A directory of files is a `Folder`: its files in directory-listing order, each a name with
    its content. A directory whose entries are sub-directories (of files) or plain files is a
    `Tree`, again in listing order. Decoded images, videos as sequences of read results, and the
    Python exceptions that end a run are values here too. */
module Fs {

  datatype Option<+T> = None | Some(value: T)

  type Name = string

  /** An exception raised by the Python code; it ends the run where it is raised. */
  datatype Fault =
    | Unreadable(file: Name)         // cv2.imread gave None and the code used the result anyway
    | StatusUnbound(file: Name)      // UnboundLocalError: dog_proportion read before any image set it
    | NotADirectory(path: Name)      // iterdir on a plain file, or a directory renamed onto a file
    | DirectoryNotEmpty(path: Name)  // a directory renamed onto a non-empty directory
    | FileExists(path: Name)         // mkdir(exist_ok=True) where a plain file has that name
    | ZeroStep                       // range() with a step of zero
    | NothingToWrite(file: Name)     // cv2.imwrite(path, None)
    | EmptyImage(file: Name)         // cv2.imwrite of an image with no rows or no columns
    | NotFound(file: Name)           // renaming or copying a file that does not exist

  datatype Result<+T> = Ok(value: T) | Err(fault: Fault)

  /** What a loop that may raise leaves behind: the state reached, and the exception if one
      ended it (the changes made before the exception stay made). */
  datatype Outcome<+S> = Outcome(state: S, fault: Option<Fault>)

  // ---------------------------------------------------------------- contents

  datatype Pixel = Pixel(blue: int, green: int, red: int)

  /** A decoded image: `width` columns and one sequence of pixels per row (numpy's shape is
      (|rows|, width, 3)). */
  datatype Raster = Raster(width: nat, rows: seq<seq<Pixel>>)

  type Image = r: Raster | forall k :: 0 <= k < |r.rows| ==> |r.rows[k]| == r.width
    witness Raster(0, [])

  function Height(img: Image): nat {
    |img.rows|
  }

  predicate IsEmptyImage(img: Image) {
    |img.rows| == 0 || img.width == 0
  }

  /** What cv2.VideoCapture reports: the FPS and frame-count properties, and the result of each
      successive call to read() (a read past the end of the sequence fails). */
  datatype Video = Video(fpsProp: real, countProp: real, results: seq<Option<Image>>)

  datatype Content = Picture(image: Image) | Movie(video: Video) | Data(bytes: seq<int>)

  /** cv2.imread: None unless the file holds a decodable image. */
  function ImRead(c: Content): Option<Image> {
    if c.Picture? then Some(c.image) else None
  }

  /** cv2.VideoCapture: a file that is not a video opens as a capture reporting 0 FPS and
      0 frames, every read of which fails. */
  function Capture(c: Content): Video {
    if c.Movie? then c.video else Video(0.0, 0.0, [])
  }

  /** int(x) on a float: truncation toward zero. */
  function Trunc(x: real): (r: int)
    ensures x >= 0.0 ==> 0 <= r && r as real <= x < r as real + 1.0
    ensures x < 0.0 ==> r <= 0 && r as real - 1.0 < x <= r as real
  {
    if x >= 0.0 then x.Floor else -((-x).Floor)
  }

  /** One bound of a Python slice with step 1: a negative bound counts from the end, and the
      result is clipped to 0..n. */
  function SliceBound(x: int, n: nat): (r: nat)
    ensures r <= n
    ensures 0 <= x ==> r == if x < n then x else n
    ensures x < 0 ==> r == if -x <= n then n + x else 0
  {
    if x < 0 then (if x + n < 0 then 0 else x + n)
    else if x > n then n
    else x
  }

  // ---------------------------------------------------------------- folders of files

  datatype File = File(name: Name, data: Content)

  /** No two files of s share a name, stated file by file: the first file's name does not occur
      again, and the same holds for the rest. */
  predicate UniqueNames(s: seq<File>)
    decreases |s|
  {
    s == [] || (!Has(s[1..], s[0].name) && UniqueNames(s[1..]))
  }

  predicate DistinctNames(s: seq<File>) {
    forall i, j :: 0 <= i < j < |s| ==> s[i].name != s[j].name
  }

  lemma {:induction false} UniqueDistinct(s: seq<File>)
    ensures UniqueNames(s) <==> DistinctNames(s)
    decreases |s|
  {
    if s != [] {
      var rest := s[1..];
      UniqueDistinct(rest);
      assert forall i :: 0 <= i < |rest| ==> rest[i] == s[i + 1];
      if DistinctNames(s) {
        assert DistinctNames(rest);
        assert !Has(rest, s[0].name);
      }
      if UniqueNames(s) {
        forall i, j | 0 <= i < j < |s| ensures s[i].name != s[j].name {
          if i > 0 {
            assert rest[i - 1] == s[i] && rest[j - 1] == s[j];
          } else {
            assert rest[j - 1] == s[j];
          }
        }
      }
    }
  }

  /** A directory holding files, in listing order; names are unique within it. */
  type Folder = s: seq<File> | UniqueNames(s) witness []

  predicate Has(s: seq<File>, n: Name) {
    exists i :: 0 <= i < |s| && s[i].name == n
  }

  function Names(s: seq<File>): (r: seq<Name>)
    ensures |r| == |s| && forall i :: 0 <= i < |s| ==> r[i] == s[i].name
  {
    seq(|s|, i requires 0 <= i < |s| => s[i].name)
  }

  function Lookup(s: seq<File>, n: Name): (r: Option<nat>)
    ensures r.Some? ==> r.value < |s| && s[r.value].name == n
    ensures r.None? <==> !Has(s, n)
  {
    if |s| == 0 then None
    else if s[0].name == n then Some(0)
    else match Lookup(s[1..], n)
      case Some(i) => Some(i + 1)
      case None =>
        assert forall i :: 1 <= i < |s| ==> s[i] == s[1..][i - 1];
        None
  }

  /** The content of the file named n, if there is one. */
  function Read(f: Folder, n: Name): (r: Option<Content>)
    ensures r.Some? <==> Has(f, n)
    ensures r.Some? ==> File(n, r.value) in f
    ensures forall c :: File(n, c) in f ==> r == Some(c)
  {
    UniqueDistinct(f);
    match Lookup(f, n)
    case Some(i) => Some(f[i].data)
    case None => None
  }

  /** Writing a file (cv2.imwrite, shutil.copy, or the target of os.rename): a file of the same
      name is overwritten where it stands in the listing, otherwise the file is added at its end. */
  function Put(f: Folder, file: File): (r: Folder)
    ensures file in r
    ensures forall g :: g in r ==> g == file || (g in f && g.name != file.name)
    ensures forall g :: g in f && g.name != file.name ==> g in r
    ensures Has(f, file.name) ==> |r| == |f|
    ensures !Has(f, file.name) ==> r == f + [file]
  {
    UniqueDistinct(f);
    match Lookup(f, file.name)
    case Some(i) =>
      var r := f[i := file];
      assert r[i] == file;
      assert forall j :: 0 <= j < |f| && j != i ==> r[j] == f[j] && f[j].name != file.name;
      UniqueDistinct(r);
      r
    case None =>
      var r := f + [file];
      assert forall j :: 0 <= j < |f| ==> r[j] == f[j] && f[j].name != file.name;
      UniqueDistinct(r);
      r
  }

  /** Overwriting a file that is present replaces it where it stands. */
  lemma PutAt(f: Folder, i: nat, c: Content)
    requires i < |f|
    ensures Put(f, File(f[i].name, c)) == f[i := File(f[i].name, c)]
  {
    UniqueDistinct(f);
  }

  /** Writing the files one after another. */
  function PutAll(f: Folder, files: seq<File>): (r: Folder)
    decreases |files|
  {
    if files == [] then f else PutAll(Put(f, files[0]), files[1..])
  }

  lemma {:induction false} PutAllSnoc(f: Folder, files: seq<File>, x: File)
    ensures PutAll(f, files + [x]) == Put(PutAll(f, files), x)
    decreases |files|
  {
    if files == [] {
      assert files + [x] == [x];
    } else {
      assert (files + [x])[0] == files[0] && (files + [x])[1..] == files[1..] + [x];
      PutAllSnoc(Put(f, files[0]), files[1..], x);
    }
  }

  lemma {:induction false} PutAllKeeps(f: Folder, files: seq<File>)
    ensures forall g :: g in f && !Has(files, g.name) ==> g in PutAll(f, files)
    ensures forall g :: g in PutAll(f, files) ==> g in files || (g in f && !Has(files, g.name))
    decreases |files|
  {
    if files != [] {
      var x, rest := files[0], files[1..];
      PutAllKeeps(Put(f, x), rest);
      assert forall i :: 0 <= i < |rest| ==> rest[i] == files[i + 1];
      assert forall n :: Has(files, n) <==> n == x.name || Has(rest, n);
    }
  }

  /** Writing files of distinct names: each of them ends up in the folder. */
  lemma {:induction false} PutAllContains(f: Folder, files: Folder)
    ensures forall g :: g in files ==> g in PutAll(f, files)
    decreases |files|
  {
    if files != [] {
      var x, rest := files[0], files[1..];
      PutAllContains(Put(f, x), rest);
      PutAllKeeps(Put(f, x), rest);
      UniqueDistinct(files);
      assert forall i :: 0 <= i < |rest| ==> rest[i] == files[i + 1] && rest[i].name != x.name;
    }
  }

  /** Removing the file named n (the source side of a move). */
  function Remove(s: seq<File>, n: Name): (r: seq<File>)
    ensures forall g :: g in r <==> g in s && g.name != n
    decreases |s|
  {
    if s == [] then []
    else if s[0].name == n then Remove(s[1..], n)
    else [s[0]] + Remove(s[1..], n)
  }

  lemma {:induction false} RemoveUnique(s: seq<File>, n: Name)
    requires UniqueNames(s)
    ensures UniqueNames(Remove(s, n))
    decreases |s|
  {
    if s != [] {
      UniqueDistinct(s);
      RemoveUnique(s[1..], n);
      UniqueDistinct(Remove(s[1..], n));
      UniqueDistinct(Remove(s, n));
      assert forall i :: 0 <= i < |s[1..]| ==> s[1..][i] == s[i + 1] && s[i + 1].name != s[0].name;
      assert forall g :: g in Remove(s[1..], n) ==> g in s[1..];
      assert forall g :: g in s[1..] ==> g.name != s[0].name;
    }
  }

  lemma {:induction false} RemoveAbsent(s: seq<File>, n: Name)
    requires forall i :: 0 <= i < |s| ==> s[i].name != n
    ensures Remove(s, n) == s
    decreases |s|
  {
    if s != [] {
      RemoveAbsent(s[1..], n);
      assert [s[0]] + s[1..] == s;
    }
  }

  /** Removing a name present once takes exactly one file out. */
  lemma {:induction false} RemoveOne(s: seq<File>, n: Name)
    requires UniqueNames(s) && Has(s, n)
    ensures |Remove(s, n)| == |s| - 1
    decreases |s|
  {
    if s[0].name == n {
      RemoveAbsent(s[1..], n);
    } else {
      assert exists i :: 0 <= i < |s[1..]| && s[1..][i].name == n by {
        var i :| 0 <= i < |s| && s[i].name == n;
        assert s[1..][i - 1] == s[i];
      }
      RemoveOne(s[1..], n);
    }
  }

  /** Removing one name leaves every other name where it was. */
  lemma RemoveHas(s: seq<File>, n: Name, m: Name)
    requires m != n
    ensures Has(Remove(s, n), m) <==> Has(s, m)
  {
    var r := Remove(s, n);
    if Has(s, m) {
      var i :| 0 <= i < |s| && s[i].name == m;
      assert s[i] in r;
    }
    if Has(r, m) {
      var i :| 0 <= i < |r| && r[i].name == m;
      assert r[i] in s;
    }
  }

  lemma UniquePrefix(s: seq<File>, n: nat)
    requires UniqueNames(s) && n <= |s|
    ensures UniqueNames(s[..n])
  {
    UniqueDistinct(s);
    UniqueDistinct(s[..n]);
    assert forall i :: 0 <= i < n ==> s[..n][i] == s[i];
  }

  lemma UniqueSuffix(s: seq<File>, n: nat)
    requires UniqueNames(s) && n <= |s|
    ensures UniqueNames(s[n..])
  {
    UniqueDistinct(s);
    UniqueDistinct(s[n..]);
    assert forall i :: 0 <= i < |s| - n ==> s[n..][i] == s[n + i];
  }

  /** Taking one file out of a folder's listing leaves a folder, without that file's name. */
  lemma UniqueDrop(a: seq<File>, x: File, b: seq<File>)
    requires UniqueNames(a + [x] + b)
    ensures UniqueNames(a + b)
    ensures forall i :: 0 <= i < |a + b| ==> (a + b)[i].name != x.name
  {
    var c, d := a + [x] + b, a + b;
    UniqueDistinct(c);
    UniqueDistinct(d);
    assert forall i :: 0 <= i < |a| ==> d[i] == c[i];
    assert forall i :: |a| <= i < |d| ==> d[i] == c[i + 1];
    assert c[|a|] == x;
  }

  /** Two folders with no name in common list together as one folder. */
  lemma ConcatUnique(a: Folder, b: Folder)
    requires forall i :: 0 <= i < |b| ==> !Has(a, b[i].name)
    ensures UniqueNames(a + b)
  {
    var c := a + b;
    UniqueDistinct(a);
    UniqueDistinct(b);
    UniqueDistinct(c);
    forall i, j | 0 <= i < j < |c| ensures c[i].name != c[j].name {
      if j < |a| {
        assert c[i] == a[i] && c[j] == a[j];
      } else if i >= |a| {
        assert c[i] == b[i - |a|] && c[j] == b[j - |a|];
      } else {
        assert c[i] == a[i] && c[j] == b[j - |a|];
      }
    }
  }

  lemma {:induction false} RemoveConcat(a: seq<File>, b: seq<File>, n: Name)
    ensures Remove(a + b, n) == Remove(a, n) + Remove(b, n)
    decreases |a|
  {
    if a == [] {
      assert a + b == b;
    } else {
      assert (a + b)[0] == a[0];
      assert (a + b)[1..] == a[1..] + b;
      RemoveConcat(a[1..], b, n);
    }
  }

  // ---------------------------------------------------------------- directories of directories

  datatype Entry = Sub(files: Folder) | Plain(data: Content)

  datatype Node = Node(name: Name, entry: Entry)

  predicate UniqueNodeNames(t: seq<Node>) {
    forall i, j :: 0 <= i < j < |t| ==> t[i].name != t[j].name
  }

  /** A directory whose entries are sub-directories of files or plain files, in listing order. */
  type Tree = t: seq<Node> | UniqueNodeNames(t) witness []

  function Locate(t: Tree, n: Name): (r: Option<nat>)
    ensures r.Some? ==> r.value < |t| && t[r.value].name == n
    ensures r.None? ==> forall i :: 0 <= i < |t| ==> t[i].name != n
  {
    if |t| == 0 then None
    else if t[0].name == n then Some(0)
    else match Locate(t[1..], n)
      case Some(i) => Some(i + 1)
      case None =>
        assert forall i :: 1 <= i < |t| ==> t[i] == t[1..][i - 1];
        None
  }

  function NodeNames(t: seq<Node>): (r: seq<Name>)
    ensures |r| == |t| && forall i :: 0 <= i < |t| ==> r[i] == t[i].name
  {
    seq(|t|, i requires 0 <= i < |t| => t[i].name)
  }

  lemma LocateAt(t: Tree, i: nat)
    requires i < |t|
    ensures Locate(t, t[i].name) == Some(i)
  {
  }

  function EntryAt(t: Tree, n: Name): (r: Option<Entry>)
    ensures r.Some? <==> exists i :: 0 <= i < |t| && t[i].name == n
    ensures forall i :: 0 <= i < |t| && t[i].name == n ==> r == Some(t[i].entry)
  {
    match Locate(t, n)
    case Some(i) => Some(t[i].entry)
    case None => None
  }

  /** The folder of files called n, if n names a sub-directory. */
  function FolderAt(t: Tree, n: Name): (r: Option<Folder>)
    ensures r.Some? <==> EntryAt(t, n).Some? && EntryAt(t, n).value.Sub?
    ensures r.Some? ==> EntryAt(t, n) == Some(Sub(r.value))
  {
    match EntryAt(t, n)
    case Some(Sub(files)) => Some(files)
    case _ => None
  }

  /** Replacing the content of an existing sub-directory, in place. */
  function SetFolder(t: Tree, n: Name, f: Folder): (r: Tree)
    requires FolderAt(t, n).Some?
    ensures |r| == |t|
    ensures forall i :: 0 <= i < |t| ==> r[i].name == t[i].name
    ensures forall i :: 0 <= i < |t| && t[i].name != n ==> r[i] == t[i]
    ensures forall i :: 0 <= i < |t| && t[i].name == n ==> r[i] == Node(n, Sub(f))
    ensures NodeNames(r) == NodeNames(t)
    ensures FolderAt(r, n) == Some(f)
    ensures forall m :: m != n ==> EntryAt(r, m) == EntryAt(t, m)
  {
    var i := Locate(t, n).value;
    var r := t[i := Node(n, Sub(f))];
    assert forall j :: 0 <= j < |t| ==> r[j].name == t[j].name;
    r
  }

  /** Setting the sub-directory at position i replaces it where it stands. */
  lemma SetFolderAt(t: Tree, i: nat, f: Folder)
    requires i < |t| && t[i].entry.Sub?
    ensures FolderAt(t, t[i].name).Some?
    ensures SetFolder(t, t[i].name, f) == t[i := Node(t[i].name, Sub(f))]
  {
    LocateAt(t, i);
  }

  /** Setting a sub-directory to the content it already has changes nothing. */
  lemma SetFolderSame(t: Tree, n: Name, f: Folder)
    requires FolderAt(t, n) == Some(f)
    ensures SetFolder(t, n, f) == t
  {
    var r := SetFolder(t, n, f);
    forall i | 0 <= i < |t| ensures r[i] == t[i] {
      if t[i].name == n {
        assert EntryAt(t, n) == Some(t[i].entry);
      }
    }
  }

  /** Only the last of two settings of one sub-directory matters. */
  lemma SetFolderTwice(t: Tree, n: Name, f: Folder, g: Folder)
    requires FolderAt(t, n).Some?
    ensures SetFolder(SetFolder(t, n, f), n, g) == SetFolder(t, n, g)
  {
    var a, b := SetFolder(SetFolder(t, n, f), n, g), SetFolder(t, n, g);
    assert forall i :: 0 <= i < |t| ==> a[i] == b[i];
  }

  /** n names a plain file of t. */
  predicate PlainAt(t: Tree, n: Name) {
    EntryAt(t, n).Some? && EntryAt(t, n).value.Plain?
  }

  /** The files of sub-directory n (none if it does not exist yet). */
  function BaseAt(t: Tree, n: Name): Folder {
    if FolderAt(t, n).Some? then FolderAt(t, n).value else []
  }

  /** mkdir(parents=True, exist_ok=True) / os.makedirs(exist_ok=True) of tree entry n: a missing
      directory is added at the end of the listing; an existing one is kept; a plain file of that
      name raises FileExistsError. */
  function MakeDir(t: Tree, n: Name): (r: Result<Tree>)
    ensures r.Ok? <==> !(EntryAt(t, n).Some? && EntryAt(t, n).value.Plain?)
    ensures r.Err? ==> r.fault == FileExists(n)
    ensures r.Ok? ==> FolderAt(r.value, n) == Some(if FolderAt(t, n).Some? then FolderAt(t, n).value else [])
    ensures r.Ok? ==> forall m :: m != n ==> EntryAt(r.value, m) == EntryAt(t, m)
    ensures r.Ok? ==> r.value == t || r.value == t + [Node(n, Sub([]))]
    ensures r.Ok? && FolderAt(t, n).Some? ==> r.value == t
  {
    match Locate(t, n)
    case Some(i) => if t[i].entry.Plain? then Err(FileExists(n)) else Ok(t)
    case None =>
      var r := t + [Node(n, Sub([]))];
      assert r[|t|].name == n;
      assert forall i :: 0 <= i < |t| ==> r[i] == t[i];
      Ok(r)
  }

  /** Writing a file into sub-directory `dir`, creating the sub-directory first (mkdir -p
      followed by a write, copy or move). */
  function PutInto(t: Tree, dir: Name, file: File): (r: Result<Tree>)
    ensures r.Ok? <==> MakeDir(t, dir).Ok?
    ensures r.Err? ==> r.fault == FileExists(dir)
    ensures r.Ok? ==> FolderAt(r.value, dir) == Some(Put(if FolderAt(t, dir).Some? then FolderAt(t, dir).value else [], file))
    ensures r.Ok? ==> forall m :: m != dir ==> EntryAt(r.value, m) == EntryAt(t, m)
  {
    match MakeDir(t, dir)
    case Err(e) => Err(e)
    case Ok(t') => Ok(SetFolder(t', dir, Put(FolderAt(t', dir).value, file)))
  }
}
