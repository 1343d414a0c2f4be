/** SnapShot.extract_frames and SnapShot.generate_dataset_from_videos: split a video's frame
    stream into windows of int(fps * interval) frames, keep the sharpest frame of each window,
    and write it as <video>_<start+1>.jpg into a directory named after the video. */
module Snapshot {
  import opened Fs
  import opened Naming

  /** The sharpness score of a frame (the variance of its Laplacian). */
  type Scorer = Image -> real

  // ---------------------------------------------------------------- reading the stream

  /** Read number pos of the capture succeeds. OpenCV reports success only together with a
      frame, so a result without pixels counts as a failed read. */
  predicate ReadOk(v: seq<Option<Image>>, pos: nat) {
    pos < |v| && v[pos].Some? && !IsEmptyImage(v[pos].value)
  }

  /** The inner loop of one window: up to n reads from stream position pos. The first failed
      read ends the window (it is consumed all the same); the frames read before it are kept. */
  function ReadWindow(v: seq<Option<Image>>, pos: nat, n: nat): (r: (seq<Image>, nat))
    ensures |r.0| <= n
    ensures r.1 == pos + |r.0| + (if |r.0| < n then 1 else 0)
    decreases n
  {
    if n == 0 then ([], pos)
    else if !ReadOk(v, pos) then ([], pos + 1)
    else
      var w := ReadWindow(v, pos + 1, n - 1);
      ([v[pos].value] + w.0, w.1)
  }

  /** The window holds the images at stream positions pos, pos + 1, ..., each read
      successfully, and it is short only because the read after its last frame failed. */
  lemma {:induction false} ReadWindowSpec(v: seq<Option<Image>>, pos: nat, n: nat)
    ensures ReadsFrom(v, ReadWindow(v, pos, n).0, pos)
    ensures |ReadWindow(v, pos, n).0| < n ==> !ReadOk(v, pos + |ReadWindow(v, pos, n).0|)
    decreases n
  {
    if n > 0 && ReadOk(v, pos) {
      ReadWindowSpec(v, pos + 1, n - 1);
      var all, rest := ReadWindow(v, pos, n).0, ReadWindow(v, pos + 1, n - 1).0;
      assert all == [v[pos].value] + rest;
      assert all[0] == v[pos].value && all[1..] == rest;
      assert pos + |all| == (pos + 1) + |rest|;
    }
  }

  /** arr_lap: the score of every frame read in the window. */
  function Scores(frames: seq<Image>, score: Scorer): (r: seq<real>)
    ensures |r| == |frames| && forall j :: 0 <= j < |frames| ==> r[j] == score(frames[j])
  {
    seq(|frames|, j requires 0 <= j < |frames| => score(frames[j]))
  }

  /** arr_lap.index(max(arr_lap)); FirstMaxSpec says what it picks. */
  function FirstMax(s: seq<real>): (r: nat)
    requires s != []
    ensures r < |s|
  {
    if |s| == 1 then 0
    else
      var m := FirstMax(s[..|s| - 1]);
      if s[|s| - 1] > s[m] then |s| - 1 else m
  }

  /** The chosen position holds the largest score, and every earlier score is smaller: ties go
      to the first frame. */
  lemma {:induction false} FirstMaxSpec(s: seq<real>)
    requires s != []
    ensures forall j :: 0 <= j < |s| ==> s[j] <= s[FirstMax(s)]
    ensures forall j :: 0 <= j < FirstMax(s) ==> s[j] < s[FirstMax(s)]
    decreases |s|
  {
    if |s| > 1 {
      var init := s[..|s| - 1];
      FirstMaxSpec(init);
      assert forall j :: 0 <= j < |s| - 1 ==> init[j] == s[j];
    }
  }

  // ---------------------------------------------------------------- windows and shots

  /** f"{video_name}_{i+1}.jpg" */
  function ShotName(stem: Name, i: nat): Name {
    stem + "_" + Str(i + 1) + ".jpg"
  }

  lemma ShotNamesDiffer(stem: Name, a: nat, b: nat)
    requires a != b
    ensures ShotName(stem, a) != ShotName(stem, b)
  {
    if ShotName(stem, a) == ShotName(stem, b) {
      var s, x, y := ShotName(stem, a), Str(a + 1), Str(b + 1);
      assert s == (stem + "_") + x + ".jpg" && s == (stem + "_") + y + ".jpg";
      assert x == s[|stem| + 1..|s| - 4] && y == s[|stem| + 1..|s| - 4];
      StrInjective(a + 1, b + 1);
    }
  }

  /** min(interval_frames, frame_count - i) */
  function Wanted(k: nat, count: int, i: nat): int {
    if k < count - i then k else count - i
  }

  /** range(0, frame_count, k) from window start i on, for a positive step: the starts
      i, i + k, i + 2k, ... below frame_count, ceil((frame_count - i) / k) of them. */
  function StartsFrom(k: nat, count: int, i: nat): (r: seq<nat>)
    requires k > 0
    ensures forall w :: 0 <= w < |r| ==> i <= r[w] < count
    ensures i >= count ==> r == []
    decreases count - i
  {
    if i >= count then [] else [i] + StartsFrom(k, count, i + k)
  }

  /** The w-th window starts at i + w * k; there are ceil((frame_count - i) / k) windows. */
  lemma {:induction false} StartsSpec(k: nat, count: int, i: nat)
    requires k > 0
    ensures var r := StartsFrom(k, count, i);
            forall w :: 0 <= w < |r| ==> r[w] == i + w * k
    ensures var r := StartsFrom(k, count, i);
            i < count ==> (|r| - 1) * k < count - i <= |r| * k
    decreases count - i
  {
    if i < count {
      StartsSpec(k, count, i + k);
      var r, rest := StartsFrom(k, count, i), StartsFrom(k, count, i + k);
      assert r == [i] + rest;
      forall w | 1 <= w < |r| ensures r[w] == i + w * k {
        assert r[w] == rest[w - 1];
        MulPred(w, k);
      }
      MulPred(|r|, k);
    }
  }

  lemma MulPred(w: int, k: int)
    ensures (w - 1) * k == w * k - k
  {
  }

  /** Window starts strictly increase, so windows get different names. */
  predicate Increasing(s: seq<nat>) {
    forall a, b :: 0 <= a < b < |s| ==> s[a] < s[b]
  }

  lemma {:induction false} StartsIncreasing(k: nat, count: int, i: nat)
    requires k > 0
    ensures Increasing(StartsFrom(k, count, i))
    decreases count - i
  {
    if i < count {
      StartsIncreasing(k, count, i + k);
      var r, rest := StartsFrom(k, count, i), StartsFrom(k, count, i + k);
      assert forall w :: 1 <= w < |r| ==> r[w] == rest[w - 1];
    }
  }

  /** The frames each window reads, from window start i and stream position pos: one entry per
      window start, each window reading on from where the previous one stopped. */
  function WindowsFrom(v: seq<Option<Image>>, k: nat, count: int, i: nat, pos: nat): (r: seq<seq<Image>>)
    requires k > 0
    ensures |r| == |StartsFrom(k, count, i)|
    decreases count - i
  {
    if i >= count then []
    else
      var w := ReadWindow(v, pos, Wanted(k, count, i));
      [w.0] + WindowsFrom(v, k, count, i + k, w.1)
  }

  /** The sharpest frame of a window. */
  function Sharpest(frames: seq<Image>, score: Scorer): Image
    requires frames != []
  {
    frames[FirstMax(Scores(frames, score))]
  }

  /** The file written for the window starting at i. */
  function ShotFile(stem: Name, i: nat, frames: seq<Image>, score: Scorer): File
    requires frames != []
  {
    File(ShotName(stem, i), Picture(Sharpest(frames, score)))
  }

  /** What the window starting at a given frame writes, given the frames it read (never none). */
  type Shooter = (nat, seq<Image>) --> File

  ghost predicate Shoots(shot: Shooter) {
    forall i: nat, frames: seq<Image> :: frames != [] ==> shot.requires(i, frames)
  }

  /** Windows starting at different frames write under different names. */
  ghost predicate NamesByStart(shot: Shooter)
    requires Shoots(shot)
  {
    forall a: nat, b: nat, f: seq<Image>, g: seq<Image> :: a != b && f != [] && g != [] ==> shot(a, f).name != shot(b, g).name
  }

  /** extract_frames's shot: the sharpest frame of the window, as <video>_<start+1>.jpg. */
  function ShotOf(stem: Name, score: Scorer): (r: Shooter)
    ensures Shoots(r)
    ensures forall i: nat, frames: seq<Image> :: frames != [] ==> r(i, frames) == ShotFile(stem, i, frames, score)
  {
    (i: nat, frames: seq<Image>) requires frames != [] => ShotFile(stem, i, frames, score)
  }

  lemma ShotOfNames(stem: Name, score: Scorer)
    ensures NamesByStart(ShotOf(stem, score))
  {
    forall a: nat, b: nat, f: seq<Image>, g: seq<Image> | a != b && f != [] && g != []
      ensures ShotOf(stem, score)(a, f).name != ShotOf(stem, score)(b, g).name
    {
      ShotNamesDiffer(stem, a, b);
    }
  }

  /** The files the windows write, in order: none for a window in which no frame was read. */
  function Shots(shot: Shooter, starts: seq<nat>, windows: seq<seq<Image>>): seq<File>
    requires |starts| == |windows| && Shoots(shot)
    decreases |starts|, 1
  {
    if starts == [] then [] else ShotsCons(shot, starts, windows)
  }

  /** The first window's shot, if any, followed by the others'. */
  function ShotsCons(shot: Shooter, starts: seq<nat>, windows: seq<seq<Image>>): seq<File>
    requires |starts| == |windows| > 0 && Shoots(shot)
    decreases |starts|, 0
  {
    (if windows[0] == [] then [] else [shot(starts[0], windows[0])]) + Shots(shot, starts[1..], windows[1..])
  }

  lemma ShotsStep(shot: Shooter, i: nat, starts: seq<nat>, frames: seq<Image>, windows: seq<seq<Image>>)
    requires |starts| == |windows| && Shoots(shot)
    ensures Shots(shot, [i] + starts, [frames] + windows) ==
              (if frames == [] then [] else [shot(i, frames)]) + Shots(shot, starts, windows)
  {
    assert ([i] + starts)[1..] == starts && ([frames] + windows)[1..] == windows;
    assert Shots(shot, [i] + starts, [frames] + windows) == ShotsCons(shot, [i] + starts, [frames] + windows);
  }

  /** A file is written exactly for each window that read a frame. */
  lemma {:induction false} ShotsMembers(shot: Shooter, starts: seq<nat>, windows: seq<seq<Image>>)
    requires |starts| == |windows| && Shoots(shot)
    ensures forall x :: x in Shots(shot, starts, windows) <==>
              exists w :: 0 <= w < |starts| && windows[w] != [] && x == shot(starts[w], windows[w])
    decreases |starts|
  {
    if starts != [] {
      var s', w' := starts[1..], windows[1..];
      ShotsMembers(shot, s', w');
      var head := if windows[0] == [] then [] else [shot(starts[0], windows[0])];
      assert Shots(shot, starts, windows) == head + Shots(shot, s', w') by {
        assert Shots(shot, starts, windows) == ShotsCons(shot, starts, windows);
      }
      forall x ensures x in head + Shots(shot, s', w') <==>
          exists w :: 0 <= w < |starts| && windows[w] != [] && x == shot(starts[w], windows[w])
      {
        if x in Shots(shot, s', w') {
          var u :| 0 <= u < |s'| && w'[u] != [] && x == shot(s'[u], w'[u]);
          assert s'[u] == starts[u + 1] && w'[u] == windows[u + 1];
        }
        if exists w :: 0 <= w < |starts| && windows[w] != [] && x == shot(starts[w], windows[w]) {
          var w :| 0 <= w < |starts| && windows[w] != [] && x == shot(starts[w], windows[w]);
          if w > 0 {
            assert s'[w - 1] == starts[w] && w'[w - 1] == windows[w];
          }
        }
      }
    }
  }

  /** No two windows write under the same name, and there are at most as many files as
      windows, exactly as many when every window read a frame. */
  lemma {:induction false} ShotsUnique(shot: Shooter, starts: seq<nat>, windows: seq<seq<Image>>)
    requires |starts| == |windows| && Shoots(shot) && NamesByStart(shot) && Increasing(starts)
    ensures UniqueNames(Shots(shot, starts, windows))
    ensures |Shots(shot, starts, windows)| <= |starts|
    ensures (forall w :: 0 <= w < |windows| ==> windows[w] != []) ==> |Shots(shot, starts, windows)| == |starts|
    decreases |starts|
  {
    if starts != [] {
      var s', w' := starts[1..], windows[1..];
      assert Increasing(s') by {
        assert forall a :: 0 <= a < |s'| ==> s'[a] == starts[a + 1];
      }
      ShotsUnique(shot, s', w');
      var rest := Shots(shot, s', w');
      assert Shots(shot, starts, windows) == ShotsCons(shot, starts, windows);
      if windows[0] != [] {
        var x := shot(starts[0], windows[0]);
        ShotsMembers(shot, s', w');
        forall g | g in rest ensures g.name != x.name {
          var u :| 0 <= u < |s'| && w'[u] != [] && g == shot(s'[u], w'[u]);
          assert s'[u] == starts[u + 1];
        }
        assert ([x] + rest)[0] == x && ([x] + rest)[1..] == rest;
      } else {
        assert [] + rest == rest;
      }
      if forall w :: 0 <= w < |windows| ==> windows[w] != [] {
        assert forall w :: 0 <= w < |w'| ==> w'[w] == windows[w + 1];
      }
    }
  }

  // ---------------------------------------------------------------- a stream without failed reads

  /** When every read of the window succeeds, the window reads exactly n frames. */
  lemma {:induction false} ReadWindowClean(v: seq<Option<Image>>, pos: nat, n: nat)
    requires forall p :: pos <= p < pos + n ==> ReadOk(v, p)
    ensures |ReadWindow(v, pos, n).0| == n && ReadWindow(v, pos, n).1 == pos + n
    decreases n
  {
    if n > 0 {
      ReadWindowClean(v, pos + 1, n - 1);
    }
  }

  /** The frames are the images at stream positions start, start + 1, ..., all read successfully. */
  predicate ReadsFrom(v: seq<Option<Image>>, frames: seq<Image>, start: nat)
    decreases |frames|
  {
    frames == [] || (ReadOk(v, start) && frames[0] == v[start].value && ReadsFrom(v, frames[1..], start + 1))
  }

  /** Frame j of the window is the image at stream position start + j. */
  lemma {:induction false} ReadsFromAt(v: seq<Option<Image>>, frames: seq<Image>, start: nat, j: nat)
    requires ReadsFrom(v, frames, start) && j < |frames|
    ensures ReadOk(v, start + j) && frames[j] == v[start + j].value
    decreases j
  {
    if j > 0 {
      ReadsFromAt(v, frames[1..], start + 1, j - 1);
    }
  }

  /** Each window reads exactly the next min(k, frame_count - start) frames of the stream. */
  predicate FullWindows(v: seq<Option<Image>>, k: nat, count: int, ws: seq<seq<Image>>, ss: seq<nat>) {
    |ws| == |ss| && forall w :: 0 <= w < |ws| ==> |ws[w]| == Wanted(k, count, ss[w]) > 0 && ReadsFrom(v, ws[w], ss[w])
  }

  /** When the reads of all frame_count frames succeed, every window is full: the windows are
      consecutive, do not overlap, and none is empty. */
  lemma {:induction false} CleanWindows(v: seq<Option<Image>>, k: nat, count: int, i: nat)
    requires k > 0
    requires forall p :: i <= p < count ==> ReadOk(v, p)
    ensures FullWindows(v, k, count, WindowsFrom(v, k, count, i, i), StartsFrom(k, count, i))
    decreases count - i
  {
    if i < count {
      var n := Wanted(k, count, i);
      ReadWindowClean(v, i, n);
      ReadWindowSpec(v, i, n);
      var ws, ss := WindowsFrom(v, k, count, i, i), StartsFrom(k, count, i);
      var w0 := ReadWindow(v, i, n);
      if i + k < count {
        CleanWindows(v, k, count, i + k);
        var ws', ss' := WindowsFrom(v, k, count, i + k, i + k), StartsFrom(k, count, i + k);
        assert ws == [w0.0] + ws' && ss == [i] + ss';
        FullWindowsCons(v, k, count, w0.0, i, ws', ss');
      } else {
        assert ws == [w0.0] && ss == [i];
      }
    }
  }

  lemma FullWindowsCons(v: seq<Option<Image>>, k: nat, count: int, w0: seq<Image>, s0: nat, ws: seq<seq<Image>>, ss: seq<nat>)
    requires |w0| == Wanted(k, count, s0) > 0 && ReadsFrom(v, w0, s0)
    requires FullWindows(v, k, count, ws, ss)
    ensures FullWindows(v, k, count, [w0] + ws, [s0] + ss)
  {
    var ws', ss' := [w0] + ws, [s0] + ss;
    assert forall w :: 1 <= w < |ws'| ==> ws'[w] == ws[w - 1] && ss'[w] == ss[w - 1];
  }

  /** The windows are consecutive and do not overlap: together they ask for exactly
      frame_count frames, and every one but the last asks for k. */
  function Requested(k: nat, count: int, starts: seq<nat>): int {
    if starts == [] then 0 else Wanted(k, count, starts[0]) + Requested(k, count, starts[1..])
  }

  lemma {:induction false} WindowsCover(k: nat, count: int, i: nat)
    requires k > 0 && i <= count
    ensures Requested(k, count, StartsFrom(k, count, i)) == count - i
    ensures forall w :: 0 <= w < |StartsFrom(k, count, i)| - 1 ==> Wanted(k, count, StartsFrom(k, count, i)[w]) == k
    decreases count - i
  {
    var s := StartsFrom(k, count, i);
    if i < count {
      if i + k <= count {
        WindowsCover(k, count, i + k);
        assert s[1..] == StartsFrom(k, count, i + k);
      } else {
        assert s == [i];
      }
    }
  }

  // ---------------------------------------------------------------- extract_frames

  /** The output directory's name for a video: os.path.splitext(basename)[0]. */
  function Stem(video: File): Name {
    SplitExtRoot(video.name)
  }

  /** interval_frames = int(fps * interval), with fps = int(CAP_PROP_FPS). */
  function Step(cap: Video, interval: real): int {
    Trunc(Trunc(cap.fpsProp) as real * interval)
  }

  /** The files extract_frames writes for a capture, at step k > 0, before any are written. */
  function VideoShots(v: seq<Option<Image>>, score: Scorer, stem: Name, k: nat, count: int): seq<File>
    requires k > 0
  {
    Shots(ShotOf(stem, score), StartsFrom(k, count, 0), WindowsFrom(v, k, count, 0, 0))
  }

  lemma VideoShotsUnique(v: seq<Option<Image>>, score: Scorer, stem: Name, k: nat, count: int)
    requires k > 0
    ensures UniqueNames(VideoShots(v, score, stem, k, count))
  {
    StartsIncreasing(k, count, 0);
    ShotOfNames(stem, score);
    ShotsUnique(ShotOf(stem, score), StartsFrom(k, count, 0), WindowsFrom(v, k, count, 0, 0));
  }

  /** extract_frames on the listing t of the output directory. The video directory is created
      first (a plain file of that name raises); a zero step then raises in range(); a negative
      step makes every window ask for a negative number of frames, so nothing is read. */
  function Extract(t: Tree, video: File, interval: real, score: Scorer): (r: Outcome<Tree>)
  {
    var cap := Capture(video.data);
    var stem := Stem(video);
    match MakeDir(t, stem)
    case Err(e) => Outcome(t, Some(e))
    case Ok(t') =>
      var k := Step(cap, interval);
      if k == 0 then Outcome(t', Some(ZeroStep))
      else if k < 0 then Outcome(t', None)
      else
        var shots := VideoShots(cap.results, score, stem, k, Trunc(cap.countProp));
        Outcome(SetFolder(t', stem, PutAll(FolderAt(t', stem).value, shots)), None)
  }

  /** The inner loop: reads until n frames are read or one read fails. */
  method ReadFrames(v: seq<Option<Image>>, pos: nat, n: nat, score: Scorer)
    returns (frames: seq<Image>, lap: seq<real>, pos': nat)
    ensures (frames, pos') == ReadWindow(v, pos, n)
    ensures lap == Scores(frames, score)
  {
    frames, lap, pos' := [], [], pos;
    var j := 0;
    assert [] + ReadWindow(v, pos, n).0 == ReadWindow(v, pos, n).0;
    while j < n
      invariant 0 <= j <= n && |frames| == j && pos' == pos + j
      invariant ReadWindow(v, pos, n).0 == frames + ReadWindow(v, pos', n - j).0
      invariant ReadWindow(v, pos, n).1 == ReadWindow(v, pos', n - j).1
      invariant lap == Scores(frames, score)
    {
      var ok := ReadOk(v, pos');
      if !ok {
        assert frames + [] == frames;
        pos' := pos' + 1;
        return;
      }
      var frame := v[pos'].value;
      var after := ReadWindow(v, pos' + 1, n - j - 1);
      assert ReadWindow(v, pos', n - j) == ([frame] + after.0, after.1);
      assert frames + ([frame] + after.0) == (frames + [frame]) + after.0;
      frames, lap := frames + [frame], lap + [score(frame)];
      pos' := pos' + 1;
      j := j + 1;
    }
    assert frames + [] == frames;
  }

  /** The window loop, writing into the video's directory. */
  method ExtractFrames(t: Tree, video: File, interval: real, score: Scorer) returns (r: Tree, fault: Option<Fault>)
    ensures Outcome(r, fault) == Extract(t, video, interval, score)
  {
    var cap := Capture(video.data);
    var count := Trunc(cap.countProp);
    var stem := Stem(video);
    var made := MakeDir(t, stem);
    if made.Err? {
      return t, Some(made.fault);
    }
    r := made.value;
    var k := Step(cap, interval);
    if k == 0 {
      return r, Some(ZeroStep);
    }
    if k < 0 {
      return r, None;
    }
    var out := WriteShots(FolderAt(r, stem).value, cap.results, score, stem, k, count);
    r := SetFolder(r, stem, out);
    fault := None;
  }

  /** The window loop, adding each window's shot to the video's directory out0. */
  method WriteShots(out0: Folder, v: seq<Option<Image>>, score: Scorer, stem: Name, k: nat, count: int)
    returns (out: Folder)
    requires k > 0
    ensures out == PutAll(out0, VideoShots(v, score, stem, k, count))
  {
    out := WindowLoop(out0, v, score, stem, k, count);
    WrittenShots(out0, v, ShotOf(stem, score), k, count, 0, 0);
  }

  /** The window loop itself, one window at a time. */
  method WindowLoop(out0: Folder, v: seq<Option<Image>>, score: Scorer, stem: Name, k: nat, count: int)
    returns (out: Folder)
    requires k > 0
    ensures out == Written(out0, v, ShotOf(stem, score), k, count, 0, 0)
  {
    ghost var goal := Written(out0, v, ShotOf(stem, score), k, count, 0, 0);
    out := out0;
    var i: nat, pos: nat := 0, 0;
    while i < count
      invariant Written(out, v, ShotOf(stem, score), k, count, i, pos) == goal
      decreases count - i
    {
      out, pos := WriteWindow(out, v, score, stem, k, count, i, pos, goal);
      i := i + k;
    }
  }

  /** One turn of the window loop: read the window starting at frame i from stream position pos
      and write its sharpest frame, if it read any; the remaining windows then lead to the same
      directory as before. */
  method WriteWindow(out: Folder, v: seq<Option<Image>>, score: Scorer, stem: Name, k: nat, count: int, i: nat, pos: nat,
                     ghost goal: Folder)
    returns (out': Folder, pos': nat)
    requires k > 0 && i < count
    requires Written(out, v, ShotOf(stem, score), k, count, i, pos) == goal
    ensures Written(out', v, ShotOf(stem, score), k, count, i + k, pos') == goal
  {
    assert Written(out, v, ShotOf(stem, score), k, count, i, pos) == WrittenStep(out, v, ShotOf(stem, score), k, count, i, pos);
    var frames, lap;
    frames, lap, pos' := ReadFrames(v, pos, Wanted(k, count, i), score);
    out' := out;
    if lap != [] {
      var x := File(ShotName(stem, i), Picture(frames[FirstMax(lap)]));
      assert x == ShotOf(stem, score)(i, frames);
      out' := Put(out, x);
    }
  }

  /** What the shot of the window starting at i, read from stream position pos, makes of out. */
  function After(out: Folder, v: seq<Option<Image>>, shot: Shooter, k: nat, count: int, i: nat, pos: nat): (Folder, nat)
    requires k > 0 && i < count && Shoots(shot)
  {
    var w := ReadWindow(v, pos, Wanted(k, count, i));
    (if w.0 == [] then out else Put(out, shot(i, w.0)), w.1)
  }

  /** The directory the windows from start i and stream position pos on leave behind when
      they write into out, one shot at a time. */
  function Written(out: Folder, v: seq<Option<Image>>, shot: Shooter, k: nat, count: int, i: nat, pos: nat): Folder
    requires k > 0 && Shoots(shot)
    decreases count - i, 1
  {
    if i >= count then out else WrittenStep(out, v, shot, k, count, i, pos)
  }

  function WrittenStep(out: Folder, v: seq<Option<Image>>, shot: Shooter, k: nat, count: int, i: nat, pos: nat): Folder
    requires k > 0 && i < count && Shoots(shot)
    decreases count - i, 0
  {
    var a := After(out, v, shot, k, count, i, pos);
    Written(a.0, v, shot, k, count, i + k, a.1)
  }

  /** Writing the shots one by one as the windows are read leaves the same directory as
      writing the list of all shots: the remaining windows' shots put into out. */
  lemma {:induction false} WrittenShots(out: Folder, v: seq<Option<Image>>, shot: Shooter, k: nat, count: int, i: nat, pos: nat)
    requires k > 0 && Shoots(shot)
    ensures Written(out, v, shot, k, count, i, pos) == PutAll(out, Shots(shot, StartsFrom(k, count, i), WindowsFrom(v, k, count, i, pos)))
    decreases count - i
  {
    if i < count {
      var a := After(out, v, shot, k, count, i, pos);
      WrittenNext(out, v, shot, k, count, i, pos);
      WrittenShots(a.0, v, shot, k, count, i + k, a.1);
      ExtractStep(out, v, shot, k, count, i, pos);
    } else {
      assert WindowsFrom(v, k, count, i, pos) == [];
      assert Shots(shot, [], []) == [];
    }
  }

  /** The windows from start i on: the shot of the first, then the rest from where it ended. */
  lemma WrittenNext(out: Folder, v: seq<Option<Image>>, shot: Shooter, k: nat, count: int, i: nat, pos: nat)
    requires k > 0 && i < count && Shoots(shot)
    ensures var a := After(out, v, shot, k, count, i, pos);
            Written(out, v, shot, k, count, i, pos) == Written(a.0, v, shot, k, count, i + k, a.1)
  {
    assert Written(out, v, shot, k, count, i, pos) == WrittenStep(out, v, shot, k, count, i, pos);
  }

  /** One turn of the window loop: read the window at start i, then write its shot if it read
      any; the shots of the other windows follow. */
  lemma ExtractStep(out: Folder, v: seq<Option<Image>>, shot: Shooter, k: nat, count: int, i: nat, pos: nat)
    requires k > 0 && i < count && Shoots(shot)
    ensures var a := After(out, v, shot, k, count, i, pos);
            PutAll(out, Shots(shot, StartsFrom(k, count, i), WindowsFrom(v, k, count, i, pos)))
            == PutAll(a.0, Shots(shot, StartsFrom(k, count, i + k), WindowsFrom(v, k, count, i + k, a.1)))
  {
    var w := ReadWindow(v, pos, Wanted(k, count, i));
    var starts, windows := StartsFrom(k, count, i + k), WindowsFrom(v, k, count, i + k, w.1);
    assert StartsFrom(k, count, i) == [i] + starts;
    assert WindowsFrom(v, k, count, i, pos) == [w.0] + windows;
    ShotsStep(shot, i, starts, w.0, windows);
    var rest := Shots(shot, starts, windows);
    if w.0 != [] {
      var x := shot(i, w.0);
      assert ([x] + rest)[0] == x && ([x] + rest)[1..] == rest;
    } else {
      assert [] + rest == rest;
    }
  }

  /** A file that is not a decodable video reports 0 FPS, so the step is zero and the run
      stops with a ValueError right after the video's directory is created. */
  lemma NotAVideoStops(t: Tree, video: File, interval: real, score: Scorer)
    requires !video.data.Movie?
    requires MakeDir(t, Stem(video)).Ok?
    ensures Extract(t, video, interval, score) == Outcome(MakeDir(t, Stem(video)).value, Some(ZeroStep))
  {
  }

  /** After a successful extraction, the video's directory holds one image per window that read
      a frame, each under its own name; files already there are kept unless a shot replaced them,
      and the rest of the output directory is untouched. */
  lemma ExtractWrites(t: Tree, video: File, interval: real, score: Scorer)
    requires MakeDir(t, Stem(video)).Ok?
    requires Step(Capture(video.data), interval) > 0
    ensures Extract(t, video, interval, score).fault.None?
    ensures var cap := Capture(video.data);
            var shots := VideoShots(cap.results, score, Stem(video), Step(cap, interval), Trunc(cap.countProp));
            var prior := if FolderAt(t, Stem(video)).Some? then FolderAt(t, Stem(video)).value else [];
            exists g :: FolderAt(Extract(t, video, interval, score).state, Stem(video)) == Some(g)
              && (forall x :: x in shots ==> x in g)
              && (forall x :: x in g ==> x in shots || (x in prior && !Has(shots, x.name)))
              && (forall x :: x in prior && !Has(shots, x.name) ==> x in g)
    ensures forall m :: m != Stem(video) ==> EntryAt(Extract(t, video, interval, score).state, m) == EntryAt(t, m)
  {
    var cap := Capture(video.data);
    var stem, k, count := Stem(video), Step(cap, interval), Trunc(cap.countProp);
    var shots := VideoShots(cap.results, score, stem, k, count);
    VideoShotsUnique(cap.results, score, stem, k, count);
    var t' := MakeDir(t, stem).value;
    var prior := FolderAt(t', stem).value;
    PutAllContains(prior, shots);
    PutAllKeeps(prior, shots);
  }

  // ---------------------------------------------------------------- generate_dataset_from_videos

  /** The names ending in ".mp4" (case-sensitive), in their order. */
  function Mp4s(names: seq<Name>): (r: seq<Name>)
    ensures forall n :: multiset(r)[n] == if EndsWith(n, ".mp4") then multiset(names)[n] else 0
  {
    if names == [] then []
    else
      assert names == [names[0]] + names[1..];
      (if EndsWith(names[0], ".mp4") then [names[0]] else []) + Mp4s(names[1..])
  }

  /** The videos, in the order the loop visits them. */
  function Videos(input: Folder): seq<Name> {
    Mp4s(SortNames(Names(input)))
  }

  /** The file to open for name n; a name that is gone opens as a capture with no frames. */
  function VideoFile(input: Folder, n: Name): File {
    File(n, match Read(input, n) case Some(c) => c case None => Data([]))
  }

  /** The extractions of the videos, one after another until one raises. */
  function GenerateOver(input: Folder, videos: seq<Name>, t: Tree, interval: real, score: Scorer): Outcome<Tree>
    decreases |videos|
  {
    if videos == [] then Outcome(t, None)
    else
      var o := Extract(t, VideoFile(input, videos[0]), interval, score);
      if o.fault.Some? then o else GenerateOver(input, videos[1..], o.state, interval, score)
  }

  /** generate_dataset_from_videos on the input directory's files and the output directory's
      listing (created empty when it did not exist). */
  function Generate(input: Folder, t: Tree, interval: real, score: Scorer): Outcome<Tree> {
    GenerateOver(input, Videos(input), t, interval, score)
  }

  method GenerateDatasetFromVideos(input: Folder, t: Tree, interval: real, score: Scorer)
    returns (r: Tree, fault: Option<Fault>)
    ensures Outcome(r, fault) == Generate(input, t, interval, score)
  {
    var names := SortNames(Names(input));
    ghost var goal := Generate(input, t, interval, score);
    r := t;
    var j := 0;
    while j < |names|
      invariant 0 <= j <= |names|
      invariant GenerateOver(input, Mp4s(names[j..]), r, interval, score) == goal
    {
      Mp4sStep(names, j);
      if EndsWith(names[j], ".mp4") {
        GenerateOverCons(input, names[j], Mp4s(names[j + 1..]), r, interval, score);
        r, fault := ExtractFrames(r, VideoFile(input, names[j]), interval, score);
        if fault.Some? {
          return;
        }
      }
      j := j + 1;
    }
    assert names[j..] == [];
    fault := None;
  }

  /** One name of the sorted listing: a video's extraction comes before the others'. */
  lemma Mp4sStep(names: seq<Name>, j: nat)
    requires j < |names|
    ensures Mp4s(names[j..]) == if EndsWith(names[j], ".mp4") then [names[j]] + Mp4s(names[j + 1..]) else Mp4s(names[j + 1..])
  {
    assert names[j..][0] == names[j] && names[j..][1..] == names[j + 1..];
  }

  lemma GenerateOverCons(input: Folder, x: Name, rest: seq<Name>, t: Tree, interval: real, score: Scorer)
    ensures var o := Extract(t, VideoFile(input, x), interval, score);
            GenerateOver(input, [x] + rest, t, interval, score)
              == if o.fault.Some? then o else GenerateOver(input, rest, o.state, interval, score)
  {
    assert ([x] + rest)[0] == x && ([x] + rest)[1..] == rest;
  }

  /** Every ".mp4" file of the input directory is extracted exactly once, in sorted order, and
      no other name is. */
  lemma VideosInOrder(input: Folder)
    ensures SortedLex(Videos(input))
    ensures forall n :: multiset(Videos(input))[n] == if Has(input, n) && EndsWith(n, ".mp4") then 1 else 0
  {
    var sorted := SortNames(Names(input));
    Mp4sSorted(sorted);
    NamesOnce(input);
  }

  lemma {:induction false} Mp4sSorted(s: seq<Name>)
    requires SortedLex(s)
    ensures SortedLex(Mp4s(s))
  {
    if s != [] {
      Mp4sSorted(s[1..]);
      var rest := Mp4s(s[1..]);
      if EndsWith(s[0], ".mp4") {
        forall j | 0 <= j < |rest| ensures LexLe(s[0], rest[j]) {
          assert rest[j] in multiset(rest);
          var m :| 0 <= m < |s[1..]| && s[1..][m] == rest[j];
          assert s[m + 1] == rest[j];
        }
      }
    }
  }

  /** Each name of a folder occurs once in its listing. */
  lemma NamesOnce(f: Folder)
    ensures forall n :: multiset(Names(f))[n] == if Has(f, n) then 1 else 0
  {
    forall n ensures multiset(Names(f))[n] == if Has(f, n) then 1 else 0 {
      NamesCount(f, n);
    }
  }

  lemma {:induction false} NamesCount(s: seq<File>, n: Name)
    requires UniqueNames(s)
    ensures multiset(Names(s))[n] == if Has(s, n) then 1 else 0
  {
    if s != [] {
      var rest := s[1..];
      NamesCount(rest, n);
      HasCons(s, n);
      assert Names(s) == [s[0].name] + Names(rest);
    }
  }

  lemma HasCons(s: seq<File>, n: Name)
    requires s != []
    ensures Has(s, n) <==> s[0].name == n || Has(s[1..], n)
  {
    if Has(s, n) {
      var i :| 0 <= i < |s| && s[i].name == n;
      if i > 0 {
        assert s[1..][i - 1] == s[i];
      }
    }
    if Has(s[1..], n) {
      var i :| 0 <= i < |s[1..]| && s[1..][i].name == n;
      assert s[i + 1] == s[1..][i];
    }
  }
}
