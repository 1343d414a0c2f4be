# Dog-image dataset curation, modelled in Dafny

The repository prepares image datasets of individual dogs for training a re-identification
network. Its core is a small pipeline of file-system passes:

- **extract frames** from each `.mp4` video: the stream is cut into fixed-size windows and
  the sharpest frame of each window is saved as a JPEG (`SnapShot.extract_frames`,
  `generate_dataset_from_videos`);
- **sort** a dataset of per-dog folders with a YOLO detector: each image gets a verdict
  (`NO_DOG`, `TOO_MANY_DOGS`, `VALID`, `INVALID`); images that are not `VALID`, and then
  every folder with too few images left, are moved under `invalid_data/`
  (`determine_dog_proportion_is_valid`, `test_images_in_folder`, `sort_dataset`);
- **renumber** the folders as `dog<i:03d>` by listing position and their files as
  `<folder>_<j:03d>.jpg`, deleting empty folders (`rename_folders_by_count`);
- **crop** each image to the first detected dog, either in place or into a mirrored output
  tree (`Crop.get_dog_xy`, `crop_dog_out_of_image`, `process_single_directory`,
  `process_directories`);
- **split** each class folder with enough images into `train/` and `test/` copies at a
  ratio, after a random shuffle (`split_data`).

The model works over an abstract file system (module `Fs`):

- A directory of files is a `Folder`: a sequence of named files in listing order, with
  unique names.
- A directory of directories is a `Tree` of nodes, each a sub-folder or a plain file.
- File contents are decoded images (2-D pixel rasters), videos (the FPS and frame-count
  properties and the result of every successive `read()`), or opaque bytes.
- Every Python exception the code can raise on the inputs the model represents is a
  `Fault` value (inputs it does not represent are listed under "Left out"), such as
  `mkdir` over a plain file, `cv2.imwrite(path, None)`, or reading an unbound local.
  A pass that raises returns `Outcome(state, Some(fault))`: the state it had reached, with
  earlier changes kept.

The detector, the Laplacian sharpness score and the shuffle are inputs: a function from an
image to its detections, a function from a frame to a real score, and a function from a list
to a list (assumed to be a permutation where that matters). Several things follow the
Python code where the intent reads differently:

- `cv2.imread` returning `None` for an unreadable file makes `len(img)` raise a
  `TypeError`, so `DetermineStatus` reports a fault rather than `NO_DOG`. Only an image
  with no rows is `NO_DOG`. `NO_FILE` is declared but never returned.
- `test_images_in_folder` routes a non-image file by the verdict on the last image before
  it. When no image precedes it, the loop raises an `UnboundLocalError`.
- When no dog is found, `crop_dog_out_of_image` returns `None`. `process_single_directory`
  and `process_directories` still pass that to `cv2.imwrite`, which raises. So "no dog"
  ends the pass with the `NothingToWrite` fault; it is not skipped.
- `rename_folders_by_count` renames files onto names that may already be taken. On POSIX
  that overwrites, so a folder whose listing starts `[x, <folder>_001.jpg]` loses a file:
  `Renamer.ClashLosesFile` exhibits the exact result.
- The stated clean properties of the renaming (no faults, folder `dog<i:03d>` at listing
  position `i`, the file count kept) are proved under `NoDogClash`/`NoClash`: no entry
  already bears the name meant for another position.
- A detection box covering a zero-area image (no columns) divides by zero. Torch then
  yields `inf`/`nan`, so the area test passes exactly when the box area is positive; the
  model states it that way.

Each imperative pass is a Dafny `method` with loops and invariants. Its `ensures` ties its
result to a recursive specification function, and the properties are lemmas about that
function.

## Model

| member | source | states |
|---|---|---|
| Fs.Trunc | vids_to_images/crop.py:26 | `int()` of a float truncates toward zero, for both signs |
| Fs.SliceBound | vids_to_images/crop.py:44 | a Python slice bound is clipped to `[0, n]`, and a negative bound counts from the end |
| Fs.Read | vids_to_images/processDogImages.py:85 | the content of a listed file is the content stored under its name; absent names read as nothing |
| Fs.Put | split_images.py:50 | writing a file (copy, move or `imwrite`) onto a folder adds it and replaces any same-named file, leaving the others |
| Fs.PutAllKeeps | split_images.py:47-50 | copying a list of files keeps the folder's files whose names are not copied over |
| Fs.PutAllContains | split_images.py:47-50 | after copying a list of distinct files, each of them is in the folder |
| Fs.Remove | vids_to_images/processDogImages.py:94 | moving a file out removes exactly the entry with that name |
| Fs.RemoveOne | vids_to_images/processDogImages.py:94 | a folder without the moved file's name equals the old folder minus the file |
| Fs.EntryAt | vids_to_images/processDogImages.py:145 | an entry looked up by name is the listed entry of that name, if any |
| Fs.SetFolder | vids_to_images/processDogImages.py:94 | replacing one sub-folder changes no other entry and keeps the listing's names and order |
| Fs.SetFolderTwice | vids_to_images/processDogImages.py:126-128 | two successive replacements of a sub-folder amount to the last one |
| Fs.MakeDir | vids_to_images/processDogImages.py:92 | `mkdir(exist_ok=True)` fails over a plain file, keeps an existing folder with its files, and otherwise adds an empty one, changing nothing else |
| Fs.PutInto | vids_to_images/processDogImages.py:91-94 | moving a file into `invalid_data/<dir>` creates that folder when missing and writes the file there, and fails exactly when `mkdir` does |
| Naming.Lower | vids_to_images/processDogImages.py:86 | ASCII lower-casing: each of 'A'..'Z' becomes its lower-case letter, every other character is kept, and the length is unchanged |
| Naming.Suffix | vids_to_images/processDogImages.py:86 | `Path.suffix` is empty or a dot followed by dot-free text, strictly shorter than the name |
| Naming.SuffixOfAppended | vids_to_images/processDogImages.py:86 | a name made of a non-empty stem and an extension has that extension as its suffix |
| Naming.SplitExtRoot | vids_to_images/snapshot.py:22 | `os.path.splitext(...)[0]` is a prefix of the name; it stops just before the last dot when some character before that dot is not a dot, and is the whole name when no dot has a non-dot before it |
| Naming.SplitExtRootMp4 | vids_to_images/snapshot.py:22 | the stem of `<stem>.mp4` is `<stem>` whenever the stem is not made of dots alone |
| Naming.Pad3 | vids_to_images/processDogImages.py:153 | `{i:03d}` has at least three characters, exactly the digit count when it is larger |
| Naming.Pad3Injective | vids_to_images/processDogImages.py:153 | distinct numbers give distinct `{i:03d}` strings |
| Naming.StrInjective | vids_to_images/snapshot.py:44 | distinct numbers give distinct decimal strings |
| Naming.LexTotal | vids_to_images/snapshot.py:90 | Python string order is total |
| Naming.LexTransitive | vids_to_images/snapshot.py:90 | Python string order is transitive |
| Naming.SortNames | vids_to_images/snapshot.py:90 | `sorted()` gives an ordered permutation of the names |
| DogStatus.DogResults | vids_to_images/processDogImages.py:50 | every kept detection is a dog (class 16) above the confidence threshold |
| DogStatus.DogResultsCounts | vids_to_images/processDogImages.py:50 | the filter keeps every qualifying detection as often as it occurs and drops all others |
| DogStatus.DogResultsAppend | vids_to_images/processDogImages.py:50 | the filter distributes over concatenation |
| DogStatus.DetermineStatus | vids_to_images/processDogImages.py:30-70 | the verdict raises exactly for an unreadable file, is never `NO_FILE`, and is `VALID` only for a non-empty image with exactly one qualifying dog |
| DogStatus.TwoQualifyCount | vids_to_images/processDogImages.py:52-54 | more than one detection survives the filter iff two distinct positions qualify |
| DogStatus.NoneQualifies | vids_to_images/processDogImages.py:55-57 | no detection survives iff none is a class-16 detection above the threshold |
| DogStatus.SingleQualifier | vids_to_images/processDogImages.py:52-65 | exactly one survives iff some detection is the only qualifier, and then it is the one measured |
| DogStatus.ClassifySpec | vids_to_images/processDogImages.py:50-70 | `NO_DOG` iff nothing qualifies, `TOO_MANY_DOGS` iff two qualify, and `VALID`/`INVALID` iff exactly one qualifies with a box-area percentage strictly above/at most the threshold |
| DogStatus.IgnoresNonQualifying | vids_to_images/processDogImages.py:50 | adding a non-dog or low-confidence detection never changes the verdict |
| DogStatus.FullFrameArea | vids_to_images/processDogImages.py:60-65 | a box covering the whole image has exactly the image's area |
| DogStatus.FullFrameIsValid | vids_to_images/processDogImages.py:60-70 | a single qualifying full-frame box is `VALID` whenever the threshold is below 100 |
| DogStatus.ThresholdMonotone | vids_to_images/processDogImages.py:70 | a verdict `VALID` at a higher area threshold stays `VALID` at a lower one |
| DogStatus.EmptyImageIsNoDog | vids_to_images/processDogImages.py:43-45 | a decoded image with no rows is `NO_DOG` |
| DatasetSorter.IsImageNameLower | vids_to_images/processDogImages.py:86 | the image test is the lower-cased suffix being `.jpg` or `.jpeg` |
| DatasetSorter.StepSpec | vids_to_images/processDogImages.py:85-94 | one iteration: an unreadable image raises, a non-image with no status yet raises `UnboundLocalError`, a `VALID` status keeps the file, any other moves it into `invalid_data/<dir>` (raising only when a plain file blocks `mkdir`) |
| DatasetSorter.PartitionFromUnbound | vids_to_images/processDogImages.py:85-90 | a non-image file met before any image raises `UnboundLocalError` and moves nothing more |
| DatasetSorter.PartitionFromUnreadable | vids_to_images/processDogImages.py:87 | an unreadable image ends the loop with every unvisited file still in place |
| DatasetSorter.TestImagesInFolder | vids_to_images/processDogImages.py:73-94 | the loop computes the folder and `invalid_data` tree of the specification fold, including where it raises |
| DatasetSorter.PartitionFate | vids_to_images/processDogImages.py:85-94 | after a run that does not raise, a file stays iff the status in force when it was visited is `VALID` (an image iff its own verdict is `VALID`), every other file is in `invalid_data/<dir>`, nothing else enters there, no other folder of `invalid_data` changes, and what stays is settled |
| DatasetSorter.PartitionExactlyOne | vids_to_images/processDogImages.py:85-94 | with no name clash in `invalid_data/<dir>`, every file ends in exactly one of the folder and `invalid_data/<dir>` |
| DatasetSorter.PartitionSettled | vids_to_images/processDogImages.py:85-94 | a folder that starts with an image and whose images are all `VALID` is left as it is |
| DatasetSorter.PartitionNoFault | vids_to_images/processDogImages.py:85-94 | a folder that starts with an image, whose images are all readable and where `invalid_data/<dir>` can be made, is partitioned without an exception |
| DatasetSorter.UnboundFirst | vids_to_images/processDogImages.py:85-90 | a folder whose first listed file is not an image raises at once and changes nothing |
| DatasetSorter.Listing | vids_to_images/processDogImages.py:108 | the data directory's listing names every subject folder, each once |
| DatasetSorter.PartitionStep | vids_to_images/processDogImages.py:108-112 | partitioning one entry changes no other subject entry and keeps the listing |
| DatasetSorter.Prune | vids_to_images/processDogImages.py:119-128 | a folder with enough images is untouched; otherwise, unless `mkdir` raises, it is emptied and every file, of any extension, is now in `invalid_data/<dir>`, with no other folder of `invalid_data` changed |
| DatasetSorter.PruneStep | vids_to_images/processDogImages.py:116-128 | pruning one entry keeps the listing, touches no other subject entry, and deletes no folder of `invalid_data` |
| DatasetSorter.CountImages | vids_to_images/processDogImages.py:119 | the count loop returns the number of image-named files |
| DatasetSorter.MoveAll | vids_to_images/processDogImages.py:126-128 | the move loop empties the folder and puts every file into `invalid_data/<dir>` |
| DatasetSorter.PruneFolder | vids_to_images/processDogImages.py:119-128 | the method computes the specified pruning of one folder |
| DatasetSorter.PartitionFolders | vids_to_images/processDogImages.py:108-112 | the first loop computes the specified partition of every listed entry, skipping `invalid_data` |
| DatasetSorter.PruneFolders | vids_to_images/processDogImages.py:116-128 | the second loop computes the specified pruning of every listed directory other than `invalid_data` |
| DatasetSorter.SortDataset | vids_to_images/processDogImages.py:97-129 | `sort_dataset` computes the specified two-pass result |
| DatasetSorter.SortKeepsSubjects | vids_to_images/processDogImages.py:115-128 | no subject folder is created, deleted or reordered, not even one emptied by pruning |
| DatasetSorter.PartitionAllSettles | vids_to_images/processDogImages.py:108-112 | after the first loop every partitioned subject is a settled folder, and unlisted entries are untouched |
| DatasetSorter.PruneAllCurates | vids_to_images/processDogImages.py:116-128 | pruning keeps folders settled and leaves each one with at least the minimum image count, or empty with its `invalid_data` folder present |
| DatasetSorter.SortCurates | vids_to_images/processDogImages.py:97-129 | a `sort_dataset` run without an exception leaves the dataset curated |
| DatasetSorter.CuratedFixpoint | vids_to_images/processDogImages.py:97-129 | `sort_dataset` on a curated dataset moves nothing and raises nothing |
| DatasetSorter.SortIdempotent | vids_to_images/processDogImages.py:97-129 | with the same verdicts, a second `sort_dataset` changes nothing |
| Renamer.DogNameInjective | vids_to_images/processDogImages.py:153 | distinct listing positions get distinct folder names |
| Renamer.NumberedNameInjective | vids_to_images/processDogImages.py:160 | distinct file positions get distinct file names within a folder |
| Renamer.RenameFile | vids_to_images/processDogImages.py:162 | a POSIX rename fails only for a missing source, moves the content to the new name, and drops any file already there |
| Renamer.RenumberFiles | vids_to_images/processDogImages.py:159-162 | the file loop computes the specified renaming fold |
| Renamer.RenameFilesNoFault | vids_to_images/processDogImages.py:159-162 | renaming the listed files one after another never raises |
| Renamer.RenameFilesNumbered | vids_to_images/processDogImages.py:159-162 | when no file already bears another position's name, the folder ends holding exactly the files renamed `<folder>_<j:03d>.jpg` for j = 1..n, their contents kept and their number unchanged |
| Renamer.ClashLosesFile | vids_to_images/processDogImages.py:159-162 | a listing `[x, <folder>_001.jpg]` ends as the single file `<folder>_002.jpg` holding x's content: one image is lost |
| Renamer.RemoveNode | vids_to_images/processDogImages.py:149 | `rmdir` removes exactly the named entry |
| Renamer.RenameDir | vids_to_images/processDogImages.py:155 | a directory rename succeeds onto its own name, a free name or an empty directory, moves the folder there, changes no other entry, and otherwise raises `NotADirectoryError` or `OSError` |
| Renamer.RenameFoldersByCount | vids_to_images/processDogImages.py:133-163 | the folder loop computes the specified renumbering fold |
| Renamer.RenumberClean | vids_to_images/processDogImages.py:144-162 | when no entry bears another position's `dog<i:03d>` name, the run does not raise and yields the entries renumbered one by one |
| Renamer.RenumberKeepsPlain | vids_to_images/processDogImages.py:145 | a plain file in the listing is left as it is |
| Renamer.RenumberDropsEmpty | vids_to_images/processDogImages.py:147-149 | an empty sub-folder is deleted |
| Renamer.RenumberMovesFolder | vids_to_images/processDogImages.py:152-162 | a non-empty sub-folder at 1-based position i becomes `dog<i:03d>` with its files renumbered, and its old name is gone |
| Renamer.RenumberNothingElse | vids_to_images/processDogImages.py:144-162 | every entry after the run comes from one listed entry |
| Renamer.RenumberKeepsFiles | vids_to_images/processDogImages.py:152-162 | a renamed folder keeps its number of files |
| Snapshot.ReadWindow | vids_to_images/snapshot.py:34-40 | the inner loop reads at most n frames and consumes one read more when it stops early |
| Snapshot.ReadWindowSpec | vids_to_images/snapshot.py:34-40 | the frames read are the successful reads from the window's start, and a short window ends at a failed read |
| Snapshot.ReadWindowClean | vids_to_images/snapshot.py:34-37 | with no failing read, a window gets all n frames |
| Snapshot.ReadFrames | vids_to_images/snapshot.py:34-40 | the read loop builds the frames of its window and their scores |
| Snapshot.Scores | vids_to_images/snapshot.py:38-39 | each frame's score sits at its position |
| Snapshot.FirstMaxSpec | vids_to_images/snapshot.py:43 | the selected index holds the window maximum, and every earlier score is strictly smaller |
| Snapshot.ShotNamesDiffer | vids_to_images/snapshot.py:44 | distinct window starts get distinct file names |
| Snapshot.StartsFrom | vids_to_images/snapshot.py:29 | every window start lies below the frame count |
| Snapshot.StartsSpec | vids_to_images/snapshot.py:29 | the w-th start is w·k, and there are ceil(count/k) starts |
| Snapshot.StartsIncreasing | vids_to_images/snapshot.py:29 | window starts strictly increase |
| Snapshot.WindowsCover | vids_to_images/snapshot.py:29-34 | the windows request exactly `frame_count` frames, and all but the last request k |
| Snapshot.CleanWindows | vids_to_images/snapshot.py:29-40 | with no failing read, each window holds exactly the frames of its range |
| Snapshot.ShotsMembers | vids_to_images/snapshot.py:42-45 | a file is written iff it is the shot of a window from which some frame was read |
| Snapshot.ShotsUnique | vids_to_images/snapshot.py:42-45 | the written names are distinct; there are at most as many as windows, and exactly as many when no window is empty |
| Snapshot.VideoShotsUnique | vids_to_images/snapshot.py:29-45 | one video's shots all bear distinct names |
| Snapshot.WindowLoop | vids_to_images/snapshot.py:29-45 | the window loop computes the specified write fold |
| Snapshot.WriteShots | vids_to_images/snapshot.py:29-45 | the window loop writes exactly the shots of the video |
| Snapshot.WrittenShots | vids_to_images/snapshot.py:29-45 | the window-by-window writes equal writing the list of shots in order |
| Snapshot.ExtractFrames | vids_to_images/snapshot.py:8-47 | `extract_frames` computes the specified result |
| Snapshot.NotAVideoStops | vids_to_images/snapshot.py:17-29 | a file that is not a video gets its directory and then raises on the zero step |
| Snapshot.ExtractWrites | vids_to_images/snapshot.py:17-45 | with a positive step the run does not raise: the video's folder holds every shot plus the earlier files not overwritten, and no other entry changes |
| Snapshot.Mp4s | vids_to_images/snapshot.py:91 | the filter keeps each name ending in `.mp4` as often as it occurs and drops all others |
| Snapshot.Mp4sSorted | vids_to_images/snapshot.py:90-91 | filtering a sorted listing keeps it sorted |
| Snapshot.VideosInOrder | vids_to_images/snapshot.py:90-91 | the videos visited are in sorted order, and each `.mp4` file of the input is visited exactly once |
| Snapshot.GenerateOverCons | vids_to_images/snapshot.py:90-94 | each video is extracted into the state left by the one before, and the first exception ends the run |
| Snapshot.GenerateDatasetFromVideos | vids_to_images/snapshot.py:77-94 | `generate_dataset_from_videos` computes the specified result |
| Crop.FirstDog | vids_to_images/crop.py:18-22 | the box used is the first class-16 detection, absent iff there is none |
| Crop.GetDogXY | vids_to_images/crop.py:13-30 | the coordinates are those of the first class-16 detection, truncated, in the order (xmin, xmax, ymin, ymax); `None` iff there is no dog |
| Crop.GetDogXYIgnoresConfidence | vids_to_images/crop.py:18 | confidences do not affect the coordinates |
| Crop.CropImage | vids_to_images/crop.py:44 | the crop's height and width are the clipped slice extents, and each cell is the original cell shifted by the slice start |
| Crop.CropNonNegative | vids_to_images/crop.py:44 | for non-negative bounds, height = max(0, min(ymax,H) − min(ymin,H)), width likewise, and cell (r,c) is cell (ymin+r, xmin+c) |
| Crop.CropWholeFrame | vids_to_images/crop.py:44 | cropping to the full frame returns the image |
| Crop.CropDogOut | vids_to_images/crop.py:33-46 | the result is `None` iff no dog is detected, raises iff a dog is found in an unreadable file, and is otherwise the crop at the dog's coordinates |
| Crop.ImWrite | vids_to_images/crop.py:54 | `imwrite` succeeds iff given a non-empty image, and raises for `None` or an empty crop |
| Crop.SavedSpec | vids_to_images/crop.py:53-54 | a crop is saved iff a dog is found, the file decodes and the crop is non-empty, and then the saved image is that crop |
| Crop.NoDogIsFault | vids_to_images/crop.py:36-38 | with no dog the crop is `None`, and writing it raises |
| Crop.IsCropTargetSuffix | vids_to_images/crop.py:51 | a crop target is a file whose case-sensitive suffix is `.jpg` or `.jpeg` |
| Crop.Picked | vids_to_images/crop.py:51 | the image list holds exactly the listed files with a target suffix |
| Crop.CroppedSpec | vids_to_images/crop.py:49-54 | each target image is overwritten in place by its crop and every other file is untouched; the run raises iff some crop cannot be saved, and then the images before the first such file are cropped and the rest untouched |
| Crop.ProcessSingleDirectory | vids_to_images/crop.py:49-54 | the method computes the specified in-place crop |
| Crop.SubDirs | vids_to_images/crop.py:61 | only the immediate sub-directories are visited |
| Crop.MirrorOk | vids_to_images/crop.py:61-72 | `process_directories` raises iff some sub-directory's crops cannot all be saved into `output/<subdir>` |
| Crop.MirrorWrites | vids_to_images/crop.py:61-72 | when every crop can be saved, each target image's crop is in `output/<subdir>/<name>`, and earlier output files not overwritten remain |
| Crop.MirrorKeeps | vids_to_images/crop.py:61-72 | output entries not named after an input sub-directory are untouched |
| Crop.ProcessDirectories | vids_to_images/crop.py:57-72 | the method computes the specified mirrored crop |
| Split.ImageCount | split_images.py:19-25 | the number of names with a case-sensitive `.jpg`, `.png` or `.jpeg` ending is at most the number of files, zero iff no name is an image, and full iff every name is |
| Split.ImageCountAppend | split_images.py:19-25 | image counts add over concatenation |
| Split.SplitIndex | split_images.py:44 | `int(ratio·n)` is the floor for a non-negative ratio, at most n for a ratio up to 1 |
| Split.Cut | split_images.py:47-53 | the two slices concatenate to the list, and for 0 ≤ k ≤ n have k and n − k files |
| Split.PartsCover | split_images.py:39-56 | under a permuting shuffle, the train and test parts together are the folder's files, disjoint by name, of sizes `split_index` and `len − split_index` |
| Split.ClassSplit | split_images.py:28-56 | a folder with too few images changes nothing; otherwise it raises iff a plain file blocks `train/<c>` or `test/<c>`, and then copies the first part into `train/<c>` and the rest into `test/<c>`, touching no other entry |
| Split.ClassSplitsKeeps | split_images.py:15-30 | output entries not named after a class folder that is split are untouched, so skipped folders leave no trace |
| Split.ClassSplitsOk | split_images.py:15-56 | the loop raises iff some class folder that is split finds a plain file in its place |
| Split.ClassSplitsWrites | split_images.py:15-56 | after a loop without an exception, every folder that is split has its parts copied into `train/<c>` and `test/<c>` |
| Split.MakeSlot | split_images.py:11-12 | `makedirs(exist_ok=True)` keeps an existing directory, creates a missing one, and raises over a plain file |
| Split.CopyFiles | split_images.py:47-50 | the copy loop computes copying the list into the class folder |
| Split.SplitAllOk | split_images.py:6-56 | `split_data` raises iff `train` or `test` is a plain file or a class folder that is split finds no room |
| Split.SplitAllWrites | split_images.py:6-56 | after a run without an exception, each class folder that is split is copied into both sides, and every other output entry is unchanged |
| Split.FreshSplit | split_images.py:6-56 | into a fresh output folder, train/<c> and test/<c> are exactly the two parts, which together are the class folder's files and share no name |
| Split.SplitData | split_images.py:6-56 | `split_data` computes the specified result |

## Left out

- The YOLO detector, `cv2.imread`, `cv2.imwrite` and `cv2.VideoCapture` are foreign code. The detector is an abstract function from an image to detections. Decoding is the file's content being a picture, and a video is its reported properties and read results. JPEG encoding loss is ignored: a written image reads back as written.
- The Laplacian variance is an abstract real-valued score of a frame.
- `random.shuffle` is a caller-supplied function. The cover and disjointness properties assume it permutes.
- Floating point is exact real arithmetic: box coordinates, area percentages, FPS × interval and the split ratio. Rounding differences near a threshold are not modelled.
- `SnapShot.process_new_dataset` cannot run as written, since it calls `extract_frames` without its `interval` argument. It is not part of this model.
- The pipeline and demo scripts, the training and prediction scripts, the face detector and the CSV pruning script are not part of this model.
- `print` logging and `cap.release()` have no effect on the modelled state.
- Paths are reduced to folder and file names. A folder holds only files, so a sub-directory inside a folder that is sorted, renumbered, cropped or split is not modelled. A directory is assumed not to move or change while it is listed, and `iterdir`/`listdir` is a snapshot taken when the loop starts.
- Listing order is a convention of the model, since the OS promises none for `iterdir`/`listdir`. `Fs.Put` keeps a replaced file in its place and appends a new name at the end. `Renamer.RenameFile` takes the file out and puts it back under its new name, so it lands at the end, or in the place of the file it replaces. Moving files out keeps the rest in order.
- DatasetSorter.SortIdempotent and DatasetSorter.CuratedFixpoint rely on that order convention. If a second listing put a non-image file first, the source would raise `UnboundLocalError` at the status check.
- Naming.Lower: only ASCII 'A'..'Z' are lowered. Python's `str.lower` also lowers non-ASCII letters, can lengthen a string ('İ' becomes two code points), and lowers a final sigma depending on context. The image-suffix test still agrees with Python's, since no other character lowers to '.', 'j', 'p', 'e' or 'g'.
- Snapshot.GenerateDatasetFromVideos: the input directory holds only files, and the output directory is a directory or missing. Two source cases are not modelled. If a plain file stands at the output path, `os.makedirs` raises `FileExistsError`. A sub-directory whose name ends in `.mp4` is picked up like a video; it opens as a capture with 0 FPS, so `range` raises `ValueError` after its output directory is made, as for a non-video file (Snapshot.NotAVideoStops).
- Crop.ProcessSingleDirectory: the directory holds only files. A sub-directory whose name has a `.jpg`/`.jpeg` suffix is picked as an image, and the pass would raise on it because `cv2.imread` gives `None`; this is not modelled.
- Listing a missing input directory raises in the source. The model takes every input directory as given.
- Rename semantics are POSIX: a rename overwrites a file, and replaces an empty directory. Windows semantics are not modelled.
- The `invalid_data` entry of `sort_dataset` is always a directory here. A plain file of that name, which makes the first `mkdir` raise, is not modelled.
- Crop.ProcessDirectories: the output tree is a separate value from the input tree, so an output directory that is or lies inside the input is not modelled. The source files are unchanged because the input is never written. The output directory is a directory or missing; a plain file at that path, on which `mkdir` raises, is not modelled. As with ProcessSingleDirectory, a sub-directory with an image suffix inside a class folder is not represented.
- Split.SplitData: the output folder is taken to be a directory, or missing, outside the input folder. A plain file in its place, or an output inside the input, is not modelled. A class folder holds only files here, so a sub-directory inside one, on which the source's `shutil.copy` raises, is not modelled; nor is one inside a folder being sorted or cropped.
- Renamer.RenameFoldersByCount: the clean results are proved only when no entry already bears another position's target name. Other listings are modelled but not characterised beyond ClashLosesFile.
