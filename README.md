# divfiles: a verified model of the train/validation splitter

`divfiles` divides a YOLO-style dataset into a training set and a validation
set. The source directory holds `images/` (JPEG files) and `labels/` (one
`.txt` annotation per image, with the same stem). `CopyRandomFiles` works in
five steps:

1. It lists the regular files of `images/` whose extension is exactly `.jpg`
   or `.JPG`.
2. It shuffles that list.
3. It takes the ceiling of `n * percentage / 100` as the training count `k`.
4. The first loop copies slots `0..k-1` into `train/images`, each with its
   label (when the label exists) into `train/labels`, and clears each slot
   it copied.
5. The second loop copies every slot that is still non-empty into
   `valid/images` and `valid/labels`.

Every copy uses `std::filesystem::copy` with `overwrite_existing`. `GetStem`
returns a path's filename without its final extension.

The model follows the code as written. That means:

- **Exact extension match.** Only `.jpg` and `.JPG` pass the filter. `.Jpg`,
  `.jpeg` and a file named just `.jpg` do not.
- **Percentage used as given.** There is no range check on the percentage
  (the usage text mentions 1-99) and no further reduction factor.
- **Usage without an error.** With a wrong argument count, `main` prints the
  usage and returns 0.

## Structure

- `paths.dfy` (`Paths`): paths as sequences of components, and the C++ rules
  for `filename()`, `extension()` and `stem()`. Also the image filter's
  extension test, the label name, and `GetStem`.
- `files.dfy` (`Files`): the filesystem as a map from paths to entries.
  `fs::copy` with `overwrite_existing` is a function (`ApplyCopy`), and the
  `FileSystem` class applies it in place.
- `split_spec.dfy` (`SplitSpec`): the specification functions.
  - `JpgFiles` is the filter.
  - `TrainCount` is the training count.
  - `CopyWithLabel` is one image with its label.
  - `CopyAll` is one loop, stopping at the first failing copy.
  - `SplitRun` is both loops.
  - `CopyRandomFilesRun` is the whole function: the directory iterator's
    error when `images/` is not a directory, otherwise `SplitRun` with the
    ceiling count.
  - `NonEmpty` gives the slots the second loop visits.
- `divfiles.dfy` (`Divfiles`): `CopyRandomFiles` as imperative code. The
  enumeration loop, the two loops over an `array` of slots that the first
  loop clears in place, and the paired copies are each proved equal to the
  specification functions.
- `split_props.dfy`, `split_run.dfy` (`SplitProps`, `SplitRunProps`): when
  every copy can be made, these prove:
  - every image lands with its content in exactly the split its position
    gives;
  - its label, when it exists, goes to the same split;
  - every written path holds a regular file;
  - every other path is unchanged.
- `outcome.dfy` (`RunOutcome`): the run from existing destination
  directories that are empty (`makedir` creates missing directories and
  leaves existing ones, full or not, as they are), with a listing that
  names every entry of `images/` once:
  - every regular `.jpg`/`.JPG` file of `images/` is in exactly one images
    directory;
  - the images directories hold `k` and `n - k` images;
  - each labels directory holds exactly the existing labels of its split's
    images;
  - nothing outside the four destinations changes.

The shuffle is an input: any rearrangement of the collected list
(`multiset(shuffled) == multiset(jpgFiles)`). Every property is proved for
all of them.

## Model

| member | source | states |
|---|---|---|
| Paths.GetStem | divfiles/divfiles.cpp:11-14 | the stem followed by the extension is the filename; for a `.jpg`/`.JPG` name the stem is the name without its last four characters and is never empty |
| Paths.Stem | divfiles/divfiles.cpp:13 | `stem()`: a prefix of the filename; `Paths.Extension` states that the stem followed by the extension is the name |
| Paths.ExtensionStart | divfiles/divfiles.cpp:36 | the extension starts at the rightmost period, which is not the first character, with no period after it; when there is no extension the name is "." or "..", or has no period after its first character |
| Paths.Extension | divfiles/divfiles.cpp:36 | the extension is empty or is one period followed by no period, and the stem followed by the extension is the name |
| Paths.ExtensionStartsAt | divfiles/divfiles.cpp:36 | a period at a position after the first, with no later period, is where the extension starts |
| Paths.IsJpgName | divfiles/divfiles.cpp:36 | the filter's extension test: the extension is exactly ".JPG" or ".jpg"; characterised by `Paths.JpgNameIff` |
| Paths.JpgNameIff | divfiles/divfiles.cpp:34-37 | a name passes the filter's extension test iff it has at least five characters and ends in ".jpg" or ".JPG" |
| Paths.JpgSpellingsAccepted | divfiles/divfiles.cpp:36 | "cat.jpg", "CAT.JPG" and "a.b.jpg" pass the test |
| Paths.JpgSpellingsRefused | divfiles/divfiles.cpp:36 | "cat.Jpg", "cat.jpeg", ".jpg", "cat.jpg.txt" and "jpg" do not pass |
| Paths.LabelName | divfiles/divfiles.cpp:56 | `stem().concat(".txt")`; `Paths.LabelPairsWithImage` states its properties |
| Paths.LabelPairsWithImage | divfiles/divfiles.cpp:56-57 | an image's label name keeps the image's non-empty stem, has extension ".txt", and is not itself an image name |
| Paths.SharedLabelName | divfiles/divfiles.cpp:56 | "a.jpg" and "a.JPG" are both collected yet share the label "a.txt" |
| Files.ApplyCopy | divfiles/divfiles.cpp:53 | copying a regular file onto a different path that is absent or a regular file, inside an existing directory, succeeds and changes only that path; a missing source, a copy onto itself, an entry of another kind, a directory copied onto a regular file, or a regular file whose target's parent is not an existing directory fails, with an error naming the two paths; a regular file copied onto an existing directory `to` goes to `to` / its filename, and fails exactly when that path is the source itself or holds a directory or an `Other` entry; any success either leaves the tree alone (directory source) or writes the source's entry to a target in an existing directory |
| Files.FileSystem.Exists | divfiles/divfiles.cpp:58 | `fs::exists`: the path names an entry |
| Files.FileSystem.IsRegular | divfiles/divfiles.cpp:35 | `is_regular_file`: the path names a regular file |
| Files.FileSystem.Copy | divfiles/divfiles.cpp:53 | a successful copy replaces the state with the copy's result; a failed one reports its error and changes nothing |
| SplitSpec.TrainCount | divfiles/divfiles.cpp:48 | the count is at most n, and is the smallest k with 100·k ≥ n·percentage |
| SplitSpec.TrainCountIsCeiling | divfiles/divfiles.cpp:48 | any number meeting both ceiling inequalities equals the count |
| SplitSpec.TrainCountPositive | divfiles/divfiles.cpp:48 | with at least one image and a percentage of at least 1, training gets at least one image |
| SplitSpec.JpgFiles | divfiles/divfiles.cpp:30-41 | every collected path is a regular file of the images directory, has a listed name, and passes the extension test; every listed name that passes yields a collected path |
| SplitSpec.JpgFilesExact | divfiles/divfiles.cpp:33-41 | over a listing of every entry of the directory (`ListsDir`), a path is collected iff it is a regular file of the directory passing the extension test |
| SplitSpec.ImageDest | divfiles/divfiles.cpp:52 | `destImagePath`: in the split's images directory, with the image's filename |
| SplitSpec.LabelSource | divfiles/divfiles.cpp:56 | `sourceLabelPath`: in the labels directory, named by the image's label name |
| SplitSpec.LabelDest | divfiles/divfiles.cpp:57 | `destLabelPath`: in the split's labels directory, its filename being the image's label name |
| SplitSpec.CopyWithLabel | divfiles/divfiles.cpp:52-60 | a failed step reports the error of the image copy or of the label copy; when the image copy fails, nothing has changed; `SplitProps.CopyWithLabelEffect` gives the successful case |
| SplitSpec.CopyAll | divfiles/divfiles.cpp:51-63 | one loop: the images in order, each with `CopyWithLabel`, stopping at the first error, which is always a copy error; `Divfiles.ErrorSticks` and `SplitProps.CopyAllEffect` state its properties |
| SplitSpec.CopyAllFailure | divfiles/divfiles.cpp:51-63 | a loop that fails reports the failed copy of one of its images or of that image's label |
| SplitSpec.SplitRun | divfiles/divfiles.cpp:51-77 | the first loop over positions 0..k-1 into training, then, unless it failed, the second over k.. into validation; `SplitRunProps.SplitRunEffect` states its effect |
| SplitSpec.CopyRandomFilesRun | divfiles/divfiles.cpp:20-78 | the run raises the iteration error exactly when `images/` is not a directory, and then changes nothing; any other error it raises is a copy error |
| SplitSpec.NonEmpty | divfiles/divfiles.cpp:66-67 | the slots the second loop copies, in order; `SplitSpec.ClearedThenSkipped` states which they are |
| SplitSpec.ClearedThenSkipped | divfiles/divfiles.cpp:62-67 | when no collected path is empty, clearing the first k slots and then skipping empty slots visits exactly the paths at positions k.., in order |
| SplitSpec.ClearedAllEmpty | divfiles/divfiles.cpp:67 | slots that are all cleared give nothing to the second loop |
| SplitSpec.NonEmptyAppend | divfiles/divfiles.cpp:66-67 | the non-empty slots of a concatenation are those of each part, concatenated |
| SplitSpec.NonEmptyPrefix | divfiles/divfiles.cpp:66-67 | the slots visited among the first j are a prefix of all the visited slots |
| Divfiles.ListJpgFiles | divfiles/divfiles.cpp:33-41 | the enumeration loop produces `JpgFiles` of the listing, in listing order |
| Divfiles.CopyImageAndLabel | divfiles/divfiles.cpp:52-60 | the image copy, then the label copy only if the label exists, with the resulting state and error being `CopyWithLabel` |
| Divfiles.ErrorSticks | divfiles/divfiles.cpp:53 | once a copy has raised, no later copy of the loop is made |
| Divfiles.SkipStepFails | divfiles/divfiles.cpp:69-76 | a failing copy in the second loop ends the loop with that failure |
| Divfiles.CopyTrainSlots | divfiles/divfiles.cpp:51-63 | the first loop's state and error are `CopyAll` of the first `filesToCopy` slots into training; on success those slots are empty and the others as they were |
| Divfiles.CopyValidSlots | divfiles/divfiles.cpp:66-77 | the second loop's state and error are `CopyAll` of the non-empty slots, in order, into validation |
| Divfiles.SplitAndCopy | divfiles/divfiles.cpp:48-77 | the two loops over one array of slots are `SplitRun`: positions 0..k-1 to training, then k.. to validation |
| Divfiles.CopyRandomFiles | divfiles/divfiles.cpp:20-78 | when `images/` is not a directory, the directory iterator raises before any copy and nothing changes; otherwise, given the directory's listing and any shuffled order of the collected images, the result is `SplitRun` of that order with the ceiling count |
| SplitProps.WrittenByParent | divfiles/divfiles.cpp:52-57 | every path an image's copies write lies in the split's images or labels directory |
| SplitProps.WrittenParent | divfiles/divfiles.cpp:51-77 | every path a loop writes lies in its split's images or labels directory |
| SplitProps.DirectoryNotWritten | divfiles/divfiles.cpp:53 | a loop whose copies can all be made never writes over a directory, so the destination directories survive it |
| SplitProps.CopyWithLabelEffect | divfiles/divfiles.cpp:52-60 | with separate, existing directories and copyable targets the step succeeds; the image's destination holds the image, the label's holds the label when it exists, and every other path is unchanged |
| SplitProps.CopyAllEffect | divfiles/divfiles.cpp:51-63 | when every copy can be made, a loop succeeds and leaves every image and existing label at its destination with its content, every written path a regular file, and every other path unchanged |
| SplitRunProps.OutsideUnchanged | divfiles/divfiles.cpp:51-63 | a loop never changes a path outside its split's two directories |
| SplitRunProps.ValidStageReady | divfiles/divfiles.cpp:51-77 | the training loop leaves the validation loop's directories, sources and targets as they were, so it writes the same paths |
| SplitRunProps.SplitRunEffect | divfiles/divfiles.cpp:51-77 | when every copy can be made, the run succeeds; image i and its existing label land with their content in split train iff i < k; written paths are regular files and unwritten ones unchanged |
| RunOutcome.DistinctJpgFiles | divfiles/divfiles.cpp:33-41 | a listing without repeated names yields collected paths without repeats |
| RunOutcome.PermutationDistinct | divfiles/divfiles.cpp:46 | a rearrangement of a list without repeats has none |
| RunOutcome.ShuffledSetting | divfiles/divfiles.cpp:30-46 | the shuffled list consists of distinct regular files of the images directory, as many as were collected |
| RunOutcome.SettingRun | divfiles/divfiles.cpp:51-77 | from existing, empty destinations, every copy of the run succeeds and places images and labels by position |
| RunOutcome.ImageDestInjective | divfiles/divfiles.cpp:52 | two images of the source directory share a destination iff they are the same image |
| RunOutcome.OtherImageNotWritten | divfiles/divfiles.cpp:51-63 | the destination of an image not in a loop's list is never written by that loop |
| RunOutcome.MissingLabelNotWritten | divfiles/divfiles.cpp:56-60 | the destination of a label that does not exist is never written |
| RunOutcome.ImagesDirAfterRun | divfiles/divfiles.cpp:51-77 | after the run the training images directory holds exactly the destinations of images 0..k-1, and the validation one exactly those of k.. |
| RunOutcome.ImageInOneSplit | divfiles/divfiles.cpp:51-77 | image i is in the training images directory iff i < k, and in the validation one iff i ≥ k |
| RunOutcome.EveryImageInOneSplit | divfiles/divfiles.cpp:33-77 | every regular `.jpg`/`.JPG` file of the images directory is in exactly one of the two images directories |
| RunOutcome.SplitSizes | divfiles/divfiles.cpp:48-77 | the training images directory ends with k images and the validation one with n − k |
| RunOutcome.LabelWithImage | divfiles/divfiles.cpp:55-76 | an image's label is in its split's labels directory iff the label exists, and then with its content |
| RunOutcome.LabelDestInjective | divfiles/divfiles.cpp:56-57 | two images share a label destination iff they share a label |
| RunOutcome.LabelsDirAfterRun | divfiles/divfiles.cpp:51-77 | after the run the training labels directory holds exactly the destinations of the existing labels of images 0..k-1, and the validation one exactly those of k.. |
| RunOutcome.LabelInOneSplit | divfiles/divfiles.cpp:55-76 | for an image whose label no image of the other split shares, the label is in the training labels directory iff i < k and it exists, and in the validation one iff i ≥ k and it exists |
| RunOutcome.OutsideUnchangedByRun | divfiles/divfiles.cpp:51-77 | nothing outside the four destination directories changes |
| RunOutcome.CopyRandomFilesOutcome | divfiles/divfiles.cpp:20-78 | the run fails iff `images/` is not a directory, and then with the iteration error and nothing changed; otherwise, given the directory's listing and any shuffled order, the run succeeds, splits the n images k = ⌈n·p/100⌉ to training and n − k to validation, and puts each image, and every `.jpg`/`.JPG` file of the directory, in exactly one split |

## Left out

- Directory iteration, `std::filesystem` and console output are modelled as a map, not as I/O. Opening the iterator on a path that is not a directory is the error `IterationError`. The listing of `images/` is a sequence of filenames given as input, required to name every entry of the directory once (`SplitSpec.ListsDir`); its order is left open. Errors raised while iterating an existing directory are not modelled.
- Paths are compared exactly, component by component and with case. A case-insensitive filesystem such as the Windows one that `main`'s `\\` separators suggest is not modelled.
- The shuffle (`std::random_device`, `std::mt19937`, `std::shuffle`) is not modelled. Its result is an input constrained to be a permutation of the collected list.
- SplitSpec.TrainCount: it is the exact integer ceiling of `n * percentage / 100`. The source computes `std::ceil` on `double`, where rounding can give one more (for example 100 images at 7% gives 8). The `float` percentage is taken as a whole number, as `main` produces it from `atoi`.
- Percentages outside 0..100 are not modelled. Above 100, with at least one image, the first loop indexes past the end of the list. Below 0, the cast of a negative ceiling to `size_t` is undefined once n·|p| ≥ 100. The remaining negative cases are well defined and give k = 0 (for example one image at −50% goes to validation), but the model leaves them out too.
- `main` is not part of this model: its argument handling, its usage text, and its building of the six directory paths with `\\`. Those paths appear in the model as a `Layout` of six distinct paths.
- `makedir` is not part of this model. The outcome lemmas assume the four destination directories exist (`RunOutcome.DestinationsExist`). When one is missing (`makedir` only prints its error), the copies into it fail, and `Files.ApplyCopy` models that failure.
- An exception from `fs::copy` is modelled as an error that stops the run, with earlier copies kept. `main`'s catch handlers and exit codes are not modelled.
- Files.ApplyCopy: symbolic links, and the `copy_options` other than `overwrite_existing`, are not modelled. A directory source is a successful no-op, because the copy is not recursive. Other entry kinds are a single `Other` case that always fails.
- RunOutcome.CopyRandomFilesOutcome: it assumes existing, empty destination directories and regular label files. When the destinations already hold regular files, every copy still succeeds (`SplitRunProps.SplitRunEffect`), but the directory contents and counts this lemma states no longer hold. An `Other` entry at a target makes its copy fail. A directory at a target receives the file inside it (`Files.ApplyCopy`), and that copy fails only when the directory already holds a directory or an `Other` entry under the file's name. What happens in those states is stated by `Divfiles.CopyRandomFiles`, `SplitSpec.SplitRun` and `SplitRunProps.SplitRunEffect`, not by this lemma.
- RunOutcome.LabelInOneSplit: images "a.jpg" and "a.JPG" share the label "a.txt" (`Paths.SharedLabelName`). When they fall into different splits, that label is copied to both labels directories. The model keeps this behaviour, `RunOutcome.LabelsDirAfterRun` covers it, and this lemma places only labels that no image of the other split shares.
