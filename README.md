# Upload control for Spine assets

This project models the upload control of a Spine animation viewer
(`src/assets/components/UploadAssets.jsx`). The user selects a batch of files: a `.skel`
skeleton, a `.atlas` atlas and its `.png` page images. The control does four things:

- It classifies the batch.
- It keeps the batch's object URLs and name.
- It enables a GO button for an acceptable batch.
- On GO, it sends the kept bundle to a decode chain. That chain appends an entry to the
  application's shared asset list.

The model has five modules:

- `FileNames` covers JavaScript's `split('.')` and `join('.')` and what the handler builds from
  them, the base name and the extension. Both are checked against an independent reference
  built on the position of the last dot.
- `ObjectKeys` gives the first key `Object.keys` lists for an object whose keys were created in
  a given order: the least array-index key when there is one, otherwise the oldest key. The
  handler takes that key as the name of the batch.
- `Batch` specifies the handler's loop as a fold, `ScanFiles`, and its outcome, `Classify`.
  Lemmas state both in terms of the files of the batch.
- `Registry` covers the decode end of GO:
  - the texture resolver, an exact lookup of an atlas page line among the png names;
  - the version gate, a substring test for "3.8";
  - the id rule, last id plus one;
  - the shared asset list as the class `AssetRegistry`.
- `UploadAssets` holds the component's state as the class `UploadControl`, with fields `files`,
  `fileData`, `nameFile` and `active`. Its two handlers are methods:
  - `HandleFileChange` runs the loop as the imperative `ScanBatch`, proved equal to the fold.
    It then writes `nameFile` and `fileData`, and only after that runs the completeness test.
  - `Go` hands the kept bundle to the decode chain, a function parameter, registers the result
    under the kept name and disables GO again.

## Reading of the source

In `UploadAssets.jsx:112-119` the braces of the handler do not balance: the loop body is one
closing brace short. The model follows the indentation:

- The `else` branch ends after the reference for a non-png extension is stored.
- `fileMap[baseName].add(extension)` runs for every file, png files included.
- The loop closes there.
- The completeness test (lines 121-127) runs once, after the loop.

Several consequences follow, and the model proves them:

- **Exactly one png.** A png file repeating a base name and extension is refused as a
  duplicate. So an accepted batch holds exactly one png (`Batch.AcceptedHasOnePng`): two pngs
  would either share a base name, which is a duplicate, or not, which makes two groups and an
  incomplete batch. The error text on line 125 asks for "one or more .png files"; the code as
  read here admits only one.
- **Too many files.** A batch of more than ten files still clears the listed files, because
  `setFiles([])` comes first, but it leaves the kept bundle alone.
- **Incomplete batch.** An incomplete batch still overwrites `nameFile` and `fileData` (lines
  121-122, before the test on 124). GO stays enabled if an earlier batch enabled it, so GO then
  uses the incomplete batch's bundle.

## Model

| member | source | states |
|---|---|---|
| FileNames.Split | src/assets/components/UploadAssets.jsx:100-101 | `split('.')` yields at least one piece, and no piece contains a dot |
| FileNames.LastDotSpec | src/assets/components/UploadAssets.jsx:100-101 | the reference position is a dot (or -1), and no dot follows it |
| FileNames.LastDotUnique | src/assets/components/UploadAssets.jsx:100-101 | any position that is a dot with no dot after it is the one `LastDot` finds |
| FileNames.JoinSplit | src/assets/components/UploadAssets.jsx:100 | joining the pieces of a split with "." gives back the original string |
| FileNames.SplitJoin | src/assets/components/UploadAssets.jsx:100 | splitting the join of any non-empty list of dot-free pieces gives back that list |
| FileNames.SplitLast | src/assets/components/UploadAssets.jsx:100-101 | all pieces but the last join to the base name, and the last piece is the extension |
| FileNames.HasDot | src/assets/components/UploadAssets.jsx:100-101 | a name contains a dot exactly when the reference finds one |
| FileNames.NameAroundDot | src/assets/components/UploadAssets.jsx:100-101 | the extension has no dot; a dotted name is base + "." + extension; an undotted name has an empty base and is its own extension |
| FileNames.SplitNameSpec | src/assets/components/UploadAssets.jsx:100-101 | the handler's `slice(0, -1).join('.')` is the base name before the last dot, and `pop()` is the dot-free extension after it |
| ObjectKeys.LeastIndexKey | src/assets/components/UploadAssets.jsx:121 | finds an array-index key of least numeric value among the keys, or reports that none of them is an array index |
| ObjectKeys.FirstOwnKey | src/assets/components/UploadAssets.jsx:121 | `Object.keys(o)[0]`, or "" for no keys, otherwise a key of the object; the least array-index key when there is one, otherwise the oldest key |
| Batch.Keys | src/assets/components/UploadAssets.jsx:100-101 | each file's key is the base name and extension the handler computes from its name |
| Batch.KeysConsistent | src/assets/components/UploadAssets.jsx:100-101 | two files with the same name get the same base name and extension |
| Batch.CreateThenAdd | src/assets/components/UploadAssets.jsx:103-118 | creating the empty set on the first sight of a base name and then adding the extension adds the extension to that name's group and changes no other group |
| Batch.ScanKeys | src/assets/components/UploadAssets.jsx:99-119 | the loop's key order lists each key of the group map exactly once |
| Batch.GroupMapSpec | src/assets/components/UploadAssets.jsx:103-118 | the group map holds exactly the base names of the batch, each with exactly the extensions seen with it |
| Batch.BaseOrderSpec | src/assets/components/UploadAssets.jsx:103-105 | the key-creation order has no repeats, holds exactly the group map's keys, and starts with the first file's base name |
| Batch.PngsSpec | src/assets/components/UploadAssets.jsx:112-114 | without duplicates, the image map holds exactly the png files, each under its full name with its own URL |
| Batch.RefsSpec | src/assets/components/UploadAssets.jsx:115-116 | the references hold exactly the non-png extensions of the batch, each with the URL of the last file that has it |
| Batch.FoldsSummarize | src/assets/components/UploadAssets.jsx:99-119 | without duplicates, the reference folds give the group map, image map, references and key order described above |
| Batch.StepInv | src/assets/components/UploadAssets.jsx:99-119 | one loop iteration keeps the invariant: the state is a duplicate exactly when the keys so far repeat, then naming the later key of a repeated pair, and otherwise equals the folds |
| Batch.ScanKeysInv | src/assets/components/UploadAssets.jsx:99-119 | the loop over any batch satisfies that invariant |
| Batch.FirstDuplicate | src/assets/components/UploadAssets.jsx:107-109 | a loop stopped by a duplicate reports the pair of the first file that repeats an earlier file's base name and extension (no repeat among the files before it) |
| Batch.ScanFilesSpec | src/assets/components/UploadAssets.jsx:99-119 | the loop stops at a duplicate exactly when two files share base name and extension, reporting the pair of the first file that repeats an earlier one; otherwise it has grouped the files, stored each png under its full name and kept the last URL per other extension |
| Batch.ScanKeysPrefix | src/assets/components/UploadAssets.jsx:99 | the loop over the first i + 1 files is one iteration past the loop over the first i |
| Batch.DuplicateIsFinal | src/assets/components/UploadAssets.jsx:107-110 | once a duplicate stops the loop, the rest of the batch changes nothing |
| Batch.SingleGroup | src/assets/components/UploadAssets.jsx:124 | `Object.keys(fileMap).length === 1` exactly when the batch is non-empty and all its files share one base name |
| Batch.NameOfScan | src/assets/components/UploadAssets.jsx:121 | the kept name is "" for an empty batch, otherwise a base name of the batch, and the first file's base name when no base name is an array index |
| Batch.GroupTest | src/assets/components/UploadAssets.jsx:124 | the group-map half of the completeness test holds exactly when there is one base name and among its files are a skel and an atlas |
| Batch.PngTest | src/assets/components/UploadAssets.jsx:124 | the image map is non-empty exactly when the batch has a png file |
| Batch.FinishedScan | src/assets/components/UploadAssets.jsx:121-127 | after a loop without duplicates, the completeness test passes exactly for acceptable batches, and the name is as `NameOfScan` states |
| Batch.ClassifySpec | src/assets/components/UploadAssets.jsx:88-131 | the outcome: more than ten files are refused; otherwise a repeated base name and extension is refused with the pair of the first file that repeats an earlier one; otherwise a batch is accepted exactly when it has one base name and a skel, an atlas and a png; every finished loop carries the image map, the references and the name |
| Batch.DistinctExts | src/assets/components/UploadAssets.jsx:107-118 | in an acceptable batch no extension occurs twice |
| Batch.OnePng | src/assets/components/UploadAssets.jsx:112-114 | with no extension twice, the image map holds the single png file alone |
| Batch.AcceptedHasOnePng | src/assets/components/UploadAssets.jsx:103-127 | an accepted batch has no extension twice and exactly one png, and its image map holds that file alone under its full name |
| Registry.IncludesSpec | src/assets/components/UploadAssets.jsx:69 | `includes` holds exactly when the marker occurs at some position of the string |
| Registry.SupportedVersionSpec | src/assets/components/UploadAssets.jsx:69 | a version passes the gate exactly when "3.8" occurs in it, so "3.8.x" and anything ending in "3.8" pass |
| Registry.NextIdIsFresh | src/assets/components/UploadAssets.jsx:70 | while ids ascend, last id + 1 is above every id in use, and appending the entry keeps ids ascending |
| Registry.NextIdCanCollide | src/assets/components/UploadAssets.jsx:39 | the rule reads only the last entry, so with ids out of order it can hand out an id already in use |
| Registry.ResolvesPngsOfBatch | src/assets/components/UploadAssets.jsx:53-61 | for a kept bundle, a page line yields a texture exactly when it is the full name of a png file of the batch, with that file's URL; any other line is reported missing by its own text |
| Registry.AssetRegistry.constructor | src/assets/components/UploadAssets.jsx:18 | the shared asset list starts as given |
| Registry.AssetRegistry.Register | src/assets/components/UploadAssets.jsx:38-80 | a failed decode only logs; a supported version appends one entry with the kept name and last id + 1; any other version is refused with its version string and the list is unchanged |
| UploadAssets.ScanBatch | src/assets/components/UploadAssets.jsx:99-119 | the imperative loop returns exactly the scan that the fold `ScanFiles` specifies |
| UploadAssets.UploadControl.constructor | src/assets/components/UploadAssets.jsx:13-16 | no files, no bundle, no name, GO disabled |
| UploadAssets.UploadControl.HandleFileChange | src/assets/components/UploadAssets.jsx:87-132 | the outcome is `Classify` of the batch. Files are listed only on accept and cleared otherwise. GO is enabled only by an accept. Name and bundle are overwritten whenever the loop finished and kept otherwise. GO is never enabled without a bundle and a name |
| UploadAssets.UploadControl.Go | src/assets/components/UploadAssets.jsx:133-137 | the kept bundle goes to the decode chain and its result is registered under the kept name, with the effect `Register` states; GO is disabled again, and nothing else of the control changes |

## Left out

- Rendering: the buttons, the file list and the hidden input (lines 22-24 and 139-155) are not
  modelled. `files` is kept as state, but how it is displayed is not.
- Object URLs (line 111) are opaque tokens carried by each file. `URL.createObjectURL` is not
  modelled, and neither is fetching a blob URL into bytes (lines 26-31).
- The animation library: fetching the skeleton, registering and loading the atlas, parsing the
  atlas and decoding the skeleton (lines 37-67) are external code. GO takes them as one
  function parameter `decode` from the kept bundle to a `DecodeResult`. How the decode uses the
  bundle's URLs is not modelled. The resolver it calls is modelled on its own as `ResolvePage`.
- The timestamp in the texture alias (lines 40-41) is a clock reading used only for an
  alias of the external loader, so it is not modelled.
- Asynchrony: the promise chain, its `catch` (line 84) and races between an in-flight decode
  and a new selection are not modelled. GO runs the whole chain to its result at once.
- `Registry.AssetRegistry.Register`: the source appends through a functional state update, but
  reads the id from the asset list as it was when GO was pressed. The model reads and appends in
  one step. Interleavings where the two lists differ are not captured.
- `UploadAssets.UploadControl.Go`: does not model `onOpenChange` (line 136), a callback into
  the parent, and requires GO to be enabled (`!active`), as the disabled button ensures (line
  151).
- The loading toast and its id handed to the toast context (lines 34-35), the `toast.update`
  (lines 72-77) and the console output are not modelled. The error toasts are the returned
  kinds `Outcome` and `Report`.
- React's batching of state updates is not modelled: each setter is an assignment made in call
  order.
- JavaScript object quirks are outside the model:
  - A file with the extension "pngs" overwrites the image map at `uploadedFilesUrls["pngs"]`.
    The model keeps the image map and the references apart.
  - Base names or extensions equal to members of `Object.prototype`, such as "constructor", make
    `!fileMap[baseName]` and the key lookups behave differently.
- Strings are sequences of characters. UTF-16 code units and surrogate pairs are not
  distinguished.
