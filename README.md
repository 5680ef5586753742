# go-magick: a Dafny model of the compressor's decisions

go-magick compresses images by running an external converter (`./magick.exe convert`)
on each file. Either it compresses one named file, or it walks a directory tree and
dispatches one compression job per file it finds. This project models the parts of
`main.go` that make decisions:

- **Validation and naming** (`compression`, main.go:104-132), as the function
  `Compress.Validate`. It fills in the default output directory and output name. It
  applies the lower-cased extension whitelist `.png`, `.jpg`, `.jpeg` to the input
  name, and then independently to the output name. It also slices the output stem.
  The slice `outFilename[:index-1]` is kept as written: `index` is the last dot of
  the INPUT name, and the `-1` drops one byte, so `photo.jpg` gets the stem `phot`.
  A slice bound outside the output name (an input such as `.png`) is a Go runtime
  panic, modelled as the outcome `Panic`.
- **Collision resolution** (main.go:134-144), as the method
  `Compress.ResolveOutputPath` with a `while` loop. `fileExists` becomes membership
  in a finite set `existing` of paths. The loop first tries `Join(outdir, outFilename)`.
  While the candidate is taken, it tries `Join(outdir, stem + "_out_" + dec(i) + ext)`
  for i = 1, 2, and so on. The method is proved to return the path the ghost
  predicate `IsResolution` describes: a path not in `existing`, with the least free
  suffix number. It terminates because the candidates are pairwise distinct and every
  taken one lies in `existing`.
- **Command construction** (main.go:146-148), as the function `Compress.Command`.
  The method `Compress.Compression` composes the three steps.
- **Directory walk** (`deepdirsCompression`, main.go:75-102), as the functions
  `Walk.WalkDir` and `Walk.WalkEntries` over a tree value. Each directory either has
  an ordered listing or cannot be listed. The walk returns the requests it
  dispatches, in dispatch order.

Go's library functions used by these decisions are in module `GoLib`:
`filepath.Join`, `filepath.Ext`, `strings.LastIndex`, `strings.ToLower` and `%d`.
`%d` is paired with a decimal parser that undoes it. A Dafny `string` stands for a Go
byte string: each `char` is one byte.

The working directory (`os.Getwd`) is the parameter `cwd`. The filesystem is the
parameter `existing`.

Facts about main.go that the model states as the code has them:

- The collision name for `photo.jpg` in `out` is `out/phot_out_1.jpg`, not
  `out/photo_out_1.jpg`: the slice drops the byte before the dot
  (`Compress.PhotoStem`, `Compress.PhotoCollisions`).
- `README` fails the extension whitelist with an empty extension, because the
  whitelist is checked before the dot search. The invalid-filename branch at
  main.go:123-125 can never be reached (`Compress.NoExtensionRejected`,
  `Compress.InvalidFilenameUnreachable`).
- The stem is sliced from the output name, at a position taken from the input name
  (`Compress.ReadyPlan`).
- The walker dispatches a job for every non-directory entry, whatever its extension.
  A non-image file's job fails later inside `compression`
  (`Walk.WalkDirCount`, `Walk.NestedExampleOutcomes`).

The suffix loop probes `Join(outdir, outFilename)` first and then its candidates. It
makes at most |existing| + 1 probes when that first path is not itself one of the
candidates. If it is one of them (the output name `a_out_1.png` with stem `a`), the
same path is probed twice, and |existing| + 2 probes are possible
(`Compress.RepeatedProbeExample`).

## Model

| member | source | states |
|---|---|---|
| `GoLib.JoinInjective` | main.go:142 | two names joined under one directory give equal paths only if the names are equal |
| `GoLib.LastIndex` | main.go:122 | the result is -1 or a position holding the character, and no later position holds it |
| `GoLib.Ext` | main.go:113 | the result is a suffix of the path; if non-empty it starts with the path's last dot and holds no further dot or '/'; if empty, no dot follows the last '/' |
| `GoLib.ExtStartsAtLastDot` | main.go:113-125 | a non-empty extension starts exactly at the last dot that `strings.LastIndex` finds in the whole name |
| `GoLib.ExtAt` | main.go:113-122 | a dot followed by no dot and no '/' fixes the extension as the suffix from that dot, and is the last dot `strings.LastIndex` finds |
| `GoLib.ExtNone` | main.go:113 | a name without any dot has the empty extension |
| `GoLib.ToLower` | main.go:113 | the result has the input's length and no upper-case ASCII letter, and each byte is kept or is an upper-case letter moved 32 code points up |
| `GoLib.ToLowerFoldEq` | main.go:113 | lower-casing a name gives a text without upper-case letters exactly when the name equals that text up to ASCII case |
| `GoLib.DecRoundTrip` | main.go:148 | parsing the `%d` text of any integer, negative included, gives that integer back |
| `GoLib.DecInjective` | main.go:142 | distinct suffix numbers print as distinct texts |
| `Compress.EmptyInputRejected` | main.go:109-111 | the result is the empty-input error if and only if the input name is empty |
| `Compress.EmptyOutDirIsWorkingDir` | main.go:105-107 | an empty output directory behaves exactly as if the working directory had been passed |
| `Compress.InputFormatGate` | main.go:113-117 | a non-empty input is rejected with the unsupported-format error naming its lower-cased extension if and only if that extension is not whitelisted |
| `Compress.CaseInsensitiveGate` | main.go:113-117 | an extension passes the whitelist exactly when it equals `.png`, `.jpg` or `.jpeg` up to ASCII case |
| `Compress.OutputCheckedAfterInput` | main.go:128-132 | past the input gate and the slice, the request is ready if and only if the output name's lower-cased extension is whitelisted; otherwise it is rejected with the unsupported-format error naming that extension |
| `Compress.InvalidFilenameUnreachable` | main.go:122-125 | no request ever yields the invalid-filename error |
| `Compress.PanicCondition` | main.go:122-127 | the slice panics exactly when the input passed its gate and its last dot is at position 0 or lies more than one byte past the end of the output name |
| `Compress.ReadyPlan` | main.go:119-132 | a ready plan has the defaulted directory and output name, a whitelisted lower-cased output extension, and as stem the output name's prefix one byte shorter than the input name without its extension |
| `Compress.DefaultOutputNamePanics` | main.go:119-127 | with an empty output name and a whitelisted input, validation panics exactly when the whole input name is its extension, and is otherwise ready |
| `Compress.DefaultOutputNameStem` | main.go:119-127 | with an empty output name, stem, one dropped byte and the input's extension put back together give the input name |
| `Compress.CandidateInjective` | main.go:142 | different suffix numbers give different candidate paths |
| `Compress.TakenSize` | main.go:136-144 | before probe i, exactly i-1 distinct candidates have been probed |
| `Compress.ProbeStep` | main.go:136-144 | once probe i is found taken, all candidates probed so far lie in `existing`, which therefore holds at least i paths |
| `Compress.ResolutionUnique` | main.go:134-144 | at most one path and suffix count fit the resolution: the loop's outcome is determined by `existing` |
| `Compress.ResolveOutputPath` | main.go:134-144 | the returned path is not in `existing`; a free first path is returned unchanged with no suffix; otherwise the suffix is the least positive number whose candidate is free; the suffix count is at most the size of `existing` plus one, and at most that size when the first path is not a candidate |
| `Compress.CommandPassesThrough` | main.go:146-148 | the argument list is the converter, `convert`, the joined input path, `-quality`, the quality text and the output path; the quality text parses back to the given quality, unclamped |
| `Compress.Compression` | main.go:104-149 | a rejected or panicking request builds no command; a ready one runs the command whose last argument is the resolution of its plan against `existing` |
| `Compress.UpperCaseAccepted` | main.go:113-117 | `A.JPG` passes the case-insensitive gate |
| `Compress.GifRejected` | main.go:113-117 | `a.gif` is rejected with the unsupported-format error for `.gif` |
| `Compress.NoExtensionRejected` | main.go:113-117 | `README` is rejected with the unsupported-format error and an empty extension |
| `Compress.GifOutputRejected` | main.go:128-132 | a valid input with output name `b.gif` is rejected with the unsupported-format error for `.gif` |
| `Compress.LeadingDotPanics` | main.go:122-127 | the input `.png` panics in the slice |
| `Compress.PhotoStem` | main.go:122-132 | `photo.jpg` gets the stem `phot` |
| `Compress.PhotoCollisions` | main.go:134-144 | with `out/photo.jpg` taken the result is `out/phot_out_1.jpg`; with that taken too, `out/phot_out_2.jpg` |
| `Compress.RepeatedProbeExample` | main.go:134-144 | with an output name equal to the first candidate, the loop needs suffix 2 although only one path exists |
| `Walk.WalkDirCount` | main.go:77-100 | the walk dispatches exactly one request per non-directory entry under listable directories, whatever its extension |
| `Walk.WalkDirSound` | main.go:83-99 | every dispatched request names a non-directory entry of the tree, in the directory that lists it |
| `Walk.WalkDirComplete` | main.go:83-99 | every non-directory entry reachable through listable directories gets the request with its directory and name, an empty output name, and the caller's output directory and quality |
| `Walk.WalkDirJobs` | main.go:89-99 | every dispatched request has an empty output name, the caller's output directory and quality, and an input directory that is the walked one or lies under it (the walked path followed by '/') |
| `Walk.WalkEntriesAppend` | main.go:83-87 | the requests of a listing are those of its first part followed by those of the rest, so a subdirectory is fully walked before its later siblings |
| `Walk.UnlistableSubtreeSkipped` | main.go:77-81 | an unlistable subdirectory contributes no requests, and its siblings are still walked |
| `Walk.WalkedJobsKeepInputName` | main.go:92 | a walked request that validates writes under its own input name, in the caller's output directory or the working directory |
| `Walk.NestedExample` | main.go:75-102 | a tree with three images and one text file over two nested directories dispatches four requests, depth first |
| `Walk.NestedExampleOutcomes` | main.go:113-117 | the text file's request from that tree is rejected with the unsupported-format error |
| `Walk.NestedExampleImage` | main.go:119-132 | the `c.jpeg` request from that tree is ready, with the empty stem |
| `Walk.NestedExampleRootImage` | main.go:119-132 | the `a.png` request from that tree is ready, with the empty stem and extension `.png` |
| `Walk.NestedExampleSubImage` | main.go:119-132 | the `b.jpg` request from that tree is ready, with the empty stem and extension `.jpg` |

## Left out

- Flag parsing, help and mode selection in `main` (main.go:27-72) are command-line plumbing. That includes main.go:59, which passes the output directory as the output file name.
- Running the converter (`cmd.Run()`, main.go:149) is a foreign process. The outcome `Run(argv)` stands for spawning it; its exit status is not modelled.
- `os.Stat` and `os.IsExist` in `fileExists` (main.go:152-161) are the set `existing`. Any `Stat` error counts as absent.
- `os.Getwd` is the parameter `cwd`. If it fails, `outdir` stays empty. Go's `filepath.Join` would then give the bare name, but the model's join gives `/name`.
- `filepath.Join` is plain concatenation around one '/'. Path cleaning, Windows `\` separators and the special case of empty elements are not modelled. `filepath.Ext` treats only '/' as a separator.
- `strings.ToLower` is modelled on ASCII letters only. This cannot change which names pass the whitelist. It can change the extension text inside an error for a non-ASCII extension.
- Go's `int` is 64-bit; the model's quality and suffix counter are unbounded integers.
- Goroutines, the `sync.WaitGroup`, completion order and console messages (main.go:65-70, 88-99) are concurrency and I/O. A panic inside one walked job's goroutine ends the whole process; the walk model does not capture this.
- The check-then-write race between concurrent jobs that choose the same output name is concurrency over a shared filesystem.
- `ioutil.ReadDir` returns entries sorted by name. The model takes each listing's order as given and does not impose that sorting.
- An entry whose `IsDir()` is false is a `File`, whatever it is on disk: a regular file, a symbolic link or a device.
