# Conditional copy: the controller, in Dafny

The conditional-copy tool reads an instruction document made of two sections.
The `[destination]` section names a directory. The `[targets]` section lists files.
The tool copies each target into the destination directory, but only when no file
of that name is there yet. Its logic sits in one type, `Controller`
(`src/cc_controller.rs`). This project models that type and proves what it does.

- **Instruction parser.** `Controller::new`, `targets` and `target_list` are
  iterator pipelines over `str::lines`. They become functions over sequences:
  `Lines`, `SkipWhile`, `Skip`, `Next`, `TakeWhile`, `Filter` and `ToPaths`.
  The contracts of `SkipWhile`, `Skip`, `TakeWhile` and `Next` state which
  elements they keep and in what order. `Filter`'s contract states which
  values it keeps. `FilterIsSubsequence` adds that it keeps their order, and
  `FilterCount` that it keeps every occurrence of a kept line, so the target
  list is not deduplicated. `Controller::destination`
  returns a clone of a field; the model reads the field `destination` of the
  `Controller` datatype.
- **Copy pass.** `copy_all_targets` is the method `CcController.CopyAllTargets`.
  It runs over a `FileSystem` object whose `files` and `dirs` fields the
  `std::fs` calls update in place. The method is proved equal to the function
  `CopyAll`, a pure description of the pass on a filesystem value `FsState`.
  The properties of a pass are lemmas about `CopyAll`: what it creates, what
  it never touches, what a completed pass delivers, and why a second pass halts.
- **Panics** are results, not preconditions. The `unwrap` in `new` is `None`.
  Each `unwrap` and `todo!` in the pass is an `Outcome` of `Panicked(h)`, with
  `h` saying which one fired. The code never returns `Err`, so `Completed`
  stands for `Ok(())`.
- **The operating system** is a value with three fixed classifications.
  `denied` paths fail to open with `PermissionDenied`. `faulty` paths fail with
  some other error kind. `readOnly` paths cannot be created. Everything else
  follows the contents of `files` and `dirs`.

A reader might expect a copy tool to report an error for a missing section,
a conflict for a file already present, and one outcome per target. The code
does none of this, and the model follows the code:
- A missing `[targets]` header gives no targets, not an error.
- A source that does not open stops the whole pass: it is a `todo!`, not a
  failure of that one target.
- A candidate that already exists stops the pass: it is a `todo!`, not a
  conflict outcome after which the pass goes on.
- Permission-denied and other probe errors only print a message, and the pass
  goes on.
- The outcome is one value for the pass, not one value per target.

Modules, one file each: `Options`, `Sequences` (iterator stages), `Text`
(splitting and `str::lines`), `Paths` (`PathBuf::push`, `Path::file_name`),
`FileSystem`, `CcController` (the controller) and `Samples` (the parser's
edge cases and an example like the instruction text
`[destination]\n/tmp/out\n\n[targets]\na.txt\nb.txt\n`, stated for all inputs of their shape).

## Model

| member | source | states |
|---|---|---|
| CcController.New | src/cc_controller.rs:9-22 | Let `i` be the index of the first line equal to "[destination]". `new` succeeds exactly when line `i+1` exists, and the destination is that line, empty or not. Otherwise it panics (None). The text is kept unchanged. |
| CcController.DestinationLine | src/cc_controller.rs:10-14 | The pipeline `skip_while`/`skip(1)`/`next` yields line `i+1` after the first "[destination]" (found by `IndexOf`), or nothing when there is no such line. |
| CcController.DestinationAfterFirstHeader | src/cc_controller.rs:10-16 | Lines before the first "[destination]" play no part. The pipeline yields the first line after that header, if any. |
| CcController.SkipToHeader | src/cc_controller.rs:12 | Skipping lines that are not the header stops exactly at the first header line, or at the end when there is none. |
| CcController.TargetLines | src/cc_controller.rs:28-36 | No target is empty, and no target starts with '['. |
| CcController.TargetsAreFirstSection | src/cc_controller.rs:29-34 | With no exact "[targets]" line there are no targets. Otherwise the targets are the non-empty lines between the first header and the first later line starting with '['. |
| CcController.TargetsAfterFirstHeader | src/cc_controller.rs:29-34 | Lines before the first "[targets]" play no part. The targets are the non-empty lines of the take-while section after it. |
| CcController.TargetsAreSubsequence | src/cc_controller.rs:29-34 | The targets are a subsequence of the lines after the header, so document order is kept. |
| CcController.Targets | src/cc_controller.rs:28-36 | Every target is a line of the instruction text. None is empty, and none starts with '['. |
| CcController.TargetsKeepDuplicates | src/cc_controller.rs:29-34 | A non-empty line occurs among the targets exactly as often as it occurs in the section after the header. An empty line never occurs. |
| CcController.NonEmptyCount | src/cc_controller.rs:34 | Dropping the empty lines keeps every occurrence of each non-empty line. |
| CcController.TargetsMembership | src/cc_controller.rs:29-34 | A line is a target exactly when it is non-empty and lies in the section after the header, before the first line starting with '['. |
| CcController.ToPaths | src/cc_controller.rs:38-40 | `target_list` has one path per target, in the same order; element `k` is the path of target `k`. |
| CcController.TargetList | src/cc_controller.rs:38-40 | One path per target, in order. The path of target `k` has that line as its text, which is a non-empty line of the instructions. |
| CcController.Candidate | src/cc_controller.rs:62-63 | The candidate exists exactly when the target has a file name. It has the same file name as the target. Its segments are the destination's plus that name, and it is never the destination itself. |
| CcController.Deliver | src/cc_controller.rs:68-71 | The NotFound arm either completes or panics in `create` or `copy`. When the source opens and the candidate is no directory, it completes exactly when the candidate is writable and the source is a file. When it completes, the candidate holds the source's bytes and nothing else has changed. A failed `create` changes nothing. A failed `copy` leaves an empty file at the candidate. |
| CcController.Step | src/cc_controller.rs:51-80 | One turn. A source that does not open halts before the candidate is probed, with nothing changed. No file name halts. An existing candidate halts with nothing changed. A refused probe changes nothing and the loop goes on. A free candidate is delivered. |
| CcController.RunTargets | src/cc_controller.rs:51-81 | The destination-creation panic cannot happen inside the loop. |
| CcController.CopyAll | src/cc_controller.rs:42-82 | With no targets the pass completes and changes nothing. It panics in `create_dir` exactly when there are targets and the destination is missing and cannot be created. Its other properties are the lemmas below. |
| CcController.DeliverFrame | src/cc_controller.rs:68-71 | Delivering to a free candidate adds that one file and changes nothing else. |
| CcController.StepFrame | src/cc_controller.rs:51-80 | A turn only adds the target's candidate. Existing files keep their bytes; directories and the system's classifications are untouched. |
| CcController.RunTargetsAppend | src/cc_controller.rs:51-81 | The loop over `a + b` is the loop over `a`, then the loop over `b` on the resulting state, unless a turn of `a` panicked. In that case the panicking turn's outcome and state are those of the whole loop, and no target of `b` is touched. |
| CcController.RunTargetsFrame | src/cc_controller.rs:51-81 | The loop only adds files, each the candidate of some target. Existing files keep their bytes, and validity is kept. |
| CcController.CopyAllEffects | src/cc_controller.rs:42-82 | With no targets nothing changes. The destination is created exactly when there are targets and it is missing, and that creation panics exactly when it is refused. Existing files keep their bytes, and the only new files are candidates of targets. |
| CcController.StepDelivers | src/cc_controller.rs:65-71 | A turn that completes delivers its target. Either the probe was refused, or the free candidate now holds the source's bytes. |
| CcController.DeliveredLater | src/cc_controller.rs:51-81 | Files added by later turns never undo an earlier delivery. |
| CcController.DeliveredEarlier | src/cc_controller.rs:51-81 | A delivery by a later turn, judged against the state before an earlier completed turn, still holds. The earlier copy cannot be a later target's free candidate. |
| CcController.CompletedRunDelivers | src/cc_controller.rs:51-81 | When the loop completes, every target was delivered. |
| CcController.CompletedPassDelivers | src/cc_controller.rs:42-82 | When the pass completes, every target opens and has a file name. Its candidate was either refused by the probe, or free before the pass and now holds the target's bytes. |
| CcController.RerunTargets | src/cc_controller.rs:51-81 | Suppose every target opens and every copyable candidate already exists. Then the loop changes nothing, and it halts as "already exists" exactly when some target is copyable. |
| CcController.SecondPassHalts | src/cc_controller.rs:42-82 | A second pass over what a completed pass left changes nothing. It halts as "already exists" exactly when some target could be copied: the pass is not idempotent. |
| CcController.CopyAllTargets | src/cc_controller.rs:42-83 | The method's final filesystem and outcome are those of `CopyAll` on the filesystem it started from, with the target list of the controller. |
| FileSystem.FsState.Open | src/cc_controller.rs:52 | `File::open` fails with PermissionDenied exactly on denied paths. It fails with NotFound exactly when nothing is there and the path is not refused. It succeeds only on existing paths. |
| FileSystem.ExistsIffOpens | src/cc_controller.rs:44 | `Path::exists` holds exactly when `File::open` succeeds, on every path whose opening is not refused. |
| FileSystem.FsState.CreateDir | src/cc_controller.rs:48 | `create_dir` succeeds exactly when nothing is at the path and the path is writable. It adds one directory, leaves the files and the system's classifications as they were, and keeps validity. |
| FileSystem.FsState.CreateFile | src/cc_controller.rs:69 | `File::create` succeeds exactly when the path is no directory and is writable. It leaves an empty file there, changes nothing else, and keeps validity. |
| FileSystem.FsState.Copy | src/cc_controller.rs:70 | `copy` succeeds exactly when the source opens and is a file, and the destination is a writable non-directory. The destination then holds the source's bytes, nothing else changes, and validity is kept. |
| FileSystem.FileSystem.CreateDir | src/cc_controller.rs:48 | Changes the object's fields exactly as `FsState.CreateDir` says, or not at all on failure. It keeps the object valid. |
| FileSystem.FileSystem.CreateFile | src/cc_controller.rs:69 | Changes the object's fields exactly as `FsState.CreateFile` says, or not at all on failure. It keeps the object valid. |
| FileSystem.FileSystem.Copy | src/cc_controller.rs:70 | Changes the object's fields exactly as `FsState.Copy` says, or not at all on failure. It keeps the object valid. |
| Paths.FileName | src/cc_controller.rs:63 | `file_name` is the last naming segment. It is None when there is no segment ("", "/") or the last one is "..". It is never empty, ".", ".." or contains '/'. |
| Paths.Push | src/cc_controller.rs:63 | `push` of an absolute path gives that path. Otherwise the result is the base, then a '/' exactly when the base is non-empty and does not end in '/', then the pushed text. |
| Paths.Segments | src/cc_controller.rs:63 | The segments of a path are non-empty, not ".", and free of '/'. |
| Paths.PushSegments | src/cc_controller.rs:62-63 | `push` of a file name adds exactly that name as the last segment, whatever the base looks like. |
| Paths.FileNameOfPush | src/cc_controller.rs:62-63 | The file name of the pushed candidate is the pushed name. |
| Paths.PushLonger | src/cc_controller.rs:62-63 | A pushed path is strictly longer than the base. |
| Paths.SegmentsAppend | src/cc_controller.rs:62-63 | Joining two texts with '/' joins their segments. |
| Paths.SegmentsOfFileName | src/cc_controller.rs:63 | A file name is a path of exactly one segment. |
| Text.Lines | src/cc_controller.rs:11 | `str::lines` yields lines that contain no '\n'. |
| Text.LinesJoin | src/cc_controller.rs:11 | Joining the lines with '\n', plus the final '\n' when the text had one, gives back the text. |
| Text.LinesOfDocument | src/cc_controller.rs:11 | A document of '\n'-terminated lines has exactly those lines. |
| Text.SplitOn | src/cc_controller.rs:11 | Splitting yields at least one piece, and no piece contains the separator. |
| Text.SplitAppend | src/cc_controller.rs:11 | Splitting at a separator between two sequences splits each of them. |
| Text.JoinSplit | src/cc_controller.rs:11 | Joining the pieces of a split gives the sequence back. |
| Text.SplitJoin | src/cc_controller.rs:11 | Splitting the join of separator-free pieces gives the pieces back. |
| Text.SplitLastEmpty | src/cc_controller.rs:11 | The last piece is empty exactly when the text is empty or ends with the separator. |
| Sequences.IndexOf | src/cc_controller.rs:12 | Gives the first index holding the element, or the length exactly when the element is absent. |
| Sequences.SkipWhile | src/cc_controller.rs:12 | `skip_while` leaves a suffix. Every dropped element satisfies the predicate, and the first kept one fails it. |
| Sequences.SkipWhilePrefix | src/cc_controller.rs:31 | `skip_while` passes over a prefix whose elements all satisfy the predicate. |
| Sequences.Skip | src/cc_controller.rs:13 | `skip(n)` drops the first `n` elements, or all of them. |
| Sequences.Next | src/cc_controller.rs:14 | `next` is the first element, and None exactly on the empty sequence. |
| Sequences.TakeWhile | src/cc_controller.rs:33 | `take_while` leaves a prefix whose elements all satisfy the predicate. The element after it fails the predicate. |
| Sequences.TakeWhileToFirstFailing | src/cc_controller.rs:33 | `take_while` stops exactly at the first failing element. |
| Sequences.Filter | src/cc_controller.rs:34 | `filter` keeps every element that satisfies the predicate and only those. |
| Sequences.FilterCount | src/cc_controller.rs:34 | `filter` keeps each satisfying element as many times as it occurs, and no occurrence of the others. |
| Sequences.FilterAppend | src/cc_controller.rs:34 | Filtering a concatenation filters each part. |
| Sequences.FilterIsSubsequence | src/cc_controller.rs:34 | Filtering keeps the order: the result is a subsequence of the input. |
| Sequences.SubsequenceOfPrefix | src/cc_controller.rs:33-34 | A subsequence of a prefix is a subsequence of the whole. |
| Samples.NewOfDocument | src/cc_controller.rs:9-16 | On a document of lines, `new` gives the line after the first "[destination]", or panics when there is none. |
| Samples.DestinationFirst | src/cc_controller.rs:10-16 | A document opening with "[destination]" has the next line as its destination, even an empty one. In the example text that line is /tmp/out. |
| Samples.DestinationHeaderOnLastLine | src/cc_controller.rs:10-16 | With "[destination]" only on the last line, `new` panics. |
| Samples.TwoTargetsAfterHeader | src/cc_controller.rs:29-34 | Two plain lines after the first "[targets]" line are the targets, in order. In the example text these are a.txt and b.txt. |
| Samples.DocumentTargetList | src/cc_controller.rs:28-40 | The target list of such a document is the two paths, in order. |
| Samples.TargetListOfDocument | src/cc_controller.rs:38-40 | On a document of lines, `target_list` is the paths of the targets read from those lines. |
| Samples.UntrimmedHeaderIsIgnored | src/cc_controller.rs:31 | " [targets]" is no header: lines are not trimmed, and without a header there are no targets. |
| Samples.AnyBracketEndsTargets | src/cc_controller.rs:33-34 | After the header an empty line is dropped, and any line starting with '[' ends the list, recognised or not. |
| Samples.FreeCandidateStep | src/cc_controller.rs:65-71 | On a filesystem that refuses nothing, a target whose candidate is free is copied there and the loop goes on. |
| Samples.TwoCandidates | src/cc_controller.rs:62-63 | Two distinct file names under one destination give distinct candidates, none of which is a source. |
| Samples.TwoFreeCandidates | src/cc_controller.rs:51-81 | Two targets with distinct free candidates are both copied, in order. |
| Samples.CopyAllCreatesDestination | src/cc_controller.rs:43-49 | With targets, the pass makes sure the destination directory is there before the loop. It is kept when it is already there, and created when nothing is at that path and the path is writable. |
| Samples.TwoTargetFirstPass | src/cc_controller.rs:42-82 | The first pass over the example text, with the destination existing or missing and any other directories around: the destination directory is there afterwards, and both files are copied into it byte for byte. |
| Samples.TwoTargetPasses | src/cc_controller.rs:76-79 | A second pass over the example text halts on the "already exists" `todo!` and changes nothing. |

## Left out

- `src/main.rs` is not part of this model. It holds command-line parsing, reading the instruction file, an older inline copy loop without the directory pre-step, and an interactive mode that is a bare `todo!`.
- The `eprintln!` messages for a refused probe and an existing file are output only; the model keeps no log.
- The operating system's own behaviour is not modelled. Error kinds, permissions and the parent-directory requirement of `create_dir` are reduced to the three fixed classifications of `FsState`. Symbolic links, concurrency and races between the probe and the copy are out of scope.
- Paths are compared by their text. Two spellings of one file ("a//b" and "a/b", "./a.txt" and "a.txt") are different paths in the model.
- Paths.FileName: it models Unix paths only. Windows prefixes and the `OsStr` encoding are not modelled.
- Text.Lines: it does not strip a '\r' before '\n', which `str::lines` does.
- The update policy for a file that already exists is not modelled, because the code has none: that branch is a `todo!`.
- CcController.RunTargets: its own contract only rules out the destination-creation panic. That the loop stops at the first panic is stated by `RunTargetsAppend`, and what a turn does by `Step`.
- The pass's side effects between a panic and the end of the process are not modelled. A panic ends the pass, and the filesystem is left as it was at that point.
