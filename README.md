# video_clipper manifest and reconciliation model

A Dafny model of the core of `video_clipper.py`. The program keeps a JSON manifest
that lists source videos and, for each video, the clips to cut from it. Each clip
has a start and end timestamp and the SHA-256 checksum of the clip file last made.
The program reconciles that manifest with an output directory, running ffmpeg for
each clip that is missing or, when overwriting is allowed, whose file no longer
has the recorded checksum.

The model covers:

- the three record types `VideoClip`, `VideoFile` and `VideoClipperManifest`;
- clip declaration, with its naming loop `{stem}_{k}{suffix}`;
- the `HH:MM:SS` timestamp check and manifest validation;
- `parse_manifest` and the `to_json` serialisers;
- the decision `should_clip_video` and the reconcile loop of `clip_command`;
- the dry-run gate of `save_manifest`;
- `add_command` and `clip_command` from the point where the document has been loaded.

Python dicts keep insertion order, and iteration follows it. This matters for the
order in which `validate` reports problems, for the loop order of reconciliation
and for serialisation. So a dict is modelled as `Dicts.Dict`: a map together with
the order of its keys. `VideoFile` and `Manifest` are classes, because the program
changes their dicts in place. Their methods are proved against functions on values
(`Manifests.AddClip`, `Manifests.AddToManifest`, `Parsing.Parse`,
`Reconciling.Reconcile`), and the properties are lemmas about those functions.
Assigning `clip.sha256_checksum` in place becomes replacing that clip's entry in
the dict of the `VideoFile` that owns it.

Parameters stand in for the outside world:

- the set of existing source files, for `Path.is_file` in `validate`;
- a map from file name to bytes, for the output directory;
- a function from bytes to a digest string, for SHA-256;
- a function from the directory and a job to the directory afterwards, for ffmpeg.

Where the program behaves in ways a reader may not expect, the model follows the code:

- A failed ffmpeg run is printed (lines 288-291) but not signalled to the caller,
  and the loop goes on. Line 408 then hashes the output file, which raises FileNotFoundError if
  the file is missing. That ends `clip_command` before anything is saved
  (`Reconciling.Outcome.Crashed`, `Commands.ClipResult.Raised`). If an old file is
  still there, its hash is recorded.
- `clip_command` passes the dry-run flag as `no_backup` (line 412). So `--no-backup`
  has no effect, and every save outside a dry run makes a backup.
- `add_command` saves and returns True even when the span was already declared and
  nothing was added.
- A null `start` or `end` counts as missing, because `dict.get` returns None.
- `parse_manifest` stops at the first failure it meets, in document order.
  - A missing required key makes it return None, and the command returns False.
    Python's `in` never raises on a string or a list. So a video given as a string
    or list without `clips` counts as missing: `"clips" in "x"` is False.
  - A value it cannot test or index makes it raise a TypeError or AttributeError
    instead (`"videos": []`, a clip that is not a dict). That exception escapes
    both commands with nothing saved (`Commands.AddResult.AddRaised`,
    `Commands.ClipResult.Raised`). In the model, this is `Parse` giving
    `TypeMismatch`.
- There is no sort, format or prune operation in this file.

## Model

| member | source | states |
|---|---|---|
| `Naming.NatToStringInjective` | video_clipper.py:84-86 | different ordinals are written as different decimal strings |
| `Naming.Stem` | video_clipper.py:80-84 | definition of `Path(filename).stem`: the last path component without its suffix |
| `Naming.Suffix` | video_clipper.py:80-84 | definition of `Path(filename).suffix`: from the last dot of the last path component, when that dot is neither first nor last |
| `Naming.ClipName` | video_clipper.py:82-84 | definition of the candidate name `f"{stem}_{k}{suffix}"`; stated injective by `ClipNameInjective` |
| `Naming.StemSuffixSplitName` | video_clipper.py:81-86 | `stem` followed by `suffix` is the last path component; the suffix is empty or a dot, then at least one more character, with no further dot |
| `Naming.ClipNameInjective` | video_clipper.py:84-86 | different ordinals give different candidate clip names for the same video |
| `Naming.TakenOrdinalsBound` | video_clipper.py:83-92 | if the names for ordinals 0..n-1 are all taken, at least n names are taken (pigeonhole) |
| `Naming.FirstFreeFrom` | video_clipper.py:83-92 | searching upward from k finds an ordinal no greater than the number of taken names, whose name is free and below which every name is taken |
| `Naming.LeastFreeOrdinal` | video_clipper.py:80-92 | the naming loop stops at the least ordinal whose name is free, and that ordinal is at most the number of existing clips |
| `Naming.LeastFreeUnique` | video_clipper.py:80-92 | the least free ordinal is the only ordinal the loop can stop at |
| `Timestamps.IsValidTimeFormat` | video_clipper.py:187-191 | definition of `is_valid_time_format`: two digits, a colon, two digits, a colon, two digits, with hours ≤ 24, minutes ≤ 60, seconds ≤ 60; its meaning is stated by `ValidTimeFormatIff` |
| `Timestamps.ValidTimeIsRendered` | video_clipper.py:187-191 | an accepted timestamp is the two-digit rendering of its own hours, minutes and seconds, which lie within 24, 60 and 60 |
| `Timestamps.RenderedTimeIsValid` | video_clipper.py:187-191 | every rendering with hours ≤ 24, minutes ≤ 60 and seconds ≤ 60 is accepted and reads back the same fields |
| `Timestamps.ValidTimeFormatIff` | video_clipper.py:187-191 | `is_valid_time_format` accepts exactly the strings `DD:DD:DD` with hours in 0..24, minutes in 0..60 and seconds in 0..60 |
| `Timestamps.LenientUpperBounds` | video_clipper.py:187-191 | `24:60:60` is accepted; 25 hours, 61 minutes, 61 seconds and strings of the wrong length are not |
| `Timestamps.LexLessIsTimeOrder` | video_clipper.py:339 | between well-formed timestamps, Python's string `<` is the (hours, minutes, seconds) order |
| `Documents.LookupMeaning` | video_clipper.py:195-230 | a key is found in a JSON object exactly when some member has it, and the value found is that of the first member carrying it |
| `Documents.IsSubstringMeaning` | video_clipper.py:195 | `key in s` on a string holds iff some suffix of `s` starts with `key` |
| `Documents.Contains` | video_clipper.py:195 | Python's `key in value`: on a dict, some member carries the key; on a list, some element is that string; on a string, it occurs as a substring; a TypeError for any other value |
| `Documents.Index` | video_clipper.py:200 | `value[key]` succeeds exactly on a dict in which some member carries the key, and gives the value of the first such member |
| `Documents.GetField` | video_clipper.py:216-230 | `dict.get`: absent iff no member carries the key; null, a string `s`, or another value exactly when the first member carrying the key holds that |
| `Manifests.ClipToJson` | video_clipper.py:45-50 | definition of `VideoClip.to_json`; its inverse is stated by `Parsing.ClipRoundTrip` |
| `Manifests.VideoToJson` | video_clipper.py:61-66 | definition of `VideoFile.to_json`; its inverse is stated by `Parsing.VideoRoundTrip` |
| `Manifests.ManifestToJson` | video_clipper.py:100-107 | definition of `VideoClipperManifest.to_json`; its inverse is stated by `Parsing.ParseToJson` |
| `Manifests.NewClipName` | video_clipper.py:80-92 | the new clip name is not yet used in the video, and it is the name for the least free ordinal |
| `Manifests.AddClip` | video_clipper.py:71-92 | declaring a clip keeps a video entry well-formed: the dict stays consistent and each clip is stored under its own file name |
| `Manifests.AddClipMeaning` | video_clipper.py:71-92 | the clip is added iff no clip already has the same start and end; if rejected, the entry is unchanged; if added, exactly one new key is appended, holding the given timestamps and checksum, and every existing clip is unchanged |
| `Manifests.AddClipTwice` | video_clipper.py:71-92 | after a span is declared, declaring it again is rejected, and a later clip gets a name different from the first clip's |
| `Manifests.AddToManifest` | video_clipper.py:109-117 | adding a clip keeps the manifest well-formed and keeps its version |
| `Manifests.AddToManifestPlacement` | video_clipper.py:109-117 | afterwards the video is present, appended last if it was new, and every other video is unchanged |
| `Manifests.AddToManifestEntry` | video_clipper.py:109-117 | the video's entry is the result of `VideoFile.add_new_clip` on its old entry, or on an empty one; a new video always receives the clip; a rejected declaration leaves the whole manifest unchanged |
| `Manifests.AddToManifestInserts` | video_clipper.py:112-117 | `Manifest.add_new_clip` is: store the video's entry (an empty one if absent), then add the clip to that stored entry |
| `Manifests.SetChecksumEffect` | video_clipper.py:408-410 | recording a checksum changes that clip's checksum and nothing else: same videos, clips, order, names and timestamps |
| `Manifests.VideoFile.constructor` | video_clipper.py:115 | a new `VideoFile` has the given file name and no clips |
| `Manifests.VideoFile.HasClipSpanning` | video_clipper.py:72-77 | the duplicate scan returns True exactly when some clip has the given start and end |
| `Manifests.VideoFile.FirstFreeOrdinal` | video_clipper.py:80-92 | the `while True` loop returns the least ordinal whose name is free; it terminates because k never exceeds the number of clips |
| `Manifests.VideoFile.AddNewClip` | video_clipper.py:71-92 | the object's new state and return value are those of `AddClip` on its old state |
| `Manifests.VideoFile.RecordChecksum` | video_clipper.py:408-410 | only the named clip's checksum changes |
| `Manifests.Manifest.Model` | video_clipper.py:95-98 | the manifest object stands for a well-formed manifest with the same version and video keys in the same order |
| `Manifests.Manifest.constructor` | video_clipper.py:199-201 | a new manifest has the given version and no videos |
| `Manifests.Manifest.EntryFor` | video_clipper.py:112-116 | afterwards the object stored under the name is the video's old entry, or a fresh empty one appended last, and the manifest is otherwise unchanged |
| `Manifests.Manifest.AddNewClip` | video_clipper.py:109-117 | the object's new state and return value are those of `AddToManifest` on its old state; any object it adds is new |
| `Manifests.Manifest.RecordChecksum` | video_clipper.py:408-410 | assigning a clip object's checksum changes the manifest as `SetChecksum` does |
| `Validation.FirstClipProblem` | video_clipper.py:129-140 | reports nothing iff every remaining clip has a valid start and end; otherwise reports the first clip in order that is malformed, checking the start before the end |
| `Validation.FirstProblem` | video_clipper.py:119-142 | reports nothing iff no video has a problem; otherwise reports the problem of the first video in order that has one |
| `Validation.Validate` | video_clipper.py:119-142 | `validate` is True iff every video's source file exists and every clip's start and end are valid timestamps |
| `Validation.FirstClipProblemNoneIff` | video_clipper.py:129-140 | the clip loop of one video finds nothing iff every clip of that video has a valid start and end |
| `Validation.ValidateIsAllValid` | video_clipper.py:119-142 | the video loop finds no problem iff every video's source exists and all its clips are well-formed |
| `Validation.VideoProblemIsReal` | video_clipper.py:119-142 | a reported problem is real: a missing source file, or a clip of that video, with an existing source, whose start (or, with a valid start, whose end) is malformed |
| `Parsing.ParseClip` | video_clipper.py:215-234 | a parsed clip's file name is its key in the `clips` dict |
| `Parsing.ParseVideo` | video_clipper.py:207-234 | a parsed video is stored under its own name, and its clips are each stored under their own file names |
| `Parsing.Header` | video_clipper.py:194-207 | definition of the `version` and `videos` checks; their failure modes are stated by `ParseMeaning` |
| `Parsing.Parse` | video_clipper.py:194-236 | a parsed manifest is well-formed |
| `Parsing.ReadMembersSuccessIff` | video_clipper.py:207-234 | a member loop succeeds iff every member is read successfully |
| `Parsing.ReadMembersFirstFailure` | video_clipper.py:207-234 | a failing member loop reports the error of the first member, in document order, that fails |
| `Parsing.ParseClipMeaning` | video_clipper.py:216-234 | a missing or null `start` fails first, then a missing or null `end`; a parsed clip has the member's strings, and `"none"` when there is no `sha256_checksum` |
| `Parsing.ParseVideoMeaning` | video_clipper.py:207-215 | a video without `clips` fails; a parsed video holds the clips read from its `clips` dict |
| `Parsing.ParseMeaning` | video_clipper.py:194-207 | a missing `version` fails first, then a missing `videos`; a parsed manifest has the document's version and the videos read from its `videos` dict |
| `Parsing.ParseFailsWithoutClips` | video_clipper.py:211-213 | any video dict lacking `clips` makes parsing fail |
| `Parsing.ParseFailsWithoutTimestamp` | video_clipper.py:216-228 | any clip dict lacking `start` or `end` makes parsing fail |
| `Parsing.ParsedVideosCovered` | video_clipper.py:207-209 | every video member of a parsed document is a video of the result |
| `Parsing.ParsedClipIsDeclared` | video_clipper.py:215-234 | every parsed clip comes from a clip member of its own name, under a video member of its video's name, and is that member's parse |
| `Parsing.ClipRoundTrip` | video_clipper.py:45-50 | parsing a clip's `to_json` gives the clip back |
| `Parsing.VideoRoundTrip` | video_clipper.py:61-66 | parsing a video's `to_json` gives the video back, clips in the same order |
| `Parsing.ParseToJson` | video_clipper.py:100-107 | parsing `to_json` of a well-formed manifest rebuilds it: same version, keys, order, timestamps and checksums |
| `Parsing.ReadClip` | video_clipper.py:216-234 | the checks on one clip member give the result of `ParseClip` |
| `Parsing.ReadClips` | video_clipper.py:215-234 | the inner loop fills the `VideoFile` in place and stops at the first bad clip, as `ReadMembers` specifies |
| `Parsing.ReadVideo` | video_clipper.py:207-234 | one outer iteration stores a new `VideoFile` under the member's name, then reads its clips into it |
| `Parsing.ReadVideos` | video_clipper.py:207-234 | the outer loop fills the manifest in place and stops at the first bad video, as `ReadMembers` specifies |
| `Parsing.ParseManifest` | video_clipper.py:194-236 | the imperative parser fails exactly when `Parse` does, with the same error; otherwise it builds a fresh manifest object standing for `Parse`'s result |
| `Reconciling.Decide` | video_clipper.py:239-262 | definition of the branches of `should_clip_video`, hashing only when the output exists and overwriting is on |
| `Reconciling.ShouldClip` | video_clipper.py:239-262 | definition of `should_clip_video`'s answer; stated branch by branch by `ShouldClipTable` |
| `Reconciling.ShouldClipTable` | video_clipper.py:239-262 | missing output → make it; existing output with overwrite off → skip, whatever the hash function; existing output with overwrite on → make it iff its hash differs from the recorded checksum, reporting the mismatch |
| `Reconciling.VideoPairs` | video_clipper.py:391-395 | `(w, c)` is a pair exactly when `w` is the video and `c` one of its clip keys; with distinct keys no pair occurs twice |
| `Reconciling.PairsFrom` | video_clipper.py:391-395 | the pairs name only clips of the manifest, and name every clip of the remaining videos |
| `Reconciling.ClipPairs` | video_clipper.py:391-395 | `all_clips_with_file` names only clips of the manifest, and names every one of them |
| `Reconciling.SameShapeSamePairs` | video_clipper.py:391-395 | manifests that differ only in checksums have the same loop order |
| `Reconciling.Step` | video_clipper.py:397-410 | one iteration changes at most checksums |
| `Reconciling.RunFrom` | video_clipper.py:397-410 | a loop that completes changes at most checksums |
| `Reconciling.Reconcile` | video_clipper.py:391-410 | definition of the loop over `all_clips_with_file`; stated by the lemmas below |
| `Reconciling.DryRunFromChangesNothing` | video_clipper.py:401-405 | in a dry run, every remaining iteration leaves the manifest and directory unchanged |
| `Reconciling.DryRunChangesNothing` | video_clipper.py:401-405 | a dry run never runs ffmpeg and leaves the manifest and the output directory unchanged |
| `Reconciling.ReconcileKeepsShape` | video_clipper.py:391-410 | a completed loop keeps every video, clip, name, timestamp and the order; at most checksums change |
| `Reconciling.RunFromIdle` | video_clipper.py:247-256 | over clips whose outputs exist (with matching hashes, if overwriting) the loop does nothing, whatever ffmpeg would do |
| `Reconciling.StepSettles` | video_clipper.py:397-410 | an iteration settles its clip and unsettles no clip that was settled before |
| `Reconciling.RunFromSettles` | video_clipper.py:397-410 | a completed loop leaves every clip settled if every clip outside the remaining pairs was settled |
| `Reconciling.ReconcileSettles` | video_clipper.py:391-410 | if ffmpeg touches only its destination and the run completes, every clip's output exists; with overwrite on, and no two clips sharing an output, every checksum is the hash of its file |
| `Reconciling.ReconcileIdempotent` | video_clipper.py:391-410 | a second run over what a completed run left runs ffmpeg for no clip and changes neither the manifest nor the directory |
| `Reconciling.ProcessClip` | video_clipper.py:397-410 | one iteration on the manifest object does what `Step` specifies |
| `Reconciling.ReconcileClips` | video_clipper.py:391-410 | the loop on the manifest object ends as `Reconcile` specifies: the same manifest and directory, or the same crash |
| `Commands.SaveManifest` | video_clipper.py:170-184 | definition of `save_manifest`; stated by `SaveManifestMeaning` |
| `Commands.SaveManifestMeaning` | video_clipper.py:170-184 | a dry run changes neither the file nor the backup; otherwise the written document reads back as the saved manifest, and the backup is the previous document unless no backup was asked for |
| `Commands.CheckSpan` | video_clipper.py:329-341 | definition of the three timestamp checks of `add_command`, in order; stated by `AddOutcomeMeaning` |
| `Commands.AddOutcome` | video_clipper.py:316-347 | definition of `add_command` from the loaded document on; stated by `AddOutcomeMeaning` |
| `Commands.AddOutcomeMeaning` | video_clipper.py:316-347 | raises iff parsing, in document order, meets a value it cannot test or index before any missing key (`Parse` gives `TypeMismatch`); returns False for a missing key exactly when parsing fails otherwise; saves iff the document parses, both timestamps are valid and start < end, which then means earlier in time; the written document reads back as the manifest with the clip declared; re-declaring a span writes back the same manifest |
| `Commands.AddCommand` | video_clipper.py:316-347 | the imperative command gives the result `AddOutcome` specifies |
| `Commands.ClipOutcome` | video_clipper.py:378-414 | definition of `clip_command` from the loaded document on; stated by `ClipOutcomeCases` and the lemmas below |
| `Commands.ClipOutcomeCases` | video_clipper.py:378-414 | an exception escapes iff parsing, in document order, meets a value it cannot test or index before any missing key (`Parse` gives `TypeMismatch`), or the loop crashes; False is returned iff a key is missing, validation fails or there is no video; only a True return writes the manifest, and a False return leaves the directory alone |
| `Commands.ClipDryRunChangesNothing` | video_clipper.py:401-412 | a dry run of `clip_command` leaves the manifest file, its backup and the output directory unchanged, and raises only when `Parse` gives `TypeMismatch` |
| `Commands.ClipSavesReconciled` | video_clipper.py:412 | a successful non-dry run writes a manifest that differs from the one read at most in checksums, and keeps the old document as backup even with `--no-backup` |
| `Commands.ValidateIgnoresChecksums` | video_clipper.py:119-142 | validation gives the same answer for manifests that differ only in checksums |
| `Commands.ClipTwice` | video_clipper.py:378-414 | after a successful run, a second `clip_command` succeeds, runs ffmpeg for no clip, leaves the directory unchanged and writes the same document again |
| `Commands.ClipCommand` | video_clipper.py:378-414 | the imperative command gives the result `ClipOutcome` specifies |
| `Scenarios.ClipNameOfMp4First` | video_clipper.py:84-86 | the first clip of `a.mp4` is named `a_0.mp4` |
| `Scenarios.ClipNameOfMp4Second` | video_clipper.py:84-86 | the second clip of `a.mp4` is named `a_1.mp4` |
| `Scenarios.ClipNameOfMkv` | video_clipper.py:81-86 | only the last dot starts the suffix: clip 12 of `b.c.mkv` is `b.c_12.mkv` |
| `Scenarios.OneClipPairs` | video_clipper.py:391-395 | a manifest with one video holding one clip is processed in exactly one iteration, on that clip |
| `Scenarios.DeclareOnce` | video_clipper.py:109-117 | declaring `00:00:10`–`00:00:20` for `a.mp4` in an empty manifest creates the video and a clip `a_0.mp4` with checksum `none` |
| `Scenarios.DeclareAgain` | video_clipper.py:71-77 | declaring the same span again is rejected and changes nothing |
| `Scenarios.TheDocumentReads` | video_clipper.py:100-107 | that manifest serialises to the expected document, which parses back to it |
| `Scenarios.ProduceOneClip` | video_clipper.py:391-412 | with an empty output directory, `clip_command` runs ffmpeg once, from `a.mp4` between 10 s and 20 s into `a_0.mp4`, records the new file's hash, and saves with a backup |

## Left out

- Reading and writing JSON text (`json.load`, `json.dump` with indentation) is left out. The manifest file is modelled as the document it holds, and the backup copy as a copy of that document.
- Repeated keys in a JSON object are left out. The modelled document is read as given, with `Lookup` taking the first occurrence. `json.load` keeps only the last value.
- `check_ffmpeg_installed` (lines 145-155) and the ffmpeg subprocess in `clip_video` (lines 265-294) are left out. ffmpeg is the `materialize` parameter, and the job it receives is kept.
- `sha25_hash_of_file` (lines 158-167) is left out: chunked reads and real SHA-256. Hashing is the `hash` parameter; hashing a missing file is the crash outcome.
- Path joining and the filesystem are left out. A source file exists when its name is in the `sources` set. A clip's output file is the directory entry under the clip's file name. pathlib normalisation is not modelled (trailing slashes, `.` components); stem and suffix are taken from the text after the last `/`.
- The directory checks of `clip_command` (lines 356-369), `main` and argparse (lines 462-579) are left out as command-line plumbing.
- `validate_command` (lines 417-459) is left out. It is not part of the modelled core.
- `get_file_entry_clips` (lines 297-313) is left out: it serves the old list-shaped manifest and is never called.
- `print`, `tqdm` progress output and all diagnostic messages are left out.
- Python's `\d` also matches non-ASCII digits, and `$` also matches before a final newline, so `"00:00:00\n"` passes. `Timestamps.IsValidTimeFormat` accepts only ASCII digits in exactly eight characters.
- Parsing.ParseClip: a non-string `start`, `end` or `sha256_checksum`, or a null `sha256_checksum`, is a type mismatch, so both commands raise on it. Python stores such a value instead: `clip_command` then raises in `validate` when it reaches a non-string timestamp of a video whose file exists, but `add_command` saves, and a non-string checksum is written back.
- Concurrency: the program is sequential, and so is the model.
