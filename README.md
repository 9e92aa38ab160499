# vod-upload: a verified model of the batch uploader's core

The program walks an input directory, uploads every video file it finds to a
video-on-demand space, marks each uploaded asset as published, moves the
uploaded file to an output directory and keeps one outcome record
(`VideoUploadResult`: file name, vid, published flag, error) per file. This
project models the decision logic of that pipeline in Dafny:

- `paths.dfy` (module `Paths`): Go's `filepath.Ext` and `filepath.Base` with
  Unix semantics (separator `/`, no volume name), the extension filter
  `isVideoFile`, and the destination `moveFile` renames a file to
  (`dir + "/" + Base(path)`).
- `vod.dfy` (module `Vod`): the two-tier error mapping of
  `UploadMediaWithCallback` and `publishVideo`. The SDK round trip is replaced
  by the response it produced: a transport failure (the call itself failed), a
  service failure (an error code in the response metadata), or a success.
- `uploader.dfy` (module `Uploader`): the callback that
  `uploadVideosInDirectory` passes to `filepath.Walk`. The walk is a given
  sequence of entries: a walk error, a directory, or a file. A file carries
  what its upload, publish and rename would answer. `Visit` is the callback
  on one entry. `RunUntilError` is `filepath.Walk` driving any callback: it
  takes the callback's answers in order and stops after the first error.
  `Walk` is `RunUntilError` over `Visit`'s answers.
  `UploadVideosInDirectory` is the imperative loop that appends to the
  outcome list, proved equal to `Walk`. The calls made to
  collaborators (upload, publish, rename) are returned as a trace, so that
  which files are uploaded and moved, and in what order, can be stated.
- `wrappers.dfy` (module `Wrappers`): `Option`, standing in for a nil-able
  Go `error`.

Go strings are byte strings and are modelled as `seq<char>`. Only `.` and `/`
are inspected, and neither occurs inside a multi-byte UTF-8 sequence, so the
character-level scan agrees with Go's byte-level scan.

The model follows the code, including in these points, which are easy to
misstate:

- The walk stops on a credential error, on a walk error and on a failed
  rename, not only on a credential error. So "one outcome per video file"
  holds exactly when no entry stops the walk (`Uploader.WalkCompletes`).
- A failed rename stops the walk after that file's outcome was appended, so
  the returned list keeps it (`Uploader.WalkAbortsAt`).
- A service error with an empty code becomes an error whose message is
  empty. The outcome's error is then present but its message is empty.
- The rename target is `dir + "/" + Base(path)`. Two videos with the same
  base name in different subdirectories get the same target
  (`Paths.MoveTarget`). Whether the second rename replaces the first
  file is up to the file system, which is not modelled.

## Model

| member | source | states |
|---|---|---|
| `Paths.ExtChar` | main.go:72 | `filepath.Ext` gives "" exactly when no `.` of the path lies after its last `/`. Otherwise it gives the suffix that starts with `.` and holds no further `.` or `/`, i.e. the suffix from the last `.` of the last element |
| `Paths.BaseChar` | main.go:101 | `filepath.Base` gives "." for "", "/" for a path of separators only, and otherwise the whole last element with trailing `/` ignored. That element is separator-free and is either the whole trimmed path or preceded by `/` |
| `Paths.IsVideoFileBySuffix` | main.go:71-74 | `isVideoFile(p)` holds iff the last four characters of `p` are exactly `.mp4`, `.avi`, `.mov` or `.mkv` |
| `Paths.VideoFilesAccepted` | main.go:71-74 | `clips/a.mp4`, `b.mkv` and `.mov` pass the filter |
| `Paths.UpperCaseRejected` | main.go:73 | the match is case-sensitive: `x.MP4` is rejected |
| `Paths.LaterExtensionRejected` | main.go:72-73 | only the last extension counts: `a.mp4.txt` is rejected |
| `Paths.VideoDirectoryRejected` | main.go:72-73 | a file inside a directory named like a video (`a.mp4/c`) is rejected |
| `Paths.DotInDirectoryIsNoExtension` | main.go:72 | a `.` in a directory name gives no extension: `Ext("a.b/c") == ""` |
| `Paths.MoveTarget` | main.go:84 | the destination starts with the output directory followed by `/` |
| `Paths.BaseOfJoin` | main.go:84 | the base name of `dir + "/" + name` is `name`, for any non-empty separator-free name |
| `Paths.BaseIdempotent` | main.go:84 | taking the base name twice changes nothing |
| `Paths.MoveTargetKeepsBase` | main.go:84 | a moved file keeps its base name in the output directory |
| `Paths.ExtOfBase` | main.go:100-101 | for a path not ending in `/`, the recorded file name has the extension the filter saw |
| `Paths.MoveTargetKeepsExt` | main.go:84 | for a path not ending in `/`, the move destination has the same extension as the source |
| `Paths.VideoFileNames` | main.go:100-101 | a video file's base name and its move destination are video file names, and the base name has no `/` |
| `Vod.UploadMediaWithCallback` | main.go:55-68 | no error iff the response is a success, and then the vid is the response's. On either failure the vid is "". A transport error is passed on unchanged; a service failure becomes an error whose message is the code |
| `Vod.PublishVideo` | main.go:26-38 | published iff no error iff the response is a success. A transport error is passed on unchanged; a service failure becomes an error whose message is the code |
| `Uploader.Record` | main.go:109-116 | the file name is the base name and published iff no error. On a failed upload: vid "" and the upload error. On a successful upload: the upload's vid, and the published flag and error are exactly what `publishVideo` returned, so published iff publishing succeeded |
| `Uploader.VisitChar` | main.go:95-125 | one entry of the walk. It records the file's own outcome iff the entry is a video file whose upload did not fail with a credential error. It stops the walk iff the entry is a walk error, a credential rejection, or a successful upload whose rename failed, and returns that error |
| `Uploader.VisitCalls` | main.go:100-120 | the calls on one entry, with no retries: none unless the entry is a video file, only its upload (titled by its base name) when the upload fails, and exactly upload, publish and rename when it succeeds. A publish happens only after a successful upload and carries that upload's vid. The file is renamed iff its upload succeeded, to `output + "/" + Base(path)`, straight after its upload and publish |
| `Uploader.VideoFiles` | main.go:100 | every entry kept is a non-directory entry that passes the filter, and there are no more of them than entries |
| `Uploader.VideoFilesChar` | main.go:100 | an entry is kept iff it is a walked non-directory entry that passes the filter |
| `Uploader.VideoFilesAppend` | main.go:100 | the kept entries keep walk order: those of two walks in sequence are those of the first followed by those of the second |
| `Uploader.FirstAbort` | main.go:95-127 | every entry before the index lets the walk go on, and the entry at it (if any) stops it |
| `Uploader.UploadVideosInDirectory` | main.go:92-128 | the loop's outcome list, returned error and calls equal `Walk` over the entries |
| `Uploader.RunAbortStable` | main.go:95-127 | once the callback has returned an error, later entries change neither the results, the error nor the calls |
| `Uploader.RunAppendOnly` | main.go:93-116 | for any callback answers, the outcome list and the call trace only grow: a prefix of the answers yields a prefix of both |
| `Uploader.RunCompletes` | main.go:95-127 | the walk returns no error iff no callback answer is an error |
| `Uploader.RunKeepsCalls` | main.go:95-127 | every call made on an entry the walk reaches, the entry that stops it included, is in the walk's calls |
| `Uploader.RunStopsAt` | main.go:95-127 | at the first error answer `k`, the walk returns what the answers before `k` gathered plus what answer `k` recorded, called and returned |
| `Uploader.WalkAppendOnly` | main.go:93-116 | the outcome list and the call trace of `uploadVideosInDirectory` only grow as entries are visited: results are append-only and in walk order |
| `Uploader.WalkCompletes` | main.go:100-124 | the walk returns no error iff no entry stops it. Then it has recorded exactly one outcome per video file, in walk order, and each is that file's record |
| `Uploader.WalkAbortsAt` | main.go:96-120 | stopping at the first failing entry `k` returns the walk of the entries before `k` plus what the callback did on `k`; nothing after `k` is visited. A walk or credential error adds no outcome; a failed rename keeps that file's outcome. The outcomes before `k` are the records of the video files before `k` |
| `Uploader.WalkAborted` | main.go:127 | a walk that returns an error stopped at the first failing entry, and returns the results gathered up to it |
| `Uploader.RecordWellFormed` | main.go:100-116 | the record built for a video file names a separator-free video file name and is published iff it carries no error |
| `Uploader.WalkRecordsWellFormed` | main.go:109-116 | every outcome the walk records is well formed in that sense |
| `Uploader.WalkCallsOrdered` | main.go:103-120 | over the whole walk, only video files are uploaded, each titled by its base name. Every rename comes straight after its file's upload and publish, targets `output + "/" + Base(path)`, and is of a video file the walk reached (at or before the entry that stopped it) whose upload succeeded |
| `Uploader.WalkRenamesEverySuccess` | main.go:112-120 | conversely, every video file reached before the walk stops, or at the entry where it stops, whose upload succeeded is renamed into the output directory, whether or not publishing succeeded |

## Left out

- `createResultsINI` (main.go:130-156): it writes a file, and its meaning rests on the INI library's section and key semantics. For example, two outcomes with the same file name share one section.
- `main`, `cliParams` and `isDirectoryExists` (main.go:158-205): flag parsing, `os.Stat`, printing and exit codes. In particular, `main` skips the report when the walk returns an error and ignores the report writer's error.
- The single-file upload mode is not part of this model.
- Request construction in `UploadMediaWithCallback` and `publishVideo` (the title embedded through `AddOptionInfoFunc`, `json.Marshal`, the `"Published"` status): these are SDK calls. Their answers enter the model as the response values.
- Windows path semantics: on Windows, `filepath.Ext` and `filepath.Base` also split at `\` and strip volume names, while `moveFile` still joins with `/`. The model covers Unix paths only.
- `filepath.Walk` itself: the traversal order, the `Lstat`/`ReadDir` calls, and the `SkipDir`/`SkipAll` sentinels. The walk is a given sequence of entries. A callback error is assumed never to be one of those sentinels.
- The progress line `Uploading video: <name>` printed before each upload (main.go:102): output only.
- `os.Rename` and the printing in `moveFile`: the rename's answer is part of the file entry. The file-system state, including replacing an existing file at the target, is not modelled.
- The closure in `uploadVideosInDirectory` assigns the rename's error to its own `err` parameter (main.go:117). That assignment affects only the value the callback returns, and the model keeps just that.
