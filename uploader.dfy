/**
 * `uploadVideosInDirectory`: the callback it hands to `filepath.Walk`, run
 * over the walk's entries in walk order.
 *
 * The walk is given as a sequence of entries. Each file entry carries what
 * the upload, the publish-status update and the rename would answer for it;
 * these answers are consulted only when the callback gets that far. The calls
 * the callback makes are returned as a trace, so that which files are
 * uploaded, published and moved, and in what order, can be stated.
 */
module Uploader {
  import opened Wrappers
  import opened Paths
  import opened Vod

  /** One record of the outcome list (`VideoUploadResult`). */
  datatype VideoUploadResult = VideoUploadResult(fileName: string, vid: string, published: bool, error: Option<Error>)

  /** One invocation of the walk callback. */
  datatype Entry =
    | WalkFailure(path: string, failure: Error)   // the callback was passed a non-nil error
    | Directory(path: string)
    | File(path: string, upload: UploadResponse, publish: PublishResponse, move: Option<Error>)

  /** A call to a collaborator: the upload, the publish-status update, the rename. */
  datatype Call = Upload(path: string, title: string) | Publish(vid: string) | Rename(from: string, to: string)

  /** The outcome list, the error the walk returns, and the calls made. */
  datatype Walked = Walked(results: seq<VideoUploadResult>, err: Option<Error>, calls: seq<Call>)

  /** The two error messages that abort the whole walk. */
  predicate IsCredentialError(e: Error) {
    e.message == "SignatureDoesNotMatch" || e.message == "InvalidCredential"
  }

  /** A non-directory entry that passes the extension filter. */
  predicate IsVideoEntry(e: Entry) {
    e.File? && IsVideoFile(e.path)
  }

  /** A video file whose upload succeeds. */
  predicate UploadSucceeds(e: Entry) {
    IsVideoEntry(e) && UploadMediaWithCallback(e.upload).1.None?
  }

  /** A video file whose upload fails with a credential error. */
  predicate CredentialRejected(e: Entry) {
    IsVideoEntry(e) &&
    var uploadErr := UploadMediaWithCallback(e.upload).1;
    uploadErr.Some? && IsCredentialError(uploadErr.value)
  }

  /** The record the callback builds for a file whose upload it has attempted. */
  function Record(e: Entry): (r: VideoUploadResult)
    requires e.File?
    ensures r.fileName == Base(e.path)
    ensures r.published <==> r.error.None?
    ensures UploadMediaWithCallback(e.upload).1.Some? ==>
              r.vid == "" && r.error == UploadMediaWithCallback(e.upload).1
    ensures UploadMediaWithCallback(e.upload).1.None? ==>
              r.vid == e.upload.vid && (r.published <==> e.publish.PublishSuccess?) &&
              (r.published, r.error) == PublishVideo(e.publish)
  {
    var (vid, uploadErr) := UploadMediaWithCallback(e.upload);
    if uploadErr.Some? then
      VideoUploadResult(Base(e.path), "", false, uploadErr)
    else
      var (published, publishErr) := PublishVideo(e.publish);
      VideoUploadResult(Base(e.path), vid, published, publishErr)
  }

  /** Every rename comes right after the upload and the publish of the same file, and targets the output directory. */
  predicate RenamesFollowUploads(calls: seq<Call>, outputDir: string) {
    forall j :: 0 <= j < |calls| && calls[j].Rename? ==>
      2 <= j && calls[j - 2] == Upload(calls[j].from, Base(calls[j].from)) && calls[j - 1].Publish? &&
      calls[j].to == MoveTarget(outputDir, calls[j].from)
  }

  /** Only video files are uploaded, each titled with its base name. */
  predicate UploadsAreVideos(calls: seq<Call>) {
    forall j :: 0 <= j < |calls| && calls[j].Upload? ==>
      IsVideoFile(calls[j].path) && calls[j].title == Base(calls[j].path)
  }

  /**
   * The walk callback on one entry: what it appends to the outcome list,
   * the error it returns (which stops the walk), and the calls it makes.
   * VisitChar and VisitCalls state what it does.
   */
  function Visit(e: Entry, outputDir: string): (w: Walked)
  {
    match e
    case WalkFailure(_, failure) => Walked([], Some(failure), [])
    case Directory(_) => Walked([], None, [])
    case File(path, upload, publish, move) =>
      if !IsVideoFile(path) then
        Walked([], None, [])
      else
        var fileName := Base(path);
        var (vid, uploadErr) := UploadMediaWithCallback(upload);
        if uploadErr.Some? then
          if IsCredentialError(uploadErr.value) then
            Walked([], uploadErr, [Upload(path, fileName)])
          else
            Walked([Record(e)], None, [Upload(path, fileName)])
        else
          Walked([Record(e)], move, [Upload(path, fileName), Publish(vid), Rename(path, MoveTarget(outputDir, path))])
  }

  /**
   * What the callback does with one entry. It records the file's own outcome
   * exactly when the entry is a video file whose upload did not fail with a
   * credential error, and it returns an error exactly for a walk error, a
   * credential error, or a failed rename after a successful upload.
   */
  lemma VisitChar(e: Entry, outputDir: string)
    ensures var w := Visit(e, outputDir);
            && w.results == (if IsVideoEntry(e) && !CredentialRejected(e) then [Record(e)] else [])
            && (w.err.Some? <==> e.WalkFailure? || CredentialRejected(e) || (UploadSucceeds(e) && e.move.Some?))
            && (e.WalkFailure? ==> w.err == Some(e.failure))
            && (CredentialRejected(e) ==> w.err == UploadMediaWithCallback(e.upload).1)
            && (UploadSucceeds(e) ==> w.err == e.move)
  {
  }

  /**
   * The calls the callback makes on one entry, without retries: none for an
   * entry that is not a video file, the file's upload alone when that upload
   * fails, and the upload, publish and rename when it succeeds; a publish happens only
   * after a successful upload, with the vid that upload returned; the file is
   * renamed exactly when its upload succeeded.
   */
  lemma VisitCalls(e: Entry, outputDir: string)
    ensures var w := Visit(e, outputDir);
            && |w.calls| == (if UploadSucceeds(e) then 3 else if IsVideoEntry(e) then 1 else 0)
            && (IsVideoEntry(e) ==> w.calls[0] == Upload(e.path, Base(e.path)))
            && (forall c :: c in w.calls && c.Publish? ==> UploadSucceeds(e) && c.vid == e.upload.vid)
            && (UploadSucceeds(e) ==> Rename(e.path, MoveTarget(outputDir, e.path)) in w.calls)
            && (forall c :: c in w.calls && c.Rename? ==> c.from == e.path && UploadSucceeds(e))
            && RenamesFollowUploads(w.calls, outputDir) && UploadsAreVideos(w.calls)
  {
  }

  /**
   * `filepath.Walk` driving the callback, given the callback's answers in walk
   * order: gather what each answer records and calls, and stop after the
   * first answer that is an error.
   */
  function RunUntilError(steps: seq<Walked>): Walked
    decreases |steps|
  {
    if steps == [] then
      Walked([], None, [])
    else
      var before := RunUntilError(steps[..|steps| - 1]);
      if before.err.Some? then
        before
      else
        var last := steps[|steps| - 1];
        Walked(before.results + last.results, last.err, before.calls + last.calls)
  }

  /** The callback's answers on the entries, one per entry and in walk order. */
  function Steps(entries: seq<Entry>, outputDir: string): (steps: seq<Walked>)
    ensures |steps| == |entries|
    ensures forall i :: 0 <= i < |entries| ==> steps[i] == Visit(entries[i], outputDir)
  {
    seq(|entries|, i requires 0 <= i < |entries| => Visit(entries[i], outputDir))
  }

  /** The walk of `uploadVideosInDirectory`: the callback on each entry in turn, until one returns an error. */
  function Walk(entries: seq<Entry>, outputDir: string): Walked {
    RunUntilError(Steps(entries, outputDir))
  }

  /** The video file entries, in walk order. */
  function VideoFiles(entries: seq<Entry>): (files: seq<Entry>)
    ensures |files| <= |entries|
    ensures forall i :: 0 <= i < |files| ==> IsVideoEntry(files[i])
    decreases |entries|
  {
    if entries == [] then []
    else
      var last := entries[|entries| - 1];
      VideoFiles(entries[..|entries| - 1]) + (if IsVideoEntry(last) then [last] else [])
  }

  /** Exactly the video file entries of the walk are kept. */
  lemma {:induction false} VideoFilesChar(entries: seq<Entry>)
    ensures forall e :: e in VideoFiles(entries) <==> e in entries && IsVideoEntry(e)
    decreases |entries|
  {
    if entries != [] {
      var n := |entries|;
      VideoFilesChar(entries[..n - 1]);
      assert entries == entries[..n - 1] + [entries[n - 1]];
    }
  }

  /** An entry added at the end of a walk is kept, after the others, exactly when it is a video file. */
  lemma VideoFilesSnoc(entries: seq<Entry>, e: Entry)
    ensures VideoFiles(entries + [e]) == VideoFiles(entries) + if IsVideoEntry(e) then [e] else []
  {
  }

  /**
   * The video files keep walk order: those of a walk split in two are those of
   * the first part followed by those of the second.
   */
  lemma {:induction false} VideoFilesAppend(a: seq<Entry>, b: seq<Entry>)
    ensures VideoFiles(a + b) == VideoFiles(a) + VideoFiles(b)
    decreases |b|
  {
    if b == [] {
      assert a + b == a;
    } else {
      var init, last := b[..|b| - 1], b[|b| - 1];
      VideoFilesAppend(a, init);
      assert a + b == (a + init) + [last];
      VideoFilesSnoc(a + init, last);
    }
  }

  /** The index of the first entry on which the callback returns an error, or the number of entries. */
  function FirstAbort(entries: seq<Entry>, outputDir: string): (k: nat)
    ensures k <= |entries|
    ensures forall i :: 0 <= i < k ==> Visit(entries[i], outputDir).err.None?
    ensures k < |entries| ==> Visit(entries[k], outputDir).err.Some?
    decreases |entries|
  {
    if entries == [] || Visit(entries[0], outputDir).err.Some? then 0
    else 1 + FirstAbort(entries[1..], outputDir)
  }

  // ---------------------------------------------------------------------
  // The method

  /**
   * `uploadVideosInDirectory` over a given walk: appends to the outcome
   * list entry by entry and stops at the first error the callback returns.
   */
  method UploadVideosInDirectory(entries: seq<Entry>, outputDir: string)
    returns (results: seq<VideoUploadResult>, err: Option<Error>, calls: seq<Call>)
    ensures Walked(results, err, calls) == Walk(entries, outputDir)
  {
    ghost var steps := Steps(entries, outputDir);
    results, err, calls := [], None, [];
    var i := 0;
    while i < |entries| && err.None?
      invariant 0 <= i <= |entries|
      invariant Walked(results, err, calls) == RunUntilError(steps[..i])
    {
      var e := entries[i];
      ghost var visit, results0, calls0 := Visit(e, outputDir), results, calls;
      match e {
        case WalkFailure(_, failure) =>
          err := Some(failure);
        case Directory(_) =>
        case File(path, upload, publish, move) =>
          if IsVideoFile(path) {
            var fileName := Base(path);
            calls := calls + [Upload(path, fileName)];
            var (vid, uploadErr) := UploadMediaWithCallback(upload);
            if uploadErr.Some? {
              if IsCredentialError(uploadErr.value) {
                err := uploadErr;
              } else {
                results := results + [VideoUploadResult(fileName, "", false, uploadErr)];
              }
            } else {
              var (published, publishErr) := PublishVideo(publish);
              calls := calls + [Publish(vid)];
              results := results + [VideoUploadResult(fileName, vid, published, publishErr)];
              calls := calls + [Rename(path, MoveTarget(outputDir, path))];
              err := move;
            }
          }
      }
      assert results == results0 + visit.results && err == visit.err && calls == calls0 + visit.calls;
      assert steps[..i + 1][..i] == steps[..i];
      assert steps[..i + 1][i] == visit;
      i := i + 1;
    }
    if i < |entries| {
      RunAbortStable(steps, i);
    } else {
      assert steps[..i] == steps;
    }
  }

  // ---------------------------------------------------------------------
  // Properties of the walk, for any answers of the callback

  /** Once an answer has been an error, later answers change nothing. */
  lemma {:induction false} RunAbortStable(steps: seq<Walked>, k: nat)
    requires k <= |steps|
    requires RunUntilError(steps[..k]).err.Some?
    ensures RunUntilError(steps) == RunUntilError(steps[..k])
    decreases |steps|
  {
    if k < |steps| {
      var n := |steps|;
      assert steps[..n - 1][..k] == steps[..k];
      RunAbortStable(steps[..n - 1], k);
    } else {
      assert steps[..k] == steps;
    }
  }

  /** The outcome list and the call trace only grow: each prefix of the answers yields a prefix of both. */
  lemma {:induction false} RunAppendOnly(steps: seq<Walked>, k: nat)
    requires k <= |steps|
    ensures var w, p := RunUntilError(steps), RunUntilError(steps[..k]);
            |p.results| <= |w.results| && w.results[..|p.results|] == p.results &&
            |p.calls| <= |w.calls| && w.calls[..|p.calls|] == p.calls
    decreases |steps|
  {
    if k < |steps| {
      var n := |steps|;
      assert steps[..n - 1][..k] == steps[..k];
      RunAppendOnly(steps[..n - 1], k);
    } else {
      assert steps[..k] == steps;
    }
  }

  /** The walk returns no error exactly when no answer is an error. */
  lemma {:induction false} RunCompletes(steps: seq<Walked>)
    ensures RunUntilError(steps).err.None? <==> forall i :: 0 <= i < |steps| ==> steps[i].err.None?
    decreases |steps|
  {
    if steps != [] {
      var n := |steps|;
      var init := steps[..n - 1];
      RunCompletes(init);
      assert forall i :: 0 <= i < n - 1 ==> init[i] == steps[i];
    }
  }

  /** What a prefix of a sequence holds, the sequence holds. */
  lemma InPrefix<T>(s: seq<T>, p: seq<T>, x: T)
    requires |p| <= |s| && s[..|p|] == p && x in p
    ensures x in s
  {
    var j :| 0 <= j < |p| && p[j] == x;
    assert s[j] == s[..|p|][j];
  }

  /** Over answers before k that are not errors, the walk has not stopped, and answer k's calls follow. */
  lemma RunReaches(steps: seq<Walked>, k: nat)
    requires k < |steps|
    requires forall i :: 0 <= i < k ==> steps[i].err.None?
    ensures RunUntilError(steps[..k + 1]).calls == RunUntilError(steps[..k]).calls + steps[k].calls
  {
    var prefix, upto := steps[..k], steps[..k + 1];
    assert forall i :: 0 <= i < k ==> prefix[i] == steps[i];
    RunCompletes(prefix);
    assert upto[..|upto| - 1] == prefix && upto[|upto| - 1] == steps[k];
  }

  /** A call made by an answer that the walk reaches, the first error answer included, is in the walk's calls. */
  lemma RunKeepsCalls(steps: seq<Walked>, k: nat, c: Call)
    requires k < |steps|
    requires forall i :: 0 <= i < k ==> steps[i].err.None?
    requires c in steps[k].calls
    ensures c in RunUntilError(steps).calls
  {
    var p := RunUntilError(steps[..k + 1]).calls;
    assert c in p by {
      RunReaches(steps, k);
    }
    RunAppendOnly(steps, k + 1);
    InPrefix(RunUntilError(steps).calls, p, c);
  }

  /**
   * Stopping at the first error answer k: the result is that of the answers
   * before k followed by what answer k recorded, called and returned.
   */
  lemma RunStopsAt(steps: seq<Walked>, k: nat)
    requires k < |steps|
    requires forall i :: 0 <= i < k ==> steps[i].err.None?
    requires steps[k].err.Some?
    ensures var w, before := RunUntilError(steps), RunUntilError(steps[..k]);
            before.err.None? &&
            w == Walked(before.results + steps[k].results, steps[k].err, before.calls + steps[k].calls)
  {
    var prefix := steps[..k];
    assert forall i :: 0 <= i < k ==> prefix[i] == steps[i];
    RunCompletes(prefix);
    assert steps[..k + 1][..k] == prefix;
    assert steps[..k + 1][k] == steps[k];
    RunAbortStable(steps, k + 1);
  }

  // ---------------------------------------------------------------------
  // Properties of the walk of uploadVideosInDirectory

  lemma StepsOfPrefix(entries: seq<Entry>, k: nat, outputDir: string)
    requires k <= |entries|
    ensures Steps(entries[..k], outputDir) == Steps(entries, outputDir)[..k]
  {
  }

  /** The walk of all entries is the walk of all but the last, then the callback on the last unless already stopped. */
  lemma WalkSnoc(entries: seq<Entry>, outputDir: string)
    requires entries != []
    ensures var before, last := Walk(entries[..|entries| - 1], outputDir), Visit(entries[|entries| - 1], outputDir);
            Walk(entries, outputDir) ==
              if before.err.Some? then before
              else Walked(before.results + last.results, last.err, before.calls + last.calls)
  {
    StepsOfPrefix(entries, |entries| - 1, outputDir);
  }

  /** The outcome list and the call trace of the walk only grow as entries are visited. */
  lemma WalkAppendOnly(entries: seq<Entry>, k: nat, outputDir: string)
    requires k <= |entries|
    ensures var w, p := Walk(entries, outputDir), Walk(entries[..k], outputDir);
            |p.results| <= |w.results| && w.results[..|p.results|] == p.results &&
            |p.calls| <= |w.calls| && w.calls[..|p.calls|] == p.calls
  {
    StepsOfPrefix(entries, k, outputDir);
    RunAppendOnly(Steps(entries, outputDir), k);
  }

  /**
   * The walk runs to the end exactly when no entry makes the callback return
   * an error, and then it has recorded one outcome per video file, in walk
   * order: the file's own record.
   */
  lemma {:induction false} WalkCompletes(entries: seq<Entry>, outputDir: string)
    ensures Walk(entries, outputDir).err.None? <==>
            forall i :: 0 <= i < |entries| ==> Visit(entries[i], outputDir).err.None?
    ensures var w, files := Walk(entries, outputDir), VideoFiles(entries);
            w.err.None? ==>
              |w.results| == |files| && forall i :: 0 <= i < |files| ==> w.results[i] == Record(files[i])
    decreases |entries|
  {
    RunCompletes(Steps(entries, outputDir));
    if entries != [] && Walk(entries, outputDir).err.None? {
      var n := |entries|;
      WalkSnoc(entries, outputDir);
      WalkCompletes(entries[..n - 1], outputDir);
      VisitChar(entries[n - 1], outputDir);
    }
  }

  /**
   * When the walk stops at entry k, the first on which the callback returns
   * an error, the result is the walk of the entries before k followed by what
   * the callback did on entry k, and nothing after k is visited. A walk error
   * or a credential error adds no outcome; a failed rename comes after the
   * file's outcome was recorded, so that outcome is kept. The outcomes before
   * k are the records of the video files before k.
   */
  lemma WalkAbortsAt(entries: seq<Entry>, k: nat, outputDir: string)
    requires k < |entries|
    requires forall i :: 0 <= i < k ==> Visit(entries[i], outputDir).err.None?
    requires Visit(entries[k], outputDir).err.Some?
    ensures var w, before, v := Walk(entries, outputDir), Walk(entries[..k], outputDir), Visit(entries[k], outputDir);
            w.err == v.err && w.results == before.results + v.results && w.calls == before.calls + v.calls
    ensures var w, before := Walk(entries, outputDir), Walk(entries[..k], outputDir);
            (entries[k].WalkFailure? || CredentialRejected(entries[k]) ==> w.results == before.results) &&
            (UploadSucceeds(entries[k]) ==> w.results == before.results + [Record(entries[k])])
    ensures var w, files := Walk(entries, outputDir), VideoFiles(entries[..k]);
            |files| <= |w.results| && forall i :: 0 <= i < |files| ==> w.results[i] == Record(files[i])
  {
    var steps := Steps(entries, outputDir);
    var prefix := entries[..k];
    StepsOfPrefix(entries, k, outputDir);
    assert Walk(prefix, outputDir) == RunUntilError(steps[..k]);
    assert steps[k] == Visit(entries[k], outputDir);
    RunStopsAt(steps, k);
    assert forall i :: 0 <= i < k ==> prefix[i] == entries[i];
    WalkCompletes(prefix, outputDir);
  }

  /** A walk that returns an error has stopped at the first entry on which the callback returned one. */
  lemma WalkAborted(entries: seq<Entry>, outputDir: string)
    requires Walk(entries, outputDir).err.Some?
    ensures var k := FirstAbort(entries, outputDir);
            k < |entries| && Walk(entries, outputDir).err == Visit(entries[k], outputDir).err &&
            Walk(entries, outputDir).results == Walk(entries[..k], outputDir).results + Visit(entries[k], outputDir).results
  {
    WalkCompletes(entries, outputDir);
    var k := FirstAbort(entries, outputDir);
    WalkAbortsAt(entries, k, outputDir);
  }

  /**
   * Every video file visited before the walk stopped, or at the entry where it
   * stopped, whose upload succeeded has been moved to the output directory.
   */
  lemma WalkRenamesEverySuccess(entries: seq<Entry>, i: nat, outputDir: string)
    requires i < |entries| && i <= FirstAbort(entries, outputDir) && UploadSucceeds(entries[i])
    ensures Rename(entries[i].path, MoveTarget(outputDir, entries[i].path)) in Walk(entries, outputDir).calls
  {
    VisitCalls(entries[i], outputDir);
    RunKeepsCalls(Steps(entries, outputDir), i, Rename(entries[i].path, MoveTarget(outputDir, entries[i].path)));
  }

  /** A record names a video file by a separator-free name and is published exactly when it carries no error. */
  predicate WellFormedRecord(r: VideoUploadResult) {
    (r.published <==> r.error.None?) && IsVideoFile(r.fileName) && Separator !in r.fileName
  }

  lemma RecordWellFormed(e: Entry, outputDir: string)
    requires IsVideoEntry(e)
    ensures WellFormedRecord(Record(e))
  {
    VideoFileNames(outputDir, e.path);
  }

  /** Records that every answer keeps well formed stay well formed over the walk. */
  lemma {:induction false} RunKeepsRecordsWellFormed(steps: seq<Walked>)
    requires forall i, r :: 0 <= i < |steps| && r in steps[i].results ==> WellFormedRecord(r)
    ensures forall r :: r in RunUntilError(steps).results ==> WellFormedRecord(r)
    decreases |steps|
  {
    if steps != [] {
      var n := |steps|;
      var init := steps[..n - 1];
      assert forall i :: 0 <= i < n - 1 ==> init[i] == steps[i];
      RunKeepsRecordsWellFormed(init);
      var before := RunUntilError(init);
      forall r | r in RunUntilError(steps).results ensures WellFormedRecord(r) {
        if before.err.None? {
          assert r in before.results || r in steps[n - 1].results;
        }
      }
    }
  }

  /** Every outcome the walk records is well formed. */
  lemma WalkRecordsWellFormed(entries: seq<Entry>, outputDir: string)
    ensures forall r :: r in Walk(entries, outputDir).results ==> WellFormedRecord(r)
  {
    var steps := Steps(entries, outputDir);
    forall i, r | 0 <= i < |steps| && r in steps[i].results ensures WellFormedRecord(r) {
      RecordWellFormed(entries[i], outputDir);
    }
    RunKeepsRecordsWellFormed(steps);
  }

  lemma ConcatenatedCalls(a: seq<Call>, b: seq<Call>, outputDir: string)
    requires RenamesFollowUploads(a, outputDir) && UploadsAreVideos(a)
    requires RenamesFollowUploads(b, outputDir) && UploadsAreVideos(b)
    ensures RenamesFollowUploads(a + b, outputDir) && UploadsAreVideos(a + b)
  {
  }

  /** The walk reaches answer k: no answer before it is an error. */
  predicate Reached(steps: seq<Walked>, k: nat) {
    k <= |steps| && forall i :: 0 <= i < k ==> steps[i].err.None?
  }

  /**
   * Call orders that every answer keeps are kept over the walk, and every call
   * comes from an answer the walk reached.
   */
  lemma {:induction false} RunKeepsCallOrder(steps: seq<Walked>, outputDir: string)
    requires forall i :: 0 <= i < |steps| ==>
               RenamesFollowUploads(steps[i].calls, outputDir) && UploadsAreVideos(steps[i].calls)
    ensures RenamesFollowUploads(RunUntilError(steps).calls, outputDir)
    ensures UploadsAreVideos(RunUntilError(steps).calls)
    ensures forall c :: c in RunUntilError(steps).calls ==>
              exists i :: 0 <= i < |steps| && Reached(steps, i) && c in steps[i].calls
    decreases |steps|
  {
    if steps != [] {
      var n := |steps|;
      var init := steps[..n - 1];
      assert forall i :: 0 <= i < n - 1 ==> init[i] == steps[i];
      RunKeepsCallOrder(init, outputDir);
      var before := RunUntilError(init);
      if before.err.None? {
        ConcatenatedCalls(before.calls, steps[n - 1].calls, outputDir);
        RunCompletes(init);
      }
      forall c | c in RunUntilError(steps).calls
        ensures exists i :: 0 <= i < n && Reached(steps, i) && c in steps[i].calls
      {
        if c in before.calls {
          var i :| 0 <= i < n - 1 && Reached(init, i) && c in init[i].calls;
          assert Reached(steps, i);
        } else {
          assert c in steps[n - 1].calls && Reached(steps, n - 1);
        }
      }
    }
  }

  /**
   * Over the whole walk, only video files are uploaded, and a file is renamed
   * only when its own upload succeeded, straight after that upload and its
   * publish, into the output directory under its own base name.
   */
  lemma WalkCallsOrdered(entries: seq<Entry>, outputDir: string)
    ensures RenamesFollowUploads(Walk(entries, outputDir).calls, outputDir)
    ensures UploadsAreVideos(Walk(entries, outputDir).calls)
    ensures forall c :: c in Walk(entries, outputDir).calls && c.Rename? ==>
              exists i :: 0 <= i < |entries| && i <= FirstAbort(entries, outputDir) &&
                entries[i].path == c.from && UploadSucceeds(entries[i])
  {
    var steps := Steps(entries, outputDir);
    forall i | 0 <= i < |steps|
      ensures RenamesFollowUploads(steps[i].calls, outputDir) && UploadsAreVideos(steps[i].calls)
    {
      VisitCalls(entries[i], outputDir);
    }
    RunKeepsCallOrder(steps, outputDir);
    forall c | c in Walk(entries, outputDir).calls && c.Rename?
      ensures exists i :: 0 <= i < |entries| && i <= FirstAbort(entries, outputDir) &&
                entries[i].path == c.from && UploadSucceeds(entries[i])
    {
      var i :| 0 <= i < |steps| && Reached(steps, i) && c in steps[i].calls;
      var k := FirstAbort(entries, outputDir);
      assert i <= k by {
        assert k < |entries| ==> steps[k].err.Some?;
      }
      VisitCalls(entries[i], outputDir);
      assert c in Visit(entries[i], outputDir).calls;
    }
  }
}
