/** `upload_file_to_strava` and `sync_activity`: what they return around
    the shared poll loop, and how a file's activity name is derived from
    its path. File existence, the file read, the Strava client set-up and
    the submission are inputs: `fileExists` is `os.path.exists(filepath)`
    and `submitted` says that reading, client set-up and `upload_activity`
    all completed without raising. */
module Upload {
  import opened Wrappers
  import opened Strings
  import UploadPoll

  // ---------------------------------------------------------------------
  // Activity name from a file path
  // ---------------------------------------------------------------------

  /** `os.path.basename`: the text after the last '/'. */
  function Basename(path: string): (r: string)
    ensures '/' !in r
    ensures |r| <= |path| && path[|path| - |r|..] == r
  {
    path[LastIndexOf(path, '/') + 1..]
  }

  /** `os.path.splitext(p)[0]`: drop the text from the last '.' on, unless
      that dot is preceded in the final path component only by dots (so
      ".tcx" and "..tcx" have no extension). */
  function StripExtension(p: string): string {
    var sep := LastIndexOf(p, '/');
    var dot := LastIndexOf(p, '.');
    if dot > sep && exists j :: sep < j < dot && p[j] != '.' then p[..dot] else p
  }

  /** The activity name: the file name without its extension, with every
      '_' turned into a space. */
  function ActivityName(filepath: string): (name: string)
    ensures '_' !in name && '/' !in name
    ensures |name| <= |filepath|
  {
    ReplaceChar(StripExtension(Basename(filepath)), '_', ' ')
  }

  /** A path whose last component is `stem.ext`, for any extension
      without a dot, is named after the stem with underscores as spaces,
      provided the stem is not all dots. */
  lemma {:induction false} ActivityNameOfFile(path: string, stem: string, ext: string, j: nat)
    requires Basename(path) == stem + ['.'] + ext && '.' !in ext
    requires j < |stem| && stem[j] != '.'
    ensures ActivityName(path) == ReplaceChar(stem, '_', ' ')
  {
    var b := Basename(path);
    assert forall k :: 0 <= k < |stem| ==> stem[k] == b[k];
    assert forall k :: 0 <= k < |ext| ==> ext[k] == b[|stem| + 1 + k];
    StripExtensionOfName(stem, ext, j);
  }

  /** The `.tcx` files the program writes and reads. */
  lemma ActivityNameOfTcxFile(path: string, stem: string, j: nat)
    requires Basename(path) == stem + ".tcx"
    requires j < |stem| && stem[j] != '.'
    ensures ActivityName(path) == ReplaceChar(stem, '_', ' ')
  {
    assert stem + ".tcx" == stem + ['.'] + "tcx";
    ActivityNameOfFile(path, stem, "tcx", j);
  }

  /** A last component without a usable extension (no '.', or only dots
      before its last '.', as in ".tcx") is used whole. */
  lemma ActivityNameWithoutExtension(path: string)
    requires forall j :: 0 <= j < LastIndexOf(Basename(path), '.') ==> Basename(path)[j] == '.'
    ensures ActivityName(path) == ReplaceChar(Basename(path), '_', ' ')
  {
    LastIndexOfAbsent(Basename(path), '/');
  }

  lemma {:induction false} BasenameOfJoin(dir: string, base: string)
    requires '/' !in base
    ensures Basename(dir + ['/'] + base) == base
  {
    LastIndexOfJoin(dir, '/', base);
  }

  lemma {:induction false} StripExtensionOfName(stem: string, ext: string, j: nat)
    requires '/' !in stem && '/' !in ext && '.' !in ext
    requires j < |stem| && stem[j] != '.'
    ensures '/' !in stem + ['.'] + ext
    ensures StripExtension(stem + ['.'] + ext) == stem
  {
    var name := stem + ['.'] + ext;
    assert forall k :: 0 <= k < |name| ==> name[k] == (if k < |stem| then stem[k] else if k == |stem| then '.' else ext[k - |stem| - 1]);
    LastIndexOfAbsent(name, '/');
    LastIndexOfJoin(stem, '.', ext);
    assert name[j] != '.';
    assert name[..|stem|] == stem;
  }

  // ---------------------------------------------------------------------
  // Return values
  // ---------------------------------------------------------------------

  /** What `upload_file_to_strava` returns: None, the path (dry run) or a
      Strava activity id. */
  datatype UploadReturn = NoResult | FilePath(path: string) | StravaActivity(id: int)

  /** `if result:` in the caller. */
  predicate Truthy(r: UploadReturn) {
    match r
    case NoResult => false
    case FilePath(p) => p != ""
    case StravaActivity(id) => id != 0
  }

  /** `upload_file_to_strava(filepath, dry_run, max_attempts)`. */
  function UploadFileToStrava(
    filepath: string, fileExists: bool, dryRun: bool, submitted: bool,
    poll: nat -> UploadPoll.PollResponse, maxAttempts: int): (r: UploadReturn)
    // a missing file returns None before anything else
    ensures !fileExists ==> r == NoResult
    // a dry run returns the path itself and uploads nothing
    ensures fileExists && dryRun ==> r == FilePath(filepath)
    // an id comes only from a real upload whose polling succeeded
    ensures r.StravaActivity? ==>
      && fileExists && !dryRun && submitted
      && UploadPoll.Track(poll, maxAttempts).outcome == UploadPoll.Succeeded(r.id)
      && r.id != 0
    ensures fileExists && !dryRun ==>
      (Truthy(r) <==> submitted && UploadPoll.Track(poll, maxAttempts).outcome.Succeeded?)
    // a real upload returns the polled id or None, never a path
    ensures fileExists && !dryRun ==> !r.FilePath?
    ensures fileExists && !dryRun && submitted && UploadPoll.Track(poll, maxAttempts).outcome.Succeeded? ==>
      r == StravaActivity(UploadPoll.Track(poll, maxAttempts).outcome.activityId)
  {
    if !fileExists then NoResult
    else if dryRun then FilePath(filepath)
    else if !submitted then NoResult
    else
      match UploadPoll.Returned(UploadPoll.Track(poll, maxAttempts).outcome)
      case Some(id) => StravaActivity(id)
      case None => NoResult
  }

  /** What `sync_activity` raises: none of its calls to the services is
      inside a `try`, so each failure reaches its caller. */
  datatype SyncError =
    | DownloadRaised(reason: string)   // `download_activity`
    | UploadRaised(reason: string)     // the Strava client set-up or `upload_activity`

  /** `sync_activity(garmin, activity, dry_run, max_attempts)`. The download
      happens before the dry-run check, so a failing download ends a dry
      run too; a dry run then returns the Garmin activity id, and a real one
      the Strava id or None. `downloadError` and `submitError` are what the
      download and the client set-up or submission raised, if anything. */
  function SyncActivity(
    garminId: int, downloadError: Option<string>, dryRun: bool, submitError: Option<string>,
    poll: nat -> UploadPoll.PollResponse, maxAttempts: int): (r: Result<Option<int>, SyncError>)
    ensures downloadError.Some? ==> r == Failure(DownloadRaised(downloadError.value))
    ensures downloadError.None? && dryRun ==> r == Success(Some(garminId))
    ensures downloadError.None? && !dryRun && submitError.Some? ==> r == Failure(UploadRaised(submitError.value))
    ensures downloadError.None? && submitError.None? ==> r.Success?
    ensures r.Success? && !dryRun ==> (r.value.Some? <==> UploadPoll.Track(poll, maxAttempts).outcome.Succeeded?)
    ensures r.Success? && !dryRun && r.value.Some? ==>
      UploadPoll.Track(poll, maxAttempts).outcome == UploadPoll.Succeeded(r.value.value)
  {
    if downloadError.Some? then Failure(DownloadRaised(downloadError.value))
    else if dryRun then Success(Some(garminId))
    else if submitError.Some? then Failure(UploadRaised(submitError.value))
    else Success(UploadPoll.Returned(UploadPoll.Track(poll, maxAttempts).outcome))
  }
}
