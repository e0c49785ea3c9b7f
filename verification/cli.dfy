/** The command-line layer (`cli.py`): the file name `download` saves an
    activity under, the order in which `sync` processes activities, and the
    success/failure tally of `upload`. The older script's `sync` orders its
    activities the same way and is covered by the same definition. */
module Cli {
  import opened Wrappers
  import opened Strings
  import Upload
  import UploadPoll

  // ---------------------------------------------------------------------
  // download: safe file names
  // ---------------------------------------------------------------------

  /** Characters the filter keeps. */
  predicate Kept(c: char) {
    IsAlnum(c) || c == ' ' || c == '-' || c == '_'
  }

  /** Characters a safe name may contain. */
  predicate SafeChar(c: char) {
    IsAlnum(c) || c == '-' || c == '_'
  }

  /** The character filter of the safe name: letters, digits, spaces,
      `-` and `_` survive, in order. */
  function KeepChars(name: string): (r: string)
    ensures forall i :: 0 <= i < |r| ==> Kept(r[i])
    ensures |r| <= |name|
  {
    if name == [] then [] else (if Kept(name[0]) then [name[0]] else []) + KeepChars(name[1..])
  }

  /** `rstrip()` of a string whose only white space is ' '. */
  function RStripSpaces(s: string): (r: string)
    ensures |r| <= |s| && r == s[..|r|]
    ensures r == [] || r[|r| - 1] != ' '
    ensures forall i :: |r| <= i < |s| ==> s[i] == ' '
  {
    if s != [] && s[|s| - 1] == ' ' then RStripSpaces(s[..|s| - 1]) else s
  }

  /** The safe name built in `download`: the kept characters in order,
      without trailing spaces, with the remaining spaces turned into '_'. */
  function SafeName(name: string): (r: string)
    ensures forall i :: 0 <= i < |r| ==> SafeChar(r[i])
    ensures |r| <= |name|
    ensures var kept := RStripSpaces(KeepChars(name));
      && |r| == |kept|
      && forall i :: 0 <= i < |r| ==> r[i] == (if kept[i] == ' ' then '_' else kept[i])
  {
    ReplaceChar(RStripSpaces(KeepChars(name)), ' ', '_')
  }

  lemma {:induction false} KeepCharsOfKept(s: string)
    requires forall i :: 0 <= i < |s| ==> Kept(s[i])
    ensures KeepChars(s) == s
  {
    if s != [] {
      KeepCharsOfKept(s[1..]);
    }
  }

  lemma {:induction false} KeepCharsAppend(a: string, b: string)
    ensures KeepChars(a + b) == KeepChars(a) + KeepChars(b)
  {
    if a != [] {
      assert (a + b)[0] == a[0];
      assert (a + b)[1..] == a[1..] + b;
      KeepCharsAppend(a[1..], b);
    } else {
      assert a + b == b;
    }
  }

  /** The filter on a single character: it survives exactly when it is
      kept. With `KeepCharsAppend` this pins the filter on every string. */
  lemma KeepCharsOfOne(c: char)
    ensures KeepChars([c]) == if Kept(c) then [c] else []
  {
    assert [c][1..] == [];
  }

  /** A character outside letters, digits, spaces, `-` and `_` is deleted
      wherever it stands: removing it does not change the safe name. */
  lemma SafeNameDropsUnkept(a: string, c: char, b: string)
    requires !Kept(c)
    ensures SafeName(a + [c] + b) == SafeName(a + b)
  {
    KeepCharsAppend(a + [c], b);
    KeepCharsAppend(a, [c]);
    KeepCharsOfOne(c);
    KeepCharsAppend(a, b);
    assert KeepChars(a + [c]) == KeepChars(a);
  }

  /** A name made only of safe characters is kept as it is. */
  lemma SafeNameOfSafe(name: string)
    requires forall i :: 0 <= i < |name| ==> SafeChar(name[i])
    ensures SafeName(name) == name
  {
    KeepCharsOfKept(name);
    assert ' ' !in name;
  }

  /** A safe name is its own safe name: the construction is idempotent. */
  lemma SafeNameIdempotent(name: string)
    ensures SafeName(SafeName(name)) == SafeName(name)
  {
    SafeNameOfSafe(SafeName(name));
  }

  lemma {:induction false} RStripSpacesAppend(a: string, spaces: string)
    requires forall i :: 0 <= i < |spaces| ==> spaces[i] == ' '
    ensures RStripSpaces(a + spaces) == RStripSpaces(a)
    decreases |spaces|
  {
    if spaces != [] {
      assert (a + spaces)[..|a + spaces| - 1] == a + spaces[..|spaces| - 1];
      RStripSpacesAppend(a, spaces[..|spaces| - 1]);
    } else {
      assert a + spaces == a;
    }
  }

  lemma {:induction false} KeepCharsOfIgnorable(s: string)
    requires forall i :: 0 <= i < |s| ==> s[i] == ' ' || !Kept(s[i])
    ensures forall i :: 0 <= i < |KeepChars(s)| ==> KeepChars(s)[i] == ' '
  {
    if s != [] {
      KeepCharsOfIgnorable(s[1..]);
    }
  }

  /** Trailing spaces are removed before spaces become '_': appending
      spaces or dropped characters to a name does not change its safe name
      (so "Morning Run " gives "Morning_Run", not "Morning_Run_"). */
  lemma SafeNameIgnoresTrailing(name: string, tail: string)
    requires forall i :: 0 <= i < |tail| ==> tail[i] == ' ' || !Kept(tail[i])
    ensures SafeName(name + tail) == SafeName(name)
  {
    KeepCharsAppend(name, tail);
    KeepCharsOfIgnorable(tail);
    RStripSpacesAppend(KeepChars(name), KeepChars(tail));
  }

  // ---------------------------------------------------------------------
  // download: date part and file name
  // ---------------------------------------------------------------------

  /** The date part of a start time: the text before the first 'T' when
      there is one, else the text before the first space. */
  function DatePart(start: string): (r: string)
    ensures |r| <= |start| && start[..|r|] == r
    ensures 'T' in start ==> 'T' !in r && start[|r|] == 'T'
    ensures 'T' !in start ==> ' ' !in r && (|r| == |start| || start[|r|] == ' ')
  {
    BeforeFirstIsLongestFreePrefix(start, 'T');
    BeforeFirstIsLongestFreePrefix(start, ' ');
    if 'T' in start then
      BeforeFirstWithTerminator(start, 'T');
      BeforeFirst(start, 'T')
    else
      BeforeFirst(start, ' ')
  }

  lemma {:induction false} BeforeFirstWithTerminator(s: string, sep: char)
    requires sep in s
    ensures |BeforeFirst(s, sep)| < |s|
  {
    if s[0] != sep {
      assert sep in s[1..];
      BeforeFirstWithTerminator(s[1..], sep);
    }
  }

  /** The fields of a Garmin activity summary that `download` reads;
      `None` is a missing key. */
  datatype GarminActivity = GarminActivity(
    activityId: int,
    activityName: Option<string>,
    startTimeLocal: Option<string>)

  const UnknownTime := "unknown_time"

  /** The part of the download file name before `.tcx`:
      `YYYY-MM-DD_ActivityName_ID`, or `ActivityName_ID` when the start
      time is unknown. */
  function DownloadStem(a: GarminActivity): string {
    NamePart(a) + "_" + IntToString(a.activityId)
  }

  /** What precedes `_ID`: the date part and the safe name, or the safe
      name alone when the start time is unknown. */
  function NamePart(a: GarminActivity): string {
    var safe := SafeName(a.activityName.GetOr("Garmin_Activity"));
    var start := a.startTimeLocal.GetOr(UnknownTime);
    if start != UnknownTime then DatePart(start) + "_" + safe else safe
  }

  /** The file name `download` writes an activity to: date part, safe name
      and id joined by '_' with `.tcx` appended, or the safe name and id
      alone when the start time is unknown. */
  function DownloadFilename(a: GarminActivity): (f: string)
    ensures EndsWith(f, ".tcx")
    ensures EndsWith(f, "_" + IntToString(a.activityId) + ".tcx")
    ensures a.startTimeLocal.GetOr(UnknownTime) != UnknownTime ==>
      f == DatePart(a.startTimeLocal.value) + "_"
        + SafeName(a.activityName.GetOr("Garmin_Activity")) + "_" + IntToString(a.activityId) + ".tcx"
    ensures a.startTimeLocal.GetOr(UnknownTime) == UnknownTime ==>
      f == SafeName(a.activityName.GetOr("Garmin_Activity")) + "_" + IntToString(a.activityId) + ".tcx"
  {
    var stem := DownloadStem(a);
    var tail := "_" + IntToString(a.activityId) + ".tcx";
    assert stem + ".tcx" == NamePart(a) + tail;
    SuffixOfAppend(NamePart(a), tail);
    SuffixOfAppend(stem, ".tcx");
    stem + ".tcx"
  }

  /** A download file name begins with the date when the start time is
      known, and otherwise with the safe activity name. */
  lemma DownloadFilenameStart(a: GarminActivity)
    ensures a.startTimeLocal.GetOr(UnknownTime) != UnknownTime ==>
      StartsWith(DownloadFilename(a), DatePart(a.startTimeLocal.value) + "_")
    ensures a.startTimeLocal.GetOr(UnknownTime) == UnknownTime ==>
      StartsWith(DownloadFilename(a), SafeName(a.activityName.GetOr("Garmin_Activity")) + "_")
  {
    var safe := SafeName(a.activityName.GetOr("Garmin_Activity"));
    var start := a.startTimeLocal.GetOr(UnknownTime);
    var id := IntToString(a.activityId);
    if start != UnknownTime {
      var p := DatePart(start) + "_";
      PrefixOfAppend(p, safe);
      StartsWithAppended(p + safe, p, "_");
      StartsWithAppended(p + safe + "_", p, id);
      StartsWithAppended(p + safe + "_" + id, p, ".tcx");
    } else {
      var p := safe + "_";
      PrefixOfAppend(p, id);
      StartsWithAppended(p + id, p, ".tcx");
    }
  }

  lemma StartsWithAppended(s: string, p: string, t: string)
    requires StartsWith(s, p)
    ensures StartsWith(s + t, p)
  {
    assert (s + t)[..|p|] == s[..|p|];
  }

  lemma PrefixOfAppend(p: string, rest: string)
    ensures StartsWith(p + rest, p)
  {
    assert (p + rest)[..|p|] == p;
  }

  lemma SuffixOfAppend(p: string, rest: string)
    ensures EndsWith(p + rest, rest)
  {
    assert (p + rest)[|p + rest| - |rest|..] == rest;
  }

  /** A download file name stays inside the output directory: it has no
      '/' when the start time has none. */
  lemma DownloadFilenameHasNoSlash(a: GarminActivity)
    requires a.startTimeLocal.Some? ==> '/' !in a.startTimeLocal.value
    ensures '/' !in DownloadFilename(a)
  {
    NamePartHasNoSlash(a);
    IntToStringChars(a.activityId);
    assert '/' !in IntToString(a.activityId);
  }

  lemma NamePartHasNoSlash(a: GarminActivity)
    requires a.startTimeLocal.Some? ==> '/' !in a.startTimeLocal.value
    ensures '/' !in NamePart(a)
  {
    var safe := SafeName(a.activityName.GetOr("Garmin_Activity"));
    var start := a.startTimeLocal.GetOr(UnknownTime);
    assert '/' !in safe;
    if start != UnknownTime {
      var date := DatePart(start);
      assert forall k :: 0 <= k < |date| ==> date[k] == start[k];
      assert '/' !in date;
      assert NamePart(a) == date + "_" + safe;
    }
  }

  /** `os.path.join(output_dir, filename)`. */
  function PathJoin(dir: string, name: string): string {
    if StartsWith(name, "/") then name
    else if dir == [] || EndsWith(dir, "/") then dir + name
    else dir + "/" + name
  }

  lemma {:induction false} BasenameOfPathJoin(dir: string, name: string)
    requires '/' !in name
    ensures Upload.Basename(PathJoin(dir, name)) == name
  {
    if |name| > 0 {
      assert name[0] != '/';
      assert !StartsWith(name, "/");
    }
    if dir == [] {
      LastIndexOfAbsent(name, '/');
    } else if EndsWith(dir, "/") {
      assert dir + name == dir[..|dir| - 1] + ['/'] + name;
      Upload.BasenameOfJoin(dir[..|dir| - 1], name);
    } else {
      assert dir + "/" + name == dir + ['/'] + name;
      Upload.BasenameOfJoin(dir, name);
    }
  }

  /** Download and upload fit together: a file saved by `download` under a
      start time without '/' is uploaded under its stem with underscores
      turned into spaces (for example "2024-05-01 Morning Run 42"). */
  lemma DownloadedFileUploadName(dir: string, a: GarminActivity)
    requires a.startTimeLocal.Some? ==> '/' !in a.startTimeLocal.value
    ensures var f := DownloadFilename(a);
      Upload.ActivityName(PathJoin(dir, f)) == ReplaceChar(f[..|f| - 4], '_', ' ')
  {
    var f := DownloadFilename(a);
    var stem := DownloadStem(a);
    assert f == stem + ".tcx";
    assert f[..|f| - 4] == stem;
    assert stem[|NamePart(a)|] == '_';
    DownloadFilenameHasNoSlash(a);
    BasenameOfPathJoin(dir, f);
    Upload.ActivityNameOfTcxFile(PathJoin(dir, f), stem, |NamePart(a)|);
  }

  // ---------------------------------------------------------------------
  // sync: which activities, in which order
  // ---------------------------------------------------------------------

  /** Python's `s[:limit]`: a negative limit counts from the end. */
  function SlicePrefix<T>(s: seq<T>, limit: int): (r: seq<T>)
    ensures |r| == if limit >= 0 then (if limit < |s| then limit else |s|)
                   else (if |s| + limit > 0 then |s| + limit else 0)
    ensures r == s[..|r|]
  {
    if limit >= 0 then s[..if limit < |s| then limit else |s|]
    else s[..if |s| + limit > 0 then |s| + limit else 0]
  }

  function Reverse<T>(s: seq<T>): (r: seq<T>)
    ensures |r| == |s|
    ensures forall i :: 0 <= i < |s| ==> r[i] == s[|s| - 1 - i]
  {
    if s == [] then [] else Reverse(s[1..]) + [s[0]]
  }

  /** The first `limit` activities, reversed: Garmin lists newest first, so this
      processes the first `min(limit, len)` activities oldest first. */
  function SyncOrder<T>(activities: seq<T>, limit: int): (r: seq<T>)
    ensures |r| <= |activities|
    ensures limit >= 0 ==> |r| == if limit < |activities| then limit else |activities|
    ensures limit < 0 ==> |r| == if |activities| + limit > 0 then |activities| + limit else 0
    ensures forall i :: 0 <= i < |r| ==> r[i] == activities[|r| - 1 - i]
    ensures activities == [] ==> r == []
  {
    Reverse(SlicePrefix(activities, limit))
  }

  /** Every selected activity is one of the first `limit` fetched, and each
      appears exactly once. */
  lemma SyncOrderIsPermutationOfPrefix<T>(activities: seq<T>, limit: int)
    ensures multiset(SyncOrder(activities, limit)) == multiset(SlicePrefix(activities, limit))
  {
    ReverseMultiset(SlicePrefix(activities, limit));
  }

  lemma {:induction false} ReverseMultiset<T>(s: seq<T>)
    ensures multiset(Reverse(s)) == multiset(s)
  {
    if s != [] {
      ReverseMultiset(s[1..]);
      assert s == [s[0]] + s[1..];
    }
  }

  // ---------------------------------------------------------------------
  // upload: the tally
  // ---------------------------------------------------------------------

  /** `max_attempts` when `upload` calls `upload_file_to_strava`. */
  const DefaultMaxAttempts := 3

  /** One command-line file and what the outside world does with it. */
  datatype LocalFile = LocalFile(
    path: string,
    present: bool,
    submitted: bool,
    poll: nat -> UploadPoll.PollResponse)

  function UploadOne(file: LocalFile, dryRun: bool): Upload.UploadReturn {
    Upload.UploadFileToStrava(file.path, file.present, dryRun, file.submitted, file.poll, DefaultMaxAttempts)
  }

  /** How many files count as uploaded (`if result:`). */
  function Successes(files: seq<LocalFile>, dryRun: bool): nat {
    if files == [] then 0
    else Successes(files[..|files| - 1], dryRun) + (if Upload.Truthy(UploadOne(files[|files| - 1], dryRun)) then 1 else 0)
  }

  datatype Tally = Tally(successful: nat, failed: nat)

  /** The loop of `upload`: with no files it returns before the summary;
      otherwise every file is counted exactly once, as a success iff its
      result is truthy. */
  method UploadFiles(files: seq<LocalFile>, dryRun: bool) returns (summary: Option<Tally>)
    ensures files == [] <==> summary.None?
    ensures summary.Some? ==> summary.value.successful + summary.value.failed == |files|
    ensures summary.Some? ==> summary.value.successful == Successes(files, dryRun)
  {
    if files == [] {
      return None;
    }
    var successful := 0;
    var failed := 0;
    var i := 0;
    while i < |files|
      invariant 0 <= i <= |files|
      invariant successful + failed == i
      invariant successful == Successes(files[..i], dryRun)
    {
      var result := UploadOne(files[i], dryRun);
      assert files[..i + 1][..i] == files[..i];
      if Upload.Truthy(result) {
        successful := successful + 1;
      } else {
        failed := failed + 1;
      }
      i := i + 1;
    }
    assert files[..|files|] == files;
    summary := Some(Tally(successful, failed));
  }

  /** A dry run over existing files counts every one as a success; a
      missing file is always a failure. */
  lemma {:induction false} DryRunCounts(files: seq<LocalFile>)
    requires forall i :: 0 <= i < |files| ==> files[i].path != ""
    ensures Successes(files, true) == |set i | 0 <= i < |files| && files[i].present|
  {
    if files != [] {
      var n := |files| - 1;
      var init := files[..n];
      DryRunCounts(init);
      var before := set i | 0 <= i < n && init[i].present;
      var after := set i | 0 <= i < |files| && files[i].present;
      assert before == set i | 0 <= i < n && files[i].present;
      if files[n].present {
        assert after == before + {n};
      } else {
        assert after == before;
      }
    }
  }
}
