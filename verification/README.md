# GarminToStrava in Dafny

GarminToStrava moves activities from Garmin Connect to Strava. Its Python command line
(`garmin2strava sync`, `download`, `upload`) downloads TCX files and uploads them. The one-time
`auth_strava` script obtains the first Strava tokens. A small browser page, the TCX visualizer,
draws TCX files on a map. This project models the decision logic of those programs as pure
Dafny functions and methods and proves properties of them:

- **Token lifecycle** (`Credentials`, `EnvFile`).
  - `get_strava_client` trusts the stored tokens while their expiry lies in the future.
  - Otherwise it exchanges the stored refresh token once and persists the response by
    rewriting the `.env` file line by line.
  - A refresh followed by a reload of the file gives back the refreshed credential. A later
    process start that reads its tokens from that file then makes no exchange.
- **Upload tracking** (`UploadPoll`, `Upload`).
  - One loop polls the remote upload job until it reports an activity id or an error, or
    until its attempt budget (3 by default) is used up. The same loop appears in the
    package's `upload_file_to_strava` and `sync_activity` and in the older script's
    `sync_activity`.
  - The functions around the loop name the activity after its file and return the id,
    the path (in a dry run) or nothing.
- **Command line** (`Cli`).
  - The file name `download` gives an activity, and how `upload` would name that file again.
  - The order in which `sync` processes activities.
  - The success/failure tally of `upload`.
- **Authorization callback** (`AuthCallback`): the `/authorization` handler stores the first
  non-empty `code`, and `main` waits until one has arrived.
- **TCX visualizer**.
  - The fallback XML-to-object converter (`XmlToJson`).
  - The search for activities and track points in the converted document (`TcxParse`).
  - The distance and duration displays (`TcxFormat`).
  - The viewer's store of loaded activities: file selection, adding and removing
    activities, and the "most common sport" statistic (`TcxViewer`).

Supporting modules:

- `Wrappers`: `Option` and `Result`.
- `Strings`: prefixes, splitting, decimal rendering and parsing, trimming, ASCII lower case.
- `OrderedMap`: an association list that keeps insertion order, as a JavaScript `Map` and
  the string-keyed properties of an object do.
- `Json`: the JavaScript values the visualizer walks, with JavaScript truthiness.

I/O, the clock and the remote services become parameters:

- the `.env` file is an optional sequence of lines;
- "now" is an integer count of seconds;
- the token-exchange response is a `Result`;
- the n-th upload poll's answer is `poll(n)`;
- whether a file exists is a boolean.

Three behaviours of the code worth noting:

- **Rejected and timed-out uploads.** The code returns `None` both when Strava rejects an
  upload and when polling gives up. `UploadPoll.Outcome` still tells the two apart
  internally, and `Returned` maps both to `None`.
- **Missing `.env` file.** `update_env_file` only prints an error and returns when `.env`
  is missing. The refreshed client is still returned, and nothing is persisted.
- **Exchange failure.** A failed token exchange is re-raised from `get_strava_client`. The
  model reports it as `ExchangeFailed`. `upload_file_to_strava` catches it and returns
  `None`, which the model expresses through its `submitted` flag. `sync_activity` lets
  it through, as `Upload.UploadRaised`.

## Model

| member | source | states |
|---|---|---|
| Credentials.GetStravaClient | garmin2strava/garmin2strava.py:34-56 | A stored expiry that is not an integer fails before the expiry check. An expiry still in the future returns the stored tokens unchanged, with no exchange and no write. An expiry at or before now exchanges the stored refresh token once. A failed exchange is an error. A successful one takes all three fields from the response and persists that same response. |
| Credentials.RefreshIffExpired | garmin2strava.py:40-51 | On success, an exchange happened exactly when the stored expiry was not in the future, and the tokens were persisted exactly when an exchange happened. |
| Credentials.MissingExpiryRefreshes | garmin2strava/garmin2strava.py:40-54 | A missing expiry is read as 0, so any non-negative time refreshes, and the session carries the response's tokens. |
| Credentials.RefreshThenReload | garmin2strava/garmin2strava.py:43-54 | Take a file that carries all three keys and apply a refresh. Reading it back gives the refreshed expiry. A later start before that expiry returns the refreshed credential with no exchange and no write. |
| Credentials.MissingKeyNotPersisted | garmin2strava.py:69-78 | A refresh token whose line is absent from `.env` stays absent after persisting: the rewrite never appends a line. |
| Credentials.MissingFileStillReturns | garmin2strava.py:59-64 | Whenever the stored expiry has passed, a refresh with no `.env` file still returns the refreshed credential, and the file stays missing. |
| EnvFile.UpdateEnvFile | garmin2strava.py:59-78 | A missing file stays missing. Otherwise the line count is unchanged. Every line that begins with one of the three `KEY=` prefixes becomes `KEY=<new value>` and a line break. Every other line is kept verbatim. |
| EnvFile.FieldOfLineIsPrefix | garmin2strava/auth_strava.py:57-65 | The `if/elif` chain picks field f exactly when the line begins with f's prefix, whatever the order of the tests. |
| EnvFile.PrefixesExclusive | garmin2strava.py:71-76 | No line can begin with two different key prefixes. |
| EnvFile.RewriteLineKeepsKey | garmin2strava/auth_strava.py:58-65 | A rewritten line carries the same key as before, or none if it had none. |
| EnvFile.UpdateIdempotent | garmin2strava/auth_strava.py:47-65 | Writing the same tokens twice gives the same file as writing them once. |
| EnvFile.LookupAfterUpdate | garmin2strava.py:66-78 | After an update, a key that was present reads back as the value written for it, and a key that was absent stays absent. |
| Strings.IntToStringRoundTrip | garmin2strava.py:37 | The expiry written in decimal is read back by integer parsing as the same number. |
| UploadPoll.PollUntilResolved | garmin2strava/garmin2strava.py:97-118 | The loop polls at most `max_attempts` times and sleeps only after pending polls. It returns an id exactly when a poll reported a non-zero id, and that id is the one reported. It stops at the first poll with an id or a non-empty error. After `max_attempts` pending polls it times out, with as many sleeps as polls. |
| UploadPoll.AllPendingTimesOut | garmin2strava/garmin2strava.py:150-168 | If every poll within the budget is pending, the loop times out after exactly `max_attempts` polls and sleeps and returns nothing. |
| UploadPoll.FirstResolvingPollDecides | garmin2strava.py:104-122 | The first non-pending poll k decides: there are k+1 polls and k sleeps. The id is returned if that poll carries one. Otherwise it is a rejection carrying that poll's error, and nothing is returned. |
| UploadPoll.NoBudgetNoPoll | garmin2strava/garmin2strava.py:98-116 | With a budget of zero or less, nothing is polled and the outcome is a timeout. |
| Upload.ActivityName | garmin2strava/garmin2strava.py:73-76 | The activity name contains neither `_` nor `/` and is no longer than the path. |
| Upload.ActivityNameOfFile | garmin2strava/garmin2strava.py:68-76 | For a file `<stem>.<ext>`, with any extension that has no dot and a stem that has a character other than a dot, the name is the stem with every `_` replaced by a space. |
| Upload.ActivityNameOfTcxFile | garmin2strava/garmin2strava.py:74-76 | For a file `<stem>.tcx` whose stem has a character other than a dot, the name is the stem with every `_` replaced by a space. |
| Upload.ActivityNameWithoutExtension | garmin2strava/garmin2strava.py:74-76 | A base name with no dot, or with only dots before its last dot (".tcx"), is used whole, with every `_` replaced by a space. |
| Upload.UploadFileToStrava | garmin2strava/garmin2strava.py:62-122 | A missing file returns nothing. A dry run returns the path. An activity id is returned only after a submitted upload whose polling succeeded, and the id is non-zero. A real upload never returns a path: when it was submitted and polling succeeded, the result is the polled id; otherwise it is nothing. |
| Upload.SyncActivity | garmin2strava/garmin2strava.py:125-170 | A failed download is raised first, even in a dry run. After a good download a dry run returns the Garmin id. A failed client set-up or submission is raised next. Without failures an id is returned exactly when polling succeeded, and it is the id the poll reported. |
| Cli.SafeName | garmin2strava/cli.py:93-96 | Every character of the safe name is an ASCII letter, a digit, `-` or `_` (so it has no spaces), and the name is no longer than the original. Position by position it is the filtered name without its trailing spaces, with each remaining space turned into `_`. |
| Cli.SafeNameOfSafe | garmin2strava/cli.py:93-96 | A name made only of letters, digits, `-` and `_` is its own safe name. |
| Cli.SafeNameIdempotent | garmin2strava/cli.py:93-96 | Making a safe name safe again changes nothing. |
| Cli.KeepCharsOfOne | garmin2strava/cli.py:93-95 | A single character survives the filter exactly when it is a letter, a digit, a space, `-` or `_`. |
| Cli.SafeNameDropsUnkept | garmin2strava/cli.py:93-96 | Any other character is deleted wherever it stands: removing it from the name leaves the safe name unchanged. |
| Cli.SafeNameIgnoresTrailing | garmin2strava/cli.py:93-95 | Trailing spaces and dropped characters at the end of a name do not change its safe name. |
| Cli.DatePart | garmin2strava/cli.py:102-106 | The date part is a prefix of the start time. With a `T` it stops at the first `T`. Otherwise it stops at the first space, or at the end when there is none. |
| Cli.DownloadFilename | garmin2strava/cli.py:98-111 | The download file name always ends in `_<activity id>.tcx`. With a known start time it is exactly the date part, the safe name and the id joined by `_`, plus `.tcx`. With the start time missing or `"unknown_time"` it is the safe name and the id joined by `_`, plus `.tcx`. |
| Cli.DownloadFilenameStart | garmin2strava/cli.py:99-111 | With a known start time the file name begins with the date part and `_`. Without one it begins with the safe name and `_`. |
| Cli.DownloadFilenameHasNoSlash | garmin2strava/cli.py:93-111 | If the start time has no `/`, the file name has none either, so the path join keeps the file inside the output directory. |
| Cli.BasenameOfPathJoin | garmin2strava/cli.py:113 | Joining a directory with a name that has no `/` and taking the base name gives back the name. |
| Cli.DownloadedFileUploadName | garmin2strava/cli.py:107-113 | Uploading a downloaded file names the activity after the file name without `.tcx`, with underscores shown as spaces. |
| Cli.SyncOrder | garmin2strava/cli.py:15-36 | The processing order has `min(limit, n)` activities for a non-negative limit, and `max(n + limit, 0)` for a negative one, as Python's `activities[:limit]` counts from the end. It lists the first ones from oldest to newest, so position i holds the activity at `len-1-i` of the slice. |
| Cli.SyncOrderIsPermutationOfPrefix | garmin2strava.py:143 | The activities processed are exactly those of the slice `activities[:limit]`, each once, for any integer limit. |
| Cli.UploadFiles | garmin2strava/cli.py:142-167 | With no files it returns before the summary. Otherwise every file is counted once: successes plus failures equal the number of files, and the successes are the files whose upload result is truthy. |
| Cli.DryRunCounts | garmin2strava/cli.py:151-167 | In a dry run with non-empty paths, the number of successes is the number of files that exist. |
| AuthCallback.Authorize | garmin2strava/auth_strava.py:32-39 | The reply is a success exactly when the request carries a non-empty code. Then that code is stored. Otherwise the stored code is kept. |
| AuthCallback.AfterRequestsKeepsLastCode | garmin2strava/auth_strava.py:34-37 | After any sequence of requests, the stored code is the one from the last request with a non-empty code, or the initial value if there was none. |
| AuthCallback.FirstUsableEndsWait | garmin2strava/auth_strava.py:85-92 | Starting from no code, the wait continues through every request before the first one with a non-empty code. The global first becomes non-empty with that request, holding its code. |
| XmlToJson.ToJson | web-ui/tcx-visualizer.js:622-659 | Converting an element never yields an array or a falsy value. |
| XmlToJson.ChildrenCollapse | web-ui/tcx-visualizer.js:643-656 | For an element with element children, each non-attribute name holds nothing if no child has that name. It holds the child's value if one child has it, and the array of all such children's values in document order if several do. |
| XmlToJson.AttributesPrefixed | web-ui/tcx-visualizer.js:626-630 | Each attribute appears as `@_name` with its value in the object result, unless a child element has that same key. |
| XmlToJson.LeafValue | web-ui/tcx-visualizer.js:637-641 | An element without element children becomes its trimmed text when that is not blank. Otherwise it becomes its attribute object. |
| XmlToJson.AddChildrenGet | web-ui/tcx-visualizer.js:647-655 | The child loop changes a property only once for each child with that name, pushing the child's value onto it. |
| TcxParse.FindActivities | web-ui/tcx-visualizer.js:189-235 | A found Activities value is truthy, and the error otherwise lists the root's keys. The four places are tried in order: `TrainingCenterDatabase.Activities`; the `Activities` of the first namespaced database key that has them; a truthy root-level `Activities`; and the first key naming activities, whose value decides even when it is falsy. |
| TcxParse.FirstDatabaseHit | web-ui/tcx-visualizer.js:203-211 | The namespaced search picks the first key containing the database name whose value has truthy Activities. No earlier key qualifies. |
| TcxParse.FirstActivitiesKey | web-ui/tcx-visualizer.js:221-229 | The last-resort search picks the first non-attribute key whose lower case contains "activities". No earlier key qualifies. |
| TcxParse.RootLevelActivities | web-ui/tcx-visualizer.js:214-218 | With no database element, a truthy root-level Activities is used. |
| TcxParse.NothingFound | web-ui/tcx-visualizer.js:232-235 | With no candidate key anywhere, parsing fails with the list of root keys. |
| TcxParse.ActivityData | web-ui/tcx-visualizer.js:237-242 | A single `Activity` is the activity data. Without an `Activity` property the activities value itself is, when truthy. From a list, the first element is used when there is one and it is truthy. Anything else is the "no activity data" error. |
| TcxParse.FirstActivityUsed | web-ui/tcx-visualizer.js:237-238 | When `Activity` is an array, its first element is the activity data. |
| TcxParse.SportOf | web-ui/tcx-visualizer.js:245 | A non-empty `@_Sport` string is the sport. A missing one gives "Other", and any sport other than "Other" was read from the attribute. |
| TcxParse.ExtractTrackpoints | web-ui/tcx-visualizer.js:247-276 | The nested loop over laps, tracks and points collects exactly the positioned points of all laps in document order. |
| TcxParse.LapsOfAppend | web-ui/tcx-visualizer.js:254-257 | The points of two runs of laps are the points of the first followed by those of the second. |
| TcxParse.TrackpointsPositioned | web-ui/tcx-visualizer.js:265 | Every collected trackpoint has a latitude and a longitude. |
| TcxParse.PointsOfAllPositioned | web-ui/tcx-visualizer.js:262-275 | When every point of a track is positioned, each one is kept, in order. |
| TcxParse.PointsOfNonePositioned | web-ui/tcx-visualizer.js:264-265 | When no point is positioned, nothing is kept. |
| TcxParse.PointsOfAppend | web-ui/tcx-visualizer.js:262-275 | The points of two runs of points are the points of the first followed by those of the second, for any mix of positioned and unpositioned points. |
| TcxParse.PointsOfOne | web-ui/tcx-visualizer.js:264-275 | A single point gives its trackpoint exactly when it has a position, and nothing otherwise. |
| TcxParse.ParseTcx | web-ui/tcx-visualizer.js:174-247 | Parsing succeeds exactly when both the activities and the activity data are found. Its sport and trackpoints are then those of that activity data. A failure to find either is the parse result. |
| TcxFormat.FormatDuration | web-ui/tcx-visualizer.js:566-578 | Zero displays as "0:00". Every whole number of seconds displays as text that parses back to the same number. The display has three fields from one hour on and two below, and its first field is the unpadded decimal of the hours, or of the minutes below an hour. |
| TcxFormat.ClockFieldsOf | web-ui/tcx-visualizer.js:569-571 | Minutes and seconds are below 60 and recompose the total. |
| TcxFormat.Pad2RoundTrip | web-ui/tcx-visualizer.js:574 | A field below 60 padded to two digits parses back to itself and contains no colon. |
| TcxFormat.PadStart | web-ui/tcx-visualizer.js:576 | Padding keeps the string as a suffix, fills only with the pad character, and reaches the width. |
| TcxFormat.FormatDistance | web-ui/tcx-visualizer.js:547-564 | Exactly a zero distance gives the "0 km" result. Non-zero distances below 1000 metres show the rounded metres. The others show the distance in kilometres. |
| TcxFormat.UnitChoice | web-ui/tcx-visualizer.js:548-556 | The unit is "m" exactly for non-zero distances below 1000. It is "km" exactly for zero and for 1000 or more. |
| TcxFormat.Display | web-ui/tcx-visualizer.js:547-557 | Zero and metre distances have a display text. Zero shows "0 km". A metre text ends in " m", and its number reads back as the rounded metres. |
| TcxFormat.AlmostAKilometre | web-ui/tcx-visualizer.js:550-554 | Distances from 999.5 up to 1000 display as "1000 m", not as kilometres. |
| TcxFormat.Round | web-ui/tcx-visualizer.js:552 | Rounding stays within half a unit of the value, with halves rounded up. |
| TcxViewer.TcxFiles | web-ui/tcx-visualizer.js:122-124 | A selected file is kept exactly when its lower-cased name ends in `.tcx`. |
| TcxViewer.TcxFilesAppend | web-ui/tcx-visualizer.js:122-124 | The filter keeps order and distributes over concatenation. |
| TcxViewer.HandleFiles | web-ui/tcx-visualizer.js:121-133 | The "TCX files only" error happens exactly when no name is a TCX name. Otherwise the non-empty filtered list is processed. |
| TcxViewer.StoreParsed | web-ui/tcx-visualizer.js:154-163 | A parse error is passed on. A parsed activity is stored under its id exactly when it has at least one trackpoint; storing adds the id's layer and leaves every other id as it was. A new id is appended last in the key order and a stored id keeps its place, as `Map.set` does. |
| TcxViewer.ProcessFile | web-ui/tcx-visualizer.js:147-172 | A file is rejected with its parse error when parsing fails. It is stored exactly when it parses with at least one trackpoint, under the given id and with a layer. Every other id keeps its activity, and the id is appended last in the key order unless it was already stored. |
| TcxViewer.StoreParsedValid | web-ui/tcx-visualizer.js:156-159 | Adding a file keeps the store valid: keys are distinct, layers match stored ids, and every stored activity has trackpoints. |
| TcxViewer.RemoveActivity | web-ui/tcx-visualizer.js:510-523 | After removal the id has neither an activity nor a layer, and every other id is unchanged. The remaining ids keep their relative order, as `Map.delete` does. |
| TcxViewer.RemoveActivityValid | web-ui/tcx-visualizer.js:510-523 | Removal keeps the store valid and shrinks it by one when the id was present. An unknown id changes nothing. |
| TcxViewer.SportCountsCorrect | web-ui/tcx-visualizer.js:462-469 | The counting loop has one key per sport, in the order the sports first appear, and each key's count is the number of activities with that sport. |
| TcxViewer.MostCommonSport | web-ui/tcx-visualizer.js:471-473 | The reduction gives "None" without sports. Otherwise it gives a key with the highest count, and every later key has a strictly smaller count. |
| TcxViewer.OverallMostCommon | web-ui/tcx-visualizer.js:462-473 | The statistic is a sport that occurs at least as often as any other. Every sport that first appears after it occurs strictly less often. It is "None" when no activity is loaded. |
| OrderedMap.Set | web-ui/tcx-visualizer.js:158 | Setting a key gives it the new value and leaves every other key unchanged. A new key is appended to the key order. An existing key keeps its place. |
| OrderedMap.DeleteKeepsDistinct | web-ui/tcx-visualizer.js:523 | Deleting removes exactly that key, keeps the other keys distinct, and shrinks the map by one entry when the key was present. |

## Left out

- Network calls: Garmin login and download, Strava's token endpoint, upload submission,
  and the authorization URL and browser. Their results are parameters: the exchange
  response, the `submitted` flag and the `poll` function.
- `time.sleep` is counted rather than taken. The 0.1 s wait in `auth_strava.main` is
  reduced to the sequence of requests seen.
- The clock is a parameter. `datetime.fromtimestamp(e) <= datetime.now()` is compared as
  whole epoch seconds, so sub-second time and local-time conversion are ignored.
- The Flask server, its thread and `app.run`. The handler's global becomes a state passed
  in and out.
- AuthCallback.FirstUsableEndsWait: requests are handled one at a time, in order, against
  the wait. In the program, Flask serves requests on another thread while `main` sleeps
  0.1 s between checks, and it reads `auth_code` again for the exchange. A second usable
  request arriving before that read overwrites the code, and its code is the one
  exchanged.
- Credentials.GetStravaClient: `datetime.fromtimestamp` raises for an integer expiry outside
  the range `datetime` can represent (such as 10^14), and an I/O error while rewriting
  `.env` raises after the exchange. Both reach the caller; the model returns a session in
  both cases, because the range depends on the platform and the write is I/O.
- Credentials.RefreshThenReload: the next start reads the rewritten file as `ReadStored`
  does, from the first line of each key. `load_dotenv` instead lets a variable that is
  already set in the environment win, and for a repeated key the last line wins.
- Credentials.GetStravaClient: within one run, `load_dotenv` has run once at import and
  `update_env_file` never updates `os.environ`. So an `upload` of several files, or a
  `sync` of several activities, with an expired token exchanges again for every item, each
  time with the old refresh token. The model describes one call at a time.
- Upload.SyncActivity: an exception from `upload.poll()` also propagates; the `poll`
  function here always answers.
- Exceptions from the Strava client library beyond those named above, and the echoed
  messages (`click.echo`, `print`, `console`). The `.tcx` warning in
  `upload_file_to_strava` only prints, so it has no effect to model.
- `questionary` selection in `download`, and the `click` argument parsing. Only the
  selected activities and the flags are inputs.
- `get_garmin_client` and `garmin.get_activities` are not part of this model.
- Cli.SafeName: `str.isalnum` is modelled for ASCII letters and digits only. Python also
  accepts other Unicode letters and digits.
- Strings.ParseInt: Python's `int()` also accepts surrounding white space and digit
  underscores. Those forms never come out of the decimal rendering the program writes.
- Cli.DownloadFilename: the bare `except:` fallback to `<safe name>_<id>.tcx` is not modelled.
  It fires when the start time is present but is not a string, such as JSON `null`. In the
  model a present start time is always a string, and the date-part computation on a string
  cannot raise.
- Cli.DownloadFilename: an `activityName` that is present but not a string, such as JSON
  `null`, makes the safe-name construction raise `TypeError` outside the `try`. The
  command reports the error and re-raises it, so no later activity is downloaded. The
  model has no such value: a present name is always a string, and only a missing key
  falls back to "Garmin_Activity".
- Upload.ActivityName: paths follow POSIX `os.path`, which splits only at `/`. This also
  holds for Upload.Basename, Upload.StripExtension and Cli.PathJoin. On Windows, `ntpath`
  also splits at `\` and after a drive letter, so `C:\runs\Morning_Run.tcx` gives
  "Morning Run" there, while the model keeps the whole path in the name.
- Upload.UploadFileToStrava: the `try/except` that turns any exception into `None` is the
  `submitted` flag. The file's bytes are not modelled.
- The fast-xml-parser library path of `parseTCX`. Only the fallback converter is modelled,
  and the XML text-to-DOM parsing (`DOMParser`) is not part of this model.
- Floating point: `parseFloat` of coordinates, altitude, distance and heart rate, and the
  lap totals `totalTime` and `totalDistance`. Trackpoints keep the raw values of latitude,
  longitude and time. The other trackpoint fields, `activity.Id`, the start `Date` and the
  map bounds are left out.
- TcxParse.ParseTcx: the bounds computation passes each kept trackpoint's parsed latitude
  and longitude to Leaflet, which throws on `NaN`. So a file with a kept point whose
  latitude or longitude is truthy but not numeric (such as "abc") is rejected by the
  program, through the catch in `processTCXFile`. The model parses and stores it.
- TcxFormat.FormatDistance: kilometres are stated as the exact real `meters / 1000`. The
  two-decimal `toFixed(2)` text is left out.
- TcxFormat.FormatDuration: durations are whole non-negative seconds. Fractional,
  negative and `NaN` inputs of `formatDuration` are left out.
- `generateActivityId` is random, so the id is an input to `TcxViewer.StoreParsed`.
- The Leaflet map and the DOM updates (`addActivityToMap`, `updateUI`, `fitMapToBounds`,
  `toggleActivity`, `focusActivity`). Layers are kept only as the set of ids that have one.
- `FileReader` and the asynchronous loop in `handleFiles`. Files are processed one after
  another, each on its own parsed document.
- The totals in `calculateOverallStats` are floating point. Only `mostCommonSport` is
  modelled.
- TcxViewer.SportCountsCorrect: `sportCounts` is a plain object. JavaScript lists its
  integer-like names, such as "1", first and in numeric order. Names inherited from
  `Object.prototype` also differ: `sportCounts["toString"] || 0` starts from a function,
  and `__proto__` gets no own property. The model counts every name in plain insertion
  order.
- TcxViewer.OverallMostCommon: because of that key order, for sports ["Running", "1"]
  JavaScript reduces over ["1", "Running"] and returns "Running", while the model returns
  "1". Inherited names such as `toString` are not modelled either.
- XmlToJson.ChildrenCollapse: child names inherited from `Object.prototype` are left out.
  `result["constructor"]` is already truthy, so a single `constructor` child becomes a
  two-element array; a `__proto__` child creates no own property. The model treats every
  name as absent until a child adds it.
- TcxParse.FindActivities: `Object.keys` of a string root lists its indices ("ab" gives
  "0" and "1"). `Json.Keys` gives no keys for a string, so the error lists none. The
  converter only returns a string root for a document element that holds nothing but text.
- TcxParse.NothingFound: it covers only roots with no candidate key at all and a falsy
  root-level `Activities`. Roots where a candidate key exists but holds nothing are
  covered by `FindActivities` alone.
