/** `parseTCX`: finding the activities in a converted TCX document, picking
    the first activity, its sport, and flattening its laps, tracks and
    points into the list of trackpoints the map draws. Number parsing
    (`parseFloat`, `parseInt`) and the lap totals are not modelled: the
    coordinates are kept as the values found in the document. */
module TcxParse {
  import opened Wrappers
  import opened Strings
  import OrderedMap
  import opened Json
  import XmlToJson

  datatype ParseError =
    | NoActivities(availableKeys: seq<string>)   // "No Activities found in TCX file"
    | NoActivityData                             // "No activity data found"

  // ---------------------------------------------------------------------
  // Locating the activities
  // ---------------------------------------------------------------------

  /** `x && x.Activities`, truthy. */
  predicate HasActivities(x: Option<JValue>) {
    Truthy(x) && Truthy(Get(x, "Activities"))
  }

  predicate IsDatabaseKey(key: string) {
    Contains(key, "TrainingCenterDatabase") || Contains(key, "trainingcenterdatabase")
  }

  predicate IsActivitiesKey(key: string) {
    Contains(ToLowerAscii(key), "activities") && !StartsWith(key, "@_")
  }

  /** What the namespaced search accepts: a database-like key whose value
      holds activities. */
  predicate DatabaseHit(root: JValue, key: string) {
    IsDatabaseKey(key) && HasActivities(Get(Some(root), key))
  }

  /** The loop over root keys looking for a namespaced database element
      that holds activities: the index of the first key it accepts, or -1. */
  function FirstDatabaseHit(root: JValue, keys: seq<string>): (j: int)
    ensures -1 <= j < |keys|
    ensures j >= 0 ==> DatabaseHit(root, keys[j])
    ensures forall i :: 0 <= i < |keys| && (j < 0 || i < j) ==> !DatabaseHit(root, keys[i])
  {
    if keys == [] then -1
    else if DatabaseHit(root, keys[0]) then 0
    else
      var j := FirstDatabaseHit(root, keys[1..]);
      assert forall i :: 1 <= i < |keys| ==> keys[i] == keys[1..][i - 1];
      if j < 0 then -1 else j + 1
  }

  /** The last-resort loop: the index of the first key that mentions
      "activities" in any letter case and is not an attribute, or -1. */
  function FirstActivitiesKey(keys: seq<string>): (j: int)
    ensures -1 <= j < |keys|
    ensures j >= 0 ==> IsActivitiesKey(keys[j])
    ensures forall i :: 0 <= i < |keys| && (j < 0 || i < j) ==> !IsActivitiesKey(keys[i])
  {
    if keys == [] then -1
    else if IsActivitiesKey(keys[0]) then 0
    else
      var j := FirstActivitiesKey(keys[1..]);
      assert forall i :: 1 <= i < |keys| ==> keys[i] == keys[1..][i - 1];
      if j < 0 then -1 else j + 1
  }

  /** The four places tried in turn, each only while nothing truthy has
      been found: `TrainingCenterDatabase.Activities`, the first namespaced
      database key holding activities, `Activities` at the root, and the
      value under the first key naming activities (which ends the search
      even when it is falsy). */
  function FindActivities(root: JValue): (r: Result<JValue, ParseError>)
    ensures r.Success? ==> Truthy(Some(r.value))
    ensures r.Failure? ==> r.error == NoActivities(Keys(root))
    ensures HasActivities(Get(Some(root), "TrainingCenterDatabase")) ==>
      r == Success(Get(Get(Some(root), "TrainingCenterDatabase"), "Activities").value)
    // the first namespaced database key that holds activities
    ensures !HasActivities(Get(Some(root), "TrainingCenterDatabase")) && FirstDatabaseHit(root, Keys(root)) >= 0 ==>
      r == Success(Get(Get(Some(root), Keys(root)[FirstDatabaseHit(root, Keys(root))]), "Activities").value)
    // `Activities` at the root
    ensures (!HasActivities(Get(Some(root), "TrainingCenterDatabase")) && FirstDatabaseHit(root, Keys(root)) < 0 &&
             Truthy(Get(Some(root), "Activities"))) ==>
      r == Success(Get(Some(root), "Activities").value)
    // the first key naming activities is final: a falsy value there is a failure
    ensures (!HasActivities(Get(Some(root), "TrainingCenterDatabase")) && FirstDatabaseHit(root, Keys(root)) < 0 &&
             !Truthy(Get(Some(root), "Activities"))) ==>
      && (r.Success? <==> FirstActivitiesKey(Keys(root)) >= 0 && Truthy(Get(Some(root), Keys(root)[FirstActivitiesKey(Keys(root))])))
      && (r.Success? ==> r.value == Get(Some(root), Keys(root)[FirstActivitiesKey(Keys(root))]).value)
  {
    var keys := Keys(root);
    var db := FirstDatabaseHit(root, keys);
    var named := FirstActivitiesKey(keys);
    var found :=
      if HasActivities(Get(Some(root), "TrainingCenterDatabase")) then Get(Get(Some(root), "TrainingCenterDatabase"), "Activities")
      else if db >= 0 then Get(Get(Some(root), keys[db]), "Activities")
      else if Truthy(Get(Some(root), "Activities")) then Get(Some(root), "Activities")
      else if named >= 0 then Get(Some(root), keys[named])
      else None;
    if Truthy(found) then Success(found.value) else Failure(NoActivities(keys))
  }

  /** The converter's usual output: the root object is the database element
      itself, so its `Activities` child is found at the root, provided no
      key looks like a database key. */
  lemma RootLevelActivities(root: JValue)
    requires !Truthy(Get(Some(root), "TrainingCenterDatabase"))
    requires forall k :: k in Keys(root) ==> !IsDatabaseKey(k)
    requires Truthy(Get(Some(root), "Activities"))
    ensures FindActivities(root) == Success(Get(Some(root), "Activities").value)
  {
    assert FirstDatabaseHit(root, Keys(root)) < 0;
  }

  /** When nothing on the root names activities, parsing stops with the
      list of keys that were there. */
  lemma NothingFound(root: JValue)
    requires forall k :: k in Keys(root) ==> !IsActivitiesKey(k) && !IsDatabaseKey(k)
    requires !HasActivities(Get(Some(root), "TrainingCenterDatabase"))
    requires !Truthy(Get(Some(root), "Activities"))
    ensures FindActivities(root) == Failure(NoActivities(Keys(root)))
  {
    assert FirstDatabaseHit(root, Keys(root)) < 0;
    assert FirstActivitiesKey(Keys(root)) < 0;
  }

  // ---------------------------------------------------------------------
  // The activity and its sport
  // ---------------------------------------------------------------------

  /** The activity list: the `Activity` property of the activities value,
      or the value itself when that property is missing or empty. */
  function ActivityList(activities: JValue): JValue {
    Or(Get(Some(activities), "Activity"), activities)
  }

  /** The activity list, or its first element when it is an array.
      A falsy result (as from an empty array) is an error. */
  function ActivityData(activities: JValue): (r: Result<JValue, ParseError>)
    ensures r.Success? ==> Truthy(Some(r.value))
    ensures r.Failure? ==> r.error == NoActivityData
    // a single activity is used as it is
    ensures Truthy(Get(Some(activities), "Activity")) && !Get(Some(activities), "Activity").value.JArray? ==>
      r == Success(Get(Some(activities), "Activity").value)
    // without an `Activity` property the activities value is the activity
    ensures !Truthy(Get(Some(activities), "Activity")) && !activities.JArray? ==>
      (r.Success? <==> Truthy(Some(activities))) && (r.Success? ==> r.value == activities)
    // of a list, the first element, when there is one and it is truthy
    ensures ActivityList(activities).JArray? ==>
      var items := ActivityList(activities).items;
      && (r.Success? <==> |items| > 0 && Truthy(Some(items[0])))
      && (r.Success? ==> r.value == items[0])
  {
    var list := ActivityList(activities);
    var data := if list.JArray? then (if |list.items| > 0 then Some(list.items[0]) else None) else Some(list);
    if Truthy(data) then Success(data.value) else Failure(NoActivityData)
  }

  /** Several activities in one file: only the first is read. */
  lemma FirstActivityUsed(activities: JValue, items: seq<JValue>)
    requires Get(Some(activities), "Activity") == Some(JArray(items))
    requires |items| > 0 && Truthy(Some(items[0]))
    ensures ActivityData(activities) == Success(items[0])
  {
  }

  /** The `@_Sport` attribute, or "Other" when it is missing or empty. */
  function SportOf(data: JValue): (sport: string)
    ensures sport != ""
    ensures Get(Some(data), "@_Sport").None? ==> sport == "Other"
    ensures var a := Get(Some(data), "@_Sport");
      a.Some? && a.value.JString? && a.value.s != "" ==> sport == a.value.s
    ensures sport != "Other" ==> Get(Some(data), "@_Sport") == Some(JString(sport))
  {
    match Get(Some(data), "@_Sport")
    case Some(JString(s)) => if s != "" then s else "Other"
    case _ => "Other"
  }

  // ---------------------------------------------------------------------
  // Trackpoints
  // ---------------------------------------------------------------------

  /** The fields of a trackpoint the model keeps: its coordinates as found
      in the document and its time (`point.Time || ''`). */
  datatype Trackpoint = Trackpoint(lat: JValue, lng: JValue, time: JValue)

  /** A point has a position when its `Position` child and both of that
      child's degree fields are truthy. */
  predicate HasPosition(point: Option<JValue>) {
    var position := Get(point, "Position");
    Truthy(position) && Truthy(Get(position, "LatitudeDegrees")) && Truthy(Get(position, "LongitudeDegrees"))
  }

  function PointOf(point: Option<JValue>): (tp: Trackpoint)
    requires HasPosition(point)
    ensures Truthy(Some(tp.lat)) && Truthy(Some(tp.lng))
  {
    var position := Get(point, "Position");
    Trackpoint(Get(position, "LatitudeDegrees").value, Get(position, "LongitudeDegrees").value,
               Or(Get(point, "Time"), JString("")))
  }

  predicate AllPositioned(tps: seq<Trackpoint>) {
    forall i :: 0 <= i < |tps| ==> Truthy(Some(tps[i].lat)) && Truthy(Some(tps[i].lng))
  }

  /** The innermost loop: a trackpoint for every point with a position. */
  function PointsOf(points: seq<Option<JValue>>): (tps: seq<Trackpoint>)
    ensures AllPositioned(tps)
    ensures |tps| <= |points|
  {
    if points == [] then []
    else
      var last := points[|points| - 1];
      PointsOf(points[..|points| - 1]) + (if HasPosition(last) then [PointOf(last)] else [])
  }

  /** The trackpoints of one track; a track without `Trackpoint` adds none. */
  function TrackPoints(track: Option<JValue>): seq<Trackpoint>
  {
    if !Truthy(Get(track, "Trackpoint")) then [] else PointsOf(AsList(Get(track, "Trackpoint")))
  }

  function TracksOf(tracks: seq<Option<JValue>>): seq<Trackpoint>
  {
    if tracks == [] then [] else TracksOf(tracks[..|tracks| - 1]) + TrackPoints(tracks[|tracks| - 1])
  }

  /** The trackpoints of one lap; a missing lap or one without `Track`
      adds none. */
  function LapPoints(lap: Option<JValue>): seq<Trackpoint>
  {
    if !Truthy(lap) || !Truthy(Get(lap, "Track")) then [] else TracksOf(AsList(Get(lap, "Track")))
  }

  function LapsOf(laps: seq<Option<JValue>>): seq<Trackpoint>
  {
    if laps == [] then [] else LapsOf(laps[..|laps| - 1]) + LapPoints(laps[|laps| - 1])
  }

  /** All trackpoints of an activity, lap by lap, track by track. */
  function Trackpoints(data: JValue): seq<Trackpoint>
  {
    LapsOf(AsList(Get(Some(data), "Lap")))
  }

  /** The three nested loops as written (one method per loop); their
      result is the flattening. */
  method ExtractTrackpoints(data: JValue) returns (trackpoints: seq<Trackpoint>)
    ensures trackpoints == Trackpoints(data)
  {
    var laps := AsList(Get(Some(data), "Lap"));
    trackpoints := [];
    var i := 0;
    while i < |laps|
      invariant 0 <= i <= |laps|
      invariant trackpoints == LapsOf(laps[..i])
    {
      LapsOfPrefix(laps, i);
      var lap := laps[i];
      if Truthy(lap) && Truthy(Get(lap, "Track")) {
        AppendAssoc(trackpoints, LapsOf(laps[..i]), LapPoints(lap));
        trackpoints := AppendTracks(AsList(Get(lap, "Track")), trackpoints);
      }
      i := i + 1;
    }
    assert laps[..i] == laps;
  }

  method AppendTracks(tracks: seq<Option<JValue>>, acc: seq<Trackpoint>) returns (r: seq<Trackpoint>)
    ensures r == acc + TracksOf(tracks)
  {
    r := acc;
    var j := 0;
    while j < |tracks|
      invariant 0 <= j <= |tracks|
      invariant r == acc + TracksOf(tracks[..j])
    {
      TracksOfPrefix(tracks, j);
      AppendAssoc(acc, TracksOf(tracks[..j]), TrackPoints(tracks[j]));
      r := AppendTrack(tracks[j], r);
      j := j + 1;
    }
    assert tracks[..j] == tracks;
  }

  /** One iteration of the track loop: `continue` when the track has no
      `Trackpoint`, otherwise the point loop. */
  method AppendTrack(track: Option<JValue>, acc: seq<Trackpoint>) returns (r: seq<Trackpoint>)
    ensures r == acc + TrackPoints(track)
  {
    if !Truthy(Get(track, "Trackpoint")) {
      return acc;
    }
    r := AppendPoints(AsList(Get(track, "Trackpoint")), acc);
  }

  method AppendPoints(points: seq<Option<JValue>>, acc: seq<Trackpoint>) returns (r: seq<Trackpoint>)
    ensures r == acc + PointsOf(points)
  {
    r := acc;
    var k := 0;
    while k < |points|
      invariant 0 <= k <= |points|
      invariant r == acc + PointsOf(points[..k])
    {
      PointsOfPrefix(points, k);
      if HasPosition(points[k]) {
        AppendAssoc(acc, PointsOf(points[..k]), [PointOf(points[k])]);
        r := r + [PointOf(points[k])];
      }
      k := k + 1;
    }
    assert points[..k] == points;
  }

  lemma AppendAssoc<T>(a: seq<T>, b: seq<T>, c: seq<T>)
    ensures a + b + c == a + (b + c)
  {
  }

  lemma PointsOfPrefix(points: seq<Option<JValue>>, k: nat)
    requires k < |points|
    ensures PointsOf(points[..k + 1]) == PointsOf(points[..k]) + (if HasPosition(points[k]) then [PointOf(points[k])] else [])
  {
    assert points[..k + 1][..k] == points[..k];
  }

  lemma TracksOfPrefix(tracks: seq<Option<JValue>>, j: nat)
    requires j < |tracks|
    ensures TracksOf(tracks[..j + 1]) == TracksOf(tracks[..j]) + TrackPoints(tracks[j])
  {
    assert tracks[..j + 1][..j] == tracks[..j];
  }

  lemma LapsOfPrefix(laps: seq<Option<JValue>>, i: nat)
    requires i < |laps|
    ensures LapsOf(laps[..i + 1]) == LapsOf(laps[..i]) + LapPoints(laps[i])
  {
    assert laps[..i + 1][..i] == laps[..i];
  }

  /** The flattening keeps document order: the trackpoints of consecutive
      laps follow one another. */
  lemma {:induction false} LapsOfAppend(a: seq<Option<JValue>>, b: seq<Option<JValue>>)
    ensures LapsOf(a + b) == LapsOf(a) + LapsOf(b)
    decreases |b|
  {
    if b != [] {
      assert (a + b)[..|a + b| - 1] == a + b[..|b| - 1];
      LapsOfAppend(a, b[..|b| - 1]);
    } else {
      assert a + b == a;
    }
  }

  lemma {:induction false} TracksOfPositioned(tracks: seq<Option<JValue>>)
    ensures AllPositioned(TracksOf(tracks))
  {
    if tracks != [] {
      TracksOfPositioned(tracks[..|tracks| - 1]);
    }
  }

  lemma {:induction false} LapsOfPositioned(laps: seq<Option<JValue>>)
    ensures AllPositioned(LapsOf(laps))
  {
    if laps != [] {
      LapsOfPositioned(laps[..|laps| - 1]);
      var lap := laps[|laps| - 1];
      if Truthy(lap) && Truthy(Get(lap, "Track")) {
        TracksOfPositioned(AsList(Get(lap, "Track")));
      }
    }
  }

  /** Every trackpoint has a latitude and a longitude: points without a
      complete position never reach the list. */
  lemma TrackpointsPositioned(data: JValue)
    ensures AllPositioned(Trackpoints(data))
  {
    LapsOfPositioned(AsList(Get(Some(data), "Lap")));
  }

  /** The point filter works point by point: the trackpoints of two runs
      of points are those of the first followed by those of the second,
      and a single point gives its trackpoint exactly when it has a
      position. */
  lemma {:induction false} PointsOfAppend(a: seq<Option<JValue>>, b: seq<Option<JValue>>)
    ensures PointsOf(a + b) == PointsOf(a) + PointsOf(b)
    decreases |b|
  {
    if b != [] {
      var n := |b| - 1;
      assert (a + b)[..|a + b| - 1] == a + b[..n];
      assert (a + b)[|a + b| - 1] == b[n];
      PointsOfAppend(a, b[..n]);
    } else {
      assert a + b == a;
    }
  }

  lemma PointsOfOne(p: Option<JValue>)
    ensures PointsOf([p]) == if HasPosition(p) then [PointOf(p)] else []
  {
    assert [p][..0] == [];
  }

  /** When every point has a position, each gives exactly one
      trackpoint, in order. */
  lemma {:induction false} PointsOfAllPositioned(points: seq<Option<JValue>>)
    requires forall i :: 0 <= i < |points| ==> HasPosition(points[i])
    ensures |PointsOf(points)| == |points|
    ensures forall i :: 0 <= i < |points| ==> PointsOf(points)[i] == PointOf(points[i])
  {
    if points != [] {
      var n := |points| - 1;
      PointsOfAllPositioned(points[..n]);
      assert PointsOf(points) == PointsOf(points[..n]) + [PointOf(points[n])];
      assert forall i :: 0 <= i < n ==> points[..n][i] == points[i];
    }
  }

  /** Points without a complete position are skipped. */
  lemma {:induction false} PointsOfNonePositioned(points: seq<Option<JValue>>)
    requires forall i :: 0 <= i < |points| ==> !HasPosition(points[i])
    ensures PointsOf(points) == []
  {
    if points != [] {
      PointsOfNonePositioned(points[..|points| - 1]);
    }
  }

  // ---------------------------------------------------------------------
  // The whole parse
  // ---------------------------------------------------------------------

  datatype ParsedActivity = ParsedActivity(sport: string, id: JValue, trackpoints: seq<Trackpoint>)

  /** `parseTCX` on a converted document, without the numeric totals. */
  function ParseTcx(root: JValue): (r: Result<ParsedActivity, ParseError>)
    ensures r.Success? ==> r.value.sport != ""
    ensures FindActivities(root).Failure? ==> r == Failure(FindActivities(root).error)
    ensures FindActivities(root).Success? && ActivityData(FindActivities(root).value).Failure? ==>
      r == Failure(NoActivityData)
    // a success describes the activity the two searches chose
    ensures r.Success? <==> FindActivities(root).Success? && ActivityData(FindActivities(root).value).Success?
    ensures r.Success? ==>
      var data := ActivityData(FindActivities(root).value).value;
      r.value.sport == SportOf(data) && r.value.trackpoints == Trackpoints(data)
  {
    match FindActivities(root)
    case Failure(e) => Failure(e)
    case Success(activities) =>
      match ActivityData(activities)
      case Failure(e) => Failure(e)
      case Success(data) =>
        Success(ParsedActivity(SportOf(data), Or(Get(Some(data), "Id"), JString("")), Trackpoints(data)))
  }
}
