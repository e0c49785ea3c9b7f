/** The TCX viewer's state and its pure decisions: which selected files are
    read, which parsed activities are kept, removing one, and the most
    common sport in the overall statistics. The map, the DOM and the file
    reader are not modelled; a file is its name and its converted
    document, and activity ids (random in the viewer) are inputs. */
module TcxViewer {
  import opened Wrappers
  import opened Strings
  import OrderedMap
  import opened Json
  import TcxParse

  // ---------------------------------------------------------------------
  // File selection
  // ---------------------------------------------------------------------

  /** A file name that ends in `.tcx`, ignoring case. */
  predicate IsTcxName(name: string) {
    EndsWith(ToLowerAscii(name), ".tcx")
  }

  /** The selected files a viewer reads: the document is what the XML
      converter made of the file's text. */
  datatype SelectedFile = SelectedFile(name: string, document: JValue)

  /** The `.tcx` files among the selection, in selection order. */
  function TcxFiles(files: seq<SelectedFile>): (r: seq<SelectedFile>)
    ensures |r| <= |files|
    ensures forall f :: f in r <==> f in files && IsTcxName(f.name)
  {
    if files == [] then []
    else TcxFiles(files[..|files| - 1]) + (if IsTcxName(files[|files| - 1].name) then [files[|files| - 1]] else [])
  }

  /** Filtering keeps the selection's order: it distributes over
      concatenation. */
  lemma {:induction false} TcxFilesAppend(a: seq<SelectedFile>, b: seq<SelectedFile>)
    ensures TcxFiles(a + b) == TcxFiles(a) + TcxFiles(b)
    decreases |b|
  {
    if b != [] {
      assert (a + b)[..|a + b| - 1] == a + b[..|b| - 1];
      TcxFilesAppend(a, b[..|b| - 1]);
    } else {
      assert a + b == a;
    }
  }

  datatype Selection =
    | NoTcxFiles                         // "Please select TCX files only."
    | Process(files: seq<SelectedFile>)

  /** The check at the top of `handleFiles`. */
  function HandleFiles(files: seq<SelectedFile>): (r: Selection)
    ensures r.NoTcxFiles? <==> forall i :: 0 <= i < |files| ==> !IsTcxName(files[i].name)
    ensures r.Process? ==> r.files != [] && r.files == TcxFiles(files)
  {
    var tcx := TcxFiles(files);
    if tcx == [] then
      NoTcxFiles
    else
      assert tcx[0] in files;
      Process(tcx)
  }

  // ---------------------------------------------------------------------
  // Stored activities
  // ---------------------------------------------------------------------

  datatype Activity = Activity(filename: string, parsed: TcxParse.ParsedActivity)

  /** `activities` (a `Map` in insertion order) and the ids that have a
      map layer (`activityLayers`). */
  datatype Viewer = Viewer(activities: OrderedMap.Entries<int, Activity>, layers: set<int>)

  /** Every id appears once, every stored activity has a layer and at
      least one trackpoint, and every layer belongs to a stored activity. */
  ghost predicate Valid(v: Viewer) {
    && OrderedMap.DistinctKeys(v.activities)
    && (forall id :: id in v.layers <==> id in OrderedMap.Keys(v.activities))
    && (forall i :: 0 <= i < |v.activities| ==> |v.activities[i].1.parsed.trackpoints| > 0)
  }

  const Empty := Viewer([], {})

  datatype LoadError =
    | ParseFailed(error: TcxParse.ParseError)
    | NoValidTrackpoints                      // "No valid trackpoints found"

  /** The storing half of `processTCXFile`, given what parsing the file
      produced: a parse error is passed on, and the activity is stored under
      `id` only when at least one trackpoint was found. */
  function StoreParsed(v: Viewer, id: int, name: string, parsed: Result<TcxParse.ParsedActivity, TcxParse.ParseError>)
    : (r: Result<Viewer, LoadError>)
    ensures parsed.Failure? ==> r == Failure(ParseFailed(parsed.error))
    ensures r.Failure? ==> r.error.ParseFailed? || |parsed.value.trackpoints| == 0
    ensures r.Success? ==>
      && parsed.Success?
      && OrderedMap.Get(r.value.activities, id) == Some(Activity(name, parsed.value))
      && |parsed.value.trackpoints| > 0
      && r.value.layers == v.layers + {id}
      && (forall other :: other != id ==> OrderedMap.Get(r.value.activities, other) == OrderedMap.Get(v.activities, other))
    ensures r.Success? ==>
      OrderedMap.Keys(r.value.activities) ==
        if id in OrderedMap.Keys(v.activities) then OrderedMap.Keys(v.activities)
        else OrderedMap.Keys(v.activities) + [id]
    ensures parsed.Success? && |parsed.value.trackpoints| > 0 ==>
      r.Success? && id in OrderedMap.Keys(r.value.activities)
  {
    match parsed
    case Failure(e) => Failure(ParseFailed(e))
    case Success(a) =>
      if |a.trackpoints| > 0 then
        Success(Viewer(OrderedMap.Set(v.activities, id, Activity(name, a)), v.layers + {id}))
      else
        Failure(NoValidTrackpoints)
  }

  /** `processTCXFile`: parse the file's document, then store. A parse
      error rejects the file; a parsed activity is stored under `id`
      exactly when it has a trackpoint. */
  function ProcessFile(v: Viewer, id: int, file: SelectedFile): (r: Result<Viewer, LoadError>)
    ensures TcxParse.ParseTcx(file.document).Failure? ==>
      r == Failure(ParseFailed(TcxParse.ParseTcx(file.document).error))
    ensures r.Success? <==>
      TcxParse.ParseTcx(file.document).Success? && |TcxParse.ParseTcx(file.document).value.trackpoints| > 0
    ensures r.Success? ==>
      && OrderedMap.Get(r.value.activities, id) == Some(Activity(file.name, TcxParse.ParseTcx(file.document).value))
      && r.value.layers == v.layers + {id}
      && (forall other :: other != id ==> OrderedMap.Get(r.value.activities, other) == OrderedMap.Get(v.activities, other))
      && OrderedMap.Keys(r.value.activities) ==
           if id in OrderedMap.Keys(v.activities) then OrderedMap.Keys(v.activities)
           else OrderedMap.Keys(v.activities) + [id]
  {
    StoreParsed(v, id, file.name, TcxParse.ParseTcx(file.document))
  }

  lemma {:induction false} SetEntryAt<K(!new), V>(m: OrderedMap.Entries<K, V>, k: K, v: V, i: nat)
    requires OrderedMap.DistinctKeys(m) && i < |OrderedMap.Set(m, k, v)|
    ensures OrderedMap.Set(m, k, v)[i] == (if OrderedMap.Set(m, k, v)[i].0 == k then (k, v) else m[i])
  {
    var r := OrderedMap.Set(m, k, v);
    OrderedMap.SetKeepsDistinct(m, k, v);
    OrderedMap.GetAt(r, i);
    if r[i].0 != k {
      assert i < |m|;
      assert OrderedMap.Keys(r)[i] == OrderedMap.Keys(m)[i];
      OrderedMap.GetAt(m, i);
    }
  }

  /** Storing keeps the viewer valid. */
  lemma StoreParsedValid(v: Viewer, id: int, name: string, parsed: Result<TcxParse.ParsedActivity, TcxParse.ParseError>)
    requires Valid(v)
    ensures StoreParsed(v, id, name, parsed).Success? ==> Valid(StoreParsed(v, id, name, parsed).value)
  {
    var r := StoreParsed(v, id, name, parsed);
    if r.Success? {
      var a := Activity(name, parsed.value);
      OrderedMap.SetKeepsDistinct(v.activities, id, a);
      var m := r.value.activities;
      forall i | 0 <= i < |m| ensures |m[i].1.parsed.trackpoints| > 0 {
        SetEntryAt(v.activities, id, a, i);
      }
    }
  }

  /** `removeActivity(id)`: drop the layer if there is one and the
      activity. */
  function RemoveActivity(v: Viewer, id: int): (r: Viewer)
    ensures id !in OrderedMap.Keys(r.activities) && id !in r.layers
    ensures forall other :: other != id ==> OrderedMap.Get(r.activities, other) == OrderedMap.Get(v.activities, other)
    ensures r.layers == v.layers - {id}
    ensures OrderedMap.Keys(r.activities) == OrderedMap.DeletedKeys(OrderedMap.Keys(v.activities), id)
  {
    OrderedMap.DeleteKeys(v.activities, id);
    Viewer(OrderedMap.Delete(v.activities, id), v.layers - {id})
  }

  /** Removing keeps the viewer valid and shrinks it by exactly one when
      the id was there; an unknown id changes nothing. */
  lemma RemoveActivityValid(v: Viewer, id: int)
    requires Valid(v)
    ensures Valid(RemoveActivity(v, id))
    ensures id in OrderedMap.Keys(v.activities) ==> |RemoveActivity(v, id).activities| == |v.activities| - 1
    ensures id !in OrderedMap.Keys(v.activities) ==> RemoveActivity(v, id) == v
  {
    var r := RemoveActivity(v, id);
    OrderedMap.DeleteKeepsDistinct(v.activities, id);
    DeleteKeepsTrackpoints(v, id);
    assert forall x :: x in r.layers <==> x in OrderedMap.Keys(r.activities);
    if id !in OrderedMap.Keys(v.activities) {
      DeleteAbsent(v.activities, id);
    }
  }

  lemma DeleteKeepsTrackpoints(v: Viewer, id: int)
    requires Valid(v)
    ensures forall i :: 0 <= i < |RemoveActivity(v, id).activities| ==> |RemoveActivity(v, id).activities[i].1.parsed.trackpoints| > 0
  {
    var r := RemoveActivity(v, id);
    DeleteSubset(v.activities, id);
    forall i | 0 <= i < |r.activities| ensures |r.activities[i].1.parsed.trackpoints| > 0 {
      assert r.activities[i] in v.activities;
      var j :| 0 <= j < |v.activities| && v.activities[j] == r.activities[i];
    }
  }

  lemma {:induction false} DeleteSubset<K(!new), V>(m: OrderedMap.Entries<K, V>, k: K)
    ensures forall e :: e in OrderedMap.Delete(m, k) ==> e in m
    ensures |OrderedMap.Delete(m, k)| == |OrderedMap.Keys(OrderedMap.Delete(m, k))|
  {
    if m != [] {
      DeleteSubset(m[1..], k);
    }
  }

  lemma {:induction false} DeleteAbsent<K(!new), V>(m: OrderedMap.Entries<K, V>, k: K)
    requires k !in OrderedMap.Keys(m)
    ensures OrderedMap.Delete(m, k) == m
  {
    if m != [] {
      assert m[0].0 == OrderedMap.Keys(m)[0];
      assert OrderedMap.Keys(m[1..]) == OrderedMap.Keys(m)[1..];
      DeleteAbsent(m[1..], k);
    }
  }

  // ---------------------------------------------------------------------
  // Most common sport
  // ---------------------------------------------------------------------

  /** The occurrences of a sport in a list. */
  function Occurrences(sports: seq<string>, s: string): nat {
    multiset(sports)[s]
  }

  /** The sports in order of first appearance, given those already seen. */
  function FirstAppearancesFrom(seen: seq<string>, sports: seq<string>): (r: seq<string>)
    ensures forall s :: s in r <==> s in seen || s in sports
    ensures OrderedMap.Distinct(seen) ==> OrderedMap.Distinct(r)
    decreases |sports|
  {
    if sports == [] then seen
    else
      var h := sports[0];
      assert sports == [h] + sports[1..];
      FirstAppearancesFrom(if h in seen then seen else seen + [h], sports[1..])
  }

  function FirstAppearances(sports: seq<string>): (r: seq<string>)
    ensures forall s :: s in r <==> s in sports
    ensures OrderedMap.Distinct(r)
  {
    FirstAppearancesFrom([], sports)
  }

  /** One more activity of `sport`: its count goes up by one, starting
      from zero for a sport not seen before. */
  function Bump(counts: OrderedMap.Entries<string, int>, sport: string): OrderedMap.Entries<string, int> {
    OrderedMap.Set(counts, sport, OrderedMap.Get(counts, sport).GetOr(0) + 1)
  }

  /** The counting loop over the activities in order. */
  function CountFrom(counts: OrderedMap.Entries<string, int>, sports: seq<string>): OrderedMap.Entries<string, int>
    decreases |sports|
  {
    if sports == [] then counts else CountFrom(Bump(counts, sports[0]), sports[1..])
  }

  function SportCounts(sports: seq<string>): OrderedMap.Entries<string, int> {
    CountFrom([], sports)
  }

  /** The counting object has one key per sport, in order of first
      appearance, and counts every occurrence. */
  lemma SportCountsCorrect(sports: seq<string>)
    ensures OrderedMap.Keys(SportCounts(sports)) == FirstAppearances(sports)
    ensures forall s :: s in sports ==> OrderedMap.Get(SportCounts(sports), s) == Some(Occurrences(sports, s))
    ensures forall s :: s !in sports ==> OrderedMap.Get(SportCounts(sports), s).None?
  {
    CountFromKeys([], sports);
    forall s | s in sports ensures OrderedMap.Get(SportCounts(sports), s) == Some(Occurrences(sports, s)) {
      SportCountGet(sports, s);
    }
    forall s | s !in sports ensures OrderedMap.Get(SportCounts(sports), s).None? {
      SportCountGet(sports, s);
    }
  }

  lemma SportCountGet(sports: seq<string>, s: string)
    ensures s in sports ==> OrderedMap.Get(SportCounts(sports), s) == Some(Occurrences(sports, s))
    ensures s !in sports ==> OrderedMap.Get(SportCounts(sports), s).None?
  {
    var none: OrderedMap.Entries<string, int> := [];
    CountFromGet(none, sports, s);
    assert OrderedMap.Get(none, s) == None;
  }

  lemma {:induction false} CountFromKeys(counts: OrderedMap.Entries<string, int>, sports: seq<string>)
    ensures OrderedMap.Keys(CountFrom(counts, sports)) == FirstAppearancesFrom(OrderedMap.Keys(counts), sports)
    decreases |sports|
  {
    if sports != [] {
      var h := sports[0];
      var ks := OrderedMap.Keys(counts);
      assert OrderedMap.Keys(Bump(counts, h)) == if h in ks then ks else ks + [h];
      assert CountFrom(counts, sports) == CountFrom(Bump(counts, h), sports[1..]);
      assert FirstAppearancesFrom(ks, sports) == FirstAppearancesFrom(if h in ks then ks else ks + [h], sports[1..]);
      CountFromKeys(Bump(counts, h), sports[1..]);
    }
  }

  lemma {:induction false} CountFromGet(counts: OrderedMap.Entries<string, int>, sports: seq<string>, s: string)
    ensures OrderedMap.Get(CountFrom(counts, sports), s).GetOr(0) == OrderedMap.Get(counts, s).GetOr(0) + Occurrences(sports, s)
    ensures OrderedMap.Get(CountFrom(counts, sports), s).None? <==> OrderedMap.Get(counts, s).None? && s !in sports
    decreases |sports|
  {
    if sports != [] {
      BumpGet(counts, sports[0], s);
      OccurrencesCons(sports, s);
      CountFromGet(Bump(counts, sports[0]), sports[1..], s);
    }
  }

  /** Bumping a sport adds one to its count (from 0 when missing) and
      leaves every other count alone. */
  lemma BumpGet(counts: OrderedMap.Entries<string, int>, h: string, s: string)
    ensures OrderedMap.Get(Bump(counts, h), s).GetOr(0) == OrderedMap.Get(counts, s).GetOr(0) + (if s == h then 1 else 0)
    ensures OrderedMap.Get(Bump(counts, h), s).None? <==> OrderedMap.Get(counts, s).None? && s != h
  {
  }

  lemma OccurrencesCons(sports: seq<string>, s: string)
    requires sports != []
    ensures Occurrences(sports, s) == Occurrences(sports[1..], s) + (if s == sports[0] then 1 else 0)
    ensures s in sports <==> s == sports[0] || s in sports[1..]
  {
    assert sports == [sports[0]] + sports[1..];
    assert multiset(sports) == multiset{sports[0]} + multiset(sports[1..]);
  }

  /** The reduction's comparison of two counts, where a missing count is
      `undefined` and every comparison with it is false. */
  predicate CountGreater(counts: OrderedMap.Entries<string, int>, a: string, b: string) {
    var ca := OrderedMap.Get(counts, a);
    var cb := OrderedMap.Get(counts, b);
    ca.Some? && cb.Some? && ca.value > cb.value
  }

  /** What the reduction knows after the first `i` keys: `at` is the
      position of the current choice, or -1 while it is still the initial
      "None", and `best` is its count whenever it has one. */
  ghost predicate Reduced(counts: OrderedMap.Entries<string, int>, i: nat, sport: string, at: int, best: int) {
    && i <= |counts|
    && -1 <= at < i
    && (at >= 0 ==> counts[at].0 == sport)
    && (at < 0 ==> sport == "None")
    && (i > 0 ==> OrderedMap.Get(counts, sport).Some?)
    && (OrderedMap.Get(counts, sport).Some? ==> OrderedMap.Get(counts, sport) == Some(best))
    && (forall k :: 0 <= k < i ==> counts[k].1 <= best)
    && (forall k :: at < k < i ==> counts[k].1 < best)
  }

  /** A step keeps the current choice when its count beats the next key's. */
  lemma ReduceKeep(counts: OrderedMap.Entries<string, int>, i: nat, sport: string, at: int, best: int)
    requires OrderedMap.DistinctKeys(counts) && i < |counts|
    requires Reduced(counts, i, sport, at, best)
    requires CountGreater(counts, sport, counts[i].0)
    ensures Reduced(counts, i + 1, sport, at, best)
  {
    OrderedMap.GetAt(counts, i);
    assert counts[i].1 < best;
  }

  /** Otherwise the next key becomes the choice. */
  lemma ReduceSwitch(counts: OrderedMap.Entries<string, int>, i: nat, sport: string, at: int, best: int)
    requires OrderedMap.DistinctKeys(counts) && i < |counts|
    requires Reduced(counts, i, sport, at, best)
    requires !CountGreater(counts, sport, counts[i].0)
    ensures Reduced(counts, i + 1, counts[i].0, i, counts[i].1)
  {
    OrderedMap.GetAt(counts, i);
    if i > 0 {
      assert OrderedMap.Get(counts, sport) == Some(best);
      assert best <= counts[i].1;
    }
    assert forall k :: 0 <= k < i + 1 ==> counts[k].1 <= counts[i].1;
  }

  /** The reduce over the counted sports in key order, starting from
      "None" and moving to the next key unless the current one's count is
      strictly larger: "None" without activities; otherwise a sport with
      the highest count, the one whose key comes last among those tied. */
  method MostCommonSport(counts: OrderedMap.Entries<string, int>) returns (sport: string)
    requires OrderedMap.DistinctKeys(counts)
    ensures counts == [] ==> sport == "None"
    ensures counts != [] ==> sport in OrderedMap.Keys(counts)
    ensures counts != [] ==> forall i :: 0 <= i < |counts| ==> counts[i].1 <= OrderedMap.Get(counts, sport).value
    ensures forall i, j :: 0 <= i < j < |counts| && counts[i].0 == sport ==> counts[j].1 < counts[i].1
  {
    sport := "None";
    ghost var at := -1;
    ghost var best := OrderedMap.Get(counts, sport).GetOr(0);
    var i := 0;
    while i < |counts|
      invariant Reduced(counts, i, sport, at, best)
    {
      if CountGreater(counts, sport, counts[i].0) {
        ReduceKeep(counts, i, sport, at, best);
      } else {
        ReduceSwitch(counts, i, sport, at, best);
        sport, at, best := counts[i].0, i, counts[i].1;
      }
      i := i + 1;
    }
    ReduceResult(counts, sport, at, best);
  }

  /** What the finished reduction knows gives the result's properties. */
  lemma ReduceResult(counts: OrderedMap.Entries<string, int>, sport: string, at: int, best: int)
    requires OrderedMap.DistinctKeys(counts)
    requires Reduced(counts, |counts|, sport, at, best)
    ensures counts == [] ==> sport == "None"
    ensures counts != [] ==> sport in OrderedMap.Keys(counts)
    ensures counts != [] ==> forall i :: 0 <= i < |counts| ==> counts[i].1 <= OrderedMap.Get(counts, sport).value
    ensures forall i, j :: 0 <= i < j < |counts| && counts[i].0 == sport ==> counts[j].1 < counts[i].1
  {
    if counts != [] && at < 0 {
      // "None" beat every key, so it is a key and beat itself
      var k :| 0 <= k < |counts| && counts[k].0 == "None";
      OrderedMap.GetAt(counts, k);
      assert false;
    }
    forall i, j | 0 <= i < j < |counts| && counts[i].0 == sport ensures counts[j].1 < counts[i].1 {
      OrderedMap.GetAt(counts, i);
      assert i == at;
    }
  }

  /** The overall statistic: over the stored activities' sports, the most
      common sport occurs at least as often as any other, and no sport that
      first appears after it occurs as often. */
  method OverallMostCommon(sports: seq<string>) returns (sport: string)
    ensures sports == [] ==> sport == "None"
    ensures sports != [] ==> sport in sports
    ensures forall s :: s in sports ==> Occurrences(sports, s) <= Occurrences(sports, sport)
    ensures forall i, j :: 0 <= i < j < |FirstAppearances(sports)| && FirstAppearances(sports)[i] == sport ==>
      Occurrences(sports, FirstAppearances(sports)[j]) < Occurrences(sports, sport)
  {
    var counts := SportCounts(sports);
    SportCountsCorrect(sports);
    sport := MostCommonSport(counts);
    if sports != [] {
      forall s | s in sports ensures Occurrences(sports, s) <= Occurrences(sports, sport) {
        var k :| 0 <= k < |counts| && counts[k].0 == s;
        OrderedMap.GetAt(counts, k);
      }
    }
    forall i, j | 0 <= i < j < |counts| && counts[i].0 == sport
      ensures Occurrences(sports, counts[j].0) < Occurrences(sports, sport)
    {
      OrderedMap.GetAt(counts, i);
      OrderedMap.GetAt(counts, j);
    }
  }
}
