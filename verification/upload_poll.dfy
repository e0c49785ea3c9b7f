/** The upload status poll loop, which appears three times in the source:
    in `upload_file_to_strava` and `sync_activity` of the package, and in
    `sync_activity` of the older script. All three are the same loop: poll;
    stop with the activity id if one is set, stop without one if an error
    is set, otherwise sleep and count the attempt; when the attempt budget
    is used up, give up without an id.

    The remote job is the function `poll`: `poll(n)` is what the n-th poll
    (counting from 0) reports. Sleeps are counted instead of taken. */
module UploadPoll {
  import opened Wrappers

  /** The attributes of the upload object after a `poll()`. */
  datatype PollResponse = PollResponse(activityId: Option<int>, error: Option<string>)

  /** `if upload.activity_id:` is Python truthiness: unset or 0 is false. */
  predicate HasActivityId(r: PollResponse) {
    r.activityId.Some? && r.activityId.value != 0
  }

  /** `elif upload.error:`: unset or empty is false. */
  predicate HasError(r: PollResponse) {
    r.error.Some? && r.error.value != ""
  }

  predicate Pending(r: PollResponse) {
    !HasActivityId(r) && !HasError(r)
  }

  /** How the loop ended. */
  datatype Outcome =
    | Succeeded(activityId: int)   // break with an activity id
    | Rejected(error: string)      // break on an error
    | TimedOut                     // the `while ... else` branch

  /** The loop's effect: how it ended, how many polls it made and how many
      times it slept. */
  datatype Trace = Trace(outcome: Outcome, polls: nat, sleeps: nat)

  /** What the enclosing function returns: the activity id, or None. */
  function Returned(o: Outcome): (r: Option<int>)
    ensures r.Some? <==> o.Succeeded?
    ensures r.Some? ==> r.value == o.activityId
  {
    match o
    case Succeeded(id) => Some(id)
    case _ => None
  }

  /** The loop as a recursive definition, from the state after `attempts`
      pending polls (and as many sleeps). */
  function TrackFrom(poll: nat -> PollResponse, attempts: nat, maxAttempts: int): (t: Trace)
    ensures t.outcome.Succeeded? ==> t.outcome.activityId != 0
    ensures t.outcome.Rejected? ==> t.outcome.error != ""
    decreases maxAttempts - attempts
  {
    if attempts >= maxAttempts then Trace(TimedOut, attempts, attempts)
    else
      var r := poll(attempts);
      if HasActivityId(r) then Trace(Succeeded(r.activityId.value), attempts + 1, attempts)
      else if HasError(r) then Trace(Rejected(r.error.value), attempts + 1, attempts)
      else TrackFrom(poll, attempts + 1, maxAttempts)
  }

  function Track(poll: nat -> PollResponse, maxAttempts: int): Trace {
    TrackFrom(poll, 0, maxAttempts)
  }

  predicate PendingBefore(poll: nat -> PollResponse, n: nat) {
    forall i: nat :: i < n ==> Pending(poll(i))
  }

  /** The loop as written, with the poll count, the sleep count and the
      outcome described independently of the recursive definition. */
  method PollUntilResolved(poll: nat -> PollResponse, maxAttempts: int)
    returns (activityId: Option<int>, outcome: Outcome, polls: nat, sleeps: nat)
    ensures Trace(outcome, polls, sleeps) == Track(poll, maxAttempts)
    ensures activityId == Returned(outcome)
    ensures polls <= if maxAttempts < 0 then 0 else maxAttempts
    ensures PendingBefore(poll, sleeps)
    ensures outcome.Succeeded? ==>
      (polls == sleeps + 1 && HasActivityId(poll(sleeps))
       && outcome.activityId == poll(sleeps).activityId.value)
    ensures outcome.Rejected? ==>
      (polls == sleeps + 1 && !HasActivityId(poll(sleeps)) && HasError(poll(sleeps))
       && outcome.error == poll(sleeps).error.value)
    ensures outcome.TimedOut? ==> polls == sleeps && polls == (if maxAttempts < 0 then 0 else maxAttempts)
  {
    var attempts: nat := 0;
    activityId := None;
    outcome := TimedOut;
    polls := 0;
    sleeps := 0;
    while attempts < maxAttempts
      invariant attempts <= if maxAttempts < 0 then 0 else maxAttempts
      invariant polls == attempts && sleeps == attempts
      invariant PendingBefore(poll, attempts)
      invariant TrackFrom(poll, attempts, maxAttempts) == Track(poll, maxAttempts)
      invariant outcome == TimedOut && activityId == None
      decreases maxAttempts - attempts
    {
      var r := poll(attempts);
      polls := polls + 1;
      if HasActivityId(r) {
        activityId := r.activityId;
        outcome := Succeeded(r.activityId.value);
        return;
      } else if HasError(r) {
        outcome := Rejected(r.error.value);
        return;
      }
      sleeps := sleeps + 1;
      attempts := attempts + 1;
    }
  }

  // ---------------------------------------------------------------------
  // Properties of the loop
  // ---------------------------------------------------------------------

  lemma {:induction false} TrackFromAllPending(poll: nat -> PollResponse, attempts: nat, maxAttempts: int)
    requires attempts <= maxAttempts
    requires forall i: nat :: attempts <= i < maxAttempts ==> Pending(poll(i))
    ensures TrackFrom(poll, attempts, maxAttempts) == Trace(TimedOut, maxAttempts, maxAttempts)
    decreases maxAttempts - attempts
  {
    if attempts < maxAttempts {
      TrackFromAllPending(poll, attempts + 1, maxAttempts);
    }
  }

  /** A job that never resolves: exactly `max_attempts` polls and
      `max_attempts` sleeps, and no activity id — never one poll more. */
  lemma AllPendingTimesOut(poll: nat -> PollResponse, maxAttempts: nat)
    requires PendingBefore(poll, maxAttempts)
    ensures Track(poll, maxAttempts) == Trace(TimedOut, maxAttempts, maxAttempts)
    ensures Returned(Track(poll, maxAttempts).outcome) == None
  {
    TrackFromAllPending(poll, 0, maxAttempts);
  }

  lemma {:induction false} TrackFromFirstResolving(poll: nat -> PollResponse, attempts: nat, k: nat, maxAttempts: int)
    requires attempts <= k < maxAttempts
    requires forall i: nat :: attempts <= i < k ==> Pending(poll(i))
    requires !Pending(poll(k))
    ensures TrackFrom(poll, attempts, maxAttempts) ==
      if HasActivityId(poll(k)) then Trace(Succeeded(poll(k).activityId.value), k + 1, k)
      else Trace(Rejected(poll(k).error.value), k + 1, k)
    decreases k - attempts
  {
    if attempts < k {
      TrackFromFirstResolving(poll, attempts + 1, k, maxAttempts);
    }
  }

  /** The first poll that is not pending decides: poll number k+1 (index k)
      within the budget ends the loop after k+1 polls and k sleeps, with its
      activity id if it has one — the id wins over an error — and otherwise
      with its error and no id. */
  lemma FirstResolvingPollDecides(poll: nat -> PollResponse, k: nat, maxAttempts: int)
    requires k < maxAttempts
    requires PendingBefore(poll, k)
    requires !Pending(poll(k))
    ensures Track(poll, maxAttempts).polls == k + 1
    ensures Track(poll, maxAttempts).sleeps == k
    ensures HasActivityId(poll(k)) ==> Returned(Track(poll, maxAttempts).outcome) == poll(k).activityId
    ensures !HasActivityId(poll(k)) ==>
      Track(poll, maxAttempts).outcome == Rejected(poll(k).error.value)
      && Returned(Track(poll, maxAttempts).outcome) == None
  {
    TrackFromFirstResolving(poll, 0, k, maxAttempts);
  }

  /** A non-positive budget makes no poll and returns None. */
  lemma NoBudgetNoPoll(poll: nat -> PollResponse, maxAttempts: int)
    requires maxAttempts <= 0
    ensures Track(poll, maxAttempts) == Trace(TimedOut, 0, 0)
  {
  }
}
