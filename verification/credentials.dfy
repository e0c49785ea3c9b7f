/** `get_strava_client`: loading the stored Strava token triple and
    refreshing it when it has expired. The package copy and the older
    script copy are identical. The clock is the parameter `now` (whole
    epoch seconds), the token exchange is its outcome `exchange`, and the
    environment is the three values `os.getenv` returns. */
module Credentials {
  import opened Wrappers
  import opened Strings
  import EnvFile

  /** The raw environment values: `None` when the variable is unset. */
  datatype StoredTokens = StoredTokens(
    accessToken: Option<string>,
    refreshToken: Option<string>,
    expiresAt: Option<string>)

  /** The triple the client ends up holding. */
  datatype Credential = Credential(
    accessToken: Option<string>,
    refreshToken: Option<string>,
    expiresAt: int)

  /** What a client set-up produced: the credential, the refresh token the
      exchange was asked with (if one was made), and the response handed to
      `update_env_file` (if any). */
  datatype Session = Session(
    credential: Credential,
    exchangedWith: Option<Option<string>>,
    persisted: Option<EnvFile.TokenData>)

  datatype AuthError =
    | ExpiryNotAnInteger(text: string)   // `int(...)` raised
    | ExchangeFailed(reason: string)     // `refresh_access_token` raised

  /** The stored expiry read as an integer; an unset variable counts as 0,
      and text that is not an integer is an error. */
  function StoredExpiry(stored: StoredTokens): Option<int> {
    match stored.expiresAt
    case None => Some(0)
    case Some(text) => ParseInt(text)
  }

  function FromResponse(t: EnvFile.TokenData): Credential {
    Credential(Some(t.accessToken), Some(t.refreshToken), t.expiresAt)
  }

  /** Set-up of the Strava client. */
  function GetStravaClient(stored: StoredTokens, now: int, exchange: Result<EnvFile.TokenData, string>)
    : (r: Result<Session, AuthError>)
    // a malformed stored expiry fails before the expiry is compared with now
    ensures StoredExpiry(stored).None? <==> r.Failure? && r.error.ExpiryNotAnInteger?
    ensures StoredExpiry(stored).None? ==> stored.expiresAt.Some? && r.error.text == stored.expiresAt.value
    // still valid: the stored triple, untouched, and no exchange or write
    ensures StoredExpiry(stored).Some? && StoredExpiry(stored).value > now ==>
      r == Success(Session(Credential(stored.accessToken, stored.refreshToken, StoredExpiry(stored).value), None, None))
    // expired (including expiring exactly now): one exchange with the stored refresh token
    ensures StoredExpiry(stored).Some? && StoredExpiry(stored).value <= now && exchange.Failure? ==>
      r == Failure(ExchangeFailed(exchange.error))
    ensures StoredExpiry(stored).Some? && StoredExpiry(stored).value <= now && exchange.Success? ==>
      && r.Success?
      && r.value.exchangedWith == Some(stored.refreshToken)
      && r.value.credential.accessToken == Some(exchange.value.accessToken)
      && r.value.credential.refreshToken == Some(exchange.value.refreshToken)
      && r.value.credential.expiresAt == exchange.value.expiresAt
      && r.value.persisted == Some(exchange.value)
  {
    match StoredExpiry(stored)
    case None => Failure(ExpiryNotAnInteger(stored.expiresAt.value))
    case Some(expiresAt) =>
      var current := Credential(stored.accessToken, stored.refreshToken, expiresAt);
      if expiresAt <= now then
        match exchange
        case Failure(reason) => Failure(ExchangeFailed(reason))
        case Success(t) => Success(Session(FromResponse(t), Some(current.refreshToken), Some(t)))
      else
        Success(Session(current, None, None))
  }

  /** A refresh happens exactly when the stored expiry is not after `now`. */
  lemma RefreshIffExpired(stored: StoredTokens, now: int, exchange: Result<EnvFile.TokenData, string>)
    requires GetStravaClient(stored, now, exchange).Success?
    ensures var s := GetStravaClient(stored, now, exchange).value;
      && (s.exchangedWith.Some? <==> StoredExpiry(stored).value <= now)
      && (s.persisted.Some? <==> s.exchangedWith.Some?)
  {
  }

  /** With no stored expiry, any clock at or after the epoch forces a refresh. */
  lemma MissingExpiryRefreshes(stored: StoredTokens, now: int, t: EnvFile.TokenData)
    requires stored.expiresAt.None? && now >= 0
    ensures GetStravaClient(stored, now, Success(t)) ==
      Success(Session(FromResponse(t), Some(stored.refreshToken), Some(t)))
  {
  }

  // ---------------------------------------------------------------------
  // Persisting and reloading
  // ---------------------------------------------------------------------

  /** The `.env` file after a client set-up: rewritten with the response
      that was handed to `update_env_file`, untouched otherwise. */
  function PersistSession(file: Option<seq<string>>, s: Session): Option<seq<string>> {
    match s.persisted
    case None => file
    case Some(t) => EnvFile.UpdateEnvFile(file, t)
  }

  /** The stored values the next process start reads from a file. */
  function ReadStored(lines: seq<string>): StoredTokens {
    StoredTokens(
      EnvFile.Lookup(lines, EnvFile.AccessToken),
      EnvFile.Lookup(lines, EnvFile.RefreshToken),
      EnvFile.Lookup(lines, EnvFile.ExpiresAt))
  }

  predicate HasAllKeys(lines: seq<string>) {
    ReadStored(lines).accessToken.Some?
    && ReadStored(lines).refreshToken.Some?
    && ReadStored(lines).expiresAt.Some?
  }

  /** Round trip: when the file carries all three keys, a refresh followed
      by a reload gives back exactly the refreshed credential, and a later
      start before the new expiry makes no exchange and no write. */
  lemma RefreshThenReload(
    lines: seq<string>, stored: StoredTokens, now: int, t: EnvFile.TokenData,
    later: int, next: Result<EnvFile.TokenData, string>)
    requires HasAllKeys(lines)
    requires GetStravaClient(stored, now, Success(t)).Success?
    requires GetStravaClient(stored, now, Success(t)).value.persisted.Some?
    requires later < t.expiresAt
    ensures var s := GetStravaClient(stored, now, Success(t)).value;
      var after := PersistSession(Some(lines), s).value;
      && StoredExpiry(ReadStored(after)) == Some(s.credential.expiresAt)
      && GetStravaClient(ReadStored(after), later, next) == Success(Session(s.credential, None, None))
  {
    var after := EnvFile.UpdateEnvFile(Some(lines), t).value;
    EnvFile.LookupAfterUpdate(lines, t, EnvFile.AccessToken);
    EnvFile.LookupAfterUpdate(lines, t, EnvFile.RefreshToken);
    EnvFile.LookupAfterUpdate(lines, t, EnvFile.ExpiresAt);
    IntToStringRoundTrip(t.expiresAt);
  }

  /** A refresh token is lost when the file has no line for its key: the
      update does not append one, so the next start reads no refresh token. */
  lemma MissingKeyNotPersisted(lines: seq<string>, stored: StoredTokens, now: int, t: EnvFile.TokenData)
    requires ReadStored(lines).refreshToken.None?
    requires GetStravaClient(stored, now, Success(t)).Success?
    ensures var s := GetStravaClient(stored, now, Success(t)).value;
      ReadStored(PersistSession(Some(lines), s).value).refreshToken.None?
  {
    EnvFile.LookupAfterUpdate(lines, t, EnvFile.RefreshToken);
  }

  /** A missing `.env` does not stop the set-up: the refreshed credential
      is returned although nothing was written. */
  lemma MissingFileStillReturns(stored: StoredTokens, now: int, t: EnvFile.TokenData)
    requires StoredExpiry(stored).Some? && StoredExpiry(stored).value <= now
    ensures var r := GetStravaClient(stored, now, Success(t));
      && r.Success? && r.value.credential == FromResponse(t)
      && PersistSession(None, r.value).None?
  {
  }
}
