/** `update_env_file`: rewriting the three Strava token lines of the `.env`
    settings file in place. The file is its sequence of lines as
    `readlines` returns them (each keeps its line break); a file that does
    not exist is `None`. The package copy and the older script copy differ
    only in where the file lives and how the "not found" message is
    printed, so one model covers both. */
module EnvFile {
  import opened Wrappers
  import opened Strings

  /** The token triple a token exchange returns (`token_data`). */
  datatype TokenData = TokenData(accessToken: string, refreshToken: string, expiresAt: int)

  /** The three recognised keys, in the order the rewrite tests them. */
  datatype Field = AccessToken | RefreshToken | ExpiresAt

  function KeyOf(f: Field): string {
    match f
    case AccessToken => "STRAVA_ACCESS_TOKEN"
    case RefreshToken => "STRAVA_REFRESH_TOKEN"
    case ExpiresAt => "STRAVA_TOKEN_EXPIRES_AT"
  }

  /** A line belongs to a key when it begins with `KEY=` exactly. */
  function Prefix(f: Field): string {
    KeyOf(f) + "="
  }

  /** The text written after `KEY=` for each field: the tokens verbatim,
      the expiry in decimal. */
  function ValueOf(f: Field, t: TokenData): string {
    match f
    case AccessToken => t.accessToken
    case RefreshToken => t.refreshToken
    case ExpiresAt => IntToString(t.expiresAt)
  }

  /** The replacement line for a field. */
  function KeyLine(f: Field, t: TokenData): string {
    Prefix(f) + ValueOf(f, t) + "\n"
  }

  /** Which key a line carries, testing the prefixes in the source's order. */
  function FieldOfLine(line: string): Option<Field> {
    if StartsWith(line, Prefix(AccessToken)) then Some(AccessToken)
    else if StartsWith(line, Prefix(RefreshToken)) then Some(RefreshToken)
    else if StartsWith(line, Prefix(ExpiresAt)) then Some(ExpiresAt)
    else None
  }

  /** No line can begin with two of the prefixes: they differ early on. */
  lemma PrefixesExclusive(line: string, f: Field, g: Field)
    requires StartsWith(line, Prefix(f)) && StartsWith(line, Prefix(g))
    ensures f == g
  {
    assert line[7] == Prefix(f)[7] == Prefix(g)[7];
    assert line[13] == Prefix(f)[13] == Prefix(g)[13];
  }

  lemma FieldOfLineIsPrefix(line: string, f: Field)
    ensures FieldOfLine(line) == Some(f) <==> StartsWith(line, Prefix(f))
  {
    if StartsWith(line, Prefix(f)) {
      forall g | StartsWith(line, Prefix(g)) ensures g == f {
        PrefixesExclusive(line, f, g);
      }
    }
  }

  /** One iteration of the rewrite loop. */
  function RewriteLine(line: string, t: TokenData): string {
    match FieldOfLine(line)
    case Some(f) => KeyLine(f, t)
    case None => line
  }

  function RewriteLines(lines: seq<string>, t: TokenData): seq<string> {
    if lines == [] then [] else [RewriteLine(lines[0], t)] + RewriteLines(lines[1..], t)
  }

  /** `update_env_file(token_data)`. A missing file is reported and left
      missing; an existing one has each line rewritten, line for line. */
  function UpdateEnvFile(file: Option<seq<string>>, t: TokenData): (r: Option<seq<string>>)
    ensures file.None? <==> r.None?
    ensures file.Some? ==> |r.value| == |file.value|
    ensures file.Some? ==>
      (forall i, f :: 0 <= i < |file.value| && StartsWith(file.value[i], Prefix(f))
        ==> r.value[i] == Prefix(f) + ValueOf(f, t) + "\n")
    ensures file.Some? ==>
      (forall i :: 0 <= i < |file.value|
        && !StartsWith(file.value[i], Prefix(AccessToken))
        && !StartsWith(file.value[i], Prefix(RefreshToken))
        && !StartsWith(file.value[i], Prefix(ExpiresAt))
        ==> r.value[i] == file.value[i])
  {
    match file
    case None => None
    case Some(lines) =>
      var out := RewriteLines(lines, t);
      RewriteLinesPointwise(lines, t);
      forall i, f | 0 <= i < |lines| && StartsWith(lines[i], Prefix(f))
        ensures out[i] == Prefix(f) + ValueOf(f, t) + "\n"
      {
        FieldOfLineIsPrefix(lines[i], f);
      }
      Some(out)
  }

  lemma {:induction false} RewriteLinesPointwise(lines: seq<string>, t: TokenData)
    ensures |RewriteLines(lines, t)| == |lines|
    ensures forall i :: 0 <= i < |lines| ==> RewriteLines(lines, t)[i] == RewriteLine(lines[i], t)
  {
    if lines != [] {
      RewriteLinesPointwise(lines[1..], t);
    }
  }

  /** A rewritten line carries the same key as before: keys are neither
      added nor removed, and unrecognised lines stay unrecognised. */
  lemma RewriteLineKeepsKey(line: string, t: TokenData)
    ensures FieldOfLine(RewriteLine(line, t)) == FieldOfLine(line)
  {
    match FieldOfLine(line)
    case Some(f) =>
      assert StartsWith(KeyLine(f, t), Prefix(f));
      FieldOfLineIsPrefix(KeyLine(f, t), f);
    case None =>
  }

  /** Rewriting twice with the same tokens gives the same file as once. */
  lemma UpdateIdempotent(file: Option<seq<string>>, t: TokenData)
    ensures UpdateEnvFile(UpdateEnvFile(file, t), t) == UpdateEnvFile(file, t)
  {
    if file.Some? {
      RewriteLinesIdempotent(file.value, t);
    }
  }

  lemma {:induction false} RewriteLinesIdempotent(lines: seq<string>, t: TokenData)
    ensures RewriteLines(RewriteLines(lines, t), t) == RewriteLines(lines, t)
  {
    if lines != [] {
      RewriteLineKeepsKey(lines[0], t);
      var once := RewriteLines(lines, t);
      assert once[1..] == RewriteLines(lines[1..], t);
      RewriteLinesIdempotent(lines[1..], t);
    }
  }

  // ---------------------------------------------------------------------
  // Reading a value back
  // ---------------------------------------------------------------------

  /** A line without its trailing line break. */
  function Chomp(line: string): string {
    if |line| > 0 && line[|line| - 1] == '\n' then line[..|line| - 1] else line
  }

  /** The value a reader of the file sees for a field: the rest of the
      first line that carries the field's key, without its line break. */
  function Lookup(lines: seq<string>, f: Field): Option<string> {
    if lines == [] then None
    else if StartsWith(lines[0], Prefix(f)) then Some(Chomp(lines[0][|Prefix(f)|..]))
    else Lookup(lines[1..], f)
  }

  /** Every key present before an update reads back as the value written
      for it; a key that was absent stays absent (the update never appends
      a line). */
  lemma {:induction false} LookupAfterUpdate(lines: seq<string>, t: TokenData, f: Field)
    ensures var after := UpdateEnvFile(Some(lines), t).value;
      && (Lookup(lines, f).Some? ==> Lookup(after, f) == Some(ValueOf(f, t)))
      && (Lookup(lines, f).None? ==> Lookup(after, f).None?)
  {
    if lines != [] {
      var after := UpdateEnvFile(Some(lines), t).value;
      RewriteLinesPointwise(lines, t);
      assert after[1..] == UpdateEnvFile(Some(lines[1..]), t).value;
      RewriteLineKeepsKey(lines[0], t);
      FieldOfLineIsPrefix(lines[0], f);
      FieldOfLineIsPrefix(after[0], f);
      if StartsWith(lines[0], Prefix(f)) {
        assert after[0] == Prefix(f) + ValueOf(f, t) + "\n";
        assert after[0][|Prefix(f)|..] == ValueOf(f, t) + "\n";
      } else {
        LookupAfterUpdate(lines[1..], t, f);
      }
    }
  }
}
