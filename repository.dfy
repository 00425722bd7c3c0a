/**
 * The `Repository` class of backup.py: one backup destination, how its location
 * and password are resolved, and its two engine operations `initialize` and
 * `check`. A repository is never changed after it is built, so it is a value.
 */
module Repositories {
  import opened Results
  import opened Engine

  /**
   * A backup destination. `access` (the source's `method`) is free text: only "local" and "sftp" are
   * supported, anything else is rejected when the location is resolved.
   * `description` is carried but never read.
   */
  datatype Repository = Repository(
    name: string,
    description: string,
    access: string,
    path: Option<string>,
    password: Option<string>,
    host: Option<string>,
    user: Option<string>,
    identityFile: Option<string>)

  /** The password used when a repository has none. */
  const FallbackPassword: string := "123"

  /** The reasons `get_url` raises `RepositoryError`. */
  datatype RepositoryError =
    | NoLocalPath(name: string)
    | NoSftpPath(name: string)
    | NoSftpHost(name: string)
    | UnsupportedMethod(access: string)

  /** The repository password, or the fallback when it is unset or empty. */
  function GetPassword(r: Repository): (pw: string)
    ensures pw != ""
    ensures Present(r.password) ==> pw == r.password.value
    ensures !Present(r.password) ==> pw == FallbackPassword
  {
    if Present(r.password) then r.password.value else FallbackPassword
  }

  /** The location string handed to the engine with `-r`, or why there is none. */
  function GetUrl(r: Repository): (res: Result<string, RepositoryError>)
    ensures res.Ok? <==> Present(r.path) && (r.access == "local" || (r.access == "sftp" && Present(r.host)))
    ensures res == Err(NoLocalPath(r.name)) <==> r.access == "local" && !Present(r.path)
    ensures res == Err(NoSftpPath(r.name)) <==> r.access == "sftp" && !Present(r.path)
    ensures res == Err(NoSftpHost(r.name)) <==> r.access == "sftp" && Present(r.path) && !Present(r.host)
    ensures res == Err(UnsupportedMethod(r.access)) <==> r.access != "local" && r.access != "sftp"
    ensures res.Ok? && r.access == "local" ==> res.value == r.path.value
    ensures res.Ok? && r.access == "sftp" ==>
      res.value == "sftp:" + (if Present(r.user) then r.user.value + "@" else "") + r.host.value + ":" + r.path.value
  {
    if r.access == "local" then
      if !Present(r.path) then Err(NoLocalPath(r.name))
      else Ok(r.path.value)
    else if r.access == "sftp" then
      if !Present(r.path) then Err(NoSftpPath(r.name))
      else if !Present(r.host) then Err(NoSftpHost(r.name))
      else if Present(r.user) then Ok("sftp:" + r.user.value + "@" + r.host.value + ":" + r.path.value)
      else Ok("sftp:" + r.host.value + ":" + r.path.value)
    else
      Err(UnsupportedMethod(r.access))
  }

  /** The index of the first `c` in `s`, or `|s|` when there is none. */
  function FindFirst(s: string, c: char): (i: nat)
    ensures i <= |s|
    ensures i < |s| ==> s[i] == c
    ensures forall j :: 0 <= j < i ==> s[j] != c
  {
    if s == [] then 0
    else if s[0] == c then 0
    else 1 + FindFirst(s[1..], c)
  }

  lemma FindFirstAt(s: string, c: char, t: string)
    requires c !in s
    ensures FindFirst(s + [c] + t, c) == |s|
  {
    var u := s + [c] + t;
    assert u[|s|] == c;
    assert forall j :: 0 <= j < |s| ==> u[j] == s[j];
  }

  lemma FindFirstAbsent(s: string, c: char)
    requires c !in s
    ensures FindFirst(s, c) == |s|
  {
  }

  /** The parts of an sftp location. */
  datatype SftpLocation = SftpLocation(user: Option<string>, host: string, path: string)

  /** Splits `[user@]host` at its first `@`. */
  function ParseAuthority(authority: string, path: string): SftpLocation
  {
    var j := FindFirst(authority, '@');
    if j == |authority| then SftpLocation(None, authority, path)
    else SftpLocation(Some(authority[..j]), authority[j + 1..], path)
  }

  /**
   * Reads an sftp location `sftp:[user@]host:path`: the host ends at the first
   * `:` after the prefix, and a user is present when that part holds an `@`.
   */
  function ParseSftpUrl(url: string): Option<SftpLocation>
  {
    if |url| < 5 || url[..5] != "sftp:" then None
    else
      var rest := url[5..];
      var i := FindFirst(rest, ':');
      if i == |rest| then None
      else Some(ParseAuthority(rest[..i], rest[i + 1..]))
  }

  lemma ParseSftpUrlOf(authority: string, path: string)
    requires ':' !in authority
    ensures ParseSftpUrl("sftp:" + authority + ":" + path) == Some(ParseAuthority(authority, path))
  {
    var url := "sftp:" + authority + ":" + path;
    assert url[..5] == "sftp:";
    var rest := url[5..];
    assert rest == authority + [':'] + path;
    FindFirstAt(authority, ':', path);
    assert rest[..|authority|] == authority;
    assert rest[|authority| + 1..] == path;
  }

  lemma ParseAuthorityOf(user: string, host: string, path: string)
    requires '@' !in user
    ensures ParseAuthority(user + "@" + host, path) == SftpLocation(Some(user), host, path)
  {
    var authority := user + "@" + host;
    assert authority == user + ['@'] + host;
    FindFirstAt(user, '@', host);
    assert authority[..|user|] == user;
    assert authority[|user| + 1..] == host;
  }

  /**
   * The location built for an sftp repository gives back its user, host and
   * path, as long as the host holds neither `:` nor `@` and the user holds
   * neither; an empty user reads back as no user.
   */
  lemma SftpUrlRoundTrip(r: Repository)
    requires r.access == "sftp" && Present(r.path) && Present(r.host)
    requires ':' !in r.host.value && '@' !in r.host.value
    requires Present(r.user) ==> ':' !in r.user.value && '@' !in r.user.value
    ensures GetUrl(r).Ok?
    ensures ParseSftpUrl(GetUrl(r).value) ==
      Some(SftpLocation(if Present(r.user) then r.user else None, r.host.value, r.path.value))
  {
    var host, path := r.host.value, r.path.value;
    if Present(r.user) {
      var user := r.user.value;
      var authority := user + "@" + host;
      assert GetUrl(r).value == "sftp:" + authority + ":" + path;
      assert ':' !in authority by {
        assert authority == user + ['@'] + host;
      }
      ParseSftpUrlOf(authority, path);
      ParseAuthorityOf(user, host, path);
    } else {
      assert GetUrl(r).value == "sftp:" + host + ":" + path;
      ParseSftpUrlOf(host, path);
      FindFirstAbsent(host, '@');
    }
  }

  /** What one attempt at a repository operation did: the engine calls it made and the exception it raised, if any. */
  datatype Fault = RepoFault(repoError: RepositoryError) | EngineFault(resticError: ResticError)
  datatype Step = Step(calls: seq<Invocation>, fault: Option<Fault>)

  /**
   * The invocation a repository operation makes: the repository's location,
   * the sub-command and no extra arguments, its identity file, and its
   * password in the environment.
   */
  function RepoCall(r: Repository, command: string, environ: map<string, string>): Invocation
    requires GetUrl(r).Ok?
  {
    Invocation(ArgVector(GetUrl(r).value, command, None, r.identityFile), ChildEnv(environ, GetPassword(r)))
  }

  /**
   * One repository operation: resolve the location first (no engine call if
   * that fails), then run the engine once.
   */
  function Attempt(r: Repository, command: string, environ: map<string, string>, engine: Oracle, history: seq<Invocation>): (s: Step)
    ensures s.calls == [] <==> GetUrl(r).Err?
    ensures GetUrl(r).Err? ==> s.fault == Some(RepoFault(GetUrl(r).error))
    ensures GetUrl(r).Ok? ==>
      && s.calls == [RepoCall(r, command, environ)]
      && (s.fault.None? <==> engine(history, s.calls[0]) == 0)
      && (s.fault.Some? ==> s.fault.value == EngineFault(ResticError(command, engine(history, s.calls[0]))))
  {
    match GetUrl(r)
    case Err(e) => Step([], Some(RepoFault(e)))
    case Ok(url) =>
      var call := RepoCall(r, command, environ);
      var code := engine(history, call);
      Step([call], if code != 0 then Some(EngineFault(ResticError(command, code))) else None)
  }

  /**
   * `Repository._restic`: resolves the location and the password and runs
   * the engine. The `args` parameter is accepted and never forwarded.
   */
  method RepositoryRestic(r: Repository, command: string, args: Option<seq<string>>,
                          environ: map<string, string>, engine: Oracle, history: seq<Invocation>)
    returns (calls: seq<Invocation>, fault: Option<Fault>)
    ensures Step(calls, fault) == Attempt(r, command, environ, engine, history)
  {
    var url := GetUrl(r);
    if url.Err? {
      return [], Some(RepoFault(url.error));
    }
    var call, failure := Restic(url.value, GetPassword(r), command, None, r.identityFile, environ, engine, history);
    calls := [call];
    if failure.Some? {
      fault := Some(EngineFault(failure.value));
    } else {
      fault := None;
    }
  }

  /** `Repository.initialize`: the engine's `init` sub-command. */
  method Initialize(r: Repository, environ: map<string, string>, engine: Oracle, history: seq<Invocation>)
    returns (calls: seq<Invocation>, fault: Option<Fault>)
    ensures Step(calls, fault) == Attempt(r, "init", environ, engine, history)
  {
    calls, fault := RepositoryRestic(r, "init", None, environ, engine, history);
  }

  /** `Repository.check`: the engine's `check` sub-command. */
  method Check(r: Repository, environ: map<string, string>, engine: Oracle, history: seq<Invocation>)
    returns (calls: seq<Invocation>, fault: Option<Fault>)
    ensures Step(calls, fault) == Attempt(r, "check", environ, engine, history)
  {
    calls, fault := RepositoryRestic(r, "check", None, environ, engine, history);
  }
}
