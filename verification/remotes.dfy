/**
 * The two rewrites of the `origin` remote: pointing an SSH remote at a host
 * alias, and turning an SSH remote into an HTTPS one. Both recognise an SSH
 * remote with the JavaScript pattern `/^git@[^:]+:(.+)$/` applied to the
 * trimmed output of `git remote get-url origin`.
 */
module Remotes {
  import opened Optional
  import opened Text

  /** `.+` at the end of a pattern: no character may be a line terminator. */
  predicate SingleLine(s: string) {
    forall k :: 0 <= k < |s| ==> !IsLineTerminator(s[k])
  }

  /**
   * `url` is `git@<host>:<path>` in the pattern's terms: a non-empty host
   * without ':' and a non-empty single-line path.
   */
  predicate SshForm(url: string, host: string, path: string) {
    && url == "git@" + host + ":" + path
    && host != [] && ':' !in host
    && path != [] && SingleLine(path)
  }

  /**
   * The group the pattern captures. `[^:]+` cannot pass a ':', so the host
   * runs to the first ':' and the path is everything after it.
   */
  function RepoPath(url: string): Option<string> {
    if !StartsWith(url, "git@") then None
    else
      var rest := url[4..];
      match IndexOf(rest, ':')
      case None => None
      case Some(c) =>
        var path := rest[c + 1..];
        if c >= 1 && path != [] && SingleLine(path) then Some(path) else None
  }

  /** A captured path comes with the host it was split from. */
  lemma RepoPathSound(url: string) returns (host: string)
    requires RepoPath(url).Some?
    ensures SshForm(url, host, RepoPath(url).value)
  {
    var rest := url[4..];
    var c := IndexOf(rest, ':').value;
    host := rest[..c];
    var path := rest[c + 1..];
    assert rest[c..] == [':'] + path;
    assert rest == host + rest[c..];
    assert url == "git@" + rest;
    Regroup4("git@", host, ":", path);
  }

  lemma Regroup4(a: string, b: string, c: string, d: string)
    ensures a + (b + (c + d)) == a + b + c + d
  {
  }

  /** A captured path is a non-empty tail of the URL. */
  lemma RepoPathLast(url: string)
    requires RepoPath(url).Some?
    ensures var path := RepoPath(url).value;
      path != [] && path[|path| - 1] == url[|url| - 1]
  {
    var rest := url[4..];
    var c := IndexOf(rest, ':').value;
    assert RepoPath(url).value == rest[c + 1..];
  }

  /** Every SSH-form URL is recognised, and its path is captured verbatim. */
  lemma RepoPathComplete(host: string, path: string)
    requires SshForm("git@" + host + ":" + path, host, path)
    ensures RepoPath("git@" + host + ":" + path) == Some(path)
  {
    var url := "git@" + host + ":" + path;
    assert url[..4] == "git@";
    var rest := url[4..];
    assert rest == host + [':'] + path;
    IndexOfAfter(host, ':', path);
    assert rest[|host| + 1..] == path;
  }

  /** A URL of one of the two rewritten forms is already trimmed. */
  lemma SshFormTrimmed(host: string, path: string)
    requires path != [] && !IsSpace(path[|path| - 1])
    ensures Trim("git@" + host + ":" + path) == "git@" + host + ":" + path
  {
    var url := "git@" + host + ":" + path;
    assert url[0] == 'g';
    assert url[|url| - 1] == path[|path| - 1];
    TrimOfTrimmed(url);
  }

  /**
   * `updateRemoteUrl`: the URL given to `git remote set-url`, or `None` when
   * nothing is set. `origin` is the output of `git remote get-url origin`
   * (`None` when that command fails).
   */
  function UpdateRemoteUrl(sshHost: Option<string>, hasWorkspace: bool, origin: Option<string>)
    : (r: Option<string>)
    ensures r.Some? ==> Truthy(sshHost) && hasWorkspace && origin.Some?
  {
    if !Truthy(sshHost) || !hasWorkspace || origin.None? then None
    else
      match RepoPath(Trim(origin.value))
      case None => None
      case Some(path) => Some("git@" + sshHost.value + ":" + path)
  }

  /** `convertRemoteToHttps`: the URL given to `git remote set-url`, or `None`. */
  function ConvertRemoteToHttps(hasWorkspace: bool, origin: Option<string>): (r: Option<string>)
    ensures r.Some? ==> hasWorkspace && origin.Some? && StartsWith(r.value, "https://github.com/")
  {
    if !hasWorkspace || origin.None? then None
    else
      match RepoPath(Trim(origin.value))
      case None => None
      case Some(path) => Some("https://github.com/" + path)
  }

  /** An SSH remote is repointed at the alias with its path kept verbatim. */
  lemma UpdateKeepsPath(sshHost: string, origin: string, host: string, path: string)
    requires sshHost != ""
    requires SshForm(Trim(origin), host, path)
    ensures UpdateRemoteUrl(Some(sshHost), true, Some(origin)) == Some("git@" + sshHost + ":" + path)
  {
    RepoPathComplete(host, path);
  }

  /** Anything that is not an SSH remote is left alone by both rewrites. */
  lemma NonSshUnchanged(sshHost: Option<string>, hasWorkspace: bool, origin: string)
    requires forall host, path :: !SshForm(Trim(origin), host, path)
    ensures UpdateRemoteUrl(sshHost, hasWorkspace, Some(origin)) == None
    ensures ConvertRemoteToHttps(hasWorkspace, Some(origin)) == None
  {
    if RepoPath(Trim(origin)).Some? {
      var host := RepoPathSound(Trim(origin));
    }
  }

  /** Repointing twice at an alias without ':' sets the same URL as once. */
  lemma UpdateIdempotent(sshHost: string, origin: string)
    requires sshHost != "" && ':' !in sshHost
    requires UpdateRemoteUrl(Some(sshHost), true, Some(origin)).Some?
    ensures var url := UpdateRemoteUrl(Some(sshHost), true, Some(origin)).value;
      UpdateRemoteUrl(Some(sshHost), true, Some(url)) == Some(url)
  {
    var t := Trim(origin);
    var path := RepoPath(t).value;
    RepoPathLast(t);
    SshFormTrimmed(sshHost, path);
    RepoPathComplete(sshHost, path);
  }

  /** Every alias of the same repository converts to the same HTTPS URL. */
  lemma ConvertIgnoresAlias(origin: string, host: string, path: string)
    requires SshForm(Trim(origin), host, path)
    ensures ConvertRemoteToHttps(true, Some(origin)) == Some("https://github.com/" + path)
  {
    RepoPathComplete(host, path);
  }

  /** A converted remote is no longer an SSH remote, so converting again does nothing. */
  lemma ConvertIdempotent(origin: string)
    requires ConvertRemoteToHttps(true, Some(origin)).Some?
    ensures ConvertRemoteToHttps(true, ConvertRemoteToHttps(true, Some(origin))) == None
  {
    var t := Trim(origin);
    var path := RepoPath(t).value;
    RepoPathLast(t);
    var url := "https://github.com/" + path;
    assert url[0] == 'h' && url[|url| - 1] == path[|path| - 1];
    TrimOfTrimmed(url);
    assert !StartsWith(url, "git@");
  }

  /** Repointing at an alias and then converting gives what converting directly gives. */
  lemma UpdateThenConvert(sshHost: string, origin: string)
    requires sshHost != "" && ':' !in sshHost
    requires UpdateRemoteUrl(Some(sshHost), true, Some(origin)).Some?
    ensures ConvertRemoteToHttps(true, UpdateRemoteUrl(Some(sshHost), true, Some(origin)))
         == ConvertRemoteToHttps(true, Some(origin))
  {
    var t := Trim(origin);
    var path := RepoPath(t).value;
    RepoPathLast(t);
    SshFormTrimmed(sshHost, path);
    RepoPathComplete(sshHost, path);
  }
}
