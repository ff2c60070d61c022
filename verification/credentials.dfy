/**
 * The credential helper service: the records it feeds to
 * `git credential approve` and `git credential reject` (the `key=value`
 * line format of git-credential(1), section "INPUT/OUTPUT FORMAT"), the
 * order of those two commands, and whether a fallback helper is installed.
 */
module Credentials {
  import opened Optional
  import opened Text

  // =====================================================================
  // Payloads

  /** The record `setCredentials` passes to `git credential approve`. */
  function ApprovePayload(host: string, username: string, token: string): string {
    Join(["protocol=https", "host=" + host, "username=" + username, "password=" + token, "", ""])
  }

  /** The record `rejectCredentials` passes to `git credential reject`. */
  function RejectPayload(host: string): string {
    Join(["protocol=https", "host=" + host, "", ""])
  }

  lemma JoinSix(a: string, b: string, c: string, d: string, e: string, f: string)
    ensures Join([a, b, c, d, e, f]) == a + "\n" + b + "\n" + c + "\n" + d + "\n" + e + "\n" + f
  {
    var l := [a, b, c, d, e, f];
    assert l[1..][1..][1..][1..][1..] == [f];
    assert Join(l[1..][1..][1..][1..]) == e + "\n" + f;
    assert Join(l[1..][1..][1..]) == d + "\n" + (e + "\n" + f);
    assert Join(l[1..][1..]) == c + "\n" + (d + "\n" + (e + "\n" + f));
    assert Join(l[1..]) == b + "\n" + (c + "\n" + (d + "\n" + (e + "\n" + f)));
  }

  lemma JoinFour(a: string, b: string, c: string, d: string)
    ensures Join([a, b, c, d]) == a + "\n" + b + "\n" + c + "\n" + d
  {
    var l := [a, b, c, d];
    assert l[1..][1..][1..] == [d];
    assert Join(l[1..][1..]) == c + "\n" + d;
    assert Join(l[1..]) == b + "\n" + (c + "\n" + d);
  }

  lemma RegroupApprove(
    p: string, hk: string, h: string, uk: string, u: string, tk: string, t: string, nl: string,
    ph: string, nu: string, nt: string, end: string)
    requires p + nl + hk == ph && nl + uk == nu && nl + tk == nt && nl + "" + nl + "" == end
    ensures p + nl + (hk + h) + nl + (uk + u) + nl + (tk + t) + nl + "" + nl + "" == ph + h + nu + u + nt + t + end
  {
  }

  /** The approve record, written out. */
  lemma ApprovePayloadLiteral(host: string, username: string, token: string)
    ensures ApprovePayload(host, username, token) ==
      "protocol=https\nhost=" + host + "\nusername=" + username + "\npassword=" + token + "\n\n"
  {
    JoinSix("protocol=https", "host=" + host, "username=" + username, "password=" + token, "", "");
    assert "protocol=https" + "\n" + "host=" == "protocol=https\nhost=";
    assert "\n" + "username=" == "\nusername=";
    assert "\n" + "password=" == "\npassword=";
    assert "\n" + "" + "\n" + "" == "\n\n";
    RegroupApprove("protocol=https", "host=", host, "username=", username, "password=", token, "\n",
      "protocol=https\nhost=", "\nusername=", "\npassword=", "\n\n");
  }

  lemma RegroupReject(p: string, hk: string, h: string, nl: string, ph: string, end: string)
    requires p + nl + hk == ph && nl + "" + nl + "" == end
    ensures p + nl + (hk + h) + nl + "" + nl + "" == ph + h + end
  {
  }

  /** The reject record, written out. */
  lemma RejectPayloadLiteral(host: string)
    ensures RejectPayload(host) == "protocol=https\nhost=" + host + "\n\n"
  {
    JoinFour("protocol=https", "host=" + host, "", "");
    assert "protocol=https" + "\n" + "host=" == "protocol=https\nhost=";
    assert "\n" + "" + "\n" + "" == "\n\n";
    RegroupReject("protocol=https", "host=", host, "\n", "protocol=https\nhost=", "\n\n");
  }

  // =====================================================================
  // Reading a record back

  /** One attribute line: the key runs to the first '='; a line without one is malformed. */
  function ParseLine(line: string): (r: Option<(string, string)>)
    ensures r.Some? ==> '=' !in r.value.0 && line == r.value.0 + "=" + r.value.1
    ensures r.None? <==> '=' !in line
  {
    match IndexOf(line, '=')
    case None => None
    case Some(k) =>
      assert line == line[..k] + "=" + line[k + 1..];
      Some((line[..k], line[k + 1..]))
  }

  /** The attribute lines up to the first blank line (or the end); `None` if one is malformed. */
  function ParseLines(lines: seq<string>): Option<seq<(string, string)>>
    decreases |lines|
  {
    if lines == [] || lines[0] == "" then Some([])
    else
      match ParseLine(lines[0])
      case None => None
      case Some(kv) =>
        match ParseLines(lines[1..])
        case None => None
        case Some(rest) => Some([kv] + rest)
  }

  /** How a reader of the protocol splits a record into attributes. */
  function ParseRecord(payload: string): Option<seq<(string, string)>> {
    ParseLines(Split(payload))
  }

  lemma ParseAttribute(key: string, value: string)
    requires key != "" && '=' !in key
    ensures ParseLine(key + "=" + value) == Some((key, value))
  {
    IndexOfAfter(key, '=', value);
    assert (key + "=" + value)[..|key|] == key;
    assert (key + "=" + value)[|key| + 1..] == value;
  }

  /** A line `key=value` written with its key prefix, as the payload builders write it. */
  lemma AttributeLine(key: string, prefix: string, value: string)
    requires prefix == key + "=" && key != "" && '=' !in key && '\n' !in key && '\n' !in value
    ensures ParseLine(prefix + value) == Some((key, value))
    ensures '\n' !in prefix + value && prefix + value != ""
  {
    assert prefix + value == key + "=" + value;
    ParseAttribute(key, value);
  }

  lemma ParseLinesCons(line: string, rest: seq<string>, kv: (string, string))
    requires line != "" && ParseLine(line) == Some(kv) && ParseLines(rest).Some?
    ensures ParseLines([line] + rest) == Some([kv] + ParseLines(rest).value)
  {
    assert ([line] + rest)[1..] == rest;
  }

  /** Four attribute lines and a blank line read as four attributes. */
  lemma ParseFourLines(l0: string, l1: string, l2: string, l3: string, end: seq<string>,
                       a0: (string, string), a1: (string, string), a2: (string, string), a3: (string, string))
    requires l0 != "" && l1 != "" && l2 != "" && l3 != "" && end != [] && end[0] == ""
    requires ParseLine(l0) == Some(a0) && ParseLine(l1) == Some(a1)
    requires ParseLine(l2) == Some(a2) && ParseLine(l3) == Some(a3)
    ensures ParseLines([l0, l1, l2, l3] + end) == Some([a0, a1, a2, a3])
  {
    ParseLinesCons(l3, end, a3);
    ParseLinesCons(l2, [l3] + end, a2);
    assert [l2] + ([l3] + end) == [l2, l3] + end;
    ParseLinesCons(l1, [l2, l3] + end, a1);
    assert [l1] + ([l2, l3] + end) == [l1, l2, l3] + end;
    ParseLinesCons(l0, [l1, l2, l3] + end, a0);
    assert [l0] + ([l1, l2, l3] + end) == [l0, l1, l2, l3] + end;
    assert [a0] + ([a1] + ([a2] + ([a3] + []))) == [a0, a1, a2, a3];
  }

  /** Two attribute lines and a blank line read as two attributes. */
  lemma ParseTwoLines(l0: string, l1: string, end: seq<string>, a0: (string, string), a1: (string, string))
    requires l0 != "" && l1 != "" && end != [] && end[0] == ""
    requires ParseLine(l0) == Some(a0) && ParseLine(l1) == Some(a1)
    ensures ParseLines([l0, l1] + end) == Some([a0, a1])
  {
    ParseLinesCons(l1, end, a1);
    ParseLinesCons(l0, [l1] + end, a0);
    assert [l0] + ([l1] + end) == [l0, l1] + end;
    assert [a0] + ([a1] + []) == [a0, a1];
  }

  /** A record of four newline-free attribute lines reads back as those attributes. */
  lemma RecordOfFour(l0: string, l1: string, l2: string, l3: string,
                     a0: (string, string), a1: (string, string), a2: (string, string), a3: (string, string))
    requires '\n' !in l0 && '\n' !in l1 && '\n' !in l2 && '\n' !in l3
    requires l0 != "" && l1 != "" && l2 != "" && l3 != ""
    requires ParseLine(l0) == Some(a0) && ParseLine(l1) == Some(a1)
    requires ParseLine(l2) == Some(a2) && ParseLine(l3) == Some(a3)
    ensures ParseRecord(Join([l0, l1, l2, l3, "", ""])) == Some([a0, a1, a2, a3])
  {
    SixLinesSplit(l0, l1, l2, l3);
    ParseFourLines(l0, l1, l2, l3, ["", ""], a0, a1, a2, a3);
  }

  lemma SixLinesSplit(l0: string, l1: string, l2: string, l3: string)
    requires '\n' !in l0 && '\n' !in l1 && '\n' !in l2 && '\n' !in l3
    ensures Split(Join([l0, l1, l2, l3, "", ""])) == [l0, l1, l2, l3] + ["", ""]
  {
    var lines := [l0, l1, l2, l3, "", ""];
    forall k | 0 <= k < |lines| ensures '\n' !in lines[k] {
    }
    SplitJoin(lines);
    assert lines == [l0, l1, l2, l3] + ["", ""];
  }

  /** A record of two newline-free attribute lines reads back as those attributes. */
  lemma RecordOfTwo(l0: string, l1: string, a0: (string, string), a1: (string, string))
    requires '\n' !in l0 && '\n' !in l1 && l0 != "" && l1 != ""
    requires ParseLine(l0) == Some(a0) && ParseLine(l1) == Some(a1)
    ensures ParseRecord(Join([l0, l1, "", ""])) == Some([a0, a1])
  {
    var lines := [l0, l1, "", ""];
    forall k | 0 <= k < |lines| ensures '\n' !in lines[k] {
    }
    SplitJoin(lines);
    assert lines == [l0, l1] + ["", ""];
    ParseTwoLines(l0, l1, ["", ""], a0, a1);
  }

  lemma ProtocolAttribute()
    ensures ParseLine("protocol=https") == Some(("protocol", "https"))
    ensures '\n' !in "protocol=https"
  {
    AttributeLine("protocol", "protocol=", "https");
    assert "protocol=" + "https" == "protocol=https";
  }

  lemma HostAttribute(host: string)
    requires '\n' !in host
    ensures ParseLine("host=" + host) == Some(("host", host))
    ensures '\n' !in "host=" + host && "host=" + host != ""
  {
    AttributeLine("host", "host=", host);
  }

  lemma UserAttributes(username: string, token: string)
    requires '\n' !in username && '\n' !in token
    ensures ParseLine("username=" + username) == Some(("username", username))
    ensures ParseLine("password=" + token) == Some(("password", token))
    ensures '\n' !in "username=" + username && "username=" + username != ""
    ensures '\n' !in "password=" + token && "password=" + token != ""
  {
    AttributeLine("username", "username=", username);
    AttributeLine("password", "password=", token);
  }

  /** Reading the approve record recovers the host, user name and token. */
  lemma ApproveRoundTrip(host: string, username: string, token: string)
    requires '\n' !in host && '\n' !in username && '\n' !in token
    ensures ParseRecord(ApprovePayload(host, username, token)) ==
      Some([("protocol", "https"), ("host", host), ("username", username), ("password", token)])
  {
    ProtocolAttribute();
    HostAttribute(host);
    UserAttributes(username, token);
    RecordOfFour("protocol=https", "host=" + host, "username=" + username, "password=" + token,
      ("protocol", "https"), ("host", host), ("username", username), ("password", token));
  }

  /** Reading the reject record recovers the host. */
  lemma RejectRoundTrip(host: string)
    requires '\n' !in host
    ensures ParseRecord(RejectPayload(host)) == Some([("protocol", "https"), ("host", host)])
  {
    ProtocolAttribute();
    HostAttribute(host);
    RecordOfTwo("protocol=https", "host=" + host, ("protocol", "https"), ("host", host));
  }

  // =====================================================================
  // Command sequencing

  /** A `git credential` invocation and the record on its standard input. */
  datatype CredCommand = Reject(input: string) | Approve(input: string)

  /** The commands issued, and whether the call throws. */
  datatype Outcome = Outcome(issued: seq<CredCommand>, throws: bool)

  /**
   * `rejectCredentials`: issues the reject; `rejectFails` says whether git
   * exits with an error, which is swallowed.
   */
  function RejectCredentials(host: string, rejectFails: bool): (r: Outcome)
    ensures !r.throws
    ensures r.issued == [Reject(RejectPayload(host))]
  {
    Outcome([Reject(RejectPayload(host))], false)
  }

  /**
   * `setCredentials`: the reject for the host always goes first, whatever its
   * result; the approve follows, and only its failure reaches the caller.
   */
  function SetCredentials(host: string, username: string, token: string, rejectFails: bool, approveFails: bool)
    : (r: Outcome)
    ensures |r.issued| == 2
    ensures r.issued[0].Reject? && r.issued[1].Approve?
    ensures r.throws <==> approveFails
  {
    var cleared := RejectCredentials(host, rejectFails);
    Outcome(cleared.issued + [Approve(ApprovePayload(host, username, token))], approveFails)
  }

  /** The reject and approve records name the same host, and the approve carries the new pair. */
  lemma SetCredentialsRecords(host: string, username: string, token: string, rejectFails: bool, approveFails: bool)
    requires '\n' !in host && '\n' !in username && '\n' !in token
    ensures var r := SetCredentials(host, username, token, rejectFails, approveFails);
      && ParseRecord(r.issued[0].input) == Some([("protocol", "https"), ("host", host)])
      && ParseRecord(r.issued[1].input) ==
           Some([("protocol", "https"), ("host", host), ("username", username), ("password", token)])
  {
    RejectRoundTrip(host);
    ApproveRoundTrip(host, username, token);
  }

  // =====================================================================
  // ensureCredentialHelper

  /** A `git config ... credential.helper` read: `None` when the command fails (unset). */
  predicate HelperSet(read: Option<string>) {
    read.Some? && Trim(read.value) != ""
  }

  /**
   * `ensureCredentialHelper`: whether `store` is installed globally. The
   * global read comes first; the local read is made only with a workspace.
   */
  function EnsureCredentialHelper(global: Option<string>, hasWorkspace: bool, local: Option<string>)
    : (installs: bool)
    ensures installs ==> !HelperSet(global)
    ensures installs ==> !(hasWorkspace && HelperSet(local))
  {
    if global.Some? && Trim(global.value) != "" then false
    else if hasWorkspace && local.Some? && Trim(local.value) != "" then false
    else true
  }

  /** The fallback goes in exactly when no helper is visible, and a local one without a workspace is not looked at. */
  lemma EnsureHelperDecision(global: Option<string>, hasWorkspace: bool, local: Option<string>)
    ensures EnsureCredentialHelper(global, hasWorkspace, local) <==>
      !HelperSet(global) && (!hasWorkspace || !HelperSet(local))
    ensures !hasWorkspace ==>
      EnsureCredentialHelper(global, hasWorkspace, local) == EnsureCredentialHelper(global, hasWorkspace, None)
  {
  }

  /** Once `store` is installed, the next call finds it and installs nothing. */
  lemma EnsureHelperSettles(global: Option<string>, hasWorkspace: bool, local: Option<string>, readBack: string)
    requires EnsureCredentialHelper(global, hasWorkspace, local)
    requires Trim(readBack) == "store"
    ensures !EnsureCredentialHelper(Some(readBack), hasWorkspace, local)
  {
  }
}
