/**
 * The SSH client config editor: line-oriented reading and patching of
 * `~/.ssh/config`. The file is an `Option<string>` (`None` when it does not
 * exist); its lines are `Split` on '\n' and written back with `Join`.
 */
module SshConfig {
  import opened Optional
  import opened Text
  import opened Seqs
  import Profiles

  /** The comment that marks a host block as owned by the extension. */
  const MarkerPrefix := "# GitSwitch:"

  predicate IsMarker(line: string) {
    StartsWith(line, MarkerPrefix)
  }

  /** What a read sees after the file has been created if it was missing. */
  function Content(file: Option<string>): string {
    file.GetOr("")
  }

  // =====================================================================
  // getAllSSHConfigHosts

  datatype HostRef = HostRef(host: string, identityFile: Option<string>)

  /** A line whose trim declares a host without a wildcard. */
  predicate IsHostDecl(line: string) {
    StartsWith(Trim(line), "Host ") && '*' !in Trim(line)
  }

  /** The alias a `Host` line declares. */
  function HostOf(line: string): string
    requires StartsWith(Trim(line), "Host ")
  {
    Trim(Trim(line)[5..])
  }

  /** Some line at or after `i` declares host `h`. */
  predicate Declares(lines: seq<string>, i: nat, h: string) {
    exists k :: i <= k < |lines| && IsHostDecl(lines[k]) && HostOf(lines[k]) == h
  }

  /** The hosts declared strictly before line `i`. */
  function DeclaredBefore(lines: seq<string>, i: nat): set<string>
    requires i <= |lines|
  {
    set k | 0 <= k < i && IsHostDecl(lines[k]) :: HostOf(lines[k])
  }

  /** Some entry of a host listing names `h`. */
  predicate Lists(r: seq<HostRef>, h: string) {
    exists a :: 0 <= a < |r| && r[a].host == h
  }

  /** A declared alias is never empty: the trimmed line goes on past `Host `. */
  lemma HostOfNonEmpty(line: string)
    requires StartsWith(Trim(line), "Host ")
    ensures HostOf(line) != ""
  {
    var t := Trim(line);
    TrimOfTrimmed(t);
    TrimmedKeywordHasRest(t, "Host ");
  }

  /** Line `j` closes the block being scanned for an `IdentityFile`. */
  predicate StopsBlock(lines: seq<string>, j: nat)
    requires j < |lines|
  {
    var sub := Trim(lines[j]);
    StartsWith(sub, "Host ")
    || (sub == "" && j + 1 < |lines| && StartsWith(Trim(lines[j + 1]), "Host "))
  }

  predicate IsIdentityLine(line: string) {
    StartsWith(Trim(line), "IdentityFile ")
  }

  function IdentityValue(line: string): string
    requires IsIdentityLine(line)
  {
    Trim(Trim(line)[13..])
  }

  /** The forward scan for a host's key file: the last value read wins. */
  function IdentityScan(lines: seq<string>, j: nat, acc: Option<string>): Option<string>
    decreases |lines| - j
  {
    if j >= |lines| || StopsBlock(lines, j) then acc
    else if IsIdentityLine(lines[j]) then IdentityScan(lines, j + 1, Some(IdentityValue(lines[j])))
    else IdentityScan(lines, j + 1, acc)
  }

  /** The first line at or after `j` that closes the block (or the end). */
  function BlockEnd(lines: seq<string>, j: nat): (e: nat)
    requires j <= |lines|
    ensures j <= e <= |lines|
    ensures forall m :: j <= m < e ==> !StopsBlock(lines, m)
    ensures e < |lines| ==> StopsBlock(lines, e)
    decreases |lines| - j
  {
    if j == |lines| || StopsBlock(lines, j) then j else BlockEnd(lines, j + 1)
  }

  /** Reference reading: the last `IdentityFile` line in `lines[j..e]`, looked up from the back. */
  function LastIdentity(lines: seq<string>, j: nat, e: nat): Option<string>
    requires j <= e <= |lines|
    decreases e - j
  {
    if e == j then None
    else if IsIdentityLine(lines[e - 1]) then Some(IdentityValue(lines[e - 1]))
    else LastIdentity(lines, j, e - 1)
  }

  lemma {:induction false} LastIdentityStep(lines: seq<string>, j: nat, e: nat)
    requires j < e <= |lines|
    ensures LastIdentity(lines, j, e) ==
      (if LastIdentity(lines, j + 1, e).Some? then LastIdentity(lines, j + 1, e)
       else if IsIdentityLine(lines[j]) then Some(IdentityValue(lines[j]))
       else None)
    decreases e - j
  {
    if e > j + 1 && !IsIdentityLine(lines[e - 1]) {
      LastIdentityStep(lines, j, e - 1);
    }
  }

  /**
   * The key file recorded for a host is the last `IdentityFile` before the
   * next `Host ` line, or before a blank line that a `Host ` line follows.
   */
  lemma {:induction false} IdentityScanIsLast(lines: seq<string>, j: nat)
    requires j <= |lines|
    ensures IdentityScan(lines, j, None) == LastIdentity(lines, j, BlockEnd(lines, j))
  {
    IdentityScanAcc(lines, j, None);
  }

  lemma {:induction false} IdentityScanAcc(lines: seq<string>, j: nat, acc: Option<string>)
    requires j <= |lines|
    ensures var last := LastIdentity(lines, j, BlockEnd(lines, j));
      IdentityScan(lines, j, acc) == if last.Some? then last else acc
    decreases |lines| - j
  {
    if j < |lines| && !StopsBlock(lines, j) {
      var next := if IsIdentityLine(lines[j]) then Some(IdentityValue(lines[j])) else acc;
      assert IdentityScan(lines, j, acc) == IdentityScan(lines, j + 1, next);
      var e := BlockEnd(lines, j);
      assert e == BlockEnd(lines, j + 1);
      LastIdentityStep(lines, j, e);
      IdentityScanAcc(lines, j + 1, next);
    } else {
      assert BlockEnd(lines, j) == j;
    }
  }

  /**
   * The host listing from line `i` on, `seen` holding the aliases already
   * listed: distinct, non-empty, and exactly the new aliases declared.
   */
  function HostsFrom(lines: seq<string>, i: nat, seen: set<string>): (r: seq<HostRef>)
    requires i <= |lines|
    ensures forall a :: 0 <= a < |r| ==> r[a].host !in seen && r[a].host != ""
    ensures forall a, b :: 0 <= a < b < |r| ==> r[a].host != r[b].host
    decreases |lines| - i
  {
    if i == |lines| then []
    else if IsHostDecl(lines[i]) && HostOf(lines[i]) !in seen then
      var host := HostOf(lines[i]);
      HostOfNonEmpty(lines[i]);
      [HostRef(host, IdentityScan(lines, i + 1, None))] + HostsFrom(lines, i + 1, seen + {host})
    else
      HostsFrom(lines, i + 1, seen)
  }

  /** An alias is listed exactly when it is declared from line `i` on and not already seen. */
  lemma {:induction false} HostsFromLists(lines: seq<string>, i: nat, seen: set<string>, h: string)
    requires i <= |lines|
    ensures Lists(HostsFrom(lines, i, seen), h) <==> h !in seen && Declares(lines, i, h)
    decreases |lines| - i
  {
    if i < |lines| {
      DeclaresStep(lines, i, h);
      if IsHostDecl(lines[i]) && HostOf(lines[i]) !in seen {
        var host := HostOf(lines[i]);
        HostsFromLists(lines, i + 1, seen + {host}, h);
        ListsCons(HostRef(host, IdentityScan(lines, i + 1, None)), HostsFrom(lines, i + 1, seen + {host}), h);
      } else {
        HostsFromLists(lines, i + 1, seen, h);
      }
    }
  }

  lemma ListsCons(x: HostRef, rest: seq<HostRef>, h: string)
    ensures Lists([x] + rest, h) <==> x.host == h || Lists(rest, h)
  {
    var r := [x] + rest;
    if Lists(rest, h) {
      var a :| 0 <= a < |rest| && rest[a].host == h;
      assert r[a + 1].host == h;
    }
    if Lists(r, h) && x.host != h {
      var a :| 0 <= a < |r| && r[a].host == h;
      assert rest[a - 1].host == h;
    }
    assert r[0] == x;
  }

  lemma DeclaresStep(lines: seq<string>, i: nat, h: string)
    requires i < |lines|
    ensures Declares(lines, i, h) <==>
      (IsHostDecl(lines[i]) && HostOf(lines[i]) == h) || Declares(lines, i + 1, h)
  {
  }

  /** `getAllSSHConfigHosts`: nothing for a missing file. */
  function GetAllHosts(file: Option<string>): (r: seq<HostRef>)
    ensures forall a, b :: 0 <= a < b < |r| ==> r[a].host != r[b].host
    ensures forall a :: 0 <= a < |r| ==> r[a].host != ""
    ensures file.None? ==> r == []
  {
    match file
    case None => []
    case Some(c) => HostsFrom(Split(c), 0, {})
  }

  /** The listing names exactly the aliases some `Host` line of the file declares. */
  lemma GetAllHostsLists(file: Option<string>, h: string)
    ensures Lists(GetAllHosts(file), h) <==> file.Some? && Declares(Split(file.value), 0, h)
  {
    if file.Some? {
      HostsFromLists(Split(file.value), 0, {}, h);
    }
  }

  lemma DeclaredBeforeStep(lines: seq<string>, i: nat)
    requires i < |lines|
    ensures DeclaredBefore(lines, i + 1) ==
      DeclaredBefore(lines, i) + (if IsHostDecl(lines[i]) then {HostOf(lines[i])} else {})
  {
  }

  /** Line `k` declares an alias that no earlier line declared. */
  predicate FirstDecl(lines: seq<string>, k: nat)
    requires k < |lines|
  {
    IsHostDecl(lines[k]) && HostOf(lines[k]) !in DeclaredBefore(lines, k)
  }

  /** The entry listed for a declaring line `k`. */
  function RefAt(lines: seq<string>, k: nat): HostRef
    requires k < |lines| && IsHostDecl(lines[k])
  {
    HostRef(HostOf(lines[k]), IdentityScan(lines, k + 1, None))
  }

  /** For every line, whether it declares an alias for the first time. */
  function FirstFlags(lines: seq<string>): (r: seq<bool>)
    ensures |r| == |lines|
    ensures forall k :: 0 <= k < |lines| ==> r[k] == FirstDecl(lines, k)
  {
    seq(|lines|, k requires 0 <= k < |lines| => FirstDecl(lines, k))
  }

  /** The lines from `i` on that declare an alias for the first time, in order. */
  function FirstDecls(lines: seq<string>, i: nat): seq<nat>
    requires i <= |lines|
  {
    Seqs.Positions(FirstFlags(lines), i)
  }

  /** `FirstDecls` holds exactly the first-declaring lines from `i` on, ascending. */
  lemma FirstDeclsExact(lines: seq<string>, i: nat)
    requires i <= |lines|
    ensures forall a :: 0 <= a < |FirstDecls(lines, i)| ==>
      i <= FirstDecls(lines, i)[a] < |lines| && FirstDecl(lines, FirstDecls(lines, i)[a])
    ensures forall a, b :: 0 <= a < b < |FirstDecls(lines, i)| ==>
      FirstDecls(lines, i)[a] < FirstDecls(lines, i)[b]
    ensures forall k :: i <= k < |lines| && FirstDecl(lines, k) ==> k in FirstDecls(lines, i)
  {
    var flags := FirstFlags(lines);
    Seqs.PositionsSound(flags, i);
    Seqs.PositionsAscending(flags, i);
    Seqs.PositionsComplete(flags, i);
  }

  /**
   * From line `i` on, the listing corresponds entry by entry to the lines that
   * declare an alias for the first time: each entry carries that line's alias
   * and the key file found after it.
   */
  predicate ListsFirstDecls(lines: seq<string>, i: nat)
    requires i <= |lines|
  {
    var r := HostsFrom(lines, i, DeclaredBefore(lines, i));
    var f := FirstDecls(lines, i);
    && |r| == |f|
    && forall a :: 0 <= a < |f| ==>
         f[a] < |lines| && IsHostDecl(lines[f[a]]) && r[a] == RefAt(lines, f[a])
  }

  /** A first declaration at line `i` puts its entry in front of the rest. */
  lemma HostsFirstKeep(lines: seq<string>, i: nat)
    requires i < |lines| && FirstDecl(lines, i)
    requires ListsFirstDecls(lines, i + 1)
    ensures ListsFirstDecls(lines, i)
  {
    DeclaredBeforeStep(lines, i);
    var seen := DeclaredBefore(lines, i);
    assert DeclaredBefore(lines, i + 1) == seen + {HostOf(lines[i])};
    var tail := HostsFrom(lines, i + 1, DeclaredBefore(lines, i + 1));
    var fd := FirstDecls(lines, i + 1);
    var r := HostsFrom(lines, i, seen);
    assert r == [RefAt(lines, i)] + tail;
    var f := FirstDecls(lines, i);
    assert f == [i] + fd;
    forall a | 0 <= a < |f|
      ensures f[a] < |lines| && IsHostDecl(lines[f[a]]) && r[a] == RefAt(lines, f[a])
    {
      if a > 0 {
        assert f[a] == fd[a - 1] && r[a] == tail[a - 1];
      }
    }
  }

  /** Any other line at `i` adds no entry. */
  lemma HostsFirstSkip(lines: seq<string>, i: nat)
    requires i < |lines| && !FirstDecl(lines, i)
    requires ListsFirstDecls(lines, i + 1)
    ensures ListsFirstDecls(lines, i)
  {
    DeclaredBeforeStep(lines, i);
    var seen := DeclaredBefore(lines, i);
    assert DeclaredBefore(lines, i + 1) == seen;
    assert HostsFrom(lines, i, seen) == HostsFrom(lines, i + 1, seen);
    assert FirstDecls(lines, i) == FirstDecls(lines, i + 1);
  }

  /** Listing order: the entries follow the first declarations of their aliases. */
  lemma {:induction false} HostsFirstOccurrence(lines: seq<string>, i: nat)
    requires i <= |lines|
    ensures ListsFirstDecls(lines, i)
    decreases |lines| - i
  {
    if i < |lines| {
      HostsFirstOccurrence(lines, i + 1);
      HostsFirstStep(lines, i);
    } else {
      HostsFirstEnd(lines);
    }
  }

  /** Past the last line nothing is listed and nothing is declared. */
  lemma HostsFirstEnd(lines: seq<string>)
    ensures ListsFirstDecls(lines, |lines|)
  {
    assert FirstDecls(lines, |lines|) == [];
  }

  lemma HostsFirstStep(lines: seq<string>, i: nat)
    requires i < |lines| && ListsFirstDecls(lines, i + 1)
    ensures ListsFirstDecls(lines, i)
  {
    if FirstDecl(lines, i) {
      HostsFirstKeep(lines, i);
    } else {
      HostsFirstSkip(lines, i);
    }
  }

  // =====================================================================
  // addHostEntry

  /** The lines `addHostEntry` joins and appends, including the empty first and last. */
  function EntryLines(name: string, alias: string, keyPath: string): seq<string> {
    [ "",
      MarkerPrefix + " " + name,
      "Host " + alias,
      "  HostName github.com",
      "  User git",
      "  IdentityFile " + keyPath,
      "  IdentitiesOnly yes",
      "" ]
  }

  function EntryText(name: string, alias: string, keyPath: string): string {
    Join(EntryLines(name, alias, keyPath))
  }

  /** The joined block with every newline the join inserts made explicit. */
  lemma EntryTextNested(name: string, alias: string, keyPath: string)
    ensures EntryText(name, alias, keyPath) ==
      "" + "\n" + ("# GitSwitch: " + name + "\n" + ("Host " + alias + "\n" + ("  HostName github.com" + "\n"
      + ("  User git" + "\n" + ("  IdentityFile " + keyPath + "\n" + ("  IdentitiesOnly yes" + "\n" + ""))))))
  {
    var t6 := ["  IdentitiesOnly yes", ""];
    var t5 := ["  IdentityFile " + keyPath] + t6;
    var t4 := ["  User git"] + t5;
    var t3 := ["  HostName github.com"] + t4;
    var t2 := ["Host " + alias] + t3;
    var t1 := ["# GitSwitch: " + name] + t2;
    assert MarkerPrefix + " " + name == "# GitSwitch: " + name;
    assert EntryLines(name, alias, keyPath) == [""] + t1;
    JoinCons("  IdentitiesOnly yes", [""]);
    JoinCons("  IdentityFile " + keyPath, t6);
    JoinCons("  User git", t5);
    JoinCons("  HostName github.com", t4);
    JoinCons("Host " + alias, t3);
    JoinCons("# GitSwitch: " + name, t2);
    JoinCons("", t1);
  }

  lemma DirectivesLiteral()
    ensures "\n" + "  HostName github.com" + "\n" + "  User git" + "\n" + "  IdentityFile "
         == "\n  HostName github.com\n  User git\n  IdentityFile "
  {
    assert "\n" + "  HostName github.com" == "\n  HostName github.com";
    assert "\n  HostName github.com" + "\n" == "\n  HostName github.com\n";
    assert "\n  HostName github.com\n" + "  User git" == "\n  HostName github.com\n  User git";
    assert "\n  HostName github.com\n  User git" + "\n" == "\n  HostName github.com\n  User git\n";
  }

  lemma Assoc(a: string, b: string, c: string)
    ensures a + (b + c) == a + b + c
  {
  }

  lemma IdentitiesOnlyLiteral()
    ensures "\n" + "  IdentitiesOnly yes" + "\n" + "" == "\n  IdentitiesOnly yes\n"
  {
    assert "\n" + "  IdentitiesOnly yes" == "\n  IdentitiesOnly yes";
  }

  lemma RegroupTail(nl: string, a: string, b: string, k: string, d: string, abk: string, dd: string)
    requires nl + a + nl + b + nl + k == abk
    requires nl + d + nl + "" == dd
    ensures nl + (a + nl + (b + nl + (k + nl + (d + nl + "")))) == abk + dd
  {
  }

  /** The lines after the `Host` line, as one literal. */
  lemma DirectiveTail(keyPath: string)
    ensures "\n" + ("  HostName github.com" + "\n" + ("  User git" + "\n" + ("  IdentityFile " + keyPath + "\n" + ("  IdentitiesOnly yes" + "\n" + ""))))
         == "\n  HostName github.com\n  User git\n  IdentityFile " + keyPath + "\n  IdentitiesOnly yes\n"
  {
    DirectivesLiteral();
    IdentitiesOnlyLiteral();
    RegroupTail("\n", "  HostName github.com", "  User git", "  IdentityFile " + keyPath, "  IdentitiesOnly yes",
      "\n  HostName github.com\n  User git\n  IdentityFile " + keyPath, "\n  IdentitiesOnly yes\n");
  }

  lemma Regroup(nl: string, a: string, name: string, b: string, alias: string, x: string, t: string, na: string, nb: string)
    requires nl + x == t && nl + a == na && nl + b == nb
    ensures "" + nl + (a + name + nl + (b + alias + nl + x)) == na + name + nb + alias + t
  {
  }

  /** The appended text, written out. */
  lemma EntryTextLiteral(name: string, alias: string, keyPath: string)
    ensures EntryText(name, alias, keyPath) ==
      "\n# GitSwitch: " + name + "\nHost " + alias
      + "\n  HostName github.com\n  User git\n  IdentityFile " + keyPath
      + "\n  IdentitiesOnly yes\n"
  {
    EntryTextNested(name, alias, keyPath);
    DirectiveTail(keyPath);
    Regroup("\n", "# GitSwitch: ", name, "Host ", alias,
      "  HostName github.com" + "\n" + ("  User git" + "\n" + ("  IdentityFile " + keyPath + "\n" + ("  IdentitiesOnly yes" + "\n" + ""))),
      "\n  HostName github.com\n  User git\n  IdentityFile " + keyPath + "\n  IdentitiesOnly yes\n",
      "\n# GitSwitch: ", "\nHost ");
  }

  /** The new block's key path and alias, when both are truthy. */
  predicate CanAdd(p: Profiles.Profile) {
    Truthy(p.sshKeyPath) && Truthy(p.sshHost)
  }

  /**
   * `addHostEntry`: appends a marked block unless the key path or alias is
   * missing or the alias is already declared anywhere in the file.
   */
  function AddHostEntry(file: Option<string>, p: Profiles.Profile): (r: Option<string>)
    ensures !CanAdd(p) ==> r == file
    ensures CanAdd(p) && Lists(GetAllHosts(file), p.sshHost.value) ==> r == file
    ensures CanAdd(p) && !Lists(GetAllHosts(file), p.sshHost.value) ==>
      && r.Some?
      && StartsWith(r.value, Content(file))
      && r.value[|Content(file)|..] ==
           "\n# GitSwitch: " + p.name + "\nHost " + p.sshHost.value
           + "\n  HostName github.com\n  User git\n  IdentityFile " + p.sshKeyPath.value
           + "\n  IdentitiesOnly yes\n"
  {
    if !CanAdd(p) then file
    else if Lists(GetAllHosts(file), p.sshHost.value) then file
    else
      var c := Content(file);
      var r := c + EntryText(p.name, p.sshHost.value, p.sshKeyPath.value);
      EntryTextLiteral(p.name, p.sshHost.value, p.sshKeyPath.value);
      assert r[..|c|] == c;
      Some(r)
  }

  /** An alias that a `Host <alias>` line declares as itself. */
  predicate PlainAlias(alias: string) {
    && alias != ""
    && !IsSpace(alias[0]) && !IsSpace(alias[|alias| - 1])
    && '*' !in alias && '\n' !in alias
  }

  lemma PlainAliasLine(alias: string)
    requires PlainAlias(alias)
    ensures Trim("Host " + alias) == "Host " + alias
    ensures IsHostDecl("Host " + alias) && HostOf("Host " + alias) == alias
  {
    var line := "Host " + alias;
    TrimOfTrimmed(line);
    assert line[..5] == "Host ";
    assert line[5..] == alias;
    TrimOfTrimmed(alias);
    assert '*' !in line by {
      forall k | 0 <= k < |line| ensures line[k] != '*' {
        if k >= 5 {
          assert line[k] == alias[k - 5];
        }
      }
    }
  }

  /** The config after an append, as lines: the old lines, then the block's lines. */
  lemma AppendedLines(c: string, name: string, alias: string, keyPath: string)
    ensures Split(c + EntryText(name, alias, keyPath)) ==
      Split(c) + (Split(MarkerPrefix + " " + name) + (Split("Host " + alias)
      + Split(Join(EntryLines(name, alias, keyPath)[3..]))))
  {
    SplitAfterBlankThree(c, EntryLines(name, alias, keyPath));
  }

  /** A block of newline-free fields has newline-free lines. */
  lemma EntryLinesNoNewline(name: string, alias: string, keyPath: string)
    requires '\n' !in name && '\n' !in alias && '\n' !in keyPath
    ensures forall k :: 0 <= k < 8 ==> '\n' !in EntryLines(name, alias, keyPath)[k]
  {
    NoNewlineConcat(MarkerPrefix + " ", name);
    NoNewlineConcat("Host ", alias);
    NoNewlineConcat("  IdentityFile ", keyPath);
  }

  /** With newline-free fields the appended block is exactly the entry's lines. */
  lemma AppendedLinesExact(c: string, name: string, alias: string, keyPath: string)
    requires '\n' !in name && '\n' !in alias && '\n' !in keyPath
    ensures Split(c + EntryText(name, alias, keyPath)) ==
      Split(c) + EntryLines(name, alias, keyPath)[1..]
  {
    EntryLinesNoNewline(name, alias, keyPath);
    SplitAfterBlankExact(c, EntryLines(name, alias, keyPath));
  }

  lemma NoNewlineConcat(a: string, b: string)
    requires '\n' !in a && '\n' !in b
    ensures '\n' !in a + b
  {
  }

  /** The appended block declares its alias. */
  lemma AppendedDeclares(c: string, name: string, alias: string, keyPath: string)
    requires PlainAlias(alias)
    ensures Declares(Split(c + EntryText(name, alias, keyPath)), 0, alias)
  {
    AppendedLines(c, name, alias, keyPath);
    SplitNoNewline("Host " + alias);
    var lines := Split(c + EntryText(name, alias, keyPath));
    var k := |Split(c)| + |Split(MarkerPrefix + " " + name)|;
    assert lines[k] == "Host " + alias;
    PlainAliasLine(alias);
  }

  /**
   * A second identical call changes nothing: the first one declared the
   * alias, which the second one then finds.
   */
  lemma AddHostEntryIdempotent(file: Option<string>, p: Profiles.Profile)
    requires CanAdd(p) ==> PlainAlias(p.sshHost.value)
    ensures AddHostEntry(AddHostEntry(file, p), p) == AddHostEntry(file, p)
  {
    if CanAdd(p) && !Lists(GetAllHosts(file), p.sshHost.value) {
      var alias := p.sshHost.value;
      var r := Content(file) + EntryText(p.name, alias, p.sshKeyPath.value);
      assert AddHostEntry(file, p) == Some(r);
      AppendedDeclares(Content(file), p.name, alias, p.sshKeyPath.value);
      GetAllHostsLists(Some(r), alias);
    }
  }

  // =====================================================================
  // removeHostEntry

  /** Line `i` is a marker and the next line, trimmed, is `Host <alias>`. */
  predicate OpensBlock(lines: seq<string>, i: nat, alias: string)
    requires i < |lines|
  {
    IsMarker(lines[i]) && i + 1 < |lines| && lines[i + 1] != ""
    && Trim(lines[i + 1]) == "Host " + alias
  }

  /** A line that ends a skipped region: an unindented `Host ` line or a marker. */
  predicate EndsSkip(line: string) {
    (StartsWith(line, "Host ") && !StartsWith(line, "HostName")) || IsMarker(line)
  }

  /** The `HostName` exclusion can never fire on a line that starts with `Host `. */
  lemma HostNameGuardRedundant(line: string)
    requires StartsWith(line, "Host ")
    ensures !StartsWith(line, "HostName")
  {
    assert line[4] == ' ';
  }

  /**
   * The removal scan. On a matched marker it resumes at the next line
   * (`skipHostLine == false`, the code as written) or after the matched
   * `Host` line (`skipHostLine == true`, the corrected reading), skipping
   * until a line that `EndsSkip`. The output only ever deletes lines.
   */
  function RemoveScan(lines: seq<string>, alias: string, i: nat, skipping: bool, skipHostLine: bool)
    : seq<string>
    requires i <= |lines|
    decreases |lines| - i
  {
    if i == |lines| then []
    else if OpensBlock(lines, i, alias) then
      if skipHostLine then RemoveScan(lines, alias, i + 2, true, skipHostLine)
      else RemoveScan(lines, alias, i + 1, true, skipHostLine)
    else if skipping then
      if EndsSkip(lines[i]) then [lines[i]] + RemoveScan(lines, alias, i + 1, false, skipHostLine)
      else RemoveScan(lines, alias, i + 1, true, skipHostLine)
    else
      [lines[i]] + RemoveScan(lines, alias, i + 1, false, skipHostLine)
  }

  /** A matched marker is dropped, and with it the `Host` line in the corrected reading. */
  lemma OpenStep(lines: seq<string>, alias: string, i: nat, skipping: bool, skipHostLine: bool)
    requires i < |lines| && OpensBlock(lines, i, alias)
    ensures i + 2 <= |lines|
    ensures RemoveScan(lines, alias, i, skipping, skipHostLine)
         == RemoveScan(lines, alias, if skipHostLine then i + 2 else i + 1, true, skipHostLine)
  {
  }

  /** While skipping, a line that neither opens a block nor ends the skip is dropped. */
  lemma SkipStep(lines: seq<string>, alias: string, i: nat, skipHostLine: bool)
    requires i < |lines| && !OpensBlock(lines, i, alias) && !EndsSkip(lines[i])
    ensures RemoveScan(lines, alias, i, true, skipHostLine) == RemoveScan(lines, alias, i + 1, true, skipHostLine)
  {
  }

  /** Any other line is kept, and the scan goes on without skipping. */
  lemma KeepStep(lines: seq<string>, alias: string, i: nat, skipping: bool, skipHostLine: bool)
    requires i < |lines| && !OpensBlock(lines, i, alias) && (!skipping || EndsSkip(lines[i]))
    ensures RemoveScan(lines, alias, i, skipping, skipHostLine)
         == [lines[i]] + RemoveScan(lines, alias, i + 1, false, skipHostLine)
  {
  }

  /** The removal scan only ever deletes lines. */
  lemma {:induction false} RemoveScanSubseq(lines: seq<string>, alias: string, i: nat, skipping: bool, skipHostLine: bool)
    requires i <= |lines|
    ensures IsSubseq(RemoveScan(lines, alias, i, skipping, skipHostLine), lines[i..])
    decreases |lines| - i
  {
    if i < |lines| {
      assert lines[i..] == [lines[i]] + lines[i + 1..];
      if OpensBlock(lines, i, alias) {
        OpenStep(lines, alias, i, skipping, skipHostLine);
        if skipHostLine {
          var rest := RemoveScan(lines, alias, i + 2, true, skipHostLine);
          RemoveScanSubseq(lines, alias, i + 2, true, skipHostLine);
          assert lines[i + 1..] == [lines[i + 1]] + lines[i + 2..];
          SubseqDrop(lines[i + 1], rest, lines[i + 2..]);
          SubseqDrop(lines[i], rest, lines[i + 1..]);
        } else {
          RemoveScanSubseq(lines, alias, i + 1, true, skipHostLine);
          SubseqDrop(lines[i], RemoveScan(lines, alias, i + 1, true, skipHostLine), lines[i + 1..]);
        }
      } else if skipping && !EndsSkip(lines[i]) {
        SkipStep(lines, alias, i, skipHostLine);
        RemoveScanSubseq(lines, alias, i + 1, true, skipHostLine);
        SubseqDrop(lines[i], RemoveScan(lines, alias, i + 1, true, skipHostLine), lines[i + 1..]);
      } else {
        KeepStep(lines, alias, i, skipping, skipHostLine);
        RemoveScanSubseq(lines, alias, i + 1, false, skipHostLine);
        SubseqCons(lines[i], RemoveScan(lines, alias, i + 1, false, skipHostLine), lines[i + 1..]);
      }
    }
  }


  /** `removeHostEntry` as written: only the marker of a matched block is dropped. */
  function RemoveHostEntryAsWritten(file: Option<string>, alias: string): (r: Option<string>)
    ensures file.None? <==> r.None?
    ensures r.Some? ==> IsSubseq(Split(r.value), Split(file.value)) || r.value == ""
  {
    match file
    case None => None
    case Some(c) =>
      var out := RemoveScan(Split(c), alias, 0, false, false);
      RemoveScanSubseq(Split(c), alias, 0, false, false);
      JoinSubseq(out, Split(c));
      Some(Join(out))
  }

  /** `removeHostEntry` as its comments describe it: the whole marked block goes. */
  function RemoveHostEntry(file: Option<string>, alias: string): (r: Option<string>)
    ensures file.None? <==> r.None?
    ensures r.Some? ==> IsSubseq(Split(r.value), Split(file.value)) || r.value == ""
  {
    match file
    case None => None
    case Some(c) =>
      var out := RemoveScan(Split(c), alias, 0, false, true);
      RemoveScanSubseq(Split(c), alias, 0, false, true);
      JoinSubseq(out, Split(c));
      Some(Join(out))
  }

  /** The kept lines come back out of the written text (an empty result writes ""). */
  lemma JoinSubseq(out: seq<string>, lines: seq<string>)
    requires IsSubseq(out, lines[0..])
    requires forall k :: 0 <= k < |lines| ==> '\n' !in lines[k]
    ensures IsSubseq(Split(Join(out)), lines) || Join(out) == ""
  {
    assert lines[0..] == lines;
    if out != [] {
      forall k | 0 <= k < |out| ensures '\n' !in out[k] {
        assert out[k] in out;
        SubseqMembers(out, lines, out[k]);
      }
      SplitJoin(out);
    }
  }

  /** With no matched marker from `i` on, the scan copies its input. */
  lemma {:induction false} RemoveScanNoMatch(lines: seq<string>, alias: string, i: nat, skipHostLine: bool)
    requires i <= |lines|
    requires forall k :: i <= k < |lines| ==> !OpensBlock(lines, k, alias)
    ensures RemoveScan(lines, alias, i, false, skipHostLine) == lines[i..]
    decreases |lines| - i
  {
    if i < |lines| {
      RemoveScanNoMatch(lines, alias, i + 1, skipHostLine);
      assert lines[i..] == [lines[i]] + lines[i + 1..];
    }
  }

  /**
   * A file in which no marker line is followed by `Host <alias>` is written
   * back unchanged, by either reading; unmarked blocks are never touched.
   */
  lemma RemoveUnmatchedUnchanged(file: Option<string>, alias: string)
    requires file.Some? ==>
      forall k :: 0 <= k < |Split(file.value)| ==> !OpensBlock(Split(file.value), k, alias)
    ensures RemoveHostEntryAsWritten(file, alias) == file
    ensures RemoveHostEntry(file, alias) == file
  {
    if file.Some? {
      var lines := Split(file.value);
      RemoveScanNoMatch(lines, alias, 0, false);
      RemoveScanNoMatch(lines, alias, 0, true);
      assert lines[0..] == lines;
      JoinSplit(file.value);
    }
  }

  /** Lines with no matched marker are copied through, then the scan goes on. */
  lemma {:induction false} RemoveScanPrefix(lines: seq<string>, alias: string, i: nat, n: nat, skipHostLine: bool)
    requires i <= n <= |lines|
    requires forall k :: i <= k < n ==> !OpensBlock(lines, k, alias)
    ensures RemoveScan(lines, alias, i, false, skipHostLine)
         == lines[i..n] + RemoveScan(lines, alias, n, false, skipHostLine)
    decreases n - i
  {
    if i < n {
      RemoveScanPrefix(lines, alias, i + 1, n, skipHostLine);
      KeepStep(lines, alias, i, false, skipHostLine);
      ConsAppend(lines[i], lines[i + 1..n], RemoveScan(lines, alias, n, false, skipHostLine));
      assert [lines[i]] + lines[i + 1..n] == lines[i..n];
    }
  }


  lemma ConsAppend<T>(x: T, a: seq<T>, b: seq<T>)
    ensures [x] + (a + b) == ([x] + a) + b
  {
  }

  /** While skipping, lines that neither end the skip nor open a block are dropped. */
  lemma {:induction false} RemoveScanSkipRun(lines: seq<string>, alias: string, j: nat, e: nat, skipHostLine: bool)
    requires j <= e <= |lines|
    requires forall m :: j <= m < e ==> !OpensBlock(lines, m, alias) && !EndsSkip(lines[m])
    ensures RemoveScan(lines, alias, j, true, skipHostLine) == RemoveScan(lines, alias, e, true, skipHostLine)
    decreases e - j
  {
    if j < e {
      RemoveScanSkipRun(lines, alias, j + 1, e, skipHostLine);
    }
  }

  /**
   * A matched marker at `k` is dropped, and so is every line after it (from
   * the matched `Host` line on, or from the line after it in the corrected
   * reading) up to the first line `e` that ends the skip; line `e` is kept.
   */
  lemma MatchedBlockRemoved(lines: seq<string>, alias: string, k: nat, e: nat, skipping: bool, skipHostLine: bool)
    requires k < |lines| && OpensBlock(lines, k, alias)
    requires (if skipHostLine then k + 2 else k + 1) <= e <= |lines|
    requires forall m :: (if skipHostLine then k + 2 else k + 1) <= m < e ==>
      !OpensBlock(lines, m, alias) && !EndsSkip(lines[m])
    requires e < |lines| ==> EndsSkip(lines[e]) && !OpensBlock(lines, e, alias)
    ensures RemoveScan(lines, alias, k, skipping, skipHostLine) ==
      if e < |lines| then [lines[e]] + RemoveScan(lines, alias, e + 1, false, skipHostLine) else []
  {
    var j := if skipHostLine then k + 2 else k + 1;
    RemoveScanSkipRun(lines, alias, j, e, skipHostLine);
  }

  /**
   * As written, a matched block whose `Host` line is unindented loses only
   * its marker: the `Host` line ends the skip at once and is kept.
   */
  lemma AsWrittenDropsOnlyMarker(lines: seq<string>, alias: string, k: nat, skipping: bool)
    requires k + 1 < |lines| && OpensBlock(lines, k, alias)
    requires StartsWith(lines[k + 1], "Host ")
    ensures RemoveScan(lines, alias, k, skipping, false) ==
      [lines[k + 1]] + RemoveScan(lines, alias, k + 2, false, false)
  {
    assert !IsMarker(lines[k + 1]) by {
      assert lines[k + 1][0] == 'H';
    }
    HostNameGuardRedundant(lines[k + 1]);
    MatchedBlockRemoved(lines, alias, k, k + 1, skipping, false);
  }

  /** Preconditions under which an add followed by a remove is meaningful. */
  predicate FreshPlainEntry(file: Option<string>, p: Profiles.Profile) {
    && CanAdd(p)
    && PlainAlias(p.sshHost.value)
    && '\n' !in p.name && '\n' !in p.sshKeyPath.value
    && !Lists(GetAllHosts(file), p.sshHost.value)
  }

  /** No line of a file that does not declare the alias opens a block for it. */
  lemma FreshAliasNoMatch(a: seq<string>, tail: seq<string>, alias: string)
    requires PlainAlias(alias)
    requires !Declares(a, 0, alias)
    requires tail != [] && tail[0] != [] && tail[0][0] == '#'
    ensures forall k :: 0 <= k < |a| ==> !OpensBlock(a + tail, k, alias)
  {
    var lines := a + tail;
    PlainAliasLine(alias);
    forall k | 0 <= k < |a|
      ensures !OpensBlock(lines, k, alias)
    {
      if k + 1 < |a| {
        assert lines[k + 1] == a[k + 1];
      } else {
        assert lines[k + 1] == tail[0];
        TrimKeepsHead(tail[0]);
      }
    }
  }

  /** Indented and blank lines never open a block or end a skip. */
  lemma BlockBodyInert(lines: seq<string>, alias: string, n: nat, e: nat)
    requires n <= e <= |lines|
    requires forall m :: n <= m < e ==> lines[m] == "" || lines[m][0] == ' '
    ensures forall m :: n <= m < e ==> !OpensBlock(lines, m, alias) && !EndsSkip(lines[m])
  {
    forall m | n <= m < e
      ensures !IsMarker(lines[m]) && !StartsWith(lines[m], "Host ")
    {
      if lines[m] != "" {
        assert lines[m][0] == ' ';
      }
    }
  }

  /** The shape of an added block after its leading empty line. */
  lemma EntryTailShape(name: string, alias: string, keyPath: string)
    ensures var t := EntryLines(name, alias, keyPath)[1..];
      && |t| == 7
      && IsMarker(t[0]) && t[0][0] == '#'
      && t[1] == "Host " + alias
      && (forall m :: 2 <= m < 7 ==> t[m] == "" || t[m][0] == ' ')
  {
    var t := EntryLines(name, alias, keyPath)[1..];
    assert t[0] == MarkerPrefix + " " + name;
    assert t[0][..|MarkerPrefix|] == MarkerPrefix;
  }

  /** The added block's body is inert, wherever the block sits. */
  lemma AppendedBodyInert(a: seq<string>, tail: seq<string>, alias: string)
    requires |tail| == 7
    requires forall m :: 2 <= m < 7 ==> tail[m] == "" || tail[m][0] == ' '
    ensures forall m :: |a| + 2 <= m < |a| + 7 ==>
      !OpensBlock(a + tail, m, alias) && !EndsSkip((a + tail)[m])
  {
    var lines := a + tail;
    var n := |a|;
    forall m | n + 2 <= m < n + 7
      ensures lines[m] == "" || lines[m][0] == ' '
    {
      assert lines[m] == tail[m - n];
    }
    BlockBodyInert(lines, alias, n + 2, n + 7);
  }

  /** The added marker opens the block for its alias. */
  lemma AppendedMarkerOpens(a: seq<string>, tail: seq<string>, alias: string)
    requires PlainAlias(alias)
    requires |tail| == 7 && IsMarker(tail[0]) && tail[1] == "Host " + alias
    ensures OpensBlock(a + tail, |a|, alias) && StartsWith((a + tail)[|a| + 1], "Host ")
  {
    var lines := a + tail;
    assert lines[|a|] == tail[0];
    assert lines[|a| + 1] == tail[1];
    PlainAliasLine(alias);
    assert ("Host " + alias)[..5] == "Host ";
  }

  /**
   * In a file's lines followed by a freshly added block, the only line that
   * opens a block for the alias is the new marker; its `Host` line is
   * unindented and the directives after it never end a skip.
   */
  lemma AppendedBlockOpens(a: seq<string>, name: string, alias: string, keyPath: string)
    requires PlainAlias(alias)
    requires !Declares(a, 0, alias)
    ensures var lines := a + EntryLines(name, alias, keyPath)[1..];
      && |lines| == |a| + 7
      && (forall k :: 0 <= k < |a| ==> !OpensBlock(lines, k, alias))
      && OpensBlock(lines, |a|, alias)
      && StartsWith(lines[|a| + 1], "Host ")
      && (forall m :: |a| + 2 <= m < |a| + 7 ==> !OpensBlock(lines, m, alias) && !EndsSkip(lines[m]))
  {
    var tail := EntryLines(name, alias, keyPath)[1..];
    EntryTailShape(name, alias, keyPath);
    FreshAliasNoMatch(a, tail, alias);
    AppendedMarkerOpens(a, tail, alias);
    AppendedBodyInert(a, tail, alias);
  }

  /**
   * Scanning a file's lines followed by a freshly added block: as written,
   * only the marker goes; corrected, the whole block goes.
   */
  lemma ScanAppendedBlock(a: seq<string>, name: string, alias: string, keyPath: string, skipHostLine: bool)
    requires PlainAlias(alias)
    requires !Declares(a, 0, alias)
    ensures RemoveScan(a + EntryLines(name, alias, keyPath)[1..], alias, 0, false, skipHostLine) ==
      if skipHostLine then a else a + EntryLines(name, alias, keyPath)[2..]
  {
    var el := EntryLines(name, alias, keyPath);
    AppendedBlockOpens(a, name, alias, keyPath);
    ScanCopiesOldLines(a, el[1..], alias, skipHostLine);
    if skipHostLine {
      ScanAddedBlockCorrected(a + el[1..], alias, |a|);
      assert a + [] == a;
    } else {
      ScanAddedBlockAsWritten(a + el[1..], alias, |a|);
      assert (a + el[1..])[|a| + 1..] == el[2..];
    }
  }

  /** Corrected: from the added marker on, the whole block goes. */
  lemma ScanAddedBlockCorrected(lines: seq<string>, alias: string, n: nat)
    requires |lines| == n + 7 && OpensBlock(lines, n, alias)
    requires forall m :: n + 2 <= m < n + 7 ==> !OpensBlock(lines, m, alias) && !EndsSkip(lines[m])
    ensures RemoveScan(lines, alias, n, false, true) == []
  {
    MatchedBlockRemoved(lines, alias, n, n + 7, false, true);
  }

  /** As written: from the added marker on, everything but the marker stays. */
  lemma ScanAddedBlockAsWritten(lines: seq<string>, alias: string, n: nat)
    requires |lines| == n + 7 && OpensBlock(lines, n, alias) && StartsWith(lines[n + 1], "Host ")
    requires forall m :: n + 2 <= m < n + 7 ==> !OpensBlock(lines, m, alias) && !EndsSkip(lines[m])
    ensures RemoveScan(lines, alias, n, false, false) == lines[n + 1..]
  {
    AsWrittenDropsOnlyMarker(lines, alias, n, false);
    RemoveScanNoMatch(lines, alias, n + 2, false);
    assert [lines[n + 1]] + lines[n + 2..] == lines[n + 1..];
  }

  /** The old lines, none of which opens a block for the alias, are copied through. */
  lemma ScanCopiesOldLines(a: seq<string>, tail: seq<string>, alias: string, skipHostLine: bool)
    requires forall k :: 0 <= k < |a| ==> !OpensBlock(a + tail, k, alias)
    ensures RemoveScan(a + tail, alias, 0, false, skipHostLine)
         == a + RemoveScan(a + tail, alias, |a|, false, skipHostLine)
  {
    RemoveScanPrefix(a + tail, alias, 0, |a|, skipHostLine);
    assert (a + tail)[0..|a|] == a;
  }

  /** Adding a fresh block to a file yields the file's lines followed by the block's. */
  lemma AddedFileLines(file: Option<string>, p: Profiles.Profile)
    requires FreshPlainEntry(file, p)
    ensures AddHostEntry(file, p).Some?
    ensures Split(AddHostEntry(file, p).value) ==
      Split(Content(file)) + EntryLines(p.name, p.sshHost.value, p.sshKeyPath.value)[1..]
    ensures !Declares(Split(Content(file)), 0, p.sshHost.value)
  {
    var c := Content(file);
    AppendedLinesExact(c, p.name, p.sshHost.value, p.sshKeyPath.value);
    GetAllHostsLists(file, p.sshHost.value);
    if file.None? {
      assert Split(c) == [""];
    }
  }

  /** The text of a block's lines from its `Host` line on, written out. */
  lemma BodyTextLiteral(name: string, alias: string, keyPath: string)
    ensures Join(EntryLines(name, alias, keyPath)[2..]) ==
      "Host " + alias + ("\n  HostName github.com\n  User git\n  IdentityFile " + keyPath + "\n  IdentitiesOnly yes\n")
  {
    var t6 := ["  IdentitiesOnly yes", ""];
    var t5 := ["  IdentityFile " + keyPath] + t6;
    var t4 := ["  User git"] + t5;
    var t3 := ["  HostName github.com"] + t4;
    var t2 := ["Host " + alias] + t3;
    assert EntryLines(name, alias, keyPath)[2..] == t2;
    JoinCons("  IdentitiesOnly yes", [""]);
    JoinCons("  IdentityFile " + keyPath, t6);
    JoinCons("  User git", t5);
    JoinCons("  HostName github.com", t4);
    JoinCons("Host " + alias, t3);
    DirectiveTail(keyPath);
    var x := "  HostName github.com" + "\n" + ("  User git" + "\n" + ("  IdentityFile " + keyPath + "\n" + ("  IdentitiesOnly yes" + "\n" + "")));
    Assoc("Host " + alias, "\n", x);
  }

  lemma JoinAfterContent(c: string, body: string, host: string, alias: string, t: string, nh: string)
    requires body == host + alias + t && "\n" + host == nh
    ensures c + "\n" + body == c + nh + alias + t
  {
  }

  /** As written, removing a just-added block leaves its lines from the `Host` line on. */
  lemma AsWrittenAddThenRemoveLines(file: Option<string>, p: Profiles.Profile)
    requires FreshPlainEntry(file, p)
    ensures RemoveHostEntryAsWritten(AddHostEntry(file, p), p.sshHost.value) ==
      Some(Content(file) + "\n" + Join(EntryLines(p.name, p.sshHost.value, p.sshKeyPath.value)[2..]))
  {
    var c := Content(file);
    var el := EntryLines(p.name, p.sshHost.value, p.sshKeyPath.value);
    AddedFileLines(file, p);
    ScanAppendedBlock(Split(c), p.name, p.sshHost.value, p.sshKeyPath.value, false);
    JoinAppend(Split(c), el[2..]);
    JoinSplit(c);
  }

  /**
   * As written, removing a block that was just added leaves its `Host` line
   * and directives behind: the file keeps everything but the marker line.
   */
  lemma AsWrittenAddThenRemove(file: Option<string>, p: Profiles.Profile)
    requires FreshPlainEntry(file, p)
    ensures RemoveHostEntryAsWritten(AddHostEntry(file, p), p.sshHost.value) ==
      Some(Content(file) + "\nHost " + p.sshHost.value
           + ("\n  HostName github.com\n  User git\n  IdentityFile " + p.sshKeyPath.value
           + "\n  IdentitiesOnly yes\n"))
    ensures RemoveHostEntryAsWritten(AddHostEntry(file, p), p.sshHost.value) != Some(Content(file))
  {
    AsWrittenAddThenRemoveLines(file, p);
    LeftoverText(Content(file), p.name, p.sshHost.value, p.sshKeyPath.value);
  }

  /** The text left by the as-written removal, written out. */
  lemma LeftoverText(c: string, name: string, alias: string, keyPath: string)
    ensures c + "\n" + Join(EntryLines(name, alias, keyPath)[2..]) ==
      c + "\nHost " + alias + ("\n  HostName github.com\n  User git\n  IdentityFile " + keyPath + "\n  IdentitiesOnly yes\n")
    ensures Some(c + "\n" + Join(EntryLines(name, alias, keyPath)[2..])) != Some(c)
  {
    BodyTextLiteral(name, alias, keyPath);
    var t := "\n  HostName github.com\n  User git\n  IdentityFile " + keyPath + "\n  IdentitiesOnly yes\n";
    JoinAfterContent(c, Join(EntryLines(name, alias, keyPath)[2..]), "Host ", alias, t, "\nHost ");
    LongerThanContent(c, "\nHost " + alias + t);
  }

  lemma LongerThanContent(c: string, x: string)
    requires x != ""
    ensures Some(c + x) != Some(c)
  {
    assert |c + x| > |c|;
  }

  /** The corrected removal undoes an add exactly. */
  lemma AddThenRemove(file: Option<string>, p: Profiles.Profile)
    requires FreshPlainEntry(file, p)
    ensures RemoveHostEntry(AddHostEntry(file, p), p.sshHost.value) == Some(Content(file))
  {
    var c := Content(file);
    AddedFileLines(file, p);
    ScanAppendedBlock(Split(c), p.name, p.sshHost.value, p.sshKeyPath.value, true);
    JoinSplit(c);
  }

  // =====================================================================
  // getExistingEntries

  /** An owned host block as listed by `getExistingEntries`. */
  datatype OwnedEntry = OwnedEntry(
    marker: string,
    host: string,
    hostName: Option<string>,
    user: Option<string>,
    identityFile: string)

  datatype Directives = Directives(hostName: Option<string>, user: Option<string>, identityFile: Option<string>)

  /**
   * One trimmed line of a block: a recognised directive updates the fields; a
   * blank, `Host ` or comment line ends the block (`None`); anything else is
   * passed over.
   */
  function DirectiveStep(sub: string, acc: Directives): (r: Option<Directives>)
    requires sub == Trim(sub)
    ensures r.Some? && r.value.identityFile != acc.identityFile ==>
      r.value.identityFile.Some? && r.value.identityFile.value != ""
  {
    if StartsWith(sub, "HostName ") then Some(acc.(hostName := Some(Trim(sub[9..]))))
    else if StartsWith(sub, "User ") then Some(acc.(user := Some(Trim(sub[5..]))))
    else if StartsWith(sub, "IdentityFile ") then
      TrimmedKeywordHasRest(sub, "IdentityFile ");
      Some(acc.(identityFile := Some(Trim(sub[13..]))))
    else if sub == "" || StartsWith(sub, "Host ") || StartsWith(sub, "#") then None
    else Some(acc)
  }

  /** Reads the directive lines after a `Host` line until a line ends the block. */
  function ScanDirectives(lines: seq<string>, j: nat, acc: Directives): (d: Directives)
    ensures d.identityFile.Some? && d.identityFile != acc.identityFile ==> d.identityFile.value != ""
    decreases |lines| - j
  {
    if j >= |lines| then acc
    else
      TrimOfTrimmed(Trim(lines[j]));
      match DirectiveStep(Trim(lines[j]), acc)
      case None => acc
      case Some(next) => ScanDirectives(lines, j + 1, next)
  }

  /** Number of marker lines from `i` on. */
  function MarkersFrom(lines: seq<string>, i: nat): nat
    requires i <= |lines|
    decreases |lines| - i
  {
    if i == |lines| then 0
    else (if IsMarker(lines[i]) then 1 else 0) + MarkersFrom(lines, i + 1)
  }

  /** Some untrimmed `Host ` line at or after `i` names `host`. */
  predicate FromHostLine(lines: seq<string>, i: nat, host: string) {
    exists k :: i <= k < |lines| && StartsWith(lines[k], "Host ") && !IsMarker(lines[k])
      && host == Trim(lines[k][5..])
  }

  /**
   * The scan of `getExistingEntries` from line `i`, `marker` being the pending
   * marker text: a marker line sets it, and an untrimmed `Host ` line with a
   * pending text lists an entry (when its alias and key file are non-empty)
   * and clears it.
   */
  function EntriesFrom(lines: seq<string>, i: nat, marker: string): seq<OwnedEntry>
    requires i <= |lines|
    decreases |lines| - i
  {
    if i == |lines| then []
    else if IsMarker(lines[i]) then
      EntriesFrom(lines, i + 1, Trim(lines[i][|MarkerPrefix|..]))
    else if StartsWith(lines[i], "Host ") && marker != "" then
      var host := Trim(lines[i][5..]);
      var d := ScanDirectives(lines, i + 1, Directives(None, None, None));
      var rest := EntriesFrom(lines, i + 1, "");
      if host != "" && d.identityFile.Some? && d.identityFile.value != "" then
        [OwnedEntry(marker, host, d.hostName, d.user, d.identityFile.value)] + rest
      else rest
    else EntriesFrom(lines, i + 1, marker)
  }

  /**
   * Each entry listed from line `i` on comes from an untrimmed `Host ` line
   * after a non-empty marker text, and has a non-empty alias and key file; a
   * `Host` line consumes the pending marker, so entries never outnumber markers.
   */
  predicate EntriesSound(lines: seq<string>, i: nat, marker: string)
    requires i <= |lines|
  {
    var r := EntriesFrom(lines, i, marker);
    && (forall a :: 0 <= a < |r| ==> EntryOk(lines, i, r[a]))
    && |r| <= MarkersFrom(lines, i) + (if marker != "" then 1 else 0)
  }

  /** An entry with a marker text, alias and key file, from some `Host ` line at or after `i`. */
  predicate EntryOk(lines: seq<string>, i: nat, e: OwnedEntry) {
    e.host != "" && e.identityFile != "" && e.marker != "" && FromHostLine(lines, i, e.host)
  }

  lemma FromHostLineWiden(lines: seq<string>, i: nat, h: string)
    requires i < |lines| && FromHostLine(lines, i + 1, h)
    ensures FromHostLine(lines, i, h)
  {
    var k :| i + 1 <= k < |lines| && StartsWith(lines[k], "Host ") && !IsMarker(lines[k])
      && h == Trim(lines[k][5..]);
  }

  /** Entries sound from line `i + 1` on are sound from line `i` on. */
  lemma AllOkWiden(lines: seq<string>, i: nat, r: seq<OwnedEntry>)
    requires i < |lines|
    requires forall a :: 0 <= a < |r| ==> EntryOk(lines, i + 1, r[a])
    ensures forall a :: 0 <= a < |r| ==> EntryOk(lines, i, r[a])
  {
    forall a | 0 <= a < |r| ensures EntryOk(lines, i, r[a]) {
      FromHostLineWiden(lines, i, r[a].host);
    }
  }

  lemma AllOkAppend(lines: seq<string>, i: nat, head: seq<OwnedEntry>, rest: seq<OwnedEntry>)
    requires forall a :: 0 <= a < |head| ==> EntryOk(lines, i, head[a])
    requires forall a :: 0 <= a < |rest| ==> EntryOk(lines, i, rest[a])
    ensures forall a :: 0 <= a < |head + rest| ==> EntryOk(lines, i, (head + rest)[a])
  {
    forall a | 0 <= a < |head + rest| ensures EntryOk(lines, i, (head + rest)[a]) {
      if a >= |head| {
        assert (head + rest)[a] == rest[a - |head|];
      } else {
        assert (head + rest)[a] == head[a];
      }
    }
  }

  lemma EntriesSoundMarker(lines: seq<string>, i: nat, marker: string)
    requires i < |lines| && IsMarker(lines[i])
    requires EntriesSound(lines, i + 1, Trim(lines[i][|MarkerPrefix|..]))
    ensures EntriesSound(lines, i, marker)
  {
    var r := EntriesFrom(lines, i, marker);
    assert r == EntriesFrom(lines, i + 1, Trim(lines[i][|MarkerPrefix|..]));
    assert MarkersFrom(lines, i) == 1 + MarkersFrom(lines, i + 1);
    AllOkWiden(lines, i, r);
  }

  lemma EntriesSoundHost(lines: seq<string>, i: nat, marker: string)
    requires i < |lines| && !IsMarker(lines[i]) && StartsWith(lines[i], "Host ") && marker != ""
    requires EntriesSound(lines, i + 1, "")
    ensures EntriesSound(lines, i, marker)
  {
    EntriesAtHost(lines, i, marker);
    var host := Trim(lines[i][5..]);
    var d := ScanDirectives(lines, i + 1, Directives(None, None, None));
    var head := if host != "" && d.identityFile.Some? && d.identityFile.value != ""
      then [OwnedEntry(marker, host, d.hostName, d.user, d.identityFile.value)] else [];
    var rest := EntriesFrom(lines, i + 1, "");
    assert EntriesFrom(lines, i, marker) == head + rest;
    assert MarkersFrom(lines, i) == MarkersFrom(lines, i + 1);
    assert FromHostLine(lines, i, host) by {
      assert StartsWith(lines[i], "Host ") && !IsMarker(lines[i]) && host == Trim(lines[i][5..]);
    }
    AllOkWiden(lines, i, rest);
    AllOkAppend(lines, i, head, rest);
  }

  lemma EntriesSoundOther(lines: seq<string>, i: nat, marker: string)
    requires i < |lines| && !IsMarker(lines[i]) && !(StartsWith(lines[i], "Host ") && marker != "")
    requires EntriesSound(lines, i + 1, marker)
    ensures EntriesSound(lines, i, marker)
  {
    var r := EntriesFrom(lines, i, marker);
    assert r == EntriesFrom(lines, i + 1, marker);
    assert MarkersFrom(lines, i) == MarkersFrom(lines, i + 1);
    AllOkWiden(lines, i, r);
  }

  /** The listing is sound from every line on, whatever marker text is pending. */
  lemma {:induction false} EntriesFromSound(lines: seq<string>, i: nat, marker: string)
    requires i <= |lines|
    ensures EntriesSound(lines, i, marker)
    decreases |lines| - i
  {
    if i < |lines| {
      if IsMarker(lines[i]) {
        EntriesFromSound(lines, i + 1, Trim(lines[i][|MarkerPrefix|..]));
        EntriesSoundMarker(lines, i, marker);
      } else if StartsWith(lines[i], "Host ") && marker != "" {
        EntriesFromSound(lines, i + 1, "");
        EntriesSoundHost(lines, i, marker);
      } else {
        EntriesFromSound(lines, i + 1, marker);
        EntriesSoundOther(lines, i, marker);
      }
    }
  }

  /** `getExistingEntries`: nothing for a missing file. */
  function GetExistingEntries(file: Option<string>): (r: seq<OwnedEntry>)
    ensures file.None? ==> r == []
    ensures file.Some? ==> |r| <= MarkersFrom(Split(file.value), 0)
    ensures forall a :: 0 <= a < |r| ==> r[a].host != "" && r[a].identityFile != ""
  {
    match file
    case None => []
    case Some(c) =>
      EntriesFromSound(Split(c), 0, "");
      EntriesFrom(Split(c), 0, "")
  }

  /** Trimming ignores a leading space. */
  lemma TrimSpaceHead(s: string)
    ensures Trim(" " + s) == Trim(s)
  {
    assert (" " + s)[1..] == s;
    assert TrimStart(" " + s) == TrimStart(s);
  }

  /** An indented directive trims to the directive itself. */
  lemma TrimIndented(s: string)
    requires s != [] && !IsSpace(s[0]) && !IsSpace(s[|s| - 1])
    ensures Trim("  " + s) == s
  {
    assert ("  " + s)[0] == ' ' && ("  " + s)[1..] == " " + s;
    assert (" " + s)[0] == ' ' && (" " + s)[1..] == s;
    assert TrimStart(s) == s;
    assert TrimStart("  " + s) == s;
    assert TrimEnd(s) == s;
  }

  /** The directive scan never reads past a comment line. */
  lemma {:induction false} ScanStopsAtComment(a: seq<string>, tail: seq<string>, j: nat, acc: Directives)
    requires j <= |a| && tail != [] && tail[0] != [] && tail[0][0] == '#'
    ensures ScanDirectives(a + tail, j, acc) == ScanDirectives(a, j, acc)
    decreases |a| - j
  {
    var lines := a + tail;
    if j == |a| {
      assert lines[j] == tail[0];
      ScanAtComment(lines, j, acc);
    } else {
      assert lines[j] == a[j];
      TrimOfTrimmed(Trim(a[j]));
      var step := DirectiveStep(Trim(a[j]), acc);
      if step.Some? {
        ScanStopsAtComment(a, tail, j + 1, step.value);
      }
    }
  }

  /**
   * Listing entries over a file followed by a marker line: the file's own
   * entries, then those from after the marker (which resets the pending text).
   */
  lemma {:induction false} EntriesSplitAtMarker(a: seq<string>, tail: seq<string>, i: nat, marker: string)
    requires i <= |a| && tail != [] && IsMarker(tail[0])
    ensures EntriesFrom(a + tail, i, marker) ==
      EntriesFrom(a, i, marker) + EntriesFrom(a + tail, |a| + 1, Trim(tail[0][|MarkerPrefix|..]))
    decreases |a| - i
  {
    var lines := a + tail;
    assert tail[0][0] == '#';
    if i == |a| {
      assert lines[i] == tail[0];
    } else {
      assert lines[i] == a[i];
      if IsMarker(a[i]) {
        EntriesSplitAtMarker(a, tail, i + 1, Trim(a[i][|MarkerPrefix|..]));
      } else if StartsWith(a[i], "Host ") && marker != "" {
        EntriesSplitAtMarker(a, tail, i + 1, "");
        ScanStopsAtComment(a, tail, i + 1, Directives(None, None, None));
        EntriesSplitHost(a, tail, i, marker);
      } else {
        EntriesSplitAtMarker(a, tail, i + 1, marker);
      }
    }
  }

  /** The `Host` step of `EntriesSplitAtMarker`, given the split of the lines after it. */
  lemma EntriesSplitHost(a: seq<string>, tail: seq<string>, i: nat, marker: string)
    requires i < |a| && tail != [] && IsMarker(tail[0])
    requires !IsMarker(a[i]) && StartsWith(a[i], "Host ") && marker != ""
    requires EntriesFrom(a + tail, i + 1, "") ==
      EntriesFrom(a, i + 1, "") + EntriesFrom(a + tail, |a| + 1, Trim(tail[0][|MarkerPrefix|..]))
    requires ScanDirectives(a + tail, i + 1, Directives(None, None, None))
      == ScanDirectives(a, i + 1, Directives(None, None, None))
    ensures EntriesFrom(a + tail, i, marker) ==
      EntriesFrom(a, i, marker) + EntriesFrom(a + tail, |a| + 1, Trim(tail[0][|MarkerPrefix|..]))
  {
    assert (a + tail)[i] == a[i];
  }

  /** A key path as a directive writes it and a read gives it back. */
  predicate PlainPath(path: string) {
    path != [] && !IsSpace(path[0]) && !IsSpace(path[|path| - 1]) && '\n' !in path
  }

  /** One step of the directive scan, with the line's trim and its effect given. */
  lemma ScanOne(lines: seq<string>, j: nat, acc: Directives, sub: string, next: Directives)
    requires j < |lines| && Trim(lines[j]) == sub && sub == Trim(sub)
    requires DirectiveStep(sub, acc) == Some(next)
    ensures ScanDirectives(lines, j, acc) == ScanDirectives(lines, j + 1, next)
  {
  }

  lemma HostNameLine(lines: seq<string>, j: nat, acc: Directives)
    requires j < |lines| && lines[j] == "  HostName github.com"
    ensures ScanDirectives(lines, j, acc) == ScanDirectives(lines, j + 1, acc.(hostName := Some("github.com")))
  {
    var sub := "HostName github.com";
    assert lines[j] == "  " + sub;
    TrimIndented(sub);
    TrimOfTrimmed(sub);
    assert StartsWith(sub, "HostName ");
    assert sub[9..] == "github.com";
    TrimOfTrimmed("github.com");
    ScanOne(lines, j, acc, sub, acc.(hostName := Some("github.com")));
  }

  lemma UserLine(lines: seq<string>, j: nat, acc: Directives)
    requires j < |lines| && lines[j] == "  User git"
    ensures ScanDirectives(lines, j, acc) == ScanDirectives(lines, j + 1, acc.(user := Some("git")))
  {
    var sub := "User git";
    assert lines[j] == "  " + sub;
    TrimIndented(sub);
    TrimOfTrimmed(sub);
    assert !StartsWith(sub, "HostName ");
    assert StartsWith(sub, "User ");
    assert sub[5..] == "git";
    TrimOfTrimmed("git");
    ScanOne(lines, j, acc, sub, acc.(user := Some("git")));
  }

  lemma IdentityLine(lines: seq<string>, j: nat, acc: Directives, keyPath: string)
    requires PlainPath(keyPath)
    requires j < |lines| && lines[j] == "  IdentityFile " + keyPath
    ensures ScanDirectives(lines, j, acc) == ScanDirectives(lines, j + 1, acc.(identityFile := Some(keyPath)))
  {
    var sub := "IdentityFile " + keyPath;
    assert lines[j] == "  " + sub;
    TrimIndented(sub);
    TrimOfTrimmed(sub);
    assert sub[0] == 'I';
    assert StartsWith(sub, "IdentityFile ");
    assert sub[13..] == keyPath;
    TrimOfTrimmed(keyPath);
    ScanOne(lines, j, acc, sub, acc.(identityFile := Some(keyPath)));
  }

  lemma IdentitiesOnlyLine(lines: seq<string>, j: nat, acc: Directives)
    requires j < |lines| && lines[j] == "  IdentitiesOnly yes"
    ensures ScanDirectives(lines, j, acc) == ScanDirectives(lines, j + 1, acc)
  {
    var sub := "IdentitiesOnly yes";
    assert lines[j] == "  " + sub;
    TrimIndented(sub);
    IdentitiesOnlyStep(acc);
    ScanOne(lines, j, acc, sub, acc);
  }

  /** `IdentitiesOnly` is a directive the scan passes over. */
  lemma IdentitiesOnlyStep(acc: Directives)
    ensures "IdentitiesOnly yes" == Trim("IdentitiesOnly yes")
    ensures DirectiveStep("IdentitiesOnly yes", acc) == Some(acc)
  {
    var sub := "IdentitiesOnly yes";
    TrimOfTrimmed(sub);
    assert !StartsWith(sub, "HostName ") by { assert sub[..9][0] != "HostName "[0]; }
    assert !StartsWith(sub, "User ") by { assert sub[..5][0] != "User "[0]; }
    assert !StartsWith(sub, "IdentityFile ") by { assert sub[..13][7] != "IdentityFile "[7]; }
    assert !StartsWith(sub, "Host ") by { assert sub[..5][0] != "Host "[0]; }
    assert !StartsWith(sub, "#") by { assert sub[..1][0] != "#"[0]; }
  }

  /** The directives of an added block, read back. */
  lemma BlockDirectives(lines: seq<string>, n: nat, keyPath: string)
    requires PlainPath(keyPath)
    requires n + 5 == |lines|
    requires lines[n] == "  HostName github.com" && lines[n + 1] == "  User git"
    requires lines[n + 2] == "  IdentityFile " + keyPath
    requires lines[n + 3] == "  IdentitiesOnly yes" && lines[n + 4] == ""
    ensures ScanDirectives(lines, n, Directives(None, None, None)) ==
      Directives(Some("github.com"), Some("git"), Some(keyPath))
  {
    var d0 := Directives(None, None, None);
    var d1 := d0.(hostName := Some("github.com"));
    var d2 := d1.(user := Some("git"));
    var d3 := d2.(identityFile := Some(keyPath));
    HostNameLine(lines, n, d0);
    UserLine(lines, n + 1, d1);
    IdentityLine(lines, n + 2, d2, keyPath);
    IdentitiesOnlyLine(lines, n + 3, d3);
    BlankEndsScan(lines, n + 4, d3);
  }

  lemma BlankEndsScan(lines: seq<string>, j: nat, acc: Directives)
    requires j < |lines| && lines[j] == ""
    ensures ScanDirectives(lines, j, acc) == acc
  {
    assert Trim("") == "";
    TrimOfTrimmed("");
  }

  /** The lines of an added block from its `Host` line on list one entry, if a marker text is pending. */
  lemma BlockEntries(lines: seq<string>, n: nat, marker: string, alias: string, keyPath: string)
    requires PlainAlias(alias) && PlainPath(keyPath)
    requires n + 6 == |lines|
    requires lines[n] == "Host " + alias
    requires lines[n + 1] == "  HostName github.com" && lines[n + 2] == "  User git"
    requires lines[n + 3] == "  IdentityFile " + keyPath
    requires lines[n + 4] == "  IdentitiesOnly yes" && lines[n + 5] == ""
    ensures EntriesFrom(lines, n, marker) ==
      if marker != "" then [OwnedEntry(marker, alias, Some("github.com"), Some("git"), keyPath)] else []
  {
    assert !IsMarker(lines[n]) by {
      assert lines[n][0] == 'H';
    }
    assert StartsWith(lines[n], "Host ");
    assert lines[n][5..] == alias;
    TrimOfTrimmed(alias);
    BodyLinesPlain(lines, n + 1, keyPath);
    EntriesNone(lines, n + 1);
    if marker != "" {
      BlockDirectives(lines, n + 1, keyPath);
      EntriesAtHost(lines, n, marker);
    }
  }

  /** One step of the listing at an unmarked `Host ` line with a marker text pending. */
  lemma EntriesAtHost(lines: seq<string>, i: nat, marker: string)
    requires i < |lines| && !IsMarker(lines[i]) && StartsWith(lines[i], "Host ") && marker != ""
    ensures var host := Trim(lines[i][5..]);
      var d := ScanDirectives(lines, i + 1, Directives(None, None, None));
      EntriesFrom(lines, i, marker) ==
        (if host != "" && d.identityFile.Some? && d.identityFile.value != ""
         then [OwnedEntry(marker, host, d.hostName, d.user, d.identityFile.value)] else [])
        + EntriesFrom(lines, i + 1, "")
  {
  }

  /** The lines after an added block's `Host` line are indented or blank. */
  lemma BodyLinesPlain(lines: seq<string>, n: nat, keyPath: string)
    requires n + 5 == |lines|
    requires lines[n] == "  HostName github.com" && lines[n + 1] == "  User git"
    requires lines[n + 2] == "  IdentityFile " + keyPath
    requires lines[n + 3] == "  IdentitiesOnly yes" && lines[n + 4] == ""
    ensures forall m :: n <= m < |lines| ==> !IsMarker(lines[m]) && !StartsWith(lines[m], "Host ")
  {
    forall m | n <= m < |lines|
      ensures !IsMarker(lines[m]) && !StartsWith(lines[m], "Host ")
    {
      if m < n + 4 {
        assert lines[m][0] == ' ';
      }
    }
  }

  /** With no marker and no untrimmed `Host ` line from `i` on, nothing is listed. */
  lemma {:induction false} EntriesNone(lines: seq<string>, i: nat)
    requires i <= |lines|
    requires forall m :: i <= m < |lines| ==> !IsMarker(lines[m]) && !StartsWith(lines[m], "Host ")
    ensures EntriesFrom(lines, i, "") == []
    decreases |lines| - i
  {
    if i < |lines| {
      EntriesNone(lines, i + 1);
    }
  }

  /** Listing a file's lines followed by an added block's lines. */
  lemma EntriesOfAppended(a: seq<string>, name: string, alias: string, keyPath: string)
    requires PlainAlias(alias) && PlainPath(keyPath)
    ensures EntriesFrom(a + EntryLines(name, alias, keyPath)[1..], 0, "") ==
      EntriesFrom(a, 0, "")
      + (if Trim(name) != "" then [OwnedEntry(Trim(name), alias, Some("github.com"), Some("git"), keyPath)] else [])
  {
    var el := EntryLines(name, alias, keyPath);
    var lines := a + el[1..];
    assert el[1] == MarkerPrefix + " " + name;
    assert el[1][..|MarkerPrefix|] == MarkerPrefix;
    assert el[1][|MarkerPrefix|..] == " " + name;
    TrimSpaceHead(name);
    EntriesSplitAtMarker(a, el[1..], 0, "");
    var n := |a| + 1;
    assert lines[n] == el[2] && lines[n + 1] == el[3] && lines[n + 2] == el[4];
    assert lines[n + 3] == el[5] && lines[n + 4] == el[6] && lines[n + 5] == el[7];
    BlockEntries(lines, n, Trim(name), alias, keyPath);
  }

  /**
   * A listing after adding a block: the old listing, then the new block, which
   * is listed when its profile name trims to a non-empty marker text.
   */
  lemma AddedEntryListed(file: Option<string>, p: Profiles.Profile)
    requires FreshPlainEntry(file, p) && PlainPath(p.sshKeyPath.value)
    ensures GetExistingEntries(AddHostEntry(file, p)) ==
      GetExistingEntries(Some(Content(file)))
      + (if Trim(p.name) != ""
         then [OwnedEntry(Trim(p.name), p.sshHost.value, Some("github.com"), Some("git"), p.sshKeyPath.value)]
         else [])
  {
    AddedFileLines(file, p);
    EntriesOfAppended(Split(Content(file)), p.name, p.sshHost.value, p.sshKeyPath.value);
  }

  /** A marker line never trims to a `Host` line. */
  lemma MarkerNotHost(line: string, alias: string)
    requires IsMarker(line)
    ensures Trim(line) != "Host " + alias
  {
    assert line[0] == MarkerPrefix[0];
    TrimKeepsHead(line);
  }

  /** The directive scan stops at a comment line. */
  lemma ScanAtComment(lines: seq<string>, j: nat, acc: Directives)
    requires j < |lines| && lines[j] != [] && lines[j][0] == '#'
    ensures ScanDirectives(lines, j, acc) == acc
  {
    TrimKeepsHead(lines[j]);
    TrimOfTrimmed(Trim(lines[j]));
    assert DirectiveStep(Trim(lines[j]), acc) == None;
  }

  /**
   * A marker line that does not open a block for the alias (it is last, or
   * the next line is not `Host <alias>`) survives the removal scan.
   */
  lemma {:induction false} UnmatchedMarkerKept(lines: seq<string>, alias: string, i: nat, k: nat, skipping: bool, skipHostLine: bool)
    requires i <= k < |lines| && IsMarker(lines[k]) && !OpensBlock(lines, k, alias)
    ensures lines[k] in RemoveScan(lines, alias, i, skipping, skipHostLine)
    decreases k - i
  {
    if i == k {
      MarkerKeptHere(lines, alias, k, skipping, skipHostLine);
    } else {
      var next, sk := ScanNext(lines, alias, i, skipping, skipHostLine, lines[k]);
      if next > k {
        assert k == i + 1 && OpensBlock(lines, i, alias);
        MarkerNotHost(lines[k], alias);
        assert false;
      }
      UnmatchedMarkerKept(lines, alias, next, k, sk, skipHostLine);
    }
  }

  /** An unmatched marker line is kept and ends any skip. */
  lemma MarkerKeptHere(lines: seq<string>, alias: string, k: nat, skipping: bool, skipHostLine: bool)
    requires k < |lines| && IsMarker(lines[k]) && !OpensBlock(lines, k, alias)
    ensures RemoveScan(lines, alias, k, skipping, skipHostLine) ==
      [lines[k]] + RemoveScan(lines, alias, k + 1, false, skipHostLine)
  {
    KeepStep(lines, alias, k, skipping, skipHostLine);
  }

  /**
   * One step of the removal scan: a line `x` produced from line `next` in
   * state `sk` is also produced from line `i`; `next` passes the
   * matched `Host` line only when line `i` opens a block.
   */
  lemma ScanNext(lines: seq<string>, alias: string, i: nat, skipping: bool, skipHostLine: bool, x: string)
    returns (next: nat, sk: bool)
    requires i < |lines|
    ensures i < next <= |lines|
    ensures next == i + 1 || (next == i + 2 && OpensBlock(lines, i, alias))
    ensures x in RemoveScan(lines, alias, next, sk, skipHostLine) ==>
      x in RemoveScan(lines, alias, i, skipping, skipHostLine)
  {
    if OpensBlock(lines, i, alias) {
      OpenStep(lines, alias, i, skipping, skipHostLine);
      next, sk := if skipHostLine then i + 2 else i + 1, true;
    } else if skipping && !EndsSkip(lines[i]) {
      SkipStep(lines, alias, i, skipHostLine);
      next, sk := i + 1, true;
    } else {
      KeepStep(lines, alias, i, skipping, skipHostLine);
      next, sk := i + 1, false;
    }
  }

}
