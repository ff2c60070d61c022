/**
 * The decisions taken by the extension's command handlers: how a saved form
 * becomes profile data, what happens to the stored token and the SSH config
 * on save, what a removal cleans up and in which order, which git steps a
 * switch takes, and how a duplicate is built.
 *
 * `resolveAuthMethod` is not part of this model: the method it resolves for a
 * stored profile is a parameter (`auth`) wherever a handler calls it.
 */
module Commands {
  import opened Optional
  import opened Profiles
  import SshConfig
  import Credentials
  import Sidebar

  // =====================================================================
  // Saving the profile form

  /**
   * The form's save message. `authMethod` is read by the handler but is not
   * one of the fields the form declares or sends, hence optional.
   */
  datatype SaveData = SaveData(
    name: string,
    gitUserName: string,
    gitEmail: string,
    authMethod: Option<string>,
    sshKeyPath: string,
    sshHost: string,
    token: string,
    useToken: bool,
    avatarUrl: string)

  /** `data.authMethod || 'none'`: an absent or empty method means `none`. */
  function MethodOf(data: SaveData): (m: string)
    ensures m != ""
    ensures Truthy(data.authMethod) ==> m == data.authMethod.value
    ensures !Truthy(data.authMethod) ==> m == "none"
  {
    if Truthy(data.authMethod) then data.authMethod.value else "none"
  }

  /** The profile data the save handler builds from the form. */
  function Normalise(data: SaveData): (d: ProfileData)
    ensures d.name == data.name && d.gitUserName == data.gitUserName && d.gitEmail == data.gitEmail
    ensures d.authMethod == Some(MethodOf(data))
    ensures d.sshKeyPath.Some? <==> MethodOf(data) == "ssh" && data.sshKeyPath != ""
    ensures d.sshHost.Some? <==> MethodOf(data) == "ssh" && data.sshHost != ""
    ensures d.sshKeyPath.Some? ==> d.sshKeyPath.value == data.sshKeyPath
    ensures d.sshHost.Some? ==> d.sshHost.value == data.sshHost
    ensures d.useToken == Some(MethodOf(data) == "https")
    ensures d.avatarUrl.Some? <==> data.avatarUrl != ""
    ensures d.avatarUrl.Some? ==> d.avatarUrl.value == data.avatarUrl
  {
    var auth := MethodOf(data);
    ProfileData(
      data.name, data.gitUserName, data.gitEmail, Some(auth),
      if auth == "ssh" then NonEmpty(data.sshKeyPath) else None,
      if auth == "ssh" then NonEmpty(data.sshHost) else None,
      Some(auth == "https"),
      NonEmpty(data.avatarUrl))
  }

  /** An optional string that is present is never empty. */
  predicate NoEmptyStrings(d: ProfileData) {
    && (d.sshKeyPath.Some? ==> d.sshKeyPath.value != "")
    && (d.sshHost.Some? ==> d.sshHost.value != "")
    && (d.avatarUrl.Some? ==> d.avatarUrl.value != "")
  }

  /** The form filled in from stored data (absent strings shown empty), with a token typed in. */
  function FormOf(d: ProfileData, token: string): SaveData {
    SaveData(d.name, d.gitUserName, d.gitEmail, d.authMethod, d.sshKeyPath.GetOr(""),
             d.sshHost.GetOr(""), token, d.useToken.GetOr(false), d.avatarUrl.GetOr(""))
  }

  /**
   * `Normalise` is a fixed point on its own output: it never stores an empty
   * string, and a payload that carries the method back, filled from normalised
   * data, normalises to that data again.
   */
  lemma NormaliseStable(data: SaveData, token: string)
    ensures NoEmptyStrings(Normalise(data))
    ensures Normalise(FormOf(Normalise(data), token)) == Normalise(data)
  {
    var d := Normalise(data);
    assert MethodOf(FormOf(d, token)) == MethodOf(data);
  }

  /**
   * The card of a saved profile: an `SSH` badge exactly when the method is
   * `ssh` and an alias was given, a `Token` badge exactly when it is `https`.
   */
  lemma SavedBadges(data: SaveData, id: string)
    ensures "SSH" in Sidebar.Badges(WithId(Normalise(data), id)) <==>
      MethodOf(data) == "ssh" && data.sshHost != ""
    ensures "Token" in Sidebar.Badges(WithId(Normalise(data), id)) <==> MethodOf(data) == "https"
  {
  }

  /**
   * A message without `authMethod`, which is what the form sends, saves the
   * method `none`: the alias and key path typed in are dropped and tokens are off.
   */
  lemma SaveWithoutMethod(data: SaveData)
    requires data.authMethod.None?
    ensures Normalise(data).authMethod == Some("none")
    ensures Normalise(data).sshKeyPath.None? && Normalise(data).sshHost.None?
    ensures Normalise(data).useToken == Some(false)
  {
  }

  /**
   * Re-saving through the real form, whose message has no `authMethod`, keeps
   * the stored data exactly when its method was already `none`; otherwise the
   * method is reset to `none` and the SSH fields are dropped.
   */
  lemma ResaveFromForm(data: SaveData, token: string)
    ensures Normalise(FormOf(Normalise(data), token).(authMethod := None)).authMethod == Some("none")
    ensures Normalise(FormOf(Normalise(data), token).(authMethod := None)).sshHost.None?
    ensures Normalise(FormOf(Normalise(data), token).(authMethod := None)).sshKeyPath.None?
    ensures Normalise(FormOf(Normalise(data), token).(authMethod := None)) == Normalise(data)
            <==> MethodOf(data) == "none"
  {
    var sent := FormOf(Normalise(data), token).(authMethod := None);
    SaveWithoutMethod(sent);
  }

  /** What a save does to the stored token of the profile. */
  datatype TokenAction = StoreToken(token: string) | DeleteToken | KeepToken

  /** On edit: store a non-empty `https` token, delete for any other method, else leave it. */
  function EditTokenAction(auth: string, token: string): (r: TokenAction)
    ensures r.StoreToken? <==> auth == "https" && token != ""
    ensures r.StoreToken? ==> r.token == token
    ensures r.DeleteToken? <==> auth != "https"
  {
    if auth == "https" && token != "" then StoreToken(token)
    else if auth != "https" then DeleteToken
    else KeepToken
  }

  /** On create: store a non-empty `https` token; there is nothing to delete. */
  function CreateTokenAction(auth: string, token: string): (r: TokenAction)
    ensures !r.DeleteToken?
    ensures r.StoreToken? <==> auth == "https" && token != ""
    ensures r.StoreToken? ==> r.token == token
  {
    if auth == "https" && token != "" then StoreToken(token) else KeepToken
  }

  /** The secret store, keyed by profile id. */
  function ApplyToken(tokens: map<string, string>, id: string, a: TokenAction): (r: map<string, string>)
    ensures forall other :: other != id ==> (other in r <==> other in tokens)
    ensures forall other :: other != id && other in r ==> r[other] == tokens[other]
  {
    match a
    case StoreToken(t) => tokens[id := t]
    case DeleteToken => tokens - {id}
    case KeepToken => tokens
  }

  /** The state the handlers act on: the profile store, the secret store and `~/.ssh/config`. */
  datatype World = World(store: Store, tokens: map<string, string>, sshConfig: Option<string>)

  /** Every field of the new data is present in the update, `undefined` ones included. */
  function FullUpdate(d: ProfileData): ProfileUpdate {
    ProfileUpdate(Set(d.name), Set(d.gitUserName), Set(d.gitEmail), Set(d.authMethod),
                  Set(d.sshKeyPath), Set(d.sshHost), Set(d.useToken), Set(d.avatarUrl))
  }

  /** Spreading a full update over a profile keeps only its id. */
  lemma MergeFull(p: Profile, d: ProfileData)
    ensures Merge(p, FullUpdate(d)) == WithId(d, p.id)
  {
  }

  /** After a write, the SSH block goes in only for `ssh` profiles with a key path and an alias. */
  function SshAfterSave(config: Option<string>, auth: string, saved: Option<Profile>): (r: Option<string>)
    ensures auth != "ssh" || saved.None? ==> r == config
    ensures auth == "ssh" && saved.Some? && SshConfig.CanAdd(saved.value) ==>
              r == SshConfig.AddHostEntry(config, saved.value)
    ensures auth == "ssh" && saved.Some? && !SshConfig.CanAdd(saved.value) ==> r == config
  {
    match saved
    case Some(p) =>
      if auth == "ssh" && SshConfig.CanAdd(p) then SshConfig.AddHostEntry(config, p) else config
    case None => config
  }

  /**
   * The save callback. A truthy `existingId` edits that profile; anything else
   * (absent or empty) adds a new one under `freshId`.
   */
  function Save(w: World, data: SaveData, existingId: Option<string>, freshId: string): (r: World)
    ensures r.store.active == w.store.active
    ensures MethodOf(data) != "ssh" ==> r.sshConfig == w.sshConfig
  {
    var auth := MethodOf(data);
    var d := Normalise(data);
    if Truthy(existingId) then
      var id := existingId.value;
      var store := UpdateProfile(w.store, id, FullUpdate(d)).0;
      var tokens := ApplyToken(w.tokens, id, EditTokenAction(auth, data.token));
      World(store, tokens, SshAfterSave(w.sshConfig, auth, GetProfile(store, id)))
    else
      var (store, p) := AddProfile(w.store, d, freshId);
      var tokens := ApplyToken(w.tokens, p.id, CreateTokenAction(auth, data.token));
      World(store, tokens, SshAfterSave(w.sshConfig, auth, Some(p)))
  }

  /**
   * Editing replaces every field of the profile but its id, keeps the list's
   * shape and validity, and stores, deletes or keeps its token as decided.
   */
  lemma SaveEdit(w: World, data: SaveData, id: string, freshId: string)
    requires id != ""
    ensures var r := Save(w, data, Some(id), freshId);
      && |r.store.profiles| == |w.store.profiles|
      && (HasId(w.store.profiles, id) ==> GetProfile(r.store, id) == Some(WithId(Normalise(data), id)))
      && (!HasId(w.store.profiles, id) ==> r.store == w.store && r.sshConfig == w.sshConfig)
      && (Valid(w.store) ==> Valid(r.store))
      && (MethodOf(data) == "https" && data.token != "" ==> id in r.tokens && r.tokens[id] == data.token)
      && (MethodOf(data) != "https" ==> id !in r.tokens)
      && (MethodOf(data) == "https" && data.token == "" ==> r.tokens == w.tokens)
  {
    var d := Normalise(data);
    var s1 := UpdateProfile(w.store, id, FullUpdate(d)).0;
    UpdateFrame(w.store, id, FullUpdate(d));
    if Valid(w.store) {
      UpdateValid(w.store, id, FullUpdate(d));
    }
    if HasId(w.store.profiles, id) {
      var k := FindIndex(w.store.profiles, id).value;
      MergeFull(w.store.profiles[k], d);
      assert s1.profiles[k] == WithId(d, id);
      assert FindIndex(s1.profiles, id) == Some(k) by {
        assert forall j :: 0 <= j < k ==> s1.profiles[j].id != id;
      }
    }
  }

  /**
   * Adding appends the new profile under the fresh id, keeps the store valid
   * when that id is unused, and never deletes a token.
   */
  lemma SaveCreate(w: World, data: SaveData, existingId: Option<string>, freshId: string)
    requires !Truthy(existingId)
    ensures var r := Save(w, data, existingId, freshId);
      && r.store.profiles == w.store.profiles + [WithId(Normalise(data), freshId)]
      && (Valid(w.store) && !HasId(w.store.profiles, freshId) ==> Valid(r.store))
      && (forall id :: id in w.tokens ==> id in r.tokens)
      && (freshId in r.tokens <==> freshId in w.tokens || (MethodOf(data) == "https" && data.token != ""))
      && (MethodOf(data) == "ssh" && data.sshKeyPath != "" && data.sshHost != "" ==>
            r.sshConfig == SshConfig.AddHostEntry(w.sshConfig, WithId(Normalise(data), freshId)))
      && (data.sshKeyPath == "" || data.sshHost == "" ==> r.sshConfig == w.sshConfig)
  {
    if Valid(w.store) && !HasId(w.store.profiles, freshId) {
      AddValid(w.store, Normalise(data), freshId);
    }
  }

  /**
   * Editing a known profile to `ssh` with a key path and an alias appends its
   * block to `~/.ssh/config`; without either the file is left alone.
   */
  lemma SaveEditSsh(w: World, data: SaveData, id: string, freshId: string)
    requires id != "" && HasId(w.store.profiles, id)
    ensures var r := Save(w, data, Some(id), freshId);
      && (MethodOf(data) == "ssh" && data.sshKeyPath != "" && data.sshHost != "" ==>
            r.sshConfig == SshConfig.AddHostEntry(w.sshConfig, WithId(Normalise(data), id)))
      && (data.sshKeyPath == "" || data.sshHost == "" ==> r.sshConfig == w.sshConfig)
  {
    SaveEdit(w, data, id, freshId);
  }

  /** Saving the same form twice leaves `~/.ssh/config` as the first save left it. */
  lemma SaveSshIdempotent(w: World, data: SaveData, existingId: Option<string>, freshId: string)
    requires MethodOf(data) == "ssh" && data.sshHost != "" ==> SshConfig.PlainAlias(data.sshHost)
    ensures var once := Save(w, data, existingId, freshId);
      Save(once, data, existingId, freshId).sshConfig == once.sshConfig
  {
    var once := Save(w, data, existingId, freshId);
    var twice := Save(once, data, existingId, freshId);
    var d := Normalise(data);
    if MethodOf(data) == "ssh" {
      if Truthy(existingId) {
        var id := existingId.value;
        var s1 := UpdateProfile(w.store, id, FullUpdate(d)).0;
        var s2 := UpdateProfile(s1, id, FullUpdate(d)).0;
        SaveEdit(w, data, id, freshId);
        SaveEdit(once, data, id, freshId);
        if HasId(w.store.profiles, id) {
          var p := WithId(d, id);
          assert GetProfile(s1, id) == Some(p);
          assert HasId(s1.profiles, id);
          assert GetProfile(s2, id) == Some(p);
          SshConfig.AddHostEntryIdempotent(w.sshConfig, p);
        }
      } else {
        var p := WithId(d, freshId);
        SshConfig.AddHostEntryIdempotent(w.sshConfig, p);
      }
    }
  }

  // =====================================================================
  // Removing a profile

  /** One clean-up step of the remove command. */
  datatype Cleanup =
    | DropSshEntry(alias: string)
    | RejectCredentials(host: string)
    | DropToken(id: string)
    | DropProfile(id: string)

  /** The clean-up for a confirmed removal of `p`, whose resolved method is `auth`. */
  function RemovePlan(p: Profile, auth: string): (r: seq<Cleanup>)
    ensures |r| >= 2 && r[|r| - 2..] == [DropToken(p.id), DropProfile(p.id)]
    ensures DropSshEntry(p.sshHost.GetOr("")) in r <==> auth == "ssh" && Truthy(p.sshHost)
    ensures RejectCredentials("github.com") in r <==> auth == "https"
    ensures forall k :: 0 <= k < |r| - 2 ==> r[k].DropSshEntry? || r[k].RejectCredentials?
    ensures forall k :: 0 <= k < |r| && r[k].DropSshEntry? ==>
              auth == "ssh" && p.sshHost == Some(r[k].alias) && r[k].alias != ""
    ensures |r| <= 3
  {
    if auth == "ssh" && Truthy(p.sshHost) then [DropSshEntry(p.sshHost.value), DropToken(p.id), DropProfile(p.id)]
    else if auth == "https" then [RejectCredentials("github.com"), DropToken(p.id), DropProfile(p.id)]
    else [DropToken(p.id), DropProfile(p.id)]
  }

  /** A clean-up step on the world; the credential reject touches only git's own helper. */
  function RunCleanup(w: World, c: Cleanup): World {
    match c
    case DropSshEntry(alias) => w.(sshConfig := SshConfig.RemoveHostEntryAsWritten(w.sshConfig, alias))
    case RejectCredentials(_) => w
    case DropToken(id) => w.(tokens := w.tokens - {id})
    case DropProfile(id) => w.(store := Profiles.RemoveProfile(w.store, id).0)
  }

  function RunAll(w: World, steps: seq<Cleanup>): World
    decreases |steps|
  {
    if steps == [] then w else RunAll(RunCleanup(w, steps[0]), steps[1..])
  }

  /** The remove command: nothing happens for an unknown id or an unconfirmed dialog. */
  function RemoveCommand(w: World, id: string, auth: string, confirmed: bool): (r: World)
    ensures !confirmed || !HasId(w.store.profiles, id) ==> r == w
  {
    match GetProfile(w.store, id)
    case None => w
    case Some(p) => if confirmed then RunAll(w, RemovePlan(p, auth)) else w
  }

  /**
   * A confirmed removal leaves no profile and no token under the id, clears
   * the active id when it named the profile, keeps the store valid and
   * keeps every other token.
   */
  lemma RemoveCommandEffect(w: World, id: string, auth: string)
    requires HasId(w.store.profiles, id)
    ensures var r := RemoveCommand(w, id, auth, true);
      && !HasId(r.store.profiles, id)
      && id !in r.tokens
      && (w.store.active == Some(id) ==> r.store.active.None?)
      && (Valid(w.store) ==> Valid(r.store))
      && (forall other :: other != id && other in w.tokens ==> other in r.tokens)
  {
    var mid := RemoveCommandSplit(w, id, auth);
    DropBothEffect(mid, id);
  }

  /** A confirmed removal is the SSH and credential clean-up, then the two drops. */
  lemma RemoveCommandSplit(w: World, id: string, auth: string) returns (mid: World)
    requires HasId(w.store.profiles, id)
    ensures mid.store == w.store && mid.tokens == w.tokens
    ensures RemoveCommand(w, id, auth, true) == RunCleanup(RunCleanup(mid, DropToken(id)), DropProfile(id))
  {
    var pre := RemovePlanSplit(w, id, auth);
    mid := PrefixThenDrops(w, pre, id);
  }

  /** The plan run by a confirmed removal, with its last two steps split off. */
  lemma RemovePlanSplit(w: World, id: string, auth: string) returns (pre: seq<Cleanup>)
    requires HasId(w.store.profiles, id)
    ensures forall k :: 0 <= k < |pre| ==> pre[k].DropSshEntry? || pre[k].RejectCredentials?
    ensures RemoveCommand(w, id, auth, true) == RunAll(w, pre + [DropToken(id), DropProfile(id)])
  {
    var p := GetProfile(w.store, id).value;
    var plan := RemovePlan(p, auth);
    pre := plan[..|plan| - 2];
    assert plan[|plan| - 2..] == [DropToken(id), DropProfile(id)];
    assert plan == pre + [DropToken(id), DropProfile(id)] by {
      assert plan == pre + plan[|plan| - 2..];
    }
    assert RemoveCommand(w, id, auth, true) == RunAll(w, plan);
  }

  /** Clean-up steps that leave the stores alone, then the two drops. */
  lemma PrefixThenDrops(w: World, pre: seq<Cleanup>, id: string) returns (mid: World)
    requires forall k :: 0 <= k < |pre| ==> pre[k].DropSshEntry? || pre[k].RejectCredentials?
    ensures mid.store == w.store && mid.tokens == w.tokens
    ensures RunAll(w, pre + [DropToken(id), DropProfile(id)]) ==
      RunCleanup(RunCleanup(mid, DropToken(id)), DropProfile(id))
  {
    mid := RunAll(w, pre);
    RunAllSplit(w, pre, [DropToken(id), DropProfile(id)]);
    PrefixKeepsStore(w, pre);
    RunTwo(mid, DropToken(id), DropProfile(id));
  }

  /** Dropping the token and then the profile. */
  lemma DropBothEffect(w: World, id: string)
    requires HasId(w.store.profiles, id)
    ensures var r := RunCleanup(RunCleanup(w, DropToken(id)), DropProfile(id));
      && !HasId(r.store.profiles, id)
      && id !in r.tokens
      && (w.store.active == Some(id) ==> r.store.active.None?)
      && (Valid(w.store) ==> Valid(r.store))
      && (forall other :: other != id && other in w.tokens ==> other in r.tokens)
  {
    if Valid(w.store) {
      RemoveValid(w.store, id);
    }
  }

  lemma {:induction false} RunAllSplit(w: World, a: seq<Cleanup>, b: seq<Cleanup>)
    ensures RunAll(w, a + b) == RunAll(RunAll(w, a), b)
    decreases |a|
  {
    if a == [] {
      assert a + b == b;
    } else {
      assert (a + b)[1..] == a[1..] + b;
      RunAllSplit(RunCleanup(w, a[0]), a[1..], b);
    }
  }

  lemma RunTwo(w: World, a: Cleanup, b: Cleanup)
    ensures RunAll(w, [a, b]) == RunCleanup(RunCleanup(w, a), b)
  {
    var w1 := RunCleanup(w, a);
    assert [a, b][1..] == [b];
    assert RunAll(w, [a, b]) == RunAll(w1, [b]);
    assert [b][1..] == [];
    assert RunAll(w1, [b]) == RunAll(RunCleanup(w1, b), []);
  }

  /** Steps other than the SSH clean-up leave the config file alone. */
  lemma {:induction false} RunAllKeepsSsh(w: World, steps: seq<Cleanup>)
    requires forall k :: 0 <= k < |steps| ==> !steps[k].DropSshEntry?
    ensures RunAll(w, steps).sshConfig == w.sshConfig
    decreases |steps|
  {
    if steps != [] {
      RunAllKeepsSsh(RunCleanup(w, steps[0]), steps[1..]);
    }
  }

  /** The SSH and credential steps leave the profile and secret stores alone. */
  lemma {:induction false} PrefixKeepsStore(w: World, steps: seq<Cleanup>)
    requires forall k :: 0 <= k < |steps| ==> steps[k].DropSshEntry? || steps[k].RejectCredentials?
    ensures RunAll(w, steps).store == w.store && RunAll(w, steps).tokens == w.tokens
    decreases |steps|
  {
    if steps != [] {
      PrefixKeepsStore(RunCleanup(w, steps[0]), steps[1..]);
    }
  }

  /**
   * A confirmed removal touches `~/.ssh/config` only for an `ssh` profile with
   * an alias, and then runs the removal of that alias exactly as written.
   */
  lemma RemoveCommandSsh(w: World, id: string, auth: string)
    requires HasId(w.store.profiles, id)
    ensures var p := GetProfile(w.store, id).value;
      RemoveCommand(w, id, auth, true).sshConfig ==
        if auth == "ssh" && Truthy(p.sshHost)
        then SshConfig.RemoveHostEntryAsWritten(w.sshConfig, p.sshHost.value)
        else w.sshConfig
  {
    var p := GetProfile(w.store, id).value;
    if auth == "ssh" && Truthy(p.sshHost) {
      RemoveWithAlias(w, id);
    } else {
      RemoveWithoutAlias(w, id, auth);
    }
  }

  lemma RemoveWithAlias(w: World, id: string)
    requires HasId(w.store.profiles, id)
    requires Truthy(GetProfile(w.store, id).value.sshHost)
    ensures var p := GetProfile(w.store, id).value;
      RemoveCommand(w, id, "ssh", true).sshConfig ==
        SshConfig.RemoveHostEntryAsWritten(w.sshConfig, p.sshHost.value)
  {
    var p := GetProfile(w.store, id).value;
    assert RemoveCommand(w, id, "ssh", true) ==
      RunAll(w, [DropSshEntry(p.sshHost.value)] + [DropToken(p.id), DropProfile(p.id)]);
    SshStepFirst(w, p.sshHost.value, [DropToken(p.id), DropProfile(p.id)]);
  }

  lemma RemoveWithoutAlias(w: World, id: string, auth: string)
    requires HasId(w.store.profiles, id)
    requires !(auth == "ssh" && Truthy(GetProfile(w.store, id).value.sshHost))
    ensures RemoveCommand(w, id, auth, true).sshConfig == w.sshConfig
  {
    var plan := RemovePlan(GetProfile(w.store, id).value, auth);
    PlanWithoutAlias(GetProfile(w.store, id).value, auth);
    RunAllKeepsSsh(w, plan);
  }

  lemma PlanWithoutAlias(p: Profile, auth: string)
    requires !(auth == "ssh" && Truthy(p.sshHost))
    ensures forall k :: 0 <= k < |RemovePlan(p, auth)| ==> !RemovePlan(p, auth)[k].DropSshEntry?
  {
  }

  /** A plan that starts with the SSH step and has no other leaves the config as that step does. */
  lemma SshStepFirst(w: World, alias: string, rest: seq<Cleanup>)
    requires forall k :: 0 <= k < |rest| ==> !rest[k].DropSshEntry?
    ensures RunAll(w, [DropSshEntry(alias)] + rest).sshConfig ==
      SshConfig.RemoveHostEntryAsWritten(w.sshConfig, alias)
  {
    assert ([DropSshEntry(alias)] + rest)[1..] == rest;
    RunAllKeepsSsh(RunCleanup(w, DropSshEntry(alias)), rest);
  }

  /**
   * Removing an `ssh` profile whose block was the last thing added to the
   * config does not give back the config from before the add: the removal as
   * written drops only the marker line, so the `Host` line and the indented
   * settings of the block stay behind.
   */
  lemma RemoveUndoesAdd(w: World, id: string, file: Option<string>)
    requires GetProfile(w.store, id).Some?
    requires var p := GetProfile(w.store, id).value;
      SshConfig.FreshPlainEntry(file, p) && w.sshConfig == SshConfig.AddHostEntry(file, p)
    ensures var p := GetProfile(w.store, id).value;
      RemoveCommand(w, id, "ssh", true).sshConfig ==
        Some(SshConfig.Content(file) + "\nHost " + p.sshHost.value
             + ("\n  HostName github.com\n  User git\n  IdentityFile " + p.sshKeyPath.value
             + "\n  IdentitiesOnly yes\n"))
    ensures RemoveCommand(w, id, "ssh", true).sshConfig != Some(SshConfig.Content(file))
  {
    var p := GetProfile(w.store, id).value;
    RemoveCommandSsh(w, id, "ssh");
    SshConfig.AsWrittenAddThenRemove(file, p);
  }

  // =====================================================================
  // Switching to a profile

  datatype Scope = Local | Global

  /** A git-side step of the switch command. */
  datatype SwitchStep =
    | SwitchUser(profile: Profile, scope: Scope)
    | UpdateRemoteUrl(profile: Profile)
    | EnsureCredentialHelper
    | SetCredentials(host: string, username: string, token: string)
    | ConvertRemoteToHttps
    | SetActiveProfile(id: string)

  /** The scope: `global` without a workspace folder, else the pick (`None` if dismissed). */
  function ChooseScope(hasWorkspace: bool, pick: Option<Scope>): (r: Option<Scope>)
    ensures !hasWorkspace ==> r == Some(Global)
    ensures hasWorkspace ==> r == pick
  {
    if !hasWorkspace then Some(Global) else pick
  }

  /**
   * The environment a switch runs in, and which of its git calls throw: the
   * identity write, the install of the `store` helper, and the approve.
   * `globalHelper` and `localHelper` are what the helper reads return.
   */
  datatype SwitchEnv = SwitchEnv(
    hasWorkspace: bool,
    scopePick: Option<Scope>,
    autoSwitch: bool,
    switchFails: bool,
    globalHelper: Option<string>,
    localHelper: Option<string>,
    installFails: bool,
    rejectFails: bool,
    approveFails: bool)

  /** The helper check throws: it finds no helper, and installing `store` fails. */
  predicate HelperThrows(env: SwitchEnv) {
    Credentials.EnsureCredentialHelper(env.globalHelper, env.hasWorkspace, env.localHelper) && env.installFails
  }

  /** Storing the token throws: only a failing approve reaches the caller. */
  predicate ApproveThrows(p: Profile, token: string, env: SwitchEnv) {
    Credentials.SetCredentials("github.com", p.gitUserName, token, env.rejectFails, env.approveFails).throws
  }

  /** Checking the credential helper, then storing the token for `github.com`. */
  function CredentialSteps(p: Profile, token: string): seq<SwitchStep> {
    [EnsureCredentialHelper, SetCredentials("github.com", p.gitUserName, token)]
  }

  /**
   * The steps after the git identity is set, up to and including marking the
   * profile active. A throwing credential call ends the command there: a
   * failed helper install before the token is stored, a failed approve after.
   */
  function AuthSteps(p: Profile, auth: string, scope: Scope, env: SwitchEnv, token: Option<string>)
    : seq<SwitchStep>
  {
    if auth == "ssh" then
      (if env.autoSwitch && Truthy(p.sshHost) && scope == Local then [UpdateRemoteUrl(p)] else [])
      + [SetActiveProfile(p.id)]
    else if auth == "https" then
      if Truthy(token) && HelperThrows(env) then
        [EnsureCredentialHelper]
      else if Truthy(token) && ApproveThrows(p, token.value, env) then
        CredentialSteps(p, token.value)
      else
        (if Truthy(token) then CredentialSteps(p, token.value) else [])
        + ((if env.autoSwitch && scope == Local then [ConvertRemoteToHttps] else [])
        + [SetActiveProfile(p.id)])
    else
      [SetActiveProfile(p.id)]
  }

  /**
   * The switch command for the profile `id`, with `token` the stored token
   * (read only for `https`). An unknown id or a dismissed scope pick does
   * nothing; a failing `git config` stops right after the attempt.
   */
  function SwitchPlan(s: Store, id: string, auth: string, env: SwitchEnv, token: Option<string>)
    : (r: seq<SwitchStep>)
    ensures r != [] ==> HasId(s.profiles, id) && r[0].SwitchUser? && r[0].profile.id == id
    ensures r != [] && !env.hasWorkspace ==> r[0].scope == Global
  {
    match GetProfile(s, id)
    case None => []
    case Some(p) =>
      match ChooseScope(env.hasWorkspace, env.scopePick)
      case None => []
      case Some(scope) =>
        [SwitchUser(p, scope)] + (if env.switchFails then [] else AuthSteps(p, auth, scope, env, token))
  }

  /** A switch that gets past the scope pick: the identity step, then the rest. */
  lemma SwitchPlanShape(s: Store, id: string, auth: string, env: SwitchEnv, token: Option<string>)
    requires HasId(s.profiles, id) && ChooseScope(env.hasWorkspace, env.scopePick).Some?
    ensures var p := GetProfile(s, id).value;
      var scope := ChooseScope(env.hasWorkspace, env.scopePick).value;
      SwitchPlan(s, id, auth, env, token) ==
        [SwitchUser(p, scope)] + (if env.switchFails then [] else AuthSteps(p, auth, scope, env, token))
  {
  }

  /** Only the last step of the list marks a profile active, and then it is `id`. */
  predicate ActiveOnlyLast(a: seq<SwitchStep>, id: string) {
    forall k :: 0 <= k < |a| && a[k].SetActiveProfile? ==> k == |a| - 1 && a[k] == SetActiveProfile(id)
  }

  lemma ActiveOnlyLastSingle(id: string)
    ensures ActiveOnlyLast([SetActiveProfile(id)], id)
  {
  }

  /** Steps that mark nothing active, followed by the marking step. */
  lemma ActiveOnlyLastAfter(pre: seq<SwitchStep>, id: string)
    requires forall st :: st in pre ==> !st.SetActiveProfile?
    ensures ActiveOnlyLast(pre + [SetActiveProfile(id)], id)
  {
  }

  /** The identity step in front changes nothing about where the marking happens. */
  lemma ActiveOnlyLastCons(st: SwitchStep, a: seq<SwitchStep>, id: string)
    requires !st.SetActiveProfile? && ActiveOnlyLast(a, id)
    ensures ActiveOnlyLast([st] + a, id)
  {
    var r := [st] + a;
    forall k | 0 <= k < |r| && r[k].SetActiveProfile?
      ensures k == |r| - 1 && r[k] == SetActiveProfile(id)
    {
      assert k > 0 && r[k] == a[k - 1];
    }
  }

  /**
   * The steps after the identity: the profile is marked active last, unless
   * the credential call threw.
   */
  lemma AuthStepsActive(p: Profile, auth: string, scope: Scope, env: SwitchEnv, token: Option<string>)
    ensures var a := AuthSteps(p, auth, scope, env, token);
      && a != []
      && ActiveOnlyLast(a, p.id)
      && (a[|a| - 1].SetActiveProfile? <==>
            !(auth == "https" && Truthy(token) && (HelperThrows(env) || env.approveFails)))
  {
    var a := AuthSteps(p, auth, scope, env, token);
    if auth == "ssh" {
      var pre := if env.autoSwitch && Truthy(p.sshHost) && scope == Local then [UpdateRemoteUrl(p)] else [];
      assert a == pre + [SetActiveProfile(p.id)];
      ActiveOnlyLastAfter(pre, p.id);
    } else if auth == "https" {
      if Truthy(token) && HelperThrows(env) {
        assert a == [EnsureCredentialHelper];
      } else if Truthy(token) && ApproveThrows(p, token.value, env) {
        assert a == CredentialSteps(p, token.value);
      } else {
        var cred := if Truthy(token) then CredentialSteps(p, token.value) else [];
        var conv := if env.autoSwitch && scope == Local then [ConvertRemoteToHttps] else [];
        assert a == cred + conv + [SetActiveProfile(p.id)];
        ActiveOnlyLastAfter(cred + conv, p.id);
      }
    } else {
      ActiveOnlyLastSingle(p.id);
    }
  }

  /** With `id`'s marking step last and no other, it is in the list exactly when it is last. */
  lemma ActiveInIffLast(a: seq<SwitchStep>, id: string)
    requires a != [] && ActiveOnlyLast(a, id)
    ensures SetActiveProfile(id) in a <==> a[|a| - 1].SetActiveProfile?
  {
    if SetActiveProfile(id) in a {
      var k :| 0 <= k < |a| && a[k] == SetActiveProfile(id);
    }
  }

  /**
   * The profile becomes active exactly when it exists, a scope was chosen and
   * no git call threw; marking it active is then the last step and happens once.
   */
  lemma SwitchActivates(s: Store, id: string, auth: string, env: SwitchEnv, token: Option<string>)
    ensures var r := SwitchPlan(s, id, auth, env, token);
      && (SetActiveProfile(id) in r <==>
           HasId(s.profiles, id)
           && ChooseScope(env.hasWorkspace, env.scopePick).Some?
           && !env.switchFails
           && !(auth == "https" && Truthy(token) && (HelperThrows(env) || env.approveFails)))
      && (SetActiveProfile(id) in r ==> r[|r| - 1] == SetActiveProfile(id))
      && (forall k :: 0 <= k < |r| - 1 ==> !r[k].SetActiveProfile?)
  {
    var r := SwitchPlan(s, id, auth, env, token);
    if HasId(s.profiles, id) && ChooseScope(env.hasWorkspace, env.scopePick).Some? {
      SwitchPlanShape(s, id, auth, env, token);
      var p := GetProfile(s, id).value;
      var scope := ChooseScope(env.hasWorkspace, env.scopePick).value;
      if env.switchFails {
        assert r == [SwitchUser(p, scope)];
      } else {
        var a := AuthSteps(p, auth, scope, env, token);
        AuthStepsActive(p, auth, scope, env, token);
        assert r == [SwitchUser(p, scope)] + a;
        ActiveOnlyLastCons(SwitchUser(p, scope), a, id);
        assert r[|r| - 1] == a[|a| - 1];
        ActiveInIffLast(r, id);
      }
    } else {
      assert r == [];
    }
  }

  /** A remote-rewriting step only under the conditions the switch checks for it. */
  predicate RemoteStepOk(st: SwitchStep, auth: string, scope: Scope, env: SwitchEnv) {
    && (st.UpdateRemoteUrl? ==> env.autoSwitch && scope == Local && auth == "ssh" && Truthy(st.profile.sshHost))
    && (st.ConvertRemoteToHttps? ==> env.autoSwitch && scope == Local && auth == "https")
  }

  lemma AuthStepsRemote(p: Profile, auth: string, scope: Scope, env: SwitchEnv, token: Option<string>)
    ensures forall st :: st in AuthSteps(p, auth, scope, env, token) ==> RemoteStepOk(st, auth, scope, env)
  {
  }

  /**
   * A remote is rewritten only for the `local` scope with auto-switch on, so
   * never without a workspace; the SSH rewrite needs an alias as well.
   */
  lemma SwitchRemoteRule(s: Store, id: string, auth: string, env: SwitchEnv, token: Option<string>)
    ensures var r := SwitchPlan(s, id, auth, env, token);
      forall k :: 0 <= k < |r| && (r[k].UpdateRemoteUrl? || r[k].ConvertRemoteToHttps?) ==>
        && env.autoSwitch && env.hasWorkspace && r[0].scope == Local
        && (r[k].UpdateRemoteUrl? ==> auth == "ssh" && Truthy(r[k].profile.sshHost))
        && (r[k].ConvertRemoteToHttps? ==> auth == "https")
  {
    var r := SwitchPlan(s, id, auth, env, token);
    if HasId(s.profiles, id) && ChooseScope(env.hasWorkspace, env.scopePick).Some? && !env.switchFails {
      SwitchPlanShape(s, id, auth, env, token);
      var p := GetProfile(s, id).value;
      var scope := ChooseScope(env.hasWorkspace, env.scopePick).value;
      var a := AuthSteps(p, auth, scope, env, token);
      AuthStepsRemote(p, auth, scope, env, token);
      assert r == [SwitchUser(p, scope)] + a;
      forall k | 0 <= k < |r| && (r[k].UpdateRemoteUrl? || r[k].ConvertRemoteToHttps?)
        ensures RemoteStepOk(r[k], auth, scope, env)
      {
        assert r[k] == a[k - 1] && a[k - 1] in a;
      }
    } else if HasId(s.profiles, id) && ChooseScope(env.hasWorkspace, env.scopePick).Some? {
      SwitchPlanShape(s, id, auth, env, token);
    } else {
      assert r == [];
    }
  }

  /** Where the credential step sits among the steps after the identity. */
  lemma AuthStepsCredentials(p: Profile, auth: string, scope: Scope, env: SwitchEnv, token: Option<string>)
    ensures var a := AuthSteps(p, auth, scope, env, token);
      forall k :: 0 <= k < |a| && a[k].SetCredentials? ==>
        && auth == "https" && Truthy(token) && !HelperThrows(env) && k == 1
        && a[0] == EnsureCredentialHelper && a[1] == SetCredentials("github.com", p.gitUserName, token.value)
  {
    var a := AuthSteps(p, auth, scope, env, token);
    if auth == "https" && Truthy(token) {
      if !HelperThrows(env) && !ApproveThrows(p, token.value, env) {
        var rest := (if env.autoSwitch && scope == Local then [ConvertRemoteToHttps] else []) + [SetActiveProfile(p.id)];
        assert forall st :: st in rest ==> !st.SetCredentials?;
        assert a == CredentialSteps(p, token.value) + rest;
      }
    } else {
      assert forall st :: st in a ==> !st.SetCredentials?;
      forall k | 0 <= k < |a| ensures !a[k].SetCredentials? {
        assert a[k] in a;
      }
    }
  }

  /**
   * Credentials are set only for `https` with a non-empty token and a helper
   * check that did not throw, for `github.com` with the profile's git user
   * name, right after that check.
   */
  lemma SwitchCredentialRule(s: Store, id: string, auth: string, env: SwitchEnv, token: Option<string>)
    ensures var r := SwitchPlan(s, id, auth, env, token);
      forall k :: 0 <= k < |r| && r[k].SetCredentials? ==>
        && auth == "https" && Truthy(token) && !HelperThrows(env) && r[k].token == token.value
        && r[k].host == "github.com" && r[k].username == r[0].profile.gitUserName
        && k >= 1 && r[k - 1] == EnsureCredentialHelper
  {
    var r := SwitchPlan(s, id, auth, env, token);
    if HasId(s.profiles, id) && ChooseScope(env.hasWorkspace, env.scopePick).Some? && !env.switchFails {
      SwitchPlanShape(s, id, auth, env, token);
      var p := GetProfile(s, id).value;
      var scope := ChooseScope(env.hasWorkspace, env.scopePick).value;
      var a := AuthSteps(p, auth, scope, env, token);
      AuthStepsCredentials(p, auth, scope, env, token);
      assert r == [SwitchUser(p, scope)] + a;
      forall k | 0 <= k < |r| && r[k].SetCredentials?
        ensures k == 2 && r[k] == a[1] && r[k - 1] == a[0]
      {
        assert r[k] == a[k - 1];
      }
    } else if HasId(s.profiles, id) && ChooseScope(env.hasWorkspace, env.scopePick).Some? {
      SwitchPlanShape(s, id, auth, env, token);
    } else {
      assert r == [];
    }
  }

  /** Switching to a profile just saved with an `https` token hands that token to git. */
  lemma SaveThenSwitch(w: World, data: SaveData, freshId: string, env: SwitchEnv)
    requires !HasId(w.store.profiles, freshId)
    requires MethodOf(data) == "https" && data.token != ""
    requires env.scopePick.Some? || !env.hasWorkspace
    requires !env.switchFails && !HelperThrows(env)
    ensures var r := Save(w, data, None, freshId);
      SetCredentials("github.com", data.gitUserName, data.token)
        in SwitchPlan(r.store, freshId, "https", env, Some(r.tokens[freshId]))
  {
    var r := Save(w, data, None, freshId);
    SaveCreate(w, data, None, freshId);
    AddThenGet(w.store, Normalise(data), freshId, freshId + ".");
  }

  // =====================================================================
  // Duplicating a profile

  /** The duplicate: every field of the source, with an empty id and `" (Copy)"` after the name. */
  function Duplicate(p: Profile): (r: Profile)
    ensures r.id == "" && r.name == p.name + " (Copy)"
    ensures r.(id := p.id, name := p.name) == p
  {
    p.(id := "", name := p.name + " (Copy)")
  }

  /** The data of a profile without its id. */
  function DataOf(p: Profile): ProfileData {
    ProfileData(p.name, p.gitUserName, p.gitEmail, p.authMethod, p.sshKeyPath, p.sshHost,
                p.useToken, p.avatarUrl)
  }

  /**
   * Saving the duplicate's form (its empty id is falsy) adds a new profile
   * under the fresh id and leaves the source profile as it was.
   */
  lemma SaveDuplicateAdds(w: World, id: string, freshId: string, token: string)
    requires GetProfile(w.store, id).Some?
    requires id != freshId
    ensures var src := GetProfile(w.store, id).value;
      var data := FormOf(DataOf(Duplicate(src)), token);
      var r := Save(w, data, Some(Duplicate(src).id), freshId);
      && |r.store.profiles| == |w.store.profiles| + 1
      && r.store.profiles[|w.store.profiles|].id == freshId
      && r.store.profiles[|w.store.profiles|].name == src.name + " (Copy)"
      && GetProfile(r.store, id) == Some(src)
  {
    var src := GetProfile(w.store, id).value;
    var data := FormOf(DataOf(Duplicate(src)), token);
    SaveCreate(w, data, Some(""), freshId);
    FindIndexAppend(w.store.profiles, WithId(Normalise(data), freshId), id);
  }
}
