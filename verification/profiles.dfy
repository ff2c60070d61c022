/**
 * The profile store: an ordered list of identity profiles plus an optional
 * active-profile id, persisted as two global-state keys. Every operation is a
 * pure transition on `Store`; the change notification that follows each write
 * is not modelled.
 */
module Profiles {
  import opened Optional
  import opened Seqs

  /**
   * An identity profile. `authMethod` is kept as the raw string the save
   * handler writes (`ssh`, `https`, `none`, or whatever the payload held).
   */
  datatype Profile = Profile(
    id: string,
    name: string,
    gitUserName: string,
    gitEmail: string,
    authMethod: Option<string>,
    sshKeyPath: Option<string>,
    sshHost: Option<string>,
    useToken: Option<bool>,
    avatarUrl: Option<string>)

  /** A profile without its id, as handed to `addProfile`. */
  datatype ProfileData = ProfileData(
    name: string,
    gitUserName: string,
    gitEmail: string,
    authMethod: Option<string>,
    sshKeyPath: Option<string>,
    sshHost: Option<string>,
    useToken: Option<bool>,
    avatarUrl: Option<string>)

  /** One field of a partial update: absent from the payload, or present with a value. */
  datatype Field<T> = Keep | Set(value: T)

  /** `Partial<Omit<Profile, 'id'>>`; an optional field may be present and undefined. */
  datatype ProfileUpdate = ProfileUpdate(
    name: Field<string>,
    gitUserName: Field<string>,
    gitEmail: Field<string>,
    authMethod: Field<Option<string>>,
    sshKeyPath: Field<Option<string>>,
    sshHost: Field<Option<string>>,
    useToken: Field<Option<bool>>,
    avatarUrl: Field<Option<string>>)

  datatype Store = Store(profiles: seq<Profile>, active: Option<string>)

  /** The state before anything was saved. */
  const Initial := Store([], None)

  function WithId(d: ProfileData, id: string): Profile {
    Profile(id, d.name, d.gitUserName, d.gitEmail, d.authMethod,
            d.sshKeyPath, d.sshHost, d.useToken, d.avatarUrl)
  }

  /** A present field replaces the old value; an absent one keeps it. */
  function Apply<T>(f: Field<T>, prior: T): T {
    match f
    case Keep => prior
    case Set(v) => v
  }

  /** `{ ...p, ...u }`. */
  function Merge(p: Profile, u: ProfileUpdate): Profile {
    Profile(p.id, Apply(u.name, p.name), Apply(u.gitUserName, p.gitUserName),
            Apply(u.gitEmail, p.gitEmail), Apply(u.authMethod, p.authMethod),
            Apply(u.sshKeyPath, p.sshKeyPath), Apply(u.sshHost, p.sshHost),
            Apply(u.useToken, p.useToken), Apply(u.avatarUrl, p.avatarUrl))
  }

  /** Spreading an update over a profile: present fields win, absent fields and the id stay. */
  lemma MergeSemantics(p: Profile, u: ProfileUpdate)
    ensures Merge(p, u).id == p.id
    ensures u.name.Set? ==> Merge(p, u).name == u.name.value
    ensures u.name.Keep? ==> Merge(p, u).name == p.name
    ensures u.gitUserName.Set? ==> Merge(p, u).gitUserName == u.gitUserName.value
    ensures u.gitUserName.Keep? ==> Merge(p, u).gitUserName == p.gitUserName
    ensures u.gitEmail.Set? ==> Merge(p, u).gitEmail == u.gitEmail.value
    ensures u.gitEmail.Keep? ==> Merge(p, u).gitEmail == p.gitEmail
    ensures u.authMethod.Set? ==> Merge(p, u).authMethod == u.authMethod.value
    ensures u.authMethod.Keep? ==> Merge(p, u).authMethod == p.authMethod
    ensures u.sshKeyPath.Set? ==> Merge(p, u).sshKeyPath == u.sshKeyPath.value
    ensures u.sshKeyPath.Keep? ==> Merge(p, u).sshKeyPath == p.sshKeyPath
    ensures u.sshHost.Set? ==> Merge(p, u).sshHost == u.sshHost.value
    ensures u.sshHost.Keep? ==> Merge(p, u).sshHost == p.sshHost
    ensures u.useToken.Set? ==> Merge(p, u).useToken == u.useToken.value
    ensures u.useToken.Keep? ==> Merge(p, u).useToken == p.useToken
    ensures u.avatarUrl.Set? ==> Merge(p, u).avatarUrl == u.avatarUrl.value
    ensures u.avatarUrl.Keep? ==> Merge(p, u).avatarUrl == p.avatarUrl
  {
  }

  /** Some profile in the list carries this id. */
  predicate HasId(ps: seq<Profile>, id: string) {
    exists k :: 0 <= k < |ps| && ps[k].id == id
  }

  /** `findIndex(p => p.id === id)`: the first index carrying the id. */
  function FindIndex(ps: seq<Profile>, id: string): (r: Option<nat>)
    ensures r.Some? <==> HasId(ps, id)
    ensures r.Some? ==> r.value < |ps| && ps[r.value].id == id
    ensures r.Some? ==> forall k :: 0 <= k < r.value ==> ps[k].id != id
    decreases |ps|
  {
    if ps == [] then None
    else if ps[0].id == id then Some(0)
    else
      match FindIndex(ps[1..], id)
      case None => None
      case Some(k) => Some(k + 1)
  }

  lemma HasIdCons(ps: seq<Profile>, id: string)
    requires ps != []
    ensures HasId(ps, id) <==> ps[0].id == id || HasId(ps[1..], id)
  {
    if HasId(ps, id) && ps[0].id != id {
      var k :| 0 <= k < |ps| && ps[k].id == id;
      assert ps[1..][k - 1].id == id;
    }
    if HasId(ps[1..], id) {
      var k :| 0 <= k < |ps[1..]| && ps[1..][k].id == id;
      assert ps[k + 1].id == id;
    }
  }

  /** `filter(p => p.id !== id)`. */
  function Without(ps: seq<Profile>, id: string): (r: seq<Profile>)
    ensures IsSubseq(r, ps)
    ensures forall p :: p in r <==> p in ps && p.id != id
    ensures |r| == |ps| <==> !HasId(ps, id)
    decreases |ps|
  {
    if ps == [] then []
    else
      var rest := Without(ps[1..], id);
      SubseqLength(rest, ps[1..]);
      assert ps == [ps[0]] + ps[1..];
      HasIdCons(ps, id);
      if ps[0].id == id then
        SubseqDrop(ps[0], rest, ps[1..]);
        rest
      else
        SubseqCons(ps[0], rest, ps[1..]);
        [ps[0]] + rest
  }

  function GetProfiles(s: Store): seq<Profile> {
    s.profiles
  }

  /** `find(p => p.id === id)`: the first profile with the id. */
  function GetProfile(s: Store, id: string): (r: Option<Profile>)
    ensures r.None? <==> !HasId(s.profiles, id)
    ensures r.Some? ==> r.value.id == id && r.value in s.profiles
    ensures r.Some? ==> r.value == s.profiles[FindIndex(s.profiles, id).value]
  {
    match FindIndex(s.profiles, id)
    case None => None
    case Some(k) => Some(s.profiles[k])
  }

  /**
   * `addProfile`: the data plus the id drawn for it, appended at the end.
   * The id comes from `randomUUID` in the extension and is a parameter here.
   */
  function AddProfile(s: Store, d: ProfileData, freshId: string): (r: (Store, Profile))
    ensures r.0.profiles == s.profiles + [r.1]
    ensures r.1.id == freshId && r.1 == WithId(d, freshId)
    ensures r.0.active == s.active
  {
    var p := WithId(d, freshId);
    (Store(s.profiles + [p], s.active), p)
  }

  /**
   * `updateProfile`: merges the update into the first profile with the id and
   * returns it; an unknown id changes nothing and returns nothing.
   */
  function UpdateProfile(s: Store, id: string, u: ProfileUpdate): (r: (Store, Option<Profile>))
    ensures !HasId(s.profiles, id) ==> r.0 == s && r.1.None?
    ensures HasId(s.profiles, id) ==>
      var k := FindIndex(s.profiles, id).value;
      && r.1 == Some(Merge(s.profiles[k], u))
      && r.0.profiles == s.profiles[k := Merge(s.profiles[k], u)]
      && r.0.active == s.active
  {
    match FindIndex(s.profiles, id)
    case None => (s, None)
    case Some(k) =>
      var p := Merge(s.profiles[k], u);
      (s.(profiles := s.profiles[k := p]), Some(p))
  }

  /**
   * `removeProfile`: drops every profile with the id and clears the active
   * id when it named that id; reports whether anything was dropped.
   */
  function RemoveProfile(s: Store, id: string): (r: (Store, bool))
    ensures r.1 <==> HasId(s.profiles, id)
    ensures !r.1 ==> r.0 == s
    ensures r.1 ==> r.0.profiles == Without(s.profiles, id)
    ensures r.1 ==> (r.0.active == if s.active == Some(id) then None else s.active)
  {
    var filtered := Without(s.profiles, id);
    if |filtered| == |s.profiles| then (s, false)
    else
      var active := if s.active == Some(id) then None else s.active;
      (Store(filtered, active), true)
  }

  function GetActiveProfileId(s: Store): Option<string> {
    s.active
  }

  /** `getActiveProfile`: none for an absent or empty active id, else the lookup. */
  function GetActiveProfile(s: Store): (r: Option<Profile>)
    ensures r.None? <==> !Truthy(s.active) || !HasId(s.profiles, s.active.value)
    ensures r.Some? ==> r.value.id == s.active.value
    ensures r.Some? ==> r.value == s.profiles[FindIndex(s.profiles, s.active.value).value]
  {
    if !Truthy(s.active) then None else GetProfile(s, s.active.value)
  }

  /** `setActiveProfile`: no existence check. */
  function SetActiveProfile(s: Store, id: string): (r: Store)
    ensures r.active == Some(id) && r.profiles == s.profiles
  {
    s.(active := Some(id))
  }

  // ---------------------------------------------------------------------
  // Properties relating several operations

  /** Ids are pairwise distinct. */
  predicate UniqueIds(ps: seq<Profile>) {
    forall a, b :: 0 <= a < b < |ps| ==> ps[a].id != ps[b].id
  }

  /** The active id, when set, names a stored profile. */
  predicate ActiveValid(s: Store) {
    s.active.Some? ==> HasId(s.profiles, s.active.value)
  }

  predicate Valid(s: Store) {
    UniqueIds(s.profiles) && ActiveValid(s)
  }

  /** Adding then looking up the fresh id yields the new profile; other lookups are unchanged. */
  lemma AddThenGet(s: Store, d: ProfileData, freshId: string, other: string)
    requires !HasId(s.profiles, freshId)
    requires other != freshId
    ensures GetProfile(AddProfile(s, d, freshId).0, freshId) == Some(WithId(d, freshId))
    ensures GetProfile(AddProfile(s, d, freshId).0, other) == GetProfile(s, other)
  {
    var ps := AddProfile(s, d, freshId).0.profiles;
    assert ps[|s.profiles|].id == freshId;
    assert HasId(ps, freshId);
    assert forall k :: 0 <= k < |s.profiles| ==> ps[k] == s.profiles[k];
    FindIndexAppend(s.profiles, WithId(d, freshId), other);
  }

  lemma {:induction false} FindIndexAppend(ps: seq<Profile>, p: Profile, id: string)
    requires p.id != id
    ensures FindIndex(ps + [p], id) == FindIndex(ps, id)
    decreases |ps|
  {
    if ps == [] {
      assert FindIndex([p][1..], id) == None;
    } else {
      assert (ps + [p])[1..] == ps[1..] + [p];
      FindIndexAppend(ps[1..], p, id);
    }
  }

  /** Updating never changes the length, the ids or any other index. */
  lemma UpdateFrame(s: Store, id: string, u: ProfileUpdate)
    ensures |UpdateProfile(s, id, u).0.profiles| == |s.profiles|
    ensures forall k :: 0 <= k < |s.profiles| ==> UpdateProfile(s, id, u).0.profiles[k].id == s.profiles[k].id
    ensures forall k :: 0 <= k < |s.profiles| && s.profiles[k].id != id ==>
      UpdateProfile(s, id, u).0.profiles[k] == s.profiles[k]
  {
  }

  /** Removal clears the active id exactly when it named the removed id. */
  lemma RemoveClearsActive(s: Store, id: string)
    requires HasId(s.profiles, id)
    ensures RemoveProfile(s, id).0.active.None? <==> (s.active.None? || s.active == Some(id))
    ensures s.active != Some(id) ==> RemoveProfile(s, id).0.active == s.active
  {
  }

  /** A removed id can no longer be looked up. */
  lemma RemoveThenGet(s: Store, id: string)
    ensures GetProfile(RemoveProfile(s, id).0, id).None?
  {
  }

  /** Adding a profile under a fresh id keeps the store valid. */
  lemma AddValid(s: Store, d: ProfileData, freshId: string)
    requires Valid(s)
    requires !HasId(s.profiles, freshId)
    ensures Valid(AddProfile(s, d, freshId).0)
  {
    var a := AddProfile(s, d, freshId).0;
    assert forall k :: 0 <= k < |s.profiles| ==> a.profiles[k] == s.profiles[k];
    if s.active.Some? {
      var k :| 0 <= k < |s.profiles| && s.profiles[k].id == s.active.value;
      assert a.profiles[k].id == s.active.value;
    }
  }

  /** Updating keeps the store valid: ids are never touched. */
  lemma UpdateValid(s: Store, id: string, u: ProfileUpdate)
    requires Valid(s)
    ensures Valid(UpdateProfile(s, id, u).0)
  {
    UpdateFrame(s, id, u);
    var up := UpdateProfile(s, id, u).0;
    if s.active.Some? {
      var k :| 0 <= k < |s.profiles| && s.profiles[k].id == s.active.value;
      assert up.profiles[k].id == s.active.value;
    }
  }

  /** Pointing at a stored profile keeps the store valid. */
  lemma SetActiveValid(s: Store, id: string)
    requires Valid(s) && HasId(s.profiles, id)
    ensures Valid(SetActiveProfile(s, id))
  {
  }

  /** Removal keeps the store valid: the active id is cleared exactly when its profile goes. */
  lemma RemoveValid(s: Store, id: string)
    requires Valid(s)
    ensures Valid(RemoveProfile(s, id).0)
  {
    var r := RemoveProfile(s, id).0;
    if HasId(s.profiles, id) {
      SubseqUnique(r.profiles, s.profiles);
      if r.active.Some? {
        var k :| 0 <= k < |s.profiles| && s.profiles[k].id == r.active.value;
        assert s.profiles[k] in s.profiles;
        assert s.profiles[k] in r.profiles;
      }
    }
  }

  /** A subsequence of a list with distinct ids has distinct ids. */
  lemma {:induction false} SubseqUnique(a: seq<Profile>, b: seq<Profile>)
    requires IsSubseq(a, b) && UniqueIds(b)
    ensures UniqueIds(a)
    decreases |b|
  {
    if a != [] && |a| > 1 {
      if a[0] == b[0] && IsSubseq(a[1..], b[1..]) {
        SubseqUnique(a[1..], b[1..]);
        forall j | 1 <= j < |a|
          ensures a[0].id != a[j].id
        {
          assert a[j] in a[1..];
          SubseqMembers(a[1..], b[1..], a[j]);
          var m :| 0 <= m < |b[1..]| && b[1..][m] == a[j];
          assert b[m + 1] == a[j];
        }
        forall x, y | 0 <= x < y < |a|
          ensures a[x].id != a[y].id
        {
          if x > 0 {
            assert a[1..][x - 1] == a[x] && a[1..][y - 1] == a[y];
          }
        }
      } else {
        SubseqUnique(a, b[1..]);
      }
    }
  }
}
