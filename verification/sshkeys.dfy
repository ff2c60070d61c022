/**
 * The key-file filter of `discoverSSHKeys`: which entries of `~/.ssh` are
 * offered as private keys, and whether each has a `.pub` companion.
 */
module SshKeys {
  import opened Optional
  import opened Text
  import opened Seqs

  /** A discovered key: its file name and whether `<name>.pub` sits beside it. */
  datatype KeyInfo = KeyInfo(name: string, hasPublicKey: bool)

  /** File names that are never keys. */
  predicate Excluded(file: string) {
    || StartsWith(file, ".")
    || EndsWith(file, ".pub")
    || file == "config"
    || file == "known_hosts"
    || file == "known_hosts.old"
    || file == "authorized_keys"
    || file == "environment"
  }

  /** The names that have a public key in the listing: each `.pub` file minus its suffix. */
  function PublicKeyNames(files: seq<string>): (r: set<string>)
  {
    set f | f in files && EndsWith(f, ".pub") :: f[..|f| - 4]
  }

  /** A name is in the public-key set exactly when `<name>.pub` is listed. */
  lemma PublicKeyNamesSpec(files: seq<string>, name: string)
    ensures name in PublicKeyNames(files) <==> name + ".pub" in files
  {
    var f := name + ".pub";
    assert f[..|f| - 4] == name;
    assert f[|f| - 4..] == ".pub";
    if name in PublicKeyNames(files) {
      var g :| g in files && EndsWith(g, ".pub") && g[..|g| - 4] == name;
      assert g == g[..|g| - 4] + g[|g| - 4..];
    }
  }

  /**
   * The scan over `rest`, a suffix of the listing `files`. `isKey` stands for
   * the checks the model does not carry out: the entry is a regular file whose
   * first bytes read as `-----BEGIN`, with no read failing on the way.
   */
  function KeysFrom(files: seq<string>, rest: seq<string>, isKey: string -> bool): (r: seq<KeyInfo>)
    decreases |rest|
  {
    if rest == [] then []
    else
      var file := rest[0];
      var tail := KeysFrom(files, rest[1..], isKey);
      if Excluded(file) || !isKey(file) then tail
      else [KeyInfo(file, file in PublicKeyNames(files))] + tail
  }

  /**
   * `discoverSSHKeys`: `files` is the directory listing, `None` when `~/.ssh`
   * does not exist.
   */
  function DiscoverKeys(files: Option<seq<string>>, isKey: string -> bool): (r: seq<KeyInfo>)
    ensures files.None? ==> r == []
  {
    match files
    case None => []
    case Some(fs) => KeysFrom(fs, fs, isKey)
  }

  /** The names found, in listing order. */
  function Names(keys: seq<KeyInfo>): (r: seq<string>)
    ensures |r| == |keys|
    ensures forall a :: 0 <= a < |keys| ==> r[a] == keys[a].name
  {
    if keys == [] then [] else [keys[0].name] + Names(keys[1..])
  }

  /**
   * Every key found is a listed, non-excluded entry that passed the file
   * checks, and its `hasPublicKey` says whether `<name>.pub` is listed.
   */
  lemma {:induction false} KeysSound(files: seq<string>, rest: seq<string>, isKey: string -> bool)
    ensures forall a :: 0 <= a < |KeysFrom(files, rest, isKey)| ==>
      var k := KeysFrom(files, rest, isKey)[a];
      && k.name in rest && !Excluded(k.name) && isKey(k.name)
      && (k.hasPublicKey <==> k.name + ".pub" in files)
    decreases |rest|
  {
    if rest != [] {
      KeysSound(files, rest[1..], isKey);
      KeysSoundStep(files, rest, isKey);
    }
  }

  /** A key found from `rest` is a listed, non-excluded entry that passed the checks. */
  predicate KeyOk(files: seq<string>, rest: seq<string>, isKey: string -> bool, k: KeyInfo) {
    && k.name in rest && !Excluded(k.name) && isKey(k.name)
    && (k.hasPublicKey <==> k.name + ".pub" in files)
  }

  lemma KeysSoundStep(files: seq<string>, rest: seq<string>, isKey: string -> bool)
    requires rest != []
    requires forall a :: 0 <= a < |KeysFrom(files, rest[1..], isKey)| ==>
      KeyOk(files, rest[1..], isKey, KeysFrom(files, rest[1..], isKey)[a])
    ensures forall a :: 0 <= a < |KeysFrom(files, rest, isKey)| ==>
      KeyOk(files, rest, isKey, KeysFrom(files, rest, isKey)[a])
  {
    var tail := KeysFrom(files, rest[1..], isKey);
    KeysOkWiden(files, rest, isKey, tail);
    if !(Excluded(rest[0]) || !isKey(rest[0])) {
      var k := KeyInfo(rest[0], rest[0] in PublicKeyNames(files));
      PublicKeyNamesSpec(files, rest[0]);
      assert KeysFrom(files, rest, isKey) == [k] + tail;
      KeysOkCons(files, rest, isKey, k, tail);
    }
  }

  /** Keys sound for the tail of `rest` are sound for `rest`. */
  lemma KeysOkWiden(files: seq<string>, rest: seq<string>, isKey: string -> bool, tail: seq<KeyInfo>)
    requires rest != []
    requires forall a :: 0 <= a < |tail| ==> KeyOk(files, rest[1..], isKey, tail[a])
    ensures forall a :: 0 <= a < |tail| ==> KeyOk(files, rest, isKey, tail[a])
  {
    forall a | 0 <= a < |tail| ensures KeyOk(files, rest, isKey, tail[a]) {
      assert tail[a].name in rest[1..];
    }
  }

  lemma KeysOkCons(files: seq<string>, rest: seq<string>, isKey: string -> bool, k: KeyInfo, tail: seq<KeyInfo>)
    requires KeyOk(files, rest, isKey, k)
    requires forall a :: 0 <= a < |tail| ==> KeyOk(files, rest, isKey, tail[a])
    ensures forall a :: 0 <= a < |[k] + tail| ==> KeyOk(files, rest, isKey, ([k] + tail)[a])
  {
    forall a | 0 <= a < |[k] + tail| ensures KeyOk(files, rest, isKey, ([k] + tail)[a]) {
      if a > 0 {
        assert ([k] + tail)[a] == tail[a - 1];
      }
    }
  }

  /** The keys come in listing order, and every entry that passes the filter is found. */
  lemma {:induction false} KeysOrderedComplete(files: seq<string>, rest: seq<string>, isKey: string -> bool)
    ensures IsSubseq(Names(KeysFrom(files, rest, isKey)), rest)
    ensures forall f :: f in rest && !Excluded(f) && isKey(f) ==> f in Names(KeysFrom(files, rest, isKey))
    decreases |rest|
  {
    if rest != [] {
      KeysOrderedComplete(files, rest[1..], isKey);
      var tail := Names(KeysFrom(files, rest[1..], isKey));
      assert rest == [rest[0]] + rest[1..];
      if Excluded(rest[0]) || !isKey(rest[0]) {
        SubseqDrop(rest[0], tail, rest[1..]);
      } else {
        var r := KeysFrom(files, rest, isKey);
        assert r[1..] == KeysFrom(files, rest[1..], isKey);
        assert Names(r) == [rest[0]] + tail;
        SubseqCons(rest[0], tail, rest[1..]);
      }
    }
  }

  /** `discoverSSHKeys` in one statement: exactly the filtered entries, in order, with their `.pub` flag. */
  lemma DiscoverKeysSpec(files: seq<string>, isKey: string -> bool)
    ensures var r := DiscoverKeys(Some(files), isKey);
      && IsSubseq(Names(r), files)
      && (forall f :: f in files && !Excluded(f) && isKey(f) ==> f in Names(r))
      && (forall a :: 0 <= a < |r| ==>
            !StartsWith(r[a].name, ".") && !EndsWith(r[a].name, ".pub")
            && r[a].name !in {"config", "known_hosts", "known_hosts.old", "authorized_keys", "environment"}
            && (r[a].hasPublicKey <==> r[a].name + ".pub" in files))
  {
    KeysSound(files, files, isKey);
    KeysOrderedComplete(files, files, isKey);
  }
}
