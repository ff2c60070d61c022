# GitFlip core, modelled in Dafny

GitFlip is a VS Code extension that keeps several git identities ("profiles")
and switches between them. A profile holds a git user name and e-mail and an
authentication method. For `ssh` that is a key file plus a host alias written
into `~/.ssh/config`. For `https` it is a token that is handed to git's
credential helper.

This project models the parts of the extension that hold real logic, as pure
functions over immutable data:

- `SshConfig` (sshconfig.dfy) covers the line-oriented edits and reads of `~/.ssh/config`:
  - appending a marked `Host` block (`addHostEntry`);
  - deleting a marked block (`removeHostEntry`), both as written and as its comments describe it;
  - listing the marked blocks (`getExistingEntries`);
  - listing all aliases with their key files (`getAllSSHConfigHosts`).
  A missing file is `None`. The text is split and joined on `'\n'` (`Text.Split` and `Text.Join`).
- `Remotes` (remotes.dfy) models the `^git@[^:]+:(.+)$` match. Two rewrites share it: repointing `origin` at an alias (`updateRemoteUrl`) and converting it to HTTPS (`convertRemoteToHttps`).
- `SshKeys` (sshkeys.dfy) models the file-name filter of `discoverSSHKeys` and its `hasPublicKey` flag.
- `Profiles` (profiles.dfy) is the profile store: an ordered list of profiles plus an optional active id, under `ProfileManager`'s operations.
- `Credentials` (credentials.dfy) covers:
  - the `key=value` records given to `git credential approve` and `reject`, in the format of git-credential(1), section "INPUT/OUTPUT FORMAT";
  - a reader for those records;
  - reject-before-approve ordering and swallowed failures;
  - the decision to install the `store` helper.
- `Sidebar` (sidebar.dfy) covers `escapeHtml`, with a reference escaper and the inverse replacement, plus the badge and highlight derivation of a profile card.
- `Commands` (commands.dfy) covers the decisions of the handlers in `extension.ts`:
  - form normalisation and the token and SSH side effects of a save;
  - the clean-up plan of a removal;
  - the git steps of a switch, and scope selection;
  - duplicate construction.
- `Text`, `Seqs` and `Optional` hold shared helpers:
  - JavaScript `trim` over the ECMAScript white-space and line-terminator code points;
  - `split`/`join` on `'\n'`;
  - literal `replace(/x/g, …)` and `indexOf`;
  - subsequences;
  - JavaScript truthiness of optional strings.

Shell commands, files and the secret store are not called. Their results are
parameters:

- the text of the config file;
- the directory listing;
- what `git config` or `git remote get-url` printed;
- whether a git call threw;
- the id `randomUUID` would draw.

Their effects are results:

- the new file text;
- the URL passed to `git remote set-url`;
- the records given to `git credential`;
- a list of the steps a command takes.

## Model

| member | source | states |
|---|---|---|
| Text.Trim | src/services/SSHConfigService.ts:138 | the result neither starts nor ends with ECMAScript white space |
| Text.TrimExact | src/services/SSHConfigService.ts:138 | the result is the infix of the input left after a run of leading and a run of trailing white space; with the contract of `Text.Trim` this fixes it exactly |
| Text.TrimOfTrimmed | src/services/SSHConfigService.ts:226 | text with no white space at either end is its own trim |
| Text.JoinSplit | src/services/SSHConfigService.ts:53 | joining the pieces of `split('\n')` with `'\n'` gives back the text |
| Text.SplitJoin | src/services/SSHConfigService.ts:82 | splitting a join of newline-free lines gives back the lines |
| Text.SplitAppend | src/services/SSHConfigService.ts:44 | splitting `a + "\n" + b` is the split of `a` followed by the split of `b` |
| Text.Split | src/services/SSHConfigService.ts:53 | the split is never empty and no piece holds a newline |
| Text.IndexOf | src/services/CredentialHelperService.ts:98 | the result is the first position of the character, or none exactly when it is absent |
| Seqs.PositionsComplete | src/services/SSHConfigService.ts:225-249 | every flagged index from `i` on is listed |
| Optional.NonEmpty | src/extension.ts:37-40 | turning an empty string into `undefined`: the result is truthy exactly for a non-empty `s`, and then it is `s` |
| SshConfig.HostOfNonEmpty | src/services/SSHConfigService.ts:226-228 | an alias read from a trimmed `Host ` line is never empty |
| SshConfig.HostsFrom | src/services/SSHConfigService.ts:225-249 | the listed aliases are pairwise distinct, non-empty and none of them was already seen |
| SshConfig.HostsFromLists | src/services/SSHConfigService.ts:225-234 | an alias is listed exactly when a `Host` line without `*` from line `i` on declares it and it was not seen before |
| SshConfig.GetAllHosts | src/services/SSHConfigService.ts:215-253 | a missing file lists nothing; the aliases are distinct and non-empty |
| SshConfig.GetAllHostsLists | src/services/SSHConfigService.ts:215-253 | the listing names exactly the aliases that some `Host` line of the file declares |
| SshConfig.FirstDeclsExact | src/services/SSHConfigService.ts:225-234 | the first-declaring lines are listed, all of them, each once and in ascending order |
| SshConfig.HostsFirstOccurrence | src/services/SSHConfigService.ts:225-249 | entry `a` of the listing is the alias of the `a`-th line that declares an alias for the first time, with the key file found after that line |
| SshConfig.BlockEnd | src/services/SSHConfigService.ts:238-242 | the key-file scan ends at the first `Host ` line, or at the first blank line followed by a `Host ` line, or at the end of the file |
| SshConfig.IdentityScanIsLast | src/services/SSHConfigService.ts:236-246 | the key file recorded for a host is the last `IdentityFile` line before the block ends, read backwards by an independent definition |
| SshConfig.IdentityScanAcc | src/services/SSHConfigService.ts:238-246 | the scan yields the last `IdentityFile` value in the block, or keeps the earlier value when the block has none |
| SshConfig.AddHostEntry | src/services/SSHConfigService.ts:20-45 | no change without a key path and alias or when the alias is already listed; otherwise the old text is a prefix and the rest is exactly the marked block |
| SshConfig.EntryTextLiteral | src/services/SSHConfigService.ts:31-40 | the joined block is `"\n# GitSwitch: <name>\nHost <alias>\n  HostName github.com\n  User git\n  IdentityFile <path>\n  IdentitiesOnly yes\n"` |
| SshConfig.AppendedLinesExact | src/services/SSHConfigService.ts:31-44 | with newline-free fields the new file's lines are the old lines followed by the block's seven lines |
| SshConfig.AppendedDeclares | src/services/SSHConfigService.ts:34 | the appended block declares its alias when the alias has no `*`, no newline and no surrounding white space |
| SshConfig.PlainAliasLine | src/services/SSHConfigService.ts:34 | such an alias is read back from its `Host` line as itself |
| SshConfig.AddHostEntryIdempotent | src/services/SSHConfigService.ts:20-29 | a second identical call leaves the file as the first one left it |
| SshConfig.AddedFileLines | src/services/SSHConfigService.ts:31-44 | adding a fresh block gives the old lines followed by the block's lines, and the old file did not declare the alias |
| SshConfig.HostNameGuardRedundant | src/services/SSHConfigService.ts:71 | a line that starts with `Host ` never starts with `HostName`, so that half of the guard never matters |
| SshConfig.OpenStep | src/services/SSHConfigService.ts:61-66 | a marker line whose next line trims to `Host <alias>` is dropped and skipping starts |
| SshConfig.SkipStep | src/services/SSHConfigService.ts:69-76 | while skipping, a line that neither ends the skip nor opens a block is dropped |
| SshConfig.KeepStep | src/services/SSHConfigService.ts:69-79 | any other line is kept and skipping stops |
| SshConfig.RemoveScanSubseq | src/services/SSHConfigService.ts:57-80 | the scan's output is an order-preserving subsequence of its input |
| SshConfig.RemoveHostEntryAsWritten | src/services/SSHConfigService.ts:47-83 | a missing file stays missing; otherwise the written lines are a subsequence of the old lines (or the text is empty) |
| SshConfig.RemoveHostEntry | src/services/SSHConfigService.ts:57-80 | the removal the comments describe: the same frame, with the matched `Host` line skipped as well |
| SshConfig.RemoveScanNoMatch | src/services/SSHConfigService.ts:57-80 | with no matched marker from line `i` on, the scan copies its input |
| SshConfig.RemoveUnmatchedUnchanged | src/services/SSHConfigService.ts:47-83 | a file in which no marker line is followed by `Host <alias>` is written back unchanged, by either reading |
| SshConfig.RemoveScanPrefix | src/services/SSHConfigService.ts:57-80 | lines before the first matched marker are copied through |
| SshConfig.RemoveScanSkipRun | src/services/SSHConfigService.ts:69-76 | a run of lines that neither ends the skip nor opens a block is dropped |
| SshConfig.MatchedBlockRemoved | src/services/SSHConfigService.ts:61-76 | a matched marker and everything after it up to the first line that ends the skip are dropped, and that line is kept |
| SshConfig.AsWrittenDropsOnlyMarker | src/services/SSHConfigService.ts:61-76 | as written, a matched block with an unindented `Host` line loses only its marker line |
| SshConfig.UnmatchedMarkerKept | src/services/SSHConfigService.ts:61-79 | a marker line that is last, or whose next line is not `Host <alias>`, survives the scan |
| SshConfig.MarkerKeptHere | src/services/SSHConfigService.ts:61-79 | an unmatched marker is kept and ends any skip |
| SshConfig.AppendedBlockOpens | src/services/SSHConfigService.ts:61-76 | after an append, only the new marker opens a block for the alias; its `Host` line is unindented and its body never ends a skip |
| SshConfig.ScanAppendedBlock | src/services/SSHConfigService.ts:57-80 | the removal scan over an appended block keeps all of it but the marker as written, and drops all of it when corrected |
| SshConfig.AsWrittenAddThenRemove | src/services/SSHConfigService.ts:20-83 | as written, removing a block that was just added leaves its `Host` line and directives, so the file differs from before the add |
| SshConfig.AddThenRemove | src/services/SSHConfigService.ts:20-83 | with the corrected removal, removing a block that was just added restores the file exactly |
| SshConfig.DirectiveStep | src/services/SSHConfigService.ts:138-147 | a key file the step records is never empty |
| SshConfig.ScanDirectives | src/services/SSHConfigService.ts:137-148 | a key file recorded by the directive scan is never empty |
| SshConfig.EntriesFromSound | src/services/SSHConfigService.ts:126-157 | each listed entry has a marker text, a non-empty alias and a non-empty key file and comes from an untrimmed `Host ` line; there are no more entries than marker lines |
| SshConfig.GetExistingEntries | src/services/SSHConfigService.ts:116-158 | a missing file lists nothing; entries have a non-empty alias and key file and never outnumber the marker lines |
| SshConfig.ScanStopsAtComment | src/services/SSHConfigService.ts:145-146 | the directive scan never reads past a comment line |
| SshConfig.EntriesSplitAtMarker | src/services/SSHConfigService.ts:128-129 | the listing over a file followed by a marker line is the file's own listing followed by the listing after the marker |
| SshConfig.BlockDirectives | src/services/SSHConfigService.ts:139-146 | the directives of an added block read back as `github.com`, `git` and the key path |
| SshConfig.EntriesOfAppended | src/services/SSHConfigService.ts:126-157 | listing a file with a block appended gives the old entries, then the block's entry when the profile name trims to a non-empty text |
| SshConfig.AddedEntryListed | src/services/SSHConfigService.ts:116-158 | after adding a block, `getExistingEntries` gives the old entries plus the new block's marker, alias, host name, user and key file |
| SshConfig.MarkerNotHost | src/services/SSHConfigService.ts:61-63 | a marker line never trims to a `Host` line |
| Remotes.RepoPathSound | src/services/SSHConfigService.ts:102-104 | a captured path comes with a non-empty host without `:`, and the URL is `git@<host>:<path>` |
| Remotes.RepoPathComplete | src/services/SSHConfigService.ts:102-104 | every `git@H:P` with a non-empty H free of `:` and a non-empty single-line P is matched, and P is captured verbatim |
| Remotes.UpdateRemoteUrl | src/services/SSHConfigService.ts:85-114 | a URL is set only with a truthy alias, a workspace and a readable `origin` |
| Remotes.UpdateKeepsPath | src/services/SSHConfigService.ts:102-105 | an SSH remote is repointed at `git@<alias>:P` with P kept verbatim |
| Remotes.NonSshUnchanged | src/services/SSHConfigService.ts:102-113 | a URL that is not `git@H:P` is left alone by both rewrites |
| Remotes.UpdateIdempotent | src/services/SSHConfigService.ts:85-114 | repointing twice at an alias without `:` sets the same URL as once |
| Remotes.ConvertRemoteToHttps | src/services/CredentialHelperService.ts:88-110 | a URL is set only with a workspace and a readable `origin`, and it starts with `https://github.com/` |
| Remotes.ConvertIgnoresAlias | src/services/CredentialHelperService.ts:84-101 | `git@H:P` converts to `https://github.com/P` whatever the alias H |
| Remotes.ConvertIdempotent | src/services/CredentialHelperService.ts:88-110 | a converted remote is no longer matched, so converting again sets nothing |
| Remotes.UpdateThenConvert | src/services/CredentialHelperService.ts:98-101 | repointing at an alias and then converting gives what converting directly gives |
| SshKeys.PublicKeyNamesSpec | src/services/SSHConfigService.ts:167 | a name is in the public-key set exactly when `<name>.pub` is listed |
| SshKeys.DiscoverKeys | src/services/SSHConfigService.ts:160-164 | a missing `~/.ssh` yields no keys |
| SshKeys.KeysSound | src/services/SSHConfigService.ts:171-206 | every key found is a listed, non-excluded entry that passed the file checks, with `hasPublicKey` true exactly when `<name>.pub` is listed |
| SshKeys.KeysOrderedComplete | src/services/SSHConfigService.ts:171-210 | the keys come in listing order, and every entry that passes the filter and the checks is found |
| SshKeys.DiscoverKeysSpec | src/services/SSHConfigService.ts:160-213 | the keys are exactly the filtered entries, in order; none starts with `.`, ends in `.pub` or is one of the five excluded names |
| Profiles.MergeSemantics | src/services/ProfileManager.ts:36 | in `{ ...p, ...u }` a present field wins even when it is undefined; absent fields and the id stay |
| Profiles.FindIndex | src/services/ProfileManager.ts:32 | the result is the first index carrying the id, or none exactly when no profile has it |
| Profiles.Without | src/services/ProfileManager.ts:44 | the filter keeps exactly the profiles with another id, in order, and is shorter exactly when the id was present |
| Profiles.GetProfile | src/services/ProfileManager.ts:60-62 | the lookup fails exactly for an unknown id, and otherwise returns the first stored profile with that id |
| Profiles.AddProfile | src/services/ProfileManager.ts:18-28 | exactly one profile, the data plus the drawn id, is appended at the end; the active id is untouched |
| Profiles.AddThenGet | src/services/ProfileManager.ts:18-62 | after an add under a fresh id, looking that id up gives the new profile and every other lookup is unchanged |
| Profiles.UpdateProfile | src/services/ProfileManager.ts:30-40 | an unknown id changes nothing and returns none; a known id merges into its first index only and returns the merged profile |
| Profiles.UpdateFrame | src/services/ProfileManager.ts:30-40 | an update keeps the length, every id and every profile with another id |
| Profiles.RemoveProfile | src/services/ProfileManager.ts:42-58 | reports true exactly for a known id; an unknown id changes nothing; a known one filters the id out and clears a matching active id |
| Profiles.RemoveClearsActive | src/services/ProfileManager.ts:50-54 | the active id ends up absent exactly when it was absent or named the removed id; otherwise it is kept |
| Profiles.RemoveThenGet | src/services/ProfileManager.ts:42-62 | a removed id can no longer be looked up |
| Profiles.GetActiveProfile | src/services/ProfileManager.ts:68-74 | none exactly when the active id is absent or empty or names no stored profile; otherwise the first stored profile with the active id |
| Profiles.SetActiveProfile | src/services/ProfileManager.ts:76-79 | sets the active id with no existence check and leaves the list alone |
| Profiles.AddValid | src/services/ProfileManager.ts:18-28 | adding under an unused id keeps ids distinct and the active id pointing at a stored profile |
| Profiles.UpdateValid | src/services/ProfileManager.ts:30-40 | an update keeps the store valid |
| Profiles.SetActiveValid | src/services/ProfileManager.ts:76-79 | pointing at a stored profile keeps the store valid |
| Profiles.RemoveValid | src/services/ProfileManager.ts:42-58 | removal keeps the store valid, because the active id is cleared exactly when its profile goes |
| Credentials.ApprovePayloadLiteral | src/services/CredentialHelperService.ts:47-54 | the approve record is exactly `"protocol=https\nhost=H\nusername=U\npassword=T\n\n"` |
| Credentials.RejectPayloadLiteral | src/services/CredentialHelperService.ts:66-71 | the reject record is exactly `"protocol=https\nhost=H\n\n"` |
| Credentials.ParseAttribute | src/services/CredentialHelperService.ts:47-51 | an attribute line `key=value` with a key free of `=` reads back as that key and value |
| Credentials.ApproveRoundTrip | src/services/CredentialHelperService.ts:47-54 | reading the approve record up to its blank line recovers the host, user name and token when none holds a newline |
| Credentials.RejectRoundTrip | src/services/CredentialHelperService.ts:66-71 | reading the reject record recovers the protocol and host |
| Credentials.RejectCredentials | src/services/CredentialHelperService.ts:65-81 | issues the reject for the host and never throws, whatever git does |
| Credentials.SetCredentials | src/services/CredentialHelperService.ts:44-60 | issues the reject, then the approve; only a failing approve reaches the caller |
| Credentials.SetCredentialsRecords | src/services/CredentialHelperService.ts:44-71 | the reject and the approve name the same host, and the approve carries the new user name and token |
| Credentials.EnsureCredentialHelper | src/services/CredentialHelperService.ts:14-39 | `store` is installed only when no global helper is set and, with a workspace, no local one either |
| Credentials.EnsureHelperDecision | src/services/CredentialHelperService.ts:14-39 | `store` is installed exactly when no helper is visible; without a workspace the local setting is not read |
| Credentials.EnsureHelperSettles | src/services/CredentialHelperService.ts:16-38 | once `store` is installed, the next call finds it and installs nothing |
| Sidebar.EscapeHtmlIsReference | src/ui/ProfileSidebarView.ts:358-364 | the four chained replacements escape every character on its own, as a per-character reference escaper does |
| Sidebar.EscapeHtmlNoMarkup | src/ui/ProfileSidebarView.ts:358-364 | the output holds no `<`, `>` or `"` |
| Sidebar.EscapeHtmlAmps | src/ui/ProfileSidebarView.ts:360-363 | because `&` is replaced first, every `&` of the output begins `&amp;`, `&lt;`, `&gt;` or `&quot;` |
| Sidebar.EscapeHtmlIdentity | src/ui/ProfileSidebarView.ts:358-364 | the output equals the input exactly when the input holds none of `& < > "` |
| Sidebar.UnescapeEscape | src/ui/ProfileSidebarView.ts:358-364 | replacing the four entities back, with `&amp;` last, recovers the input |
| Sidebar.Badges | src/ui/ProfileSidebarView.ts:71-73 | `SSH` exactly for a truthy alias and `Token` exactly when tokens are on, with `SSH` first |
| Sidebar.IsActive | src/ui/ProfileSidebarView.ts:70 | a card is active exactly when an active id is set and equals the profile's id |
| Sidebar.ActiveCardIsActiveProfile | src/ui/ProfileSidebarView.ts:63-70 | under unique ids, the highlighted card of a profile with a non-empty id is exactly the profile `getActiveProfile` returns |
| Sidebar.AtMostOneActive | src/ui/ProfileSidebarView.ts:69-70 | under unique ids, no two cards of the list are highlighted |
| Commands.MethodOf | src/extension.ts:31 | the method is the payload's when truthy and `none` otherwise, so never empty |
| Commands.Normalise | src/extension.ts:31-41 | names and e-mail are copied; key path and alias are present only under `ssh` and when non-empty; `useToken` is whether the method is `https`; an empty avatar URL is dropped |
| Commands.NormaliseStable | src/extension.ts:31-41 | normalised data holds no empty optional string, and a payload that carries its method back, filled from normalised data, normalises to that data again |
| Commands.ResaveFromForm | src/extension.ts:31-41 | re-saving through the real form, which sends no method, sets the method `none` and drops alias and key path, so it keeps the stored data exactly when the method already was `none` |
| Commands.SavedBadges | src/extension.ts:36-39 | a saved profile shows `SSH` exactly for `ssh` with an alias, and `Token` exactly for `https` |
| Commands.SaveWithoutMethod | src/extension.ts:31-39 | a payload without `authMethod`, which is what the form sends, saves the method `none`: alias and key path are dropped and tokens are off |
| Commands.EditTokenAction | src/extension.ts:46-50 | on edit the token is stored for `https` with a non-empty token, deleted for any other method, and otherwise kept |
| Commands.CreateTokenAction | src/extension.ts:61-63 | on create the token is stored for `https` with a non-empty token, and nothing is ever deleted |
| Commands.ApplyToken | src/extension.ts:46-63 | a token action touches only its own profile's entry |
| Commands.MergeFull | src/extension.ts:32-44 | spreading the full profile data over a profile replaces every field but the id |
| Commands.SshAfterSave | src/extension.ts:52-67 | for an `ssh` save of an existing profile with a key path and an alias the block is appended; in every other case the config is untouched |
| Commands.Save | src/extension.ts:30-71 | a save never changes the active id, and touches the config only for `ssh` |
| Commands.SaveEdit | src/extension.ts:43-55 | editing replaces the profile's fields but its id, keeps the list length and validity, and stores, deletes or keeps the token as decided; an unknown id changes neither store nor config |
| Commands.SaveCreate | src/extension.ts:58-67 | creating appends the profile under the fresh id, keeps the store valid for an unused id, deletes no token, stores one exactly for `https` with a token, and appends the new profile's SSH block exactly for `ssh` with a key path and an alias |
| Commands.SaveEditSsh | src/extension.ts:43-55 | editing a known profile to `ssh` with a key path and an alias appends its block; without either the config is untouched |
| Commands.SaveSshIdempotent | src/extension.ts:52-67 | saving the same form twice leaves `~/.ssh/config` as the first save left it |
| Commands.RemovePlan | src/extension.ts:153-162 | the SSH entry of the profile's own alias is dropped only for `ssh` with an alias and credentials are rejected only for `https`; the token, then the profile, go last |
| Commands.RemoveCommand | src/extension.ts:142-164 | an unknown id or an unconfirmed dialog changes nothing |
| Commands.RemoveCommandEffect | src/extension.ts:153-162 | a confirmed removal leaves no profile and no token under the id, clears a matching active id, keeps the store valid and keeps every other token |
| Commands.RunAllKeepsSsh | src/extension.ts:158-162 | steps other than the SSH clean-up leave the config file alone |
| Commands.RemoveCommandSsh | src/extension.ts:155-157 | a confirmed removal runs the as-written removal of the alias for an `ssh` profile with one, and leaves the config alone otherwise |
| Commands.RemoveUndoesAdd | src/extension.ts:155-156 | removing an `ssh` profile whose block was the last one added does not restore the config: its `Host` line and settings stay behind |
| Commands.ChooseScope | src/extension.ts:214-232 | without a workspace folder the scope is `global`; otherwise it is the pick, and none when the pick is dismissed |
| Commands.SwitchPlan | src/extension.ts:204-241 | a switch does something only for a known id, and starts by setting the identity, globally when there is no workspace |
| Commands.AuthStepsActive | src/extension.ts:243-267 | after the identity, the profile is marked active last unless the helper install or the approve threw |
| Commands.SwitchActivates | src/extension.ts:204-267 | the profile becomes active exactly when it exists, a scope was chosen and no git call threw; that is the last step and it happens once |
| Commands.SwitchRemoteRule | src/extension.ts:244-264 | a remote is rewritten only for the `local` scope with auto-switch on, so never without a workspace; the SSH rewrite also needs an alias |
| Commands.SwitchCredentialRule | src/extension.ts:251-256 | credentials are set only for `https` with a non-empty token and a helper check that did not throw, for `github.com` and the profile's git user name, right after that check |
| Commands.SaveThenSwitch | src/extension.ts:251-256 | switching to a profile just saved with an `https` token hands that token to git, when the helper check does not throw |
| Commands.Duplicate | src/extension.ts:306-311 | the duplicate has an empty id and `" (Copy)"` after the name, and every other field of the source |
| Commands.SaveDuplicateAdds | src/extension.ts:306-312 | saving the duplicate's form (its empty id is falsy) adds one new profile under the fresh id and leaves the source as it was |

## Left out

- File-system access is not modelled: `existsSync`, `readFileSync`, `writeFileSync`, and the directory and mode handling of `ensureSSHConfigExists`. The config file is `Option<string>`. A missing file reads as `""` after creation (`SshConfig.Content`).
- Shell calls to git are not modelled: `execSync`, the quoting of `git remote set-url origin "<url>"`, and the bytes git writes. The model stops at the strings built and the decisions taken.
- `resolveAuthMethod` and `AuthMethod` are imported but not defined in src/types.ts. The resolved method is a parameter (`auth`) wherever a handler calls them.
- The private-key check in `discoverSSHKeys` is the parameter `isKey`: is it a regular file, do its first 32 bytes read as `-----BEGIN`, does a read fail.
- `crypto.randomUUID` is the parameter `freshId`. Lemmas that need a new id require it to be unused.
- TokenManager is a map from profile id to token inside `Commands.World`. GitConfigService's `switchUser` is a step in the switch plan, with a flag for whether it throws. The helper reads, a failing `store` install and a failing approve are fields of `Commands.SwitchEnv`; the install sits outside any `try` (src/services/CredentialHelperService.ts:36-38), so its failure ends the switch before the token is stored.
- The credential helper's own store is not modelled. `RejectCredentials` is a step that leaves the model's state alone.
- Events, `async`/`await` and VS Code UI are not modelled:
  - change notifications, messages and quick-pick labels;
  - the webview;
  - the tree view and the status bar;
  - avatar encoding.
  Operations are sequential state transitions.
- The edit and show-current-profile commands are not modelled. They only read the store and open UI.
- The argument unpacking and profile pick shared by the commands is not modelled. Every command receives the chosen id.
- SshConfig.RemoveHostEntryAsWritten: the subsequence property is stated as "or the written text is empty". A file whose every line is removed is written as `""`, which splits to one empty line.
- Remotes.UpdateRemoteUrl: the `origin` read is a parameter. A failing `git remote get-url` is `None`, and a throwing `set-url` is not distinguished from success, since the source swallows both.
- Commands.Save: a failing `addHostEntry` write is not modelled. The file write is treated as succeeding.

## Findings

| source | as written | input that shows it | evidently intended | confidence | as-written member | corrected member |
|---|---|---|---|---|---|---|
| src/services/SSHConfigService.ts:60-76 | after a matched marker, skipping stops at the first line that starts with `Host `, and the block's own `Host <alias>` line (written unindented by `addHostEntry`) is such a line, so only the marker line is deleted | a file `""` after `addHostEntry` for alias `work` and key `k`, then `removeHostEntry("work")`: the result still holds `Host work` and its four directives | the whole marked block goes, as the comments at lines 60, 70 and 75 say, so that removing a just-added block restores the file | not executed | SshConfig.AsWrittenAddThenRemove | SshConfig.AddThenRemove |

The removal command in `Commands` follows the code as written: it runs `SshConfig.RemoveHostEntryAsWritten`, so `Commands.RemoveUndoesAdd` states the leftover block. `SshConfig.RemoveHostEntry` is the corrected removal, and `SshConfig.AddThenRemove` proves that it restores the file.

The handler at src/extension.ts:31 reads `data.authMethod`. That field is not part of the save message type (src/ui/ProfileWebview.ts:7-16), and the form's script never sends it (src/ui/ProfileWebview.ts:518-530). The model keeps the field optional. `Commands.SaveWithoutMethod` shows the consequence: every profile saved from the form gets the method `none`, with its alias and key path dropped.
