# Kubeflow internal-acls: the group reconciliation core, in Dafny

This project models the part of kubeflow `internal-acls` that keeps Google
Groups in line with the group specs checked into the repository, plus the two
Python checks that guard the GitHub org file:

- **Member diff** (`groups/syncer.go`, `diffCurrentDesiredMembers`). Given a
  group's live members and its desired members, it works out which members to
  insert and which addresses to delete. Members are compared by address only.
- **Syncer** (`syncer.go`: `Sync`, `syncGroupSettings`, `syncMembers`,
  `isValidGroupRole`).
  - For every spec whose `AutoSync` is not explicitly false, it first makes
    sure the group exists and overlays its settings, then reconciles its
    members.
  - The two remote services are one abstract `Directory`: a map from group
    address to group.
  - A failure oracle `Faults` stands for every error a remote call can
    return, so each error path of the source is reachable in the model.
- **Upgrade** (`api/upgrade.go`). It rewrites every spec: drops removed
  users, adds the users to add, and sorts members by address.
- **Change detector** (`util/files.go` `ContentHash`, and the `run` loop of
  `cmd/main.go`). It fingerprints the sorted spec files and syncs when the
  fingerprint moved or the forced-resync deadline passed. The watermark
  advances only when `Sync` returns no error.
- **Import allow-list** (`cmd/main.go` `runImport`). An imported group off
  the hard-coded list loses its members and gets auto-sync switched off.
- **GCS paths** (`gcp/gcs/util.go` `GcsPath`, `ToURI`, `Parse`;
  `gcp/gcs/paths.go` `Dir`, `Base`).
  - `Parse` follows Go's leftmost-first, unanchored search for
    `gs://([^/]+)/{0,1}(.*)`.
  - Go's `path.Dir`, `path.Base` and `path.Clean` are modelled in the
    `GoPath` module.
- **Org-file checks** (`github-orgs/manifests/validate_config.py`
  `check_config`, `github-orgs/test_org_yaml.py`
  `test_team_member_is_in_org`). Both work on a parsed YAML document
  (`Yaml.Value`). The Python operations they apply are modelled with the
  exceptions each can raise: `.get`, `[k]`, `.items()`, truthiness,
  iteration and `in`.

Time is whole seconds. SHA-256 is a parameter: a function from bytes to a
32-byte digest. Clocks, globbing, file contents and parsed specs are inputs,
one `Runner.Tick` per pass.

Behaviour of the code that a reader might not expect, kept as written:

- `Sync` returns nil even when group steps fail (`syncer.go:44-51`): each
  step's error is only logged. The run loop records the new hash whenever
  `Sync` returns nil (`main.go:279-286`), so a pass whose groups fail still
  advances the watermark and is not retried until the files change or the
  forced resync comes due. See `Runner.GroupFailuresStillAdvance`.
- The forced resync fires only when the clock is strictly after the
  deadline (`main.go:275`, `time.Now().After`).
- A group created by `syncGroupSettings` is always named after the local
  part of its address (`syncer.go:78-81`). The spec's own `Name` field
  (`v1alpha1/types.go:17`) is never read there.
- Upgrade's assignment of the new role to a member that is already present
  (`upgrade.go:47`) is lost, because it writes to a loop copy that has
  already been appended. See Findings.
- `AllowExternalMembers` is assigned to itself (`syncer.go:107`). The model
  keeps the live value, as the code does.

## Model

| member | source | states |
|---|---|---|
| Roles.IsValidGroupRole | google_groups/pkg/groups/syncer.go:220-227 | a role is valid exactly when it is one of "OWNER", "MANAGER", "MEMBER", compared case-sensitively |
| Roles.RoleIn | google_groups/pkg/groups/syncer.go:221-226 | the loop over the role list answers true iff some listed role equals the argument |
| Strings.LocalPart | google_groups/pkg/groups/syncer.go:78-81 | `strings.Split(email, "@")[0]`: a prefix of the address with no '@', ending right before the first '@', or the whole address when there is none |
| MemberDiff.Diff | google_groups/pkg/groups/syncer.go:187-218 | a desired member is added iff its address is not live; a live address is removed iff no desired member has it; roles are never compared |
| MemberDiff.DiffCurrentDesiredMembers | google_groups/pkg/groups/syncer.go:187-218 | the two passes with the `cSet`/`dSet` lookup sets compute exactly `Diff` |
| MemberDiff.EmailSet | google_groups/pkg/groups/syncer.go:188-192 | the `cSet` loop collects exactly the addresses of the live members |
| MemberDiff.CollectMissing | google_groups/pkg/groups/syncer.go:199-208 | the pass over `desired` fills `dSet` with every desired address and `ToAdd` with the desired members missing from `cSet`, in order |
| MemberDiff.CollectAbsent | google_groups/pkg/groups/syncer.go:210-215 | the pass over `current` appends, in order, every live address not in `dSet` |
| MemberDiff.DiffDisjoint | google_groups/pkg/groups/syncer.go:187-218 | no address is both added and removed |
| MemberDiff.RemovedEmails | google_groups/pkg/groups/syncer.go:210-215 | the removed addresses, as a set, are the live ones minus the desired ones |
| MemberDiff.SelfDiffEmpty | google_groups/pkg/groups/syncer.go:187-218 | diffing a member list against itself gives nothing to add and nothing to remove |
| MemberDiff.DiffExample | google_groups/pkg/groups/syncer_test.go:18-31 | for any four distinct addresses, live a, b, c against desired b, c, d adds exactly d and removes exactly a |
| Syncer.OverlaySettings | google_groups/pkg/groups/syncer.go:100-114 | the new settings take description and join policy from the spec and the posting policy from the spec, or "ANYONE_CAN_POST" when it is empty; external members and every other field keep their live value |
| Syncer.OverlayIdempotent | google_groups/pkg/groups/syncer.go:100-114 | overlaying the same spec twice is the same as once |
| Syncer.SyncGroupSettings | google_groups/pkg/groups/syncer.go:58-123 | the first call is the group fetch; any fetch error other than 404 ends the step with that error and changes nothing; only the spec's group can change and no group disappears |
| Syncer.SyncGroupSettingsCalls | google_groups/pkg/groups/syncer.go:59-117 | a group is inserted iff the fetch answered 404, and then under the spec's address, the local part as name and the spec's description; the step succeeds iff the settings update is issued |
| Syncer.AddAll | google_groups/pkg/groups/syncer.go:145-162 | the insert loop never fails the step; it inserts exactly the members to add whose role is valid, all into this group, and touches no other group |
| Syncer.RemoveAll | google_groups/pkg/groups/syncer.go:164-173 | the delete loop issues one delete per address, in order, never fails the step, and touches no other group |
| Syncer.SyncMembers | google_groups/pkg/groups/syncer.go:125-175 | the first call lists the members; the step fails iff listing fails, and then nothing else happens; once listing succeeds, whatever other calls fail, every desired member missing from the live list and having a valid role gets an insert, every live address not desired gets a delete, and there is no other insert or delete; every call is about this group; other groups are untouched |
| Syncer.AppliesDiffJoin | google_groups/pkg/groups/syncer.go:141-173 | the listing followed by the insert loop's and the delete loop's calls carries out the diff: exactly the valid-role additions are inserted and exactly the removals deleted |
| Syncer.SyncOne | google_groups/pkg/groups/syncer.go:37-48 | a spec with AutoSync explicitly false makes no call; otherwise both the group fetch and the member listing happen, whatever the settings step did, and never as an error; no group disappears and only the spec's group can change |
| Syncer.SyncAll | google_groups/pkg/groups/syncer.go:37-51 | the loop never fails; every call is about an enabled spec's group, and every enabled spec gets its group fetch and member listing; no group disappears, and a group no enabled spec names is neither created nor changed |
| Syncer.Sync | google_groups/pkg/groups/syncer.go:20-52 | it fails iff a client cannot be built (the admin client's error first), and then makes no call and changes nothing; otherwise the calls are exactly about the enabled specs, each getting fetch and list; either way a group no enabled spec names is neither created nor changed |
| SyncConvergence.AddAllNoFaults | google_groups/pkg/groups/syncer.go:145-162 | with no faults the live addresses gain exactly the valid-role addresses to add; existing members and settings are kept |
| SyncConvergence.RemoveAllNoFaults | google_groups/pkg/groups/syncer.go:164-173 | with no faults the live addresses lose exactly the ones removed; every other member and the settings are kept, and no member appears |
| SyncConvergence.AddedEmails | google_groups/pkg/groups/syncer.go:141-150 | with valid desired roles the addresses inserted are the desired ones not yet live |
| SyncConvergence.SyncMembersConverges | google_groups/pkg/groups/syncer.go:125-175 | with no faults and valid roles, after the members step the group's addresses are exactly the desired ones; live members that stay desired are kept as they were (roles unchanged) |
| SyncConvergence.ReconcileMembers | google_groups/pkg/groups/syncer.go:141-173 | inserting the diff's additions and then deleting its removals yields the desired addresses and keeps the settings |
| SyncConvergence.SyncMembersIdempotent | google_groups/pkg/groups/syncer.go:125-175 | a second members step after a fault-free one changes nothing and issues only the listing |
| SyncConvergence.SyncGroupSettingsConverges | google_groups/pkg/groups/syncer.go:58-123 | with no faults, the step creates the group if absent and leaves it with the spec's settings overlaid on its live ones; nothing else changes |
| SyncConvergence.SettingsStable | google_groups/pkg/groups/syncer.go:100-117 | settings that already are an overlay of the spec are left unchanged by the settings step |
| SyncConvergence.SyncOneIdempotent | google_groups/pkg/groups/syncer.go:37-48 | syncing a spec a second time, with no faults, leaves the directory as the first sync left it |
| SyncConvergence.SyncOneConverges | google_groups/pkg/groups/syncer.go:37-48 | with no faults, an enabled spec's group exists afterwards with exactly the spec's addresses and the spec overlaid on its live settings (or on a new group's settings) |
| SyncConvergence.SyncAllConverges | google_groups/pkg/groups/syncer.go:37-51 | with no faults and distinct enabled addresses, after the loop every enabled spec's group has exactly its spec's addresses and the spec overlaid on the settings it had before the pass |
| SyncConvergence.SyncConverges | google_groups/pkg/groups/syncer.go:20-52 | once both clients are built, a fault-free `Sync` succeeds and converges every enabled group as above |
| Upgrade.InitMissing | google_groups/pkg/api/upgrade.go:19-25 | the map holds exactly the addresses to add, each keyed by its own address |
| Upgrade.InitMissingLastWins | google_groups/pkg/api/upgrade.go:21-23 | when an address is listed twice, the map holds its last entry |
| Upgrade.KeepMembers | google_groups/pkg/api/upgrade.go:30-50 | the kept members are the members not removed, in order; the missing map loses exactly the kept addresses |
| Upgrade.EmailsNotRemoved | google_groups/pkg/api/upgrade.go:31-37 | the kept addresses are the member addresses minus the removed ones |
| Upgrade.Appended | google_groups/pkg/api/upgrade.go:53-57 | the appended members list every value left in the missing map exactly once |
| Upgrade.UpgradeMembers | google_groups/pkg/api/upgrade.go:27-62 | a group's new member list is sorted by address |
| Upgrade.Upgrade | google_groups/pkg/api/upgrade.go:16-66 | no error; every spec is kept, in order, with only its member list replaced by the upgraded one |
| Upgrade.UpgradeMembersContents | google_groups/pkg/api/upgrade.go:27-62 | a member is in the result iff it is an existing member not removed, or the map's entry for an address to add that is not among the members or was removed |
| Upgrade.UpgradeRemoves | google_groups/pkg/api/upgrade.go:31-35 | a removed address stays only when it is re-added, and then with its add entry |
| Upgrade.UpgradeAddsAll | google_groups/pkg/api/upgrade.go:39-57 | every address to add is present afterwards |
| Upgrade.UpgradeKeeps | google_groups/pkg/api/upgrade.go:31-37 | an existing member that is not removed is kept unchanged |
| Upgrade.UpgradeDistinct | google_groups/pkg/api/upgrade.go:27-62 | from members with distinct addresses, the result has distinct addresses and is strictly sorted |
| Upgrade.UpgradeMembersIdempotent | google_groups/pkg/api/upgrade.go:27-62 | when the member addresses are distinct, upgrading the upgraded list again changes nothing |
| Upgrade.UpgradeIdempotent | google_groups/pkg/api/upgrade.go:16-66 | when each spec's member addresses are distinct, running the upgrade twice gives the same specs as once |
| Upgrade.RoleOverwriteLost | google_groups/pkg/api/upgrade.go:37-47 | a kept member whose address is re-added with another role stays with its old role; the add entry is absent; the corrected version holds it |
| Upgrade.JoeStaysMember | google_groups/pkg/api/upgrade.go:37-47 | members joe (MEMBER) and removable, with removable removed and joe added as OWNER: joe does not come out as OWNER |
| Upgrade.KeepMembersFixed | google_groups/pkg/api/upgrade.go:37-49 | the corrected keep loop: each add entry either stays missing or is in the kept list itself, role included |
| Upgrade.UpgradeMembersFixed | google_groups/pkg/api/upgrade.go:27-62 | the corrected upgrade is sorted and contains every add entry, role included |
| Sorting.SortStrings | google_groups/pkg/util/files.go:73-76 | the file names come out sorted and as a permutation of the input |
| Sorting.SortBy | google_groups/pkg/api/upgrade.go:59-62 | members sorted by address, as a permutation of the input |
| Sorting.SortedPermutationsEqual | google_groups/pkg/util/files.go:73-76 | two sorted permutations of the same elements are equal when equal keys mean equal elements, so sorting fixes the order whatever the input order |
| Sorting.SortDistinctIsStrict | google_groups/pkg/api/upgrade.go:59-62 | sorting elements with distinct keys gives a strictly increasing order |
| Fingerprint.ContentHash | google_groups/pkg/util/files.go:70-94 | the names are sorted; the hash is SHA-256 of the contents in sorted order iff every file is readable; otherwise the result is empty and names the first unreadable file in sorted order |
| Fingerprint.ReadablePrefix | google_groups/pkg/util/files.go:80-86 | the loop reads files until the first one that cannot be opened |
| Fingerprint.ContentHashPermutationInvariant | google_groups/pkg/util/files.go:73-76 | the listing order of the files does not change the fingerprint |
| Fingerprint.ContentHashEmpty | google_groups/pkg/util/files.go:78-93 | no files: the hash of the empty input and no error |
| Fingerprint.StreamAppend | google_groups/pkg/util/files.go:80-92 | the hashed stream of two lists is the concatenation of their streams |
| Fingerprint.BoundariesInvisible | google_groups/pkg/util/files.go:80-92 | moving bytes between two files without changing their concatenation leaves the fingerprint unchanged |
| Fingerprint.ChangeDetected | google_groups/pkg/util/files.go:80-92 | changing one file's contents, at equal length, changes the hashed stream |
| Fingerprint.ContentHashSeesChange | google_groups/pkg/util/files.go:70-94 | both fingerprints succeed and hash different streams when one file changes at equal length |
| Runner.Initial | google_groups/cmd/main.go:250-253 | the first watermark has an empty hash and a deadline before the start time |
| Runner.RunSync | google_groups/cmd/main.go:233-248 | no specs: success with no calls; otherwise it fails exactly when `Sync` cannot build a client, and then changes nothing |
| Runner.RunPass | google_groups/cmd/main.go:255-296 | a glob or hash error stops the loop with the watermark kept; otherwise it syncs iff the hash moved or the clock passed the deadline; only a successful sync records the new hash and pushes the deadline; the directory is the one the sync left, or unchanged without a sync |
| Runner.RunLoop | google_groups/cmd/main.go:255-296 | the loop takes at most one pass per tick and ends early only by stopping; each pass starts from the previous pass's watermark, so the final watermark is the starting one or one recorded by a pass that ran |
| Runner.RunFrom | google_groups/cmd/main.go:250-296 | the run from the initial watermark: at most one pass per tick, ending with the initial watermark or one a pass recorded |
| Runner.UnchangedSecondPassSkips | google_groups/cmd/main.go:250-296 | two continuous passes over unchanged files, the second before the deadline the first set: the run ends with the first pass's fingerprint, deadline and directory |
| Runner.OneShotRunsOnce | google_groups/cmd/main.go:291-293 | without `--continuous` the run makes exactly one pass and stops |
| Runner.ContinuousRunsAll | google_groups/cmd/main.go:291-296 | with `--continuous` and no glob or hash error, the loop runs one pass per tick and never stops |
| Runner.FirstPassSyncs | google_groups/cmd/main.go:250-253 | the first pass always syncs |
| Runner.QuietWhileUnchanged | google_groups/cmd/main.go:275-289 | an unchanged hash before the deadline means no sync, no change |
| Runner.GroupFailuresStillAdvance | google_groups/cmd/main.go:277-284 | once the clients are built, the watermark advances whatever the groups' calls did |
| Runner.NoSpecsAdvance | google_groups/cmd/main.go:236-239 | a glob that matches no spec counts as a successful sync that makes no call |
| Runner.FailedSyncRetries | google_groups/cmd/main.go:279-286 | a sync that fails leaves the watermark and the directory as they were |
| Runner.StripUnlisted | google_groups/cmd/main.go:331-357 | allow-listed groups are kept as imported; every other group loses its members and gets AutoSync false, nothing else changing |
| Runner.StripUnlistedIdempotent | google_groups/cmd/main.go:349-357 | applying the policy twice is the same as once |
| Runner.ImportedSyncTouchesAllowListOnly | google_groups/cmd/main.go:331-357 | syncing the imported specs only ever calls the API about allow-listed groups |
| Gcs.ToURI | google_groups/pkg/gcp/gcs/util.go:26-32 | the URI starts with "gs://" and the bucket; it is no longer than that iff the path is empty |
| Gcs.FirstMatch | google_groups/pkg/gcp/gcs/util.go:35 | the leftmost position, from the given one on, where the pattern can start, or none |
| Gcs.RunEnd | google_groups/pkg/gcp/gcs/util.go:276 | the greedy run `[^/]+` or `.*` ends at the first stop character or at the end |
| Gcs.Parse | google_groups/pkg/gcp/gcs/util.go:34-51 | an error exactly when "gs://" followed by a non-slash occurs nowhere, with the source's message; on success the groups are those of the leftmost match: the bucket is the longest non-empty run without '/' after "gs://", one '/' after it is consumed if present, and the path is the rest up to the first newline |
| Gcs.GroupsFrom | google_groups/pkg/gcp/gcs/util.go:276 | the two capture groups of `gs://([^/]+)/{0,1}(.*)` at a match start: greedy bucket up to a '/' or the end, at most one '/' skipped, greedy path up to a newline or the end |
| Gcs.ParseToURI | google_groups/pkg/gcp/gcs/util.go:26-51 | parsing the printed form of a well-formed path gives it back |
| Gcs.ParseNormalizes | google_groups/pkg/gcp/gcs/util.go:26-51 | printing a parse result and parsing again gives the same result |
| Gcs.ParseErrorSaysNoMatch | google_groups/pkg/gcp/gcs/util.go:37-39 | the parse error says the path "doesn't match" |
| Gcs.Dir | google_groups/pkg/gcp/gcs/paths.go:9-22 | a string that does not parse gets Go's `path.Dir`; one that parses stays a gs URI |
| Gcs.Base | google_groups/pkg/gcp/gcs/paths.go:26-34 | never empty; a string that does not parse gets Go's `path.Base` |
| Gcs.BaseOfURI | google_groups/pkg/gcp/gcs/paths.go:26-34 | `Base` of a gs URI is `path.Base` of its object path |
| Gcs.BaseOfTopLevelObject | google_groups/pkg/gcp/gcs/paths.go:30-33 | "gs://b/x" has base "x" |
| Gcs.BaseOfBucket | google_groups/pkg/gcp/gcs/paths.go:30-33 | a bare bucket URI has base "." |
| GoPath.BaseOfElement | google_groups/pkg/gcp/gcs/paths.go:30-33 | `path.Base` of a single element without a slash is the element |
| Gcs.DirKeepsBucket | google_groups/pkg/gcp/gcs/paths.go:9-22 | `Dir` of a gs URI parses to the same bucket with `path.Dir` of the object path |
| Gcs.DirJoinBase | google_groups/pkg/gcp/gcs/paths.go:9-34 | for a clean object path inside a folder, `Dir`, "/" and `Base` put back the URI |
| Gcs.DirOfTopLevelObject | google_groups/pkg/gcp/gcs/paths.go:16-21 | an object at the top of a bucket gives the bucket URI followed by "/." |
| Gcs.ParseTrailingSlash | google_groups/pkg/gcp/gcs/util_test.go:36-43 | "gs://bucket/" parses to the bucket with an empty path |
| Gcs.ParseWithoutScheme | google_groups/pkg/gcp/gcs/util.go:34-39 | a string with no 'g' cannot match |
| Gcs.ParseObjectExample | google_groups/pkg/gcp/gcs/util_test.go:20-27 | "gs://bucket/folder1/file.csv" parses to bucket "bucket", path "folder1/file.csv" |
| Gcs.ParseBucketExamples | google_groups/pkg/gcp/gcs/util_test.go:28-43 | "gs://bucket" and "gs://bucket/" both parse to bucket "bucket" with an empty path |
| Gcs.ParseLocalExample | google_groups/pkg/gcp/gcs/util_test.go:44-47 | "/some/path" does not parse |
| Gcs.DirBaseObjectExample | google_groups/pkg/gcp/gcs/paths_test.go:14-43 | `Dir` of "gs://bucket/dirA/dirB" is "gs://bucket/dirA" and `Base` is "dirB" |
| Gcs.DirBaseLocalExample | google_groups/pkg/gcp/gcs/paths_test.go:18-47 | `Dir` of "/bucket/dirA/dirB" is "/bucket/dirA" and `Base` is "dirB" |
| GoPath.LastSlash | google_groups/pkg/gcp/gcs/paths.go:13 | the index of the last '/' (or -1): a slash, with no slash after it |
| GoPath.Dir | google_groups/pkg/gcp/gcs/paths.go:13-16 | `path.Dir`: never empty, "." for a path without a slash, rooted when the path is |
| GoPath.Clean | google_groups/pkg/gcp/gcs/paths.go:13-16 | `path.Clean` (used by `path.Dir`): never empty and rooted iff the input is |
| GoPath.BaseIsLastElement | google_groups/pkg/gcp/gcs/paths.go:30-33 | `path.Base`: "." for the empty path, "/" iff the path is all slashes, otherwise the last element, trailing slashes ignored |
| GoPath.JoinSplit | google_groups/pkg/gcp/gcs/paths.go:13-16 | splitting at slashes and joining back is the identity |
| GoPath.SplitJoin | google_groups/pkg/gcp/gcs/paths.go:13-16 | joining slash-free elements and splitting back gives them again |
| GoPath.CleanRelativeFixed | google_groups/pkg/gcp/gcs/paths.go:13-16 | `Clean` leaves a clean relative path alone, even with a trailing slash |
| GoPath.CleanRootedFixed | google_groups/pkg/gcp/gcs/paths.go:13-16 | `Clean` leaves a clean rooted path alone, even with a trailing slash |
| GoPath.DirBaseSplit | google_groups/pkg/gcp/gcs/paths.go:13-33 | on a clean path `Dir` and `Base` split at the last slash, and joining them with "/" gives the path back |
| GoPath.DirBaseAppend | google_groups/pkg/gcp/gcs/paths.go:13-33 | appending a plain element to a clean path: `Dir` gives the path back and `Base` the element |
| GoPath.DirChars | google_groups/pkg/gcp/gcs/paths.go:16 | `Dir` introduces no character other than '/' and '.' |
| Yaml.Keys | github-orgs/test_org_yaml.py:19-23 | the mapping's keys, each once, exactly those bound |
| Yaml.Lookup | github-orgs/test_org_yaml.py:20-21 | a key is bound iff it occurs, to a value it was written with |
| Yaml.Items | github-orgs/test_org_yaml.py:19-23 | `.items()` lists each key once with its bound value |
| Yaml.Elements | github-orgs/manifests/validate_config.py:37 | iterating a list gives its items, a string its characters, a mapping its keys; anything else raises TypeError |
| Yaml.Get | github-orgs/manifests/validate_config.py:20 | `.get` raises AttributeError off a mapping and gives None for a missing key |
| Yaml.Subscript | github-orgs/test_org_yaml.py:20-21 | `[k]` raises TypeError off a mapping and KeyError for a missing key |
| Yaml.ItemsOf | github-orgs/test_org_yaml.py:19 | `.items()` raises AttributeError off a mapping; on a mapping it gives `Items` of its entries: each key once, in dict order, with its value |
| Yaml.Contains | github-orgs/test_org_yaml.py:26-28 | `in`: `==` search in a list, key search in a mapping (TypeError for an unhashable key; None, a bool or an int is never a key there), substring search in a string (TypeError for a non-string); None and numbers raise TypeError |
| Yaml.SameMapExamples | github-orgs/test_org_yaml.py:28 | `==` on mappings ignores entry order and compares values by `==` (`True` equals `1`); a mapping with an extra key differs |
| Yaml.ContainsName | github-orgs/test_org_yaml.py:28 | searching a list of strings for a string is plain membership |
| Yaml.LookupAppend | github-orgs/test_org_yaml.py:25-26 | a binding under another key does not change a lookup |
| Yaml.LookupLastWins | github-orgs/test_org_yaml.py:20-21 | the last binding of a key wins |
| AdminCheck.AllowedList | github-orgs/manifests/validate_config.py:32-35 | the allow-list is the fifteen listed logins as a list of strings |
| AdminCheck.AdminsOf | github-orgs/manifests/validate_config.py:20 | the `.get` chain succeeds iff the document, its `orgs` and its `kubeflow` are mappings, and then gives the value bound to `admins`, or None when the key is missing; otherwise it raises AttributeError |
| AdminCheck.MissingAdminsRejected | github-orgs/manifests/validate_config.py:20-28 | a `kubeflow` entry without an `admins` key fails with the missing-admins error |
| AdminCheck.NullAdminsRejected | github-orgs/manifests/validate_config.py:20-28 | `admins` bound to null fails with the missing-admins error |
| AdminCheck.FirstDisallowed | github-orgs/manifests/validate_config.py:37-42 | the first admin off the allow-list, all before it allowed; none iff all are allowed |
| AdminCheck.IsAllowed | github-orgs/manifests/validate_config.py:38 | `a in allowed_admins` holds iff `a` is a listed string |
| AdminCheck.AllowedListContains | github-orgs/manifests/validate_config.py:38 | the Python list search never raises and matches only an equal string |
| AdminCheck.CheckConfig | github-orgs/manifests/validate_config.py:11-44 | passes iff the admins are present, truthy, iterable and all allowed; "missing admins" iff they are falsy; an exception iff a `.get` fails or they are not iterable; otherwise it names the first admin not allowed |
| AdminCheck.Message | github-orgs/manifests/validate_config.py:24-40 | the missing-admins message names the config file; the not-allowed message starts with the admin |
| AdminCheck.NamesPass | github-orgs/manifests/validate_config.py:20-42 | for a list of names the check passes iff the list is non-empty and every name is allowed |
| AdminCheck.NoAdminsRejected | github-orgs/manifests/validate_config.py:23-28 | an empty admin list fails with the missing-admins error |
| AdminCheck.CaseSensitive | github-orgs/manifests/validate_config.py:32-38 | "jlewi" is allowed and "JLewi" is not |
| TeamCheck.InOrg | github-orgs/test_org_yaml.py:28 | a name passes iff it is among the members, or not among them and among the admins (short circuit) |
| TeamCheck.CheckMembers | github-orgs/test_org_yaml.py:27-30 | a team list passes iff every name passes; a failure names the first name that does not |
| TeamCheck.CheckGroup | github-orgs/test_org_yaml.py:26-30 | an absent team list passes; otherwise it passes iff present, iterable and all names pass |
| TeamCheck.CheckGroups | github-orgs/test_org_yaml.py:25-30 | a team passes iff both "maintainers" and "members" pass |
| TeamCheck.CheckTeams | github-orgs/test_org_yaml.py:23-30 | the teams pass iff each of them passes |
| TeamCheck.CheckOrg | github-orgs/test_org_yaml.py:19-30 | an org passes iff it has members, admins and a mapping of teams that all pass |
| TeamCheck.CheckOrgs | github-orgs/test_org_yaml.py:19-30 | the orgs pass iff each passes |
| TeamCheck.TeamMembersInOrg | github-orgs/test_org_yaml.py:14-30 | the document passes iff `orgs` is a mapping and every org passes |
| TeamCheck.EveryTeamChecked | github-orgs/test_org_yaml.py:23-29 | the loop over a `teams` mapping passes iff every team bound under its keys passes |
| TeamCheck.EveryOrgChecked | github-orgs/test_org_yaml.py:19-29 | a document whose `orgs` is a mapping passes iff every org bound under its keys passes |
| TeamCheck.Message | github-orgs/test_org_yaml.py:28-30 | the assertion text starts with the failing name |
| TeamCheck.InOrgNames | github-orgs/test_org_yaml.py:28 | for lists of strings a name passes iff it is a member or an admin |
| TeamCheck.GroupNames | github-orgs/test_org_yaml.py:26-30 | a team list of strings passes iff each name is a member or an admin |
| TeamCheck.OtherKeysIgnored | github-orgs/test_org_yaml.py:25-26 | keys other than "maintainers" and "members" do not affect a team |

## Findings

| source | as written | input that shows it | evidently intended | confidence | as-written member | corrected member |
|---|---|---|---|---|---|---|
| google_groups/pkg/api/upgrade.go:37-47 | the member is appended to `toKeep` before `m.Role = desired.Role`, and `m` is a loop copy, so the new role is never stored | members joe (MEMBER) and removable (MEMBER), removeUsers {removable}, addUsers [joe (OWNER)]: joe stays MEMBER | the kept member takes the role of its add entry | not executed | Upgrade.RoleOverwriteLost | Upgrade.UpgradeMembersFixed |

`Upgrade.JoeStaysMember` is the concrete instance of the row. The rest of the
model describes the code as written, `Upgrade.UpgradeMembers`; the corrected
`Upgrade.KeepMembersFixed`/`Upgrade.UpgradeMembersFixed` are proved to
contain every add entry with its role.

## Left out

- Pagination of `Members.List`: the listing is one answer.
- Credentials, OAuth, the secret cache, logging and `time.Sleep`: none of
  them change what is synced.
- The transport of the two Google APIs: the directory is an abstract map and
  `Faults` decides which call fails.
- The type assertion `err.(*googleapi.Error)` at `syncer.go:63`: a non-API
  error and a non-404 API error both end the settings step, so
  `HttpError(code)` and `OtherError` cover it.
- Syncer.SyncGroupSettings: the error it returns is not used by `Sync`
  (`syncer.go:44`). It is modelled, but only its effect on the directory and
  the calls matters.
- `api.ReadGroups`, the glob and `os.Open`/`io.Copy`: they are inputs to each
  pass (`Runner.Tick`). A partial `io.Copy` failure is treated like an open
  failure.
- SHA-256 itself: it is a parameter. Fingerprint.ContentHashSeesChange
  proves that the hashed streams differ, not that the digests differ, since
  that would need the hash to be injective.
- Fingerprint.ChangeDetected: only equal-length changes. A change that moves
  bytes across a file boundary is invisible (Fingerprint.BoundariesInvisible).
- Sorting.SortBy: Go's `sort.Slice` is not stable. The model picks the
  stable order, which differs only for equal keys, that is, duplicate
  addresses in Upgrade.
- Go's regular-expression engine in general: only the one pattern at
  `util.go:276` is modelled.
- `GcsHelper`, the readers and writers, and `FindMatches` in `gcs/util.go`:
  they talk to the storage service.
- `groups/importer.go`: it is not part of this model. Only the allow-list
  applied to its output is modelled (Runner.StripUnlisted).
- `ConvertTextToGroup` and its test (`upgrade_test.go`): they are not part
  of this model.
- Opening and parsing the YAML files: the parsed document is the input.
  YAML scalars other than null, booleans, integers and strings (floats,
  dates) are not in `Yaml.Value`; the org files use none of them.
- Yaml.Value: mapping keys are strings only. PyYAML turns keys such as
  `yes:`, `on:` or `123:` into booleans or integers, which `Yaml.Map` cannot
  hold. The fixed field names (`orgs`, `kubeflow`, `admins`, `members`,
  `teams`, `maintainers`) are looked up by string and are plain words, and
  the org and team names the team check iterates over only appear in its
  failure text; an org or team named `yes` would read `True` there, which
  is not modelled.
- AdminCheck.Message and TeamCheck.Message: the text is given only for a
  string admin or member. Python's `str()` of other values is not modelled.
- `fire.Fire` and the `__main__` block of `validate_config.py`: command-line
  plumbing.
