/** The per-group sync pass of `groups/syncer.go`: `Sync`, `syncGroupSettings`
    and `syncMembers`, run against the abstract `Directory` with a failure
    oracle. Each step returns the calls it attempted, in order, so that what
    the pass does to the remote service can be stated and compared. */
module Syncer {
  import opened Wrappers
  import opened GroupSpecs
  import opened Directory
  import opened Roles
  import opened MemberDiff
  import Strings

  /** The outcome of one step: its returned error, the directory after it,
      and the calls it attempted. */
  datatype Step = Step(err: Option<ApiError>, dir: Directory, calls: seq<Call>)

  /** The outcome of constructing the two API clients (`admin.New` and
      `settingsSdk.New`); either may fail. */
  datatype Clients = Clients(adminErr: Option<ApiError>, settingsErr: Option<ApiError>)

  const DefaultWhoCanPostMessage: string := "ANYONE_CAN_POST"

  /** Every call in `calls` addresses `group`. */
  predicate AllAbout(calls: seq<Call>, group: string)
  {
    forall i :: 0 <= i < |calls| ==> calls[i].group == group
  }

  /** Two call lists about one group stay about it when joined. */
  lemma AllAboutAppend(a: seq<Call>, b: seq<Call>, group: string)
    requires AllAbout(a, group) && AllAbout(b, group)
    ensures AllAbout(a + b, group)
  {
  }

  /** The partial overlay of a spec onto live settings: description, join and
      posting policy come from the spec, the posting policy defaulting when
      the spec leaves it empty; `allowExternalMembers` is assigned to itself
      and so, like every other field, keeps its live value. */
  function OverlaySettings(spec: GroupSpec, live: Settings): (s: Settings)
    ensures s.description == spec.description && s.whoCanJoin == spec.whoCanJoin
    ensures s.whoCanPostMessage != ""
    ensures spec.whoCanPostMessage != "" ==> s.whoCanPostMessage == spec.whoCanPostMessage
    ensures spec.whoCanPostMessage == "" ==> s.whoCanPostMessage == DefaultWhoCanPostMessage
    ensures s.allowExternalMembers == live.allowExternalMembers
    ensures s.otherFields == live.otherFields
  {
    var withSpec := live.(description := spec.description, whoCanJoin := spec.whoCanJoin,
                          allowExternalMembers := live.allowExternalMembers,
                          whoCanPostMessage := spec.whoCanPostMessage);
    if withSpec.whoCanPostMessage == "" then withSpec.(whoCanPostMessage := DefaultWhoCanPostMessage)
    else withSpec
  }

  /** Applying the overlay a second time changes nothing. */
  lemma OverlayIdempotent(spec: GroupSpec, live: Settings)
    ensures OverlaySettings(spec, OverlaySettings(spec, live)) == OverlaySettings(spec, live)
  {
  }

  /** `syncGroupSettings`. The group is fetched; on a 404 it is created with
      the text before the first '@' as its name (never `Spec.Name`); any other
      fetch error, a failed create or a failed settings fetch ends the step
      with that error; otherwise the overlaid settings are written back, and
      the step returns no error whether or not the write succeeded. */
  function SyncGroupSettings(spec: GroupSpec, dir: Directory, faults: Faults): (r: Step)
    ensures |r.calls| > 0 && r.calls[0] == GetGroup(spec.email)
    ensures AllAbout(r.calls, spec.email)
    ensures FetchGroup(dir, faults, spec.email) !in {None, Some(HttpError(NotFound))} ==>
              r == Step(FetchGroup(dir, faults, spec.email), dir, [GetGroup(spec.email)])
    ensures forall e :: e in r.dir.groups.Keys - {spec.email} ==> e in dir.groups && r.dir.groups[e] == dir.groups[e]
    ensures dir.groups.Keys <= r.dir.groups.Keys && r.dir.newGroupSettings == dir.newGroupSettings
  {
    var email := spec.email;
    var got := FetchGroup(dir, faults, email);
    if got.Some? && got != Some(HttpError(NotFound)) then
      Step(got, dir, [GetGroup(email)])
    else
      var insertCalls := if got.Some? then [InsertGroup(email, Strings.LocalPart(email), spec.description)] else [];
      var created := if got.Some? then CreateGroup(dir, faults, email, Strings.LocalPart(email), spec.description)
                     else Reply(None, dir);
      var before := [GetGroup(email)] + insertCalls;
      if created.err.Some? then
        Step(created.err, dir, before)
      else
        var calls := before + [GetSettings(email)];
        match FetchSettings(created.dir, faults, email)
        case Err(e) =>
          Step(Some(e), created.dir, calls)
        case Ok(live) =>
          var updated := OverlaySettings(spec, live);
          var stored := StoreSettings(created.dir, faults, email, updated);
          Step(None, stored.dir, calls + [UpdateSettings(email, updated)])
  }

  /** The calls of the settings step: a group is created exactly when the
      lookup said 404, under the local part of the address; the step ends
      without error exactly when it reached the settings write. */
  lemma SyncGroupSettingsCalls(spec: GroupSpec, dir: Directory, faults: Faults)
    ensures var r := SyncGroupSettings(spec, dir, faults);
      && ((exists i :: 0 <= i < |r.calls| && r.calls[i].InsertGroup?) <==>
          FetchGroup(dir, faults, spec.email) == Some(HttpError(NotFound)))
      && (forall i :: 0 <= i < |r.calls| && r.calls[i].InsertGroup? ==>
          r.calls[i] == InsertGroup(spec.email, Strings.LocalPart(spec.email), spec.description))
      && (r.err.None? <==> exists i :: 0 <= i < |r.calls| && r.calls[i].UpdateSettings?)
  {
    var r := SyncGroupSettings(spec, dir, faults);
    var got := FetchGroup(dir, faults, spec.email);
    if got.Some? && got != Some(HttpError(NotFound)) {
      assert r.calls == [GetGroup(spec.email)];
    } else {
      var created := if got.Some? then CreateGroup(dir, faults, spec.email, Strings.LocalPart(spec.email), spec.description)
                     else Reply(None, dir);
      if got.Some? {
        assert r.calls[1].InsertGroup?;
      }
      if created.err.None? && FetchSettings(created.dir, faults, spec.email).Ok? {
        assert r.calls[|r.calls| - 1].UpdateSettings?;
      }
    }
  }

  /** The insert loop of `syncMembers`: members whose role is not valid are
      skipped without a call, and a failed insert does not stop the loop. */
  function AddAll(group: string, toAdd: seq<Member>, dir: Directory, faults: Faults): (r: Step)
    ensures r.err == None
    ensures forall i :: 0 <= i < |r.calls| ==>
              r.calls[i].InsertMember? && r.calls[i].group == group &&
              r.calls[i].member in toAdd && IsValidGroupRole(r.calls[i].member.role)
    ensures forall m :: m in toAdd && IsValidGroupRole(m.role) ==> InsertMember(group, m) in r.calls
    ensures r.dir.groups.Keys == dir.groups.Keys && r.dir.newGroupSettings == dir.newGroupSettings
    ensures forall e :: e in dir.groups && e != group ==> r.dir.groups[e] == dir.groups[e]
  {
    if |toAdd| == 0 then Step(None, dir, [])
    else
      var m := toAdd[0];
      if !IsValidGroupRole(m.role) then
        AddAll(group, toAdd[1..], dir, faults)
      else
        var reply := AddMember(dir, faults, group, Member(m.email, m.role));
        var rest := AddAll(group, toAdd[1..], reply.dir, faults);
        Step(None, rest.dir, [InsertMember(group, m)] + rest.calls)
  }

  /** The delete loop of `syncMembers`: one call per address, in order; a
      failed delete does not stop the loop. */
  function RemoveAll(group: string, toRemove: seq<string>, dir: Directory, faults: Faults): (r: Step)
    ensures r.err == None
    ensures |r.calls| == |toRemove| && forall i :: 0 <= i < |toRemove| ==> r.calls[i] == DeleteMember(group, toRemove[i])
    ensures r.dir.groups.Keys == dir.groups.Keys && r.dir.newGroupSettings == dir.newGroupSettings
    ensures forall e :: e in dir.groups && e != group ==> r.dir.groups[e] == dir.groups[e]
  {
    if |toRemove| == 0 then Step(None, dir, [])
    else
      var reply := RemoveMember(dir, faults, group, toRemove[0]);
      var rest := RemoveAll(group, toRemove[1..], reply.dir, faults);
      Step(None, rest.dir, [DeleteMember(group, toRemove[0])] + rest.calls)
  }

  /** `calls` carry out the diff `d` on `group`: every desired member with a
      valid role is inserted, every address to remove is deleted, and there
      is no other insert or delete. */
  predicate AppliesDiff(calls: seq<Call>, group: string, d: MemberDiff)
  {
    && (forall m :: m in d.toAdd && IsValidGroupRole(m.role) ==> InsertMember(group, m) in calls)
    && (forall e :: e in d.toRemove ==> DeleteMember(group, e) in calls)
    && (forall c :: c in calls && c.InsertMember? ==> c.member in d.toAdd && IsValidGroupRole(c.member.role))
    && (forall c :: c in calls && c.DeleteMember? ==> c.email in d.toRemove)
  }

  /** The listing, the insert loop's calls and the delete loop's calls
      together carry out the diff. */
  lemma AppliesDiffJoin(group: string, d: MemberDiff, adds: seq<Call>, removes: seq<Call>)
    requires forall i :: 0 <= i < |adds| ==>
               adds[i].InsertMember? && adds[i].member in d.toAdd && IsValidGroupRole(adds[i].member.role)
    requires forall m :: m in d.toAdd && IsValidGroupRole(m.role) ==> InsertMember(group, m) in adds
    requires |removes| == |d.toRemove| && forall i :: 0 <= i < |removes| ==> removes[i] == DeleteMember(group, d.toRemove[i])
    ensures AppliesDiff([ListMembers(group)] + adds + removes, group, d)
  {
    var calls := [ListMembers(group)] + adds + removes;
    forall e | e in d.toRemove ensures DeleteMember(group, e) in calls {
      var i :| 0 <= i < |d.toRemove| && d.toRemove[i] == e;
      assert calls[1 + |adds| + i] == removes[i];
    }
    forall c | c in calls && c.DeleteMember? ensures c.email in d.toRemove {
      var i :| 0 <= i < |calls| && calls[i] == c;
      assert i >= 1 + |adds|;
      assert removes[i - 1 - |adds|] == c;
    }
    forall c | c in calls && c.InsertMember? ensures c.member in d.toAdd && IsValidGroupRole(c.member.role) {
      var i :| 0 <= i < |calls| && calls[i] == c;
      assert 1 <= i < 1 + |adds|;
      assert adds[i - 1] == c;
    }
  }

  /** `syncMembers`: list the live members (an error ends the step), diff
      them against the spec, insert the additions, then delete the removals. */
  function SyncMembers(spec: GroupSpec, dir: Directory, faults: Faults): (r: Step)
    ensures |r.calls| > 0 && r.calls[0] == ListMembers(spec.email)
    ensures AllAbout(r.calls, spec.email)
    ensures r.err.Some? <==> FetchMembers(dir, faults, spec.email).Err?
    ensures r.err.Some? ==> r.dir == dir && r.calls == [ListMembers(spec.email)]
    ensures r.dir.groups.Keys == dir.groups.Keys && r.dir.newGroupSettings == dir.newGroupSettings
    ensures forall e :: e in dir.groups && e != spec.email ==> r.dir.groups[e] == dir.groups[e]
    ensures FetchMembers(dir, faults, spec.email).Ok? ==>
              AppliesDiff(r.calls, spec.email, Diff(FetchMembers(dir, faults, spec.email).value, spec.members))
  {
    var email := spec.email;
    match FetchMembers(dir, faults, email)
    case Err(e) => Step(Some(e), dir, [ListMembers(email)])
    case Ok(current) =>
      var diff := Diff(current, spec.members);
      var adds := AddAll(email, diff.toAdd, dir, faults);
      var removes := RemoveAll(email, diff.toRemove, adds.dir, faults);
      AllAboutAppend([ListMembers(email)], adds.calls, email);
      AllAboutAppend([ListMembers(email)] + adds.calls, removes.calls, email);
      AppliesDiffJoin(email, diff, adds.calls, removes.calls);
      Step(None, removes.dir, [ListMembers(email)] + adds.calls + removes.calls)
  }

  /** The calls one spec causes: none when AutoSync is explicitly false,
      otherwise the settings step and then, whatever its outcome, the members
      step. */
  function SyncOne(spec: GroupSpec, dir: Directory, faults: Faults): (r: Step)
    ensures !AutoSyncEnabled(spec) ==> r == Step(None, dir, [])
    ensures AutoSyncEnabled(spec) ==> GetGroup(spec.email) in r.calls && ListMembers(spec.email) in r.calls
    ensures AllAbout(r.calls, spec.email)
    ensures r.err == None
    ensures dir.groups.Keys <= r.dir.groups.Keys && r.dir.newGroupSettings == dir.newGroupSettings
    ensures forall e :: e in r.dir.groups && e != spec.email ==> e in dir.groups && r.dir.groups[e] == dir.groups[e]
  {
    if !AutoSyncEnabled(spec) then Step(None, dir, [])
    else
      var settings := SyncGroupSettings(spec, dir, faults);
      var members := SyncMembers(spec, settings.dir, faults);
      assert settings.calls[0] in settings.calls + members.calls;
      assert members.calls[0] in settings.calls + members.calls;
      Step(None, members.dir, settings.calls + members.calls)
  }

  /** Some spec of `specs` that does not opt out of auto-sync names `email`. */
  predicate SyncsGroup(specs: seq<GroupSpec>, email: string)
  {
    exists i :: 0 <= i < |specs| && AutoSyncEnabled(specs[i]) && specs[i].email == email
  }

  /** The loop of `Sync` over the specs, in order; a group's errors are
      dropped and never stop the loop. Groups no enabled spec names are
      neither created nor changed. */
  function SyncAll(specs: seq<GroupSpec>, dir: Directory, faults: Faults): (r: Step)
    ensures r.err == None
    ensures forall c :: c in r.calls ==> SyncsGroup(specs, c.group)
    ensures forall i :: 0 <= i < |specs| && AutoSyncEnabled(specs[i]) ==>
              GetGroup(specs[i].email) in r.calls && ListMembers(specs[i].email) in r.calls
    ensures dir.groups.Keys <= r.dir.groups.Keys && r.dir.newGroupSettings == dir.newGroupSettings
    ensures forall e :: e in r.dir.groups && !SyncsGroup(specs, e) ==> e in dir.groups && r.dir.groups[e] == dir.groups[e]
  {
    if |specs| == 0 then Step(None, dir, [])
    else
      var first := SyncOne(specs[0], dir, faults);
      var rest := SyncAll(specs[1..], first.dir, faults);
      forall c | c in first.calls ensures SyncsGroup(specs, c.group) {
        assert AutoSyncEnabled(specs[0]);
      }
      forall c | c in rest.calls ensures SyncsGroup(specs, c.group) {
        SyncsGroupTail(specs, c.group);
      }
      forall e | e in rest.dir.groups && !SyncsGroup(specs, e)
        ensures e in dir.groups && rest.dir.groups[e] == dir.groups[e]
      {
        SyncsGroupTail(specs, e);
        assert e != specs[0].email || !AutoSyncEnabled(specs[0]);
      }
      forall i | 0 <= i < |specs| && AutoSyncEnabled(specs[i])
        ensures GetGroup(specs[i].email) in first.calls + rest.calls
        ensures ListMembers(specs[i].email) in first.calls + rest.calls
      {
        if i > 0 {
          assert specs[i] == specs[1..][i - 1];
        }
      }
      Step(None, rest.dir, first.calls + rest.calls)
  }

  /** A spec of the tail that syncs a group is a spec of the whole list. */
  lemma SyncsGroupTail(specs: seq<GroupSpec>, email: string)
    requires |specs| > 0
    ensures SyncsGroup(specs[1..], email) ==> SyncsGroup(specs, email)
  {
    if SyncsGroup(specs[1..], email) {
      var j :| 0 <= j < |specs[1..]| && AutoSyncEnabled(specs[1..][j]) && specs[1..][j].email == email;
      assert specs[j + 1] == specs[1..][j];
    }
  }

  /** `Sync`: fails only when a client cannot be built, before any call;
      otherwise runs every spec and returns nil even when groups failed. */
  function Sync(clients: Clients, specs: seq<GroupSpec>, dir: Directory, faults: Faults): (r: Step)
    ensures r.err.Some? <==> clients.adminErr.Some? || clients.settingsErr.Some?
    ensures clients.adminErr.Some? ==> r.err == clients.adminErr
    ensures r.err.Some? ==> r.dir == dir && r.calls == []
    ensures forall c :: c in r.calls ==> SyncsGroup(specs, c.group)
    ensures dir.groups.Keys <= r.dir.groups.Keys && r.dir.newGroupSettings == dir.newGroupSettings
    ensures forall e :: e in r.dir.groups && !SyncsGroup(specs, e) ==> e in dir.groups && r.dir.groups[e] == dir.groups[e]
    ensures r.err.None? ==> forall i :: 0 <= i < |specs| && AutoSyncEnabled(specs[i]) ==>
              GetGroup(specs[i].email) in r.calls && ListMembers(specs[i].email) in r.calls
  {
    if clients.adminErr.Some? then Step(clients.adminErr, dir, [])
    else if clients.settingsErr.Some? then Step(clients.settingsErr, dir, [])
    else SyncAll(specs, dir, faults)
  }
}
