/** What one fault-free pass of the syncer achieves: the live group exists,
    carries the overlaid settings and has exactly the desired addresses, and
    a second pass changes nothing. Members already present keep their live
    role: the pass never detects role changes. */
module SyncConvergence {
  import opened Wrappers
  import opened GroupSpecs
  import opened Directory
  import opened Roles
  import opened MemberDiff
  import opened Syncer
  import Strings

  /** Every desired member carries a role the service accepts. */
  predicate ValidRoles(spec: GroupSpec)
  {
    forall i :: 0 <= i < |spec.members| ==> IsValidGroupRole(spec.members[i].role)
  }

  /** The addresses of the entries of `ms` that carry a valid role. */
  function ValidEmails(ms: seq<Member>): set<string>
  {
    set i | 0 <= i < |ms| && IsValidGroupRole(ms[i].role) :: ms[i].email
  }

  /** Dropping one address removes exactly that address and keeps every
      other member record as it was. */
  lemma EmailsWithout(ms: seq<Member>, e: string)
    ensures Emails(MembersNotIn(ms, {e})) == Emails(ms) - {e}
  {
    var r := MembersNotIn(ms, {e});
    forall x | x in Emails(ms) - {e} ensures x in Emails(r) {
      var i :| 0 <= i < |ms| && ms[i].email == x;
      assert ms[i] in r;
      var j :| 0 <= j < |r| && r[j] == ms[i];
    }
    forall x | x in Emails(r) ensures x in Emails(ms) - {e} {
      var j :| 0 <= j < |r| && r[j].email == x;
      assert r[j] in ms;
      var i :| 0 <= i < |ms| && ms[i] == r[j];
    }
  }

  lemma ValidEmailsCons(toAdd: seq<Member>)
    requires |toAdd| > 0
    ensures ValidEmails(toAdd) == ValidEmails(toAdd[1..]) + (if IsValidGroupRole(toAdd[0].role) then {toAdd[0].email} else {})
  {
    var m := toAdd[0];
    forall x | x in ValidEmails(toAdd) ensures x in ValidEmails(toAdd[1..]) + (if IsValidGroupRole(m.role) then {m.email} else {}) {
      var i :| 0 <= i < |toAdd| && IsValidGroupRole(toAdd[i].role) && toAdd[i].email == x;
      if i > 0 { assert toAdd[1..][i - 1] == toAdd[i]; }
    }
    forall x | x in ValidEmails(toAdd[1..]) ensures x in ValidEmails(toAdd) {
      var i :| 0 <= i < |toAdd[1..]| && IsValidGroupRole(toAdd[1..][i].role) && toAdd[1..][i].email == x;
      assert toAdd[i + 1] == toAdd[1..][i];
    }
  }

  /** One fault-free insert into an existing group adds the address (or
      finds it present) and keeps the records already there as a prefix. */
  lemma AddMemberNoFaults(dir: Directory, faults: Faults, group: string, m: Member)
    requires NoFaults(faults) && group in dir.groups
    ensures var r := AddMember(dir, faults, group, m);
      && group in r.dir.groups
      && Emails(r.dir.groups[group].members) == Emails(dir.groups[group].members) + {m.email}
      && dir.groups[group].members <= r.dir.groups[group].members
      && r.dir.groups[group].settings == dir.groups[group].settings
  {
    assert faults(InsertMember(group, m)) == None;
    if m.email !in Emails(dir.groups[group].members) {
      EmailsAppend(dir.groups[group].members, m);
    }
  }

  /** Without faults the insert loop adds exactly the valid-role addresses
      and leaves the existing member records in place as a prefix. */
  lemma AddAllNoFaults(group: string, toAdd: seq<Member>, dir: Directory, faults: Faults)
    requires NoFaults(faults) && group in dir.groups
    ensures var r := AddAll(group, toAdd, dir, faults);
      && Emails(r.dir.groups[group].members) == Emails(dir.groups[group].members) + ValidEmails(toAdd)
      && dir.groups[group].members <= r.dir.groups[group].members
      && r.dir.groups[group].settings == dir.groups[group].settings
  {
    AddAllEmails(group, toAdd, dir, faults);
    AddAllKeeps(group, toAdd, dir, faults);
  }

  lemma {:induction false} AddAllEmails(group: string, toAdd: seq<Member>, dir: Directory, faults: Faults)
    requires NoFaults(faults) && group in dir.groups
    ensures var r := AddAll(group, toAdd, dir, faults);
      Emails(r.dir.groups[group].members) == Emails(dir.groups[group].members) + ValidEmails(toAdd)
  {
    if |toAdd| > 0 {
      var m := toAdd[0];
      ValidEmailsCons(toAdd);
      if !IsValidGroupRole(m.role) {
        AddAllEmails(group, toAdd[1..], dir, faults);
      } else {
        assert Member(m.email, m.role) == m;
        var reply := AddMember(dir, faults, group, m);
        AddMemberNoFaults(dir, faults, group, m);
        AddAllEmails(group, toAdd[1..], reply.dir, faults);
      }
    }
  }

  lemma {:induction false} AddAllKeeps(group: string, toAdd: seq<Member>, dir: Directory, faults: Faults)
    requires NoFaults(faults) && group in dir.groups
    ensures var r := AddAll(group, toAdd, dir, faults);
      && dir.groups[group].members <= r.dir.groups[group].members
      && r.dir.groups[group].settings == dir.groups[group].settings
  {
    if |toAdd| > 0 {
      var m := toAdd[0];
      if !IsValidGroupRole(m.role) {
        AddAllKeeps(group, toAdd[1..], dir, faults);
      } else {
        assert Member(m.email, m.role) == m;
        var reply := AddMember(dir, faults, group, m);
        AddMemberNoFaults(dir, faults, group, m);
        AddAllKeeps(group, toAdd[1..], reply.dir, faults);
      }
    }
  }

  /** One fault-free delete drops the address and keeps every other record. */
  lemma RemoveMemberNoFaults(dir: Directory, faults: Faults, group: string, e: string)
    requires NoFaults(faults) && group in dir.groups
    ensures var r := RemoveMember(dir, faults, group, e);
      && group in r.dir.groups
      && Emails(r.dir.groups[group].members) == Emails(dir.groups[group].members) - {e}
      && (forall m :: m in dir.groups[group].members && m.email != e ==> m in r.dir.groups[group].members)
      && (forall m :: m in r.dir.groups[group].members ==> m in dir.groups[group].members)
      && r.dir.groups[group].settings == dir.groups[group].settings
  {
    assert faults(DeleteMember(group, e)) == None;
    if e in Emails(dir.groups[group].members) {
      EmailsWithout(dir.groups[group].members, e);
    }
  }

  /** Without faults the delete loop removes exactly the listed addresses and
      keeps every other member record unchanged. */
  lemma RemoveAllNoFaults(group: string, toRemove: seq<string>, dir: Directory, faults: Faults)
    requires NoFaults(faults) && group in dir.groups
    ensures var r := RemoveAll(group, toRemove, dir, faults);
      && Emails(r.dir.groups[group].members) == Emails(dir.groups[group].members) - (set e | e in toRemove)
      && (forall m :: m in dir.groups[group].members && m.email !in toRemove ==> m in r.dir.groups[group].members)
      && (forall m :: m in r.dir.groups[group].members ==> m in dir.groups[group].members)
      && r.dir.groups[group].settings == dir.groups[group].settings
  {
    RemoveAllEmails(group, toRemove, dir, faults);
    RemoveAllKeeps(group, toRemove, dir, faults);
  }

  lemma {:induction false} RemoveAllEmails(group: string, toRemove: seq<string>, dir: Directory, faults: Faults)
    requires NoFaults(faults) && group in dir.groups
    ensures var r := RemoveAll(group, toRemove, dir, faults);
      Emails(r.dir.groups[group].members) == Emails(dir.groups[group].members) - (set e | e in toRemove)
  {
    if |toRemove| > 0 {
      var e := toRemove[0];
      var reply := RemoveMember(dir, faults, group, e);
      RemoveMemberNoFaults(dir, faults, group, e);
      RemoveAllEmails(group, toRemove[1..], reply.dir, faults);
      assert (set x | x in toRemove) == {e} + (set x | x in toRemove[1..]);
    }
  }

  lemma {:induction false} RemoveAllKeeps(group: string, toRemove: seq<string>, dir: Directory, faults: Faults)
    requires NoFaults(faults) && group in dir.groups
    ensures var r := RemoveAll(group, toRemove, dir, faults);
      && (forall m :: m in dir.groups[group].members && m.email !in toRemove ==> m in r.dir.groups[group].members)
      && (forall m :: m in r.dir.groups[group].members ==> m in dir.groups[group].members)
      && r.dir.groups[group].settings == dir.groups[group].settings
  {
    if |toRemove| > 0 {
      var e := toRemove[0];
      var reply := RemoveMember(dir, faults, group, e);
      RemoveMemberNoFaults(dir, faults, group, e);
      RemoveAllKeeps(group, toRemove[1..], reply.dir, faults);
      assert forall x :: x in toRemove <==> x == e || x in toRemove[1..];
    }
  }

  /** Adding what is desired and missing, then removing what is live and
      not desired, yields what is desired. */
  lemma Reconcile(C: set<string>, D: set<string>)
    ensures (C + (D - C)) - (C - D) == D
  {
  }

  /** With valid desired roles, the addresses the insert loop will add are
      the desired ones not yet live. */
  lemma AddedEmails(current: seq<Member>, desired: seq<Member>)
    requires forall i :: 0 <= i < |desired| ==> IsValidGroupRole(desired[i].role)
    ensures ValidEmails(Diff(current, desired).toAdd) == Emails(desired) - Emails(current)
  {
    var toAdd := Diff(current, desired).toAdd;
    forall x | x in Emails(desired) - Emails(current) ensures x in ValidEmails(toAdd) {
      var i :| 0 <= i < |desired| && desired[i].email == x;
      assert desired[i] in toAdd;
      var j :| 0 <= j < |toAdd| && toAdd[j] == desired[i];
    }
    forall x | x in ValidEmails(toAdd) ensures x in Emails(desired) - Emails(current) {
      var j :| 0 <= j < |toAdd| && toAdd[j].email == x;
      assert toAdd[j] in desired;
      var i :| 0 <= i < |desired| && desired[i] == toAdd[j];
    }
  }

  /** One fault-free members step over an existing group whose desired
      members all carry valid roles leaves the group with exactly the desired
      addresses; a live member whose address is desired keeps its record,
      role included. */
  lemma SyncMembersConverges(spec: GroupSpec, dir: Directory, faults: Faults)
    requires NoFaults(faults) && spec.email in dir.groups
    requires ValidRoles(spec)
    ensures var r := SyncMembers(spec, dir, faults);
      && r.err.None?
      && Emails(r.dir.groups[spec.email].members) == Emails(spec.members)
      && (forall m :: m in dir.groups[spec.email].members && m.email in Emails(spec.members) ==>
            m in r.dir.groups[spec.email].members)
      && r.dir.groups[spec.email].settings == dir.groups[spec.email].settings
  {
    var email := spec.email;
    var current := dir.groups[email].members;
    var d := Diff(current, spec.members);
    var adds := AddAll(email, d.toAdd, dir, faults);
    var removes := RemoveAll(email, d.toRemove, adds.dir, faults);
    var r := SyncMembers(spec, dir, faults);
    assert r.err.None? && r.dir == removes.dir by {
      assert faults(ListMembers(email)) == None;
      assert FetchMembers(dir, faults, email) == Ok(current);
    }
    ReconcileMembers(email, current, spec.members, dir, faults);
    assert email in r.dir.groups && r.dir.groups[email] == removes.dir.groups[email];
  }

  /** The insert loop then the delete loop over the delta leave exactly the
      desired addresses, keep the live records that are desired, and keep
      the settings. */
  lemma ReconcileMembers(email: string, current: seq<Member>, desired: seq<Member>, dir: Directory, faults: Faults)
    requires NoFaults(faults) && email in dir.groups && current == dir.groups[email].members
    requires forall i :: 0 <= i < |desired| ==> IsValidGroupRole(desired[i].role)
    ensures var d := Diff(current, desired);
      var g := RemoveAll(email, d.toRemove, AddAll(email, d.toAdd, dir, faults).dir, faults).dir.groups[email];
      && Emails(g.members) == Emails(desired)
      && (forall m :: m in current && m.email in Emails(desired) ==> m in g.members)
      && g.settings == dir.groups[email].settings
  {
    ReconcileEmails(email, current, desired, dir, faults);
    ReconcileKeeps(email, current, desired, dir, faults);
  }

  lemma ReconcileEmails(email: string, current: seq<Member>, desired: seq<Member>, dir: Directory, faults: Faults)
    requires NoFaults(faults) && email in dir.groups && current == dir.groups[email].members
    requires forall i :: 0 <= i < |desired| ==> IsValidGroupRole(desired[i].role)
    ensures var d := Diff(current, desired);
      var g := RemoveAll(email, d.toRemove, AddAll(email, d.toAdd, dir, faults).dir, faults).dir.groups[email];
      Emails(g.members) == Emails(desired)
  {
    var d := Diff(current, desired);
    var adds := AddAll(email, d.toAdd, dir, faults);
    var C, D := Emails(current), Emails(desired);
    AddAllEmails(email, d.toAdd, dir, faults);
    AddedEmails(current, desired);
    assert Emails(adds.dir.groups[email].members) == C + (D - C);
    RemoveAllEmails(email, d.toRemove, adds.dir, faults);
    RemovedEmails(current, desired);
    Reconcile(C, D);
  }

  lemma ReconcileKeeps(email: string, current: seq<Member>, desired: seq<Member>, dir: Directory, faults: Faults)
    requires NoFaults(faults) && email in dir.groups && current == dir.groups[email].members
    ensures var d := Diff(current, desired);
      var g := RemoveAll(email, d.toRemove, AddAll(email, d.toAdd, dir, faults).dir, faults).dir.groups[email];
      && (forall m :: m in current && m.email in Emails(desired) ==> m in g.members)
      && g.settings == dir.groups[email].settings
  {
    var d := Diff(current, desired);
    var adds := AddAll(email, d.toAdd, dir, faults);
    AddAllKeeps(email, d.toAdd, dir, faults);
    PrefixMembers(current, adds.dir.groups[email].members);
    RemoveAllKeeps(email, d.toRemove, adds.dir, faults);
  }

  /** The records of a prefix are records of the whole. */
  lemma PrefixMembers(a: seq<Member>, b: seq<Member>)
    requires a <= b
    ensures forall m :: m in a ==> m in b
  {
    forall m | m in a ensures m in b {
      var i :| 0 <= i < |a| && a[i] == m;
      assert b[i] == m;
    }
  }

  /** After a fault-free members step, the next one lists the group and
      finds nothing to insert or delete. */
  lemma SyncMembersIdempotent(spec: GroupSpec, dir: Directory, faults: Faults)
    requires NoFaults(faults) && spec.email in dir.groups
    requires ValidRoles(spec)
    ensures var once := SyncMembers(spec, dir, faults);
      var twice := SyncMembers(spec, once.dir, faults);
      twice.dir == once.dir && twice.calls == [ListMembers(spec.email)]
  {
    SyncMembersConverges(spec, dir, faults);
    var once := SyncMembers(spec, dir, faults);
    var live := once.dir.groups[spec.email].members;
    var d := Diff(live, spec.members);
    assert d.toAdd == [] by {
      NothingMissing(spec.members, Emails(live));
    }
    assert d.toRemove == [] by {
      NothingAbsent(live, Emails(spec.members));
    }
  }

  /** A fault-free settings step leaves the group present with the overlay of
      the spec on the settings it had (or, if it was just created, on the
      settings the service gives new groups); a group it creates is named
      with the address's local part and starts with no members. */
  lemma SyncGroupSettingsConverges(spec: GroupSpec, dir: Directory, faults: Faults)
    requires NoFaults(faults)
    ensures var r := SyncGroupSettings(spec, dir, faults);
      var before := if spec.email in dir.groups then dir.groups[spec.email]
                    else RemoteGroup(Strings.LocalPart(spec.email), spec.description, dir.newGroupSettings, []);
      && r.err.None?
      && r.dir.groups == dir.groups[spec.email := before.(settings := OverlaySettings(spec, before.settings))]
      && r.dir.newGroupSettings == dir.newGroupSettings
  {
    var email := spec.email;
    assert faults(GetGroup(email)) == None;
    assert faults(InsertGroup(email, Strings.LocalPart(email), spec.description)) == None;
    assert faults(GetSettings(email)) == None;
  }

  /** A fault-free settings step over a group that already carries the
      overlay changes nothing. */
  lemma SettingsStable(spec: GroupSpec, dir: Directory, faults: Faults, prior: Settings)
    requires NoFaults(faults)
    requires spec.email in dir.groups && dir.groups[spec.email].settings == OverlaySettings(spec, prior)
    ensures SyncGroupSettings(spec, dir, faults).dir == dir
  {
    SyncGroupSettingsConverges(spec, dir, faults);
    OverlayIdempotent(spec, prior);
    var g := dir.groups[spec.email];
    assert g.(settings := OverlaySettings(spec, g.settings)) == g;
    assert dir.groups[spec.email := g] == dir.groups;
  }

  /** Running one group's whole sync twice, without faults, leaves the
      directory as the first run left it. */
  lemma SyncOneIdempotent(spec: GroupSpec, dir: Directory, faults: Faults)
    requires NoFaults(faults)
    requires ValidRoles(spec)
    ensures var once := SyncOne(spec, dir, faults);
      SyncOne(spec, once.dir, faults).dir == once.dir
  {
    if AutoSyncEnabled(spec) {
      var email := spec.email;
      var s1 := SyncGroupSettings(spec, dir, faults);
      var m1 := SyncMembers(spec, s1.dir, faults);
      var s2 := SyncGroupSettings(spec, m1.dir, faults);
      var m2 := SyncMembers(spec, s2.dir, faults);
      assert SyncOne(spec, dir, faults).dir == m1.dir;
      assert SyncOne(spec, m1.dir, faults).dir == m2.dir;
      var before := if email in dir.groups then dir.groups[email].settings else dir.newGroupSettings;
      assert email in s1.dir.groups && email in m1.dir.groups
          && m1.dir.groups[email].settings == OverlaySettings(spec, before) by {
        SyncGroupSettingsConverges(spec, dir, faults);
        SyncMembersConverges(spec, s1.dir, faults);
      }
      SettingsStable(spec, m1.dir, faults, before);
      assert m2.dir == m1.dir by {
        SyncMembersIdempotent(spec, s1.dir, faults);
      }
    }
  }

  /** The settings a pass overlays the spec on: the group's live settings,
      or, for a group the pass has to create, those the service gives it. */
  function LiveSettings(dir: Directory, email: string): Settings
  {
    if email in dir.groups then dir.groups[email].settings else dir.newGroupSettings
  }

  /** What a fault-free pass promises for one enabled spec, starting from
      `prior`: the group exists in `after`, its addresses are exactly the
      spec's, and its settings are the spec overlaid on the live ones. */
  predicate Converged(spec: GroupSpec, prior: Directory, after: Directory)
  {
    && spec.email in after.groups
    && Emails(after.groups[spec.email].members) == Emails(spec.members)
    && after.groups[spec.email].settings == OverlaySettings(spec, LiveSettings(prior, spec.email))
  }

  /** One enabled spec's whole sync, without faults, converges its group. */
  lemma SyncOneConverges(spec: GroupSpec, dir: Directory, faults: Faults)
    requires NoFaults(faults) && AutoSyncEnabled(spec) && ValidRoles(spec)
    ensures Converged(spec, dir, SyncOne(spec, dir, faults).dir)
  {
    var settings := SyncGroupSettings(spec, dir, faults);
    SyncGroupSettingsConverges(spec, dir, faults);
    SyncMembersConverges(spec, settings.dir, faults);
  }

  /** A whole fault-free pass over specs that name distinct groups converges
      every enabled spec's group: later specs never touch an earlier one's
      group, and earlier specs leave a later one's live settings alone. */
  lemma {:induction false} SyncAllConverges(specs: seq<GroupSpec>, dir: Directory, faults: Faults)
    requires NoFaults(faults)
    requires forall i :: 0 <= i < |specs| && AutoSyncEnabled(specs[i]) ==> ValidRoles(specs[i])
    requires forall i, j :: 0 <= i < j < |specs| && AutoSyncEnabled(specs[i]) && AutoSyncEnabled(specs[j]) ==>
               specs[i].email != specs[j].email
    ensures forall i :: 0 <= i < |specs| && AutoSyncEnabled(specs[i]) ==>
              Converged(specs[i], dir, SyncAll(specs, dir, faults).dir)
  {
    if |specs| > 0 {
      var first := SyncOne(specs[0], dir, faults);
      var rest := SyncAll(specs[1..], first.dir, faults);
      assert SyncAll(specs, dir, faults).dir == rest.dir;
      SyncAllConverges(specs[1..], first.dir, faults);
      forall i | 0 <= i < |specs| && AutoSyncEnabled(specs[i]) ensures Converged(specs[i], dir, rest.dir) {
        if i == 0 {
          FirstSurvives(specs, dir, faults);
        } else {
          assert specs[i] == specs[1..][i - 1];
          LiveSettingsKept(specs[0], specs[i].email, dir, faults);
        }
      }
    }
  }

  /** The first spec's converged group outlives the rest of the pass when no
      later enabled spec names it. */
  lemma FirstSurvives(specs: seq<GroupSpec>, dir: Directory, faults: Faults)
    requires NoFaults(faults) && |specs| > 0 && AutoSyncEnabled(specs[0]) && ValidRoles(specs[0])
    requires forall j :: 0 < j < |specs| && AutoSyncEnabled(specs[j]) ==> specs[j].email != specs[0].email
    ensures Converged(specs[0], dir, SyncAll(specs, dir, faults).dir)
  {
    SyncOneConverges(specs[0], dir, faults);
    assert !SyncsGroup(specs[1..], specs[0].email);
  }

  /** Syncing one spec leaves every other group's live settings, and the
      settings of groups still to be created, as they were. */
  lemma LiveSettingsKept(spec: GroupSpec, email: string, dir: Directory, faults: Faults)
    requires email != spec.email || !AutoSyncEnabled(spec)
    ensures LiveSettings(SyncOne(spec, dir, faults).dir, email) == LiveSettings(dir, email)
  {
  }

  /** `Sync` with both clients built is the fault-free pass above. */
  lemma SyncConverges(clients: Clients, specs: seq<GroupSpec>, dir: Directory, faults: Faults)
    requires clients.adminErr.None? && clients.settingsErr.None?
    requires NoFaults(faults)
    requires forall i :: 0 <= i < |specs| && AutoSyncEnabled(specs[i]) ==> ValidRoles(specs[i])
    requires forall i, j :: 0 <= i < j < |specs| && AutoSyncEnabled(specs[i]) && AutoSyncEnabled(specs[j]) ==>
               specs[i].email != specs[j].email
    ensures Sync(clients, specs, dir, faults).err.None?
    ensures forall i :: 0 <= i < |specs| && AutoSyncEnabled(specs[i]) ==>
              Converged(specs[i], dir, Sync(clients, specs, dir, faults).dir)
  {
    SyncAllConverges(specs, dir, faults);
  }
}
