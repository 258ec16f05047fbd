/** `Upgrade` of `api/upgrade.go`: an in-memory rewrite of every spec's member
    list that drops the members to remove, appends the required users that
    are missing and sorts by email. The source's `m.Role = desired.Role`
    assigns to the loop's copy after that copy was already appended, so a
    member already present keeps its old role; `KeepMembers` keeps the
    record unchanged to match, and `KeepMembersFixed` is the evidently
    intended loop. */
module Upgrade {
  import opened Wrappers
  import opened GroupSpecs
  import opened Sorting
  import opened MemberDiff

  /** Every entry of `m` is stored under its own address. */
  predicate KeyedByEmail(m: map<string, Member>)
  {
    forall e :: e in m ==> m[e].email == e
  }

  /** `initMissing`: the required users keyed by address; when two share an
      address the later one wins (see `InitMissingLastWins`). */
  function InitMissing(addUsers: seq<Member>): (r: map<string, Member>)
    ensures r.Keys == Emails(addUsers)
    ensures KeyedByEmail(r)
  {
    if |addUsers| == 0 then map[]
    else
      var n := |addUsers| - 1;
      InitMissing(addUsers[..n])[addUsers[n].email := addUsers[n]]
  }

  /** The entry kept for an address is the last one in `addUsers` with it. */
  lemma {:induction false} InitMissingLastWins(addUsers: seq<Member>, e: string)
    requires e in InitMissing(addUsers)
    ensures exists i :: LastWith(addUsers, i, e) && addUsers[i] == InitMissing(addUsers)[e]
  {
    var n := |addUsers| - 1;
    var prev := addUsers[..n];
    if addUsers[n].email != e {
      InitMissingLastWins(prev, e);
      var i :| LastWith(prev, i, e) && prev[i] == InitMissing(prev)[e];
      assert addUsers[i] == prev[i];
      assert LastWith(addUsers, i, e) by {
        forall j | i < j < |addUsers| ensures addUsers[j].email != e {
          if j < n {
            assert addUsers[j] == prev[j];
            assert prev[j].email != e;
          } else {
            assert j == n;
          }
        }
      }
    } else {
      assert LastWith(addUsers, n, e);
    }
  }

  /** Position `i` holds the last entry of `s` with address `e`. */
  predicate LastWith(s: seq<Member>, i: int, e: string)
  {
    0 <= i < |s| && s[i].email == e && forall j :: i < j < |s| ==> s[j].email != e
  }

  /** The kept members and what is still missing after the loop over a
      group's members. */
  datatype Kept = Kept(kept: seq<Member>, missing: map<string, Member>)

  /** The loop over `g.Spec.Members` as written: a member whose address is in
      `removeUsers` is dropped; any other is appended unchanged and its
      address is struck from `missing`. */
  function KeepMembers(members: seq<Member>, removeUsers: set<string>, missing: map<string, Member>): (r: Kept)
    ensures r.kept == MembersNotIn(members, removeUsers)
    ensures r.missing == missing - Emails(r.kept)
  {
    if |members| == 0 then Kept([], missing)
    else
      var n := |members| - 1;
      var prev := KeepMembers(members[..n], removeUsers, missing);
      var m := members[n];
      if m.email in removeUsers then prev
      else
        MissingAfterKeep(missing, prev.kept, m);
        Kept(prev.kept + [m], prev.missing - {m.email})
  }

  /** Keeping one more member takes its address off the missing map. */
  lemma MissingAfterKeep(missing: map<string, Member>, kept: seq<Member>, m: Member)
    ensures missing - Emails(kept + [m]) == (missing - Emails(kept)) - {m.email}
  {
    EmailsAppend(kept, m);
  }

  /** The addresses of the members kept are those not removed. */
  lemma EmailsNotRemoved(members: seq<Member>, removeUsers: set<string>)
    ensures Emails(MembersNotIn(members, removeUsers)) == Emails(members) - removeUsers
  {
    var kept := MembersNotIn(members, removeUsers);
    forall e | e in Emails(members) - removeUsers ensures e in Emails(kept) {
      var i :| 0 <= i < |members| && members[i].email == e;
      assert members[i] in kept;
    }
    forall e | e in Emails(kept) ensures e in Emails(members) - removeUsers {
      var i :| 0 <= i < |kept| && kept[i].email == e;
      assert kept[i] in members;
    }
  }

  /** `r` lists the values of `m`, each exactly once. */
  predicate ListsValues(r: seq<Member>, m: map<string, Member>)
  {
    && (forall i :: 0 <= i < |r| ==> r[i].email in m && m[r[i].email] == r[i])
    && (forall e :: e in m ==> m[e] in r)
    && DistinctEmails(r)
  }

  /** The values of `missing`, one per address, in the order the addresses
      first occur in `order`. Go visits a map in no fixed order; the sort that
      follows makes the choice invisible. */
  function Appended(order: seq<Member>, missing: map<string, Member>): (r: seq<Member>)
    requires missing.Keys <= Emails(order)
    requires KeyedByEmail(missing)
    ensures ListsValues(r, missing)
    decreases |order|
  {
    if |order| == 0 then []
    else
      var e := order[0].email;
      TailKeys(order, missing);
      KeyedWithout(missing, e);
      if e in missing then
        var tail := Appended(order[1..], missing - {e});
        ListsValuesCons(missing, e, tail);
        [missing[e]] + tail
      else
        WithoutAbsent(missing, e);
        Appended(order[1..], missing)
  }

  lemma KeyedWithout(missing: map<string, Member>, e: string)
    requires KeyedByEmail(missing)
    ensures KeyedByEmail(missing - {e})
  {
  }

  lemma WithoutAbsent(missing: map<string, Member>, e: string)
    requires e !in missing
    ensures missing - {e} == missing
  {
  }

  lemma TailKeys(order: seq<Member>, missing: map<string, Member>)
    requires |order| > 0 && missing.Keys <= Emails(order)
    ensures (missing - {order[0].email}).Keys <= Emails(order[1..])
  {
    forall k | k in (missing - {order[0].email}).Keys ensures k in Emails(order[1..]) {
      var i :| 0 <= i < |order| && order[i].email == k;
      assert order[1..][i - 1] == order[i];
    }
  }

  /** Listing one value ahead of a listing of the others lists them all. */
  lemma ListsValuesCons(missing: map<string, Member>, e: string, tail: seq<Member>)
    requires KeyedByEmail(missing) && e in missing
    requires ListsValues(tail, missing - {e})
    ensures ListsValues([missing[e]] + tail, missing)
  {
    var rest := missing - {e};
    var r := [missing[e]] + tail;
    forall k | k in missing ensures missing[k] in r {
      if k != e {
        assert k in rest && rest[k] == missing[k];
      }
    }
    forall i | 0 <= i < |r| ensures r[i].email in missing && missing[r[i].email] == r[i] {
      if i > 0 {
        assert r[i] == tail[i - 1];
      }
    }
    forall i, j | 0 <= i < j < |r| ensures r[i].email != r[j].email {
      assert r[j] == tail[j - 1];
      if i > 0 {
        assert r[i] == tail[i - 1];
      }
    }
  }

  /** The new member list of one group, as written. */
  function UpgradeMembers(members: seq<Member>, addUsers: seq<Member>, removeUsers: set<string>): (r: seq<Member>)
    ensures SortedBy(r, EmailOf)
  {
    var k := KeepMembers(members, removeUsers, InitMissing(addUsers));
    SortBy(k.kept + Appended(addUsers, k.missing), EmailOf)
  }

  /** `Upgrade`: each group's member list is rewritten on its own, starting
      from a fresh `missing` map; every other field is left alone, and the
      returned error is always nil. */
  function Upgrade(groups: seq<GroupSpec>, addUsers: seq<Member>, removeUsers: set<string>): (r: (seq<GroupSpec>, Option<string>))
    ensures r.1 == None
    ensures |r.0| == |groups|
    ensures forall i :: 0 <= i < |groups| ==>
      r.0[i] == groups[i].(members := UpgradeMembers(groups[i].members, addUsers, removeUsers))
  {
    (seq(|groups|, i requires 0 <= i < |groups| =>
       groups[i].(members := UpgradeMembers(groups[i].members, addUsers, removeUsers))), None)
  }

  /** Exactly which records the upgraded list holds: every member not removed,
      unchanged, and the final `addUsers` entry for each address that no kept
      member already has. */
  lemma UpgradeMembersContents(members: seq<Member>, addUsers: seq<Member>, removeUsers: set<string>, x: Member)
    ensures x in UpgradeMembers(members, addUsers, removeUsers) <==>
      || (x in members && x.email !in removeUsers)
      || (x.email in Emails(addUsers) && x == InitMissing(addUsers)[x.email] &&
          (x.email !in Emails(members) || x.email in removeUsers))
  {
    var m0 := InitMissing(addUsers);
    var k := KeepMembers(members, removeUsers, m0);
    var added := Appended(addUsers, k.missing);
    var r := UpgradeMembers(members, addUsers, removeUsers);
    EmailsNotRemoved(members, removeUsers);
    assert x in r <==> x in multiset(k.kept + added);
    assert x in added <==> x.email in k.missing && x == k.missing[x.email] by {
      if x in added {
        var i :| 0 <= i < |added| && added[i] == x;
      }
    }
  }

  /** No member whose address is to be removed survives, unless `addUsers`
      asks for that address. */
  lemma UpgradeRemoves(members: seq<Member>, addUsers: seq<Member>, removeUsers: set<string>, x: Member)
    requires x in UpgradeMembers(members, addUsers, removeUsers)
    requires x.email in removeUsers
    ensures x.email in Emails(addUsers) && x == InitMissing(addUsers)[x.email]
  {
    UpgradeMembersContents(members, addUsers, removeUsers, x);
  }

  /** Every address of `addUsers` is present afterwards. */
  lemma UpgradeAddsAll(members: seq<Member>, addUsers: seq<Member>, removeUsers: set<string>)
    ensures Emails(addUsers) <= Emails(UpgradeMembers(members, addUsers, removeUsers))
  {
    var r := UpgradeMembers(members, addUsers, removeUsers);
    forall e | e in Emails(addUsers) ensures e in Emails(r) {
      var y := InitMissing(addUsers)[e];
      if e in Emails(members) && e !in removeUsers {
        var i :| 0 <= i < |members| && members[i].email == e;
        UpgradeMembersContents(members, addUsers, removeUsers, members[i]);
        var j :| 0 <= j < |r| && r[j] == members[i];
      } else {
        UpgradeMembersContents(members, addUsers, removeUsers, y);
        var j :| 0 <= j < |r| && r[j] == y;
      }
    }
  }

  /** A member that is not removed is kept exactly as it was: in particular
      its role is not overwritten by a required user with the same address. */
  lemma UpgradeKeeps(members: seq<Member>, addUsers: seq<Member>, removeUsers: set<string>, x: Member)
    requires x in members && x.email !in removeUsers
    ensures x in UpgradeMembers(members, addUsers, removeUsers)
  {
    UpgradeMembersContents(members, addUsers, removeUsers, x);
  }

  /** Upgrading a list without repeated addresses gives one without them. */
  lemma UpgradeDistinct(members: seq<Member>, addUsers: seq<Member>, removeUsers: set<string>)
    requires DistinctEmails(members)
    ensures DistinctEmails(UpgradeMembers(members, addUsers, removeUsers))
    ensures StrictlySortedBy(UpgradeMembers(members, addUsers, removeUsers), EmailOf)
  {
    var k := KeepMembers(members, removeUsers, InitMissing(addUsers));
    var added := Appended(addUsers, k.missing);
    forall i, j | 0 <= i < j < |k.kept| ensures k.kept[i].email != k.kept[j].email {
      KeptOrder(members, removeUsers, i, j);
    }
    forall i, j | 0 <= i < |k.kept| && 0 <= j < |added| ensures k.kept[i].email != added[j].email {
      assert k.kept[i].email in Emails(k.kept);
    }
    DistinctConcat(k.kept, added);
    SortDistinctIsStrict(k.kept + added, EmailOf);
    StrictIsDistinct(SortBy(k.kept + added, EmailOf), EmailOf);
  }

  /** Two lists without repeated addresses and with no address in common
      concatenate to one without repeated addresses. */
  lemma DistinctConcat(a: seq<Member>, b: seq<Member>)
    requires DistinctEmails(a) && DistinctEmails(b)
    requires forall i, j :: 0 <= i < |a| && 0 <= j < |b| ==> a[i].email != b[j].email
    ensures DistinctKeys(a + b, EmailOf)
  {
    var all := a + b;
    forall i, j | 0 <= i < j < |all| ensures EmailOf(all[i]) != EmailOf(all[j]) {
      if j < |a| {
        assert all[i] == a[i] && all[j] == a[j];
      } else if i >= |a| {
        assert all[i] == b[i - |a|] && all[j] == b[j - |a|];
      } else {
        assert all[i] == a[i] && all[j] == b[j - |a|];
      }
    }
  }

  /** Kept members appear in the order of the original list, so distinct
      positions of the kept list come from distinct positions of `members`. */
  lemma {:induction false} KeptOrder(members: seq<Member>, removeUsers: set<string>, i: int, j: int)
    requires DistinctEmails(members)
    requires 0 <= i < j < |MembersNotIn(members, removeUsers)|
    ensures MembersNotIn(members, removeUsers)[i].email != MembersNotIn(members, removeUsers)[j].email
  {
    var n := |members| - 1;
    var kept := MembersNotIn(members, removeUsers);
    var prev := MembersNotIn(members[..n], removeUsers);
    assert DistinctEmails(members[..n]) by {
      forall a, b | 0 <= a < b < n ensures members[..n][a].email != members[..n][b].email {
        assert members[..n][a] == members[a] && members[..n][b] == members[b];
      }
    }
    if members[n].email in removeUsers {
      assert kept == prev;
      KeptOrder(members[..n], removeUsers, i, j);
    } else if j < |prev| {
      assert kept == prev + [members[n]];
      assert kept[i] == prev[i] && kept[j] == prev[j];
      KeptOrder(members[..n], removeUsers, i, j);
    } else {
      assert kept == prev + [members[n]];
      assert kept[j] == members[n];
      assert kept[i] in members[..n];
      var a :| 0 <= a < n && members[..n][a] == kept[i];
      assert members[a] == kept[i];
    }
  }

  /** Running the upgrade again on its own output, with the same arguments,
      changes nothing: no duplicate is appended and no role moves. */
  lemma UpgradeMembersIdempotent(members: seq<Member>, addUsers: seq<Member>, removeUsers: set<string>)
    requires DistinctEmails(members)
    ensures UpgradeMembers(UpgradeMembers(members, addUsers, removeUsers), addUsers, removeUsers)
         == UpgradeMembers(members, addUsers, removeUsers)
  {
    var once := UpgradeMembers(members, addUsers, removeUsers);
    var twice := UpgradeMembers(once, addUsers, removeUsers);
    UpgradeDistinct(members, addUsers, removeUsers);
    UpgradeDistinct(once, addUsers, removeUsers);
    UpgradeAddsAll(members, addUsers, removeUsers);
    forall x ensures x in twice <==> x in once {
      UpgradeMembersContents(members, addUsers, removeUsers, x);
      UpgradeMembersContents(once, addUsers, removeUsers, x);
    }
    StrictlySortedSameElementsEqual(twice, once, EmailOf);
  }

  /** `Upgrade` applied twice equals `Upgrade` applied once. */
  lemma UpgradeIdempotent(groups: seq<GroupSpec>, addUsers: seq<Member>, removeUsers: set<string>)
    requires forall i :: 0 <= i < |groups| ==> DistinctEmails(groups[i].members)
    ensures Upgrade(Upgrade(groups, addUsers, removeUsers).0, addUsers, removeUsers)
         == Upgrade(groups, addUsers, removeUsers)
  {
    var once := Upgrade(groups, addUsers, removeUsers).0;
    var twice := Upgrade(once, addUsers, removeUsers).0;
    forall i | 0 <= i < |groups| ensures twice[i] == once[i] {
      UpgradeMembersIdempotent(groups[i].members, addUsers, removeUsers);
      assert once[i].members == UpgradeMembers(groups[i].members, addUsers, removeUsers);
    }
    assert twice == once;
  }

  /** The loop as evidently intended: a kept member whose address is still
      missing takes the required user's record, and so its role. */
  function KeepMembersFixed(members: seq<Member>, removeUsers: set<string>, missing: map<string, Member>): (r: Kept)
    requires KeyedByEmail(missing)
    ensures KeyedByEmail(r.missing)
    ensures forall e :: e in r.missing ==> e in missing && r.missing[e] == missing[e]
    ensures forall e :: e in missing ==> e in r.missing || missing[e] in r.kept
  {
    if |members| == 0 then Kept([], missing)
    else
      var n := |members| - 1;
      var prev := KeepMembersFixed(members[..n], removeUsers, missing);
      var m := members[n];
      if m.email in removeUsers then prev
      else if m.email in prev.missing then
        Kept(prev.kept + [prev.missing[m.email]], prev.missing - {m.email})
      else Kept(prev.kept + [m], prev.missing)
  }

  /** The member list of one group with the role overwrite in effect. */
  function UpgradeMembersFixed(members: seq<Member>, addUsers: seq<Member>, removeUsers: set<string>): (r: seq<Member>)
    ensures SortedBy(r, EmailOf)
    ensures forall e :: e in Emails(addUsers) ==> InitMissing(addUsers)[e] in r
  {
    var m0 := InitMissing(addUsers);
    var k := KeepMembersFixed(members, removeUsers, m0);
    var added := Appended(addUsers, k.missing);
    var all := k.kept + added;
    var r := SortBy(all, EmailOf);
    forall e | e in Emails(addUsers) ensures m0[e] in r {
      assert m0[e] in all;
      assert m0[e] in multiset(all);
    }
    r
  }

  /** A member already present, not removed, and required with another role
      keeps its old role as written; the intended loop gives it the required
      one. */
  lemma RoleOverwriteLost(members: seq<Member>, addUsers: seq<Member>, removeUsers: set<string>, m: Member)
    requires DistinctEmails(members)
    requires m in members && m.email !in removeUsers && m.email in Emails(addUsers)
    requires InitMissing(addUsers)[m.email].role != m.role
    ensures m in UpgradeMembers(members, addUsers, removeUsers)
    ensures InitMissing(addUsers)[m.email] !in UpgradeMembers(members, addUsers, removeUsers)
    ensures InitMissing(addUsers)[m.email] in UpgradeMembersFixed(members, addUsers, removeUsers)
  {
    var y := InitMissing(addUsers)[m.email];
    UpgradeMembersContents(members, addUsers, removeUsers, m);
    UpgradeMembersContents(members, addUsers, removeUsers, y);
    assert m.email in Emails(members);
  }

  /** The example of the upgrade's documentation: `joe` a member,
      `removable` removed, `joe` required as an owner. */
  lemma JoeStaysMember()
    ensures Member("joe", "OWNER") !in
      UpgradeMembers([Member("joe", "MEMBER"), Member("removable", "MEMBER")],
                     [Member("joe", "OWNER")], {"removable"})
  {
    var members := [Member("joe", "MEMBER"), Member("removable", "MEMBER")];
    var addUsers := [Member("joe", "OWNER")];
    assert addUsers[..0] == [];
    assert addUsers[0].email == "joe";
    RoleOverwriteLost(members, addUsers, {"removable"}, members[0]);
  }
}
