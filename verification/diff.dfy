/** `diffCurrentDesiredMembers` of `groups/syncer.go`: the add/remove delta
    between a group's live members and its desired members, compared by
    email only. */
module MemberDiff {
  import opened GroupSpecs

  /** `memberDiff`: full desired records to insert and addresses to delete. */
  datatype MemberDiff = MemberDiff(toAdd: seq<Member>, toRemove: seq<string>)

  /** The members of `ms`, in order, whose address is not in `emails`. */
  function MembersNotIn(ms: seq<Member>, emails: set<string>): (r: seq<Member>)
    ensures forall m :: m in r <==> m in ms && m.email !in emails
    ensures |r| <= |ms|
  {
    if |ms| == 0 then []
    else
      var last := ms[|ms| - 1];
      assert forall m :: m in ms <==> m in ms[..|ms| - 1] || m == last;
      MembersNotIn(ms[..|ms| - 1], emails) + (if last.email in emails then [] else [last])
  }

  /** The addresses of `ms`, in order, that are not in `emails`. */
  function EmailsNotIn(ms: seq<Member>, emails: set<string>): (r: seq<string>)
    ensures forall e :: e in r <==> e in Emails(ms) && e !in emails
    ensures |r| <= |ms|
  {
    if |ms| == 0 then []
    else
      var last := ms[|ms| - 1];
      assert Emails(ms) == Emails(ms[..|ms| - 1]) + {last.email};
      EmailsNotIn(ms[..|ms| - 1], emails) + (if last.email in emails then [] else [last.email])
  }

  /** The delta: `toAdd` holds the desired members whose address is not live,
      `toRemove` the live addresses that are not desired. Members present on
      both sides appear in neither list, whatever their roles. */
  function Diff(current: seq<Member>, desired: seq<Member>): (d: MemberDiff)
    ensures forall m :: m in d.toAdd <==> m in desired && m.email !in Emails(current)
    ensures forall e :: e in d.toRemove <==> e in Emails(current) && e !in Emails(desired)
  {
    MemberDiff(MembersNotIn(desired, Emails(current)), EmailsNotIn(current, Emails(desired)))
  }

  /** The source's passes with the `cSet` and `dSet` lookup sets. */
  method DiffCurrentDesiredMembers(current: seq<Member>, desired: seq<Member>) returns (d: MemberDiff)
    ensures d == Diff(current, desired)
  {
    var cSet := EmailSet(current);
    var toAdd, dSet := CollectMissing(desired, cSet);
    var toRemove := CollectAbsent(current, dSet);
    d := MemberDiff(toAdd, toRemove);
  }

  /** The `for _, m := range current { cSet[m.Email] = true }` pass. */
  method EmailSet(ms: seq<Member>) returns (s: set<string>)
    ensures s == Emails(ms)
  {
    s := {};
    for i := 0 to |ms|
      invariant s == Emails(ms[..i])
    {
      assert ms[..i + 1][..i] == ms[..i];
      s := s + {ms[i].email};
    }
    assert ms[..|ms|] == ms;
  }

  /** The pass over `desired`: records each address in `dSet` and appends the
      members missing from `cSet` to `ToAdd`. */
  method CollectMissing(desired: seq<Member>, cSet: set<string>) returns (toAdd: seq<Member>, dSet: set<string>)
    ensures toAdd == MembersNotIn(desired, cSet)
    ensures dSet == Emails(desired)
  {
    toAdd, dSet := [], {};
    for i := 0 to |desired|
      invariant dSet == Emails(desired[..i])
      invariant toAdd == MembersNotIn(desired[..i], cSet)
    {
      assert desired[..i + 1][..i] == desired[..i];
      dSet := dSet + {desired[i].email};
      if desired[i].email !in cSet {
        toAdd := toAdd + [desired[i]];
      }
    }
    assert desired[..|desired|] == desired;
  }

  /** The pass over `current`: appends each address missing from `dSet` to
      `ToRemove`. */
  method CollectAbsent(current: seq<Member>, dSet: set<string>) returns (toRemove: seq<string>)
    ensures toRemove == EmailsNotIn(current, dSet)
  {
    toRemove := [];
    for i := 0 to |current|
      invariant toRemove == EmailsNotIn(current[..i], dSet)
    {
      assert current[..i + 1][..i] == current[..i];
      if current[i].email !in dSet {
        toRemove := toRemove + [current[i].email];
      }
    }
    assert current[..|current|] == current;
  }

  /** No address is both added and removed. */
  lemma DiffDisjoint(current: seq<Member>, desired: seq<Member>)
    ensures Emails(Diff(current, desired).toAdd) !! set e | e in Diff(current, desired).toRemove
  {
    var d := Diff(current, desired);
    forall e | e in Emails(d.toAdd) ensures e !in d.toRemove {
      var i :| 0 <= i < |d.toAdd| && d.toAdd[i].email == e;
      assert d.toAdd[i] in desired;
    }
  }

  /** The addresses to delete, as a set: the live ones not desired. */
  lemma RemovedEmails(current: seq<Member>, desired: seq<Member>)
    ensures (set e | e in Diff(current, desired).toRemove) == Emails(current) - Emails(desired)
  {
  }

  /** A member list diffed against itself yields nothing to do. */
  lemma SelfDiffEmpty(ms: seq<Member>)
    ensures Diff(ms, ms) == MemberDiff([], [])
  {
    NothingMissing(ms, Emails(ms));
    NothingAbsent(ms, Emails(ms));
  }

  lemma {:induction false} NothingMissing(ms: seq<Member>, emails: set<string>)
    requires Emails(ms) <= emails
    ensures MembersNotIn(ms, emails) == []
  {
    if |ms| > 0 {
      NothingMissing(ms[..|ms| - 1], emails);
    }
  }

  lemma {:induction false} NothingAbsent(ms: seq<Member>, emails: set<string>)
    requires Emails(ms) <= emails
    ensures EmailsNotIn(ms, emails) == []
  {
    if |ms| > 0 {
      NothingAbsent(ms[..|ms| - 1], emails);
    }
  }

  /** The fixture of `syncer_test.go`, for any four distinct addresses:
      live a, b, c against desired b, c, d adds d and removes a. */
  lemma DiffExample(a: Member, b: Member, c: Member, d: Member)
    requires a.email != b.email && a.email != c.email && a.email != d.email
    requires b.email != c.email && b.email != d.email && c.email != d.email
    ensures Diff([a, b, c], [b, c, d]) == MemberDiff([d], [a.email])
  {
    var current, desired := [a, b, c], [b, c, d];
    assert current[..2] == [a, b] && current[..2][..1] == [a] && [a][..0] == [];
    assert desired[..2] == [b, c] && desired[..2][..1] == [b] && [b][..0] == [];
    var cs, ds := Emails(current), Emails(desired);
    assert current[1] == b && current[2] == c && desired[0] == b && desired[1] == c;
    assert d.email !in cs && b.email in cs && c.email in cs;
    assert a.email !in ds && b.email in ds && c.email in ds;
    assert MembersNotIn([b], cs) == [];
    assert MembersNotIn([b, c], cs) == [];
    assert EmailsNotIn([a], ds) == [a.email];
    assert EmailsNotIn([a, b], ds) == [a.email];
  }
}
