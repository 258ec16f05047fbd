/** `test_team_member_is_in_org` of `github-orgs/test_org_yaml.py`: every
    name under a team's "maintainers" or "members" must be one of that org's
    members or admins. The parsed document is the input; the walk raises the
    Python exception a malformed document provokes, and stops at the first
    name that fails the assertion. */
module TeamCheck {
  import opened Wrappers
  import opened Yaml

  /** The two team lists the check reads, in the order it reads them. */
  const Groups: seq<string> := ["maintainers", "members"]

  /** How the check fails: a Python exception, or the assertion naming the
      member, the team and the org. */
  datatype TeamError =
    | Raised(error: PyError)
    | NotInOrg(member: Value, team: string, org: string)

  /** `team_member in org_members or team_member in org_admins`, with
      Python's short circuit: the admins are searched only when the member
      is not among the members. */
  function InOrg(members: Value, admins: Value, m: Value): (r: Result<bool, PyError>)
    ensures r == Ok(true) <==> Contains(members, m) == Ok(true) || (Contains(members, m) == Ok(false) && Contains(admins, m) == Ok(true))
  {
    match Contains(members, m)
    case Err(e) => Err(e)
    case Ok(true) => Ok(true)
    case Ok(false) => Contains(admins, m)
  }

  /** The assertion over one team list. */
  function CheckMembers(org: string, team: string, members: Value, admins: Value, names: seq<Value>): (r: Result<(), TeamError>)
    ensures r.Ok? <==> forall i :: 0 <= i < |names| ==> InOrg(members, admins, names[i]) == Ok(true)
    ensures r.Err? && r.error.NotInOrg? ==> r.error.org == org && r.error.team == team && exists i :: FirstOutsider(members, admins, names, i, r.error.member)
  {
    if |names| == 0 then Ok(())
    else match InOrg(members, admins, names[0])
      case Err(e) => Err(Raised(e))
      case Ok(false) =>
        assert FirstOutsider(members, admins, names, 0, names[0]);
        Err(NotInOrg(names[0], team, org))
      case Ok(true) =>
        var r := CheckMembers(org, team, members, admins, names[1..]);
        if r.Err? && r.error.NotInOrg? then
          var i :| FirstOutsider(members, admins, names[1..], i, r.error.member);
          assert FirstOutsider(members, admins, names, i + 1, r.error.member);
          r
        else r
  }

  /** `m` is the `i`th name and the first that is neither a member nor an
      admin; the names before it all pass. */
  predicate FirstOutsider(members: Value, admins: Value, names: seq<Value>, i: int, m: Value)
  {
    0 <= i < |names| && names[i] == m && InOrg(members, admins, m) == Ok(false) &&
    forall j :: 0 <= j < i ==> InOrg(members, admins, names[j]) == Ok(true)
  }

  /** `if group_name in team: for team_member in team[group_name]: ...`. */
  function CheckGroup(org: string, teamName: string, team: Value, members: Value, admins: Value, group: string): (r: Result<(), TeamError>)
    ensures Contains(team, Str(group)) == Ok(false) ==> r.Ok?
    ensures r.Ok? <==> GroupOk(team, members, admins, group)
  {
    match Contains(team, Str(group))
    case Err(e) => Err(Raised(e))
    case Ok(false) => Ok(())
    case Ok(true) =>
      match Subscript(team, group)
      case Err(e) => Err(Raised(e))
      case Ok(list) =>
        match Elements(list)
        case Err(e) => Err(Raised(e))
        case Ok(names) => CheckMembers(org, teamName, members, admins, names)
  }

  /** A team list passes: absent, or present, iterable, and every name in it
      is a member or an admin. */
  predicate GroupOk(team: Value, members: Value, admins: Value, group: string)
  {
    Contains(team, Str(group)) == Ok(false) ||
    (Contains(team, Str(group)) == Ok(true) && Subscript(team, group).Ok? &&
     Elements(Subscript(team, group).value).Ok? &&
     forall m :: m in Elements(Subscript(team, group).value).value ==> InOrg(members, admins, m) == Ok(true))
  }

  /** The loop over `["maintainers", "members"]`. */
  function CheckGroups(org: string, teamName: string, team: Value, members: Value, admins: Value, groups: seq<string>): (r: Result<(), TeamError>)
    ensures r.Ok? <==> forall g :: g in groups ==> GroupOk(team, members, admins, g)
  {
    if |groups| == 0 then Ok(())
    else match CheckGroup(org, teamName, team, members, admins, groups[0])
      case Err(e) => Err(e)
      case Ok(_) => CheckGroups(org, teamName, team, members, admins, groups[1..])
  }

  /** The loop over `org["teams"].items()`. */
  function CheckTeams(org: string, members: Value, admins: Value, teams: seq<(string, Value)>): (r: Result<(), TeamError>)
    ensures r.Ok? <==> forall i :: 0 <= i < |teams| ==> TeamOk(teams[i].1, members, admins)
  {
    if |teams| == 0 then Ok(())
    else match CheckGroups(org, teams[0].0, teams[0].1, members, admins, Groups)
      case Err(e) => Err(e)
      case Ok(_) => CheckTeams(org, members, admins, teams[1..])
  }

  /** Both lists of a team pass. */
  predicate TeamOk(team: Value, members: Value, admins: Value)
  {
    forall g :: g in Groups ==> GroupOk(team, members, admins, g)
  }

  /** One org: `org["members"]`, `org["admins"]` and `org["teams"].items()`,
      looked up in that order, then every team. */
  function CheckOrg(name: string, org: Value): (r: Result<(), TeamError>)
    ensures r.Ok? <==> OrgOk(org)
  {
    match Subscript(org, "members")
    case Err(e) => Err(Raised(e))
    case Ok(members) =>
      match Subscript(org, "admins")
      case Err(e) => Err(Raised(e))
      case Ok(admins) =>
        match Subscript(org, "teams")
        case Err(e) => Err(Raised(e))
        case Ok(teams) =>
          match ItemsOf(teams)
          case Err(e) => Err(Raised(e))
          case Ok(items) => CheckTeams(name, members, admins, items)
  }

  /** An org passes: it has the three keys, its teams form a mapping, and
      every team passes against its members and admins. */
  predicate OrgOk(org: Value)
  {
    Subscript(org, "members").Ok? && Subscript(org, "admins").Ok? && Subscript(org, "teams").Ok? &&
    ItemsOf(Subscript(org, "teams").value).Ok? &&
    forall i :: 0 <= i < |ItemsOf(Subscript(org, "teams").value).value| ==>
      TeamOk(ItemsOf(Subscript(org, "teams").value).value[i].1, Subscript(org, "members").value, Subscript(org, "admins").value)
  }

  /** The loop over `org_data["orgs"].items()`. */
  function CheckOrgs(orgs: seq<(string, Value)>): (r: Result<(), TeamError>)
    ensures r.Ok? <==> forall i :: 0 <= i < |orgs| ==> OrgOk(orgs[i].1)
  {
    if |orgs| == 0 then Ok(())
    else match CheckOrg(orgs[0].0, orgs[0].1)
      case Err(e) => Err(e)
      case Ok(_) => CheckOrgs(orgs[1..])
  }

  /** `test_team_member_is_in_org` on the parsed document. */
  function TeamMembersInOrg(doc: Value): (r: Result<(), TeamError>)
    ensures r.Ok? <==> Consistent(doc)
  {
    match Subscript(doc, "orgs")
    case Err(e) => Err(Raised(e))
    case Ok(orgs) =>
      match ItemsOf(orgs)
      case Err(e) => Err(Raised(e))
      case Ok(items) => CheckOrgs(items)
  }

  /** The document passes: `orgs` is a mapping and every org passes. */
  predicate Consistent(doc: Value)
  {
    Subscript(doc, "orgs").Ok? && ItemsOf(Subscript(doc, "orgs").value).Ok? &&
    forall i :: 0 <= i < |ItemsOf(Subscript(doc, "orgs").value).value| ==> OrgOk(ItemsOf(Subscript(doc, "orgs").value).value[i].1)
  }

  /** The assertion text, for a member that is a string. */
  function Message(e: TeamError): (r: Option<string>)
    ensures e.NotInOrg? && e.member.Str? ==> r.Some? && OccursAt(r.value, 0, e.member.s)
    ensures e.Raised? ==> r.None?
  {
    match e
    case Raised(_) => None
    case NotInOrg(m, team, org) =>
      if m.Str? then Some(m.s + " (team " + team + ") not an admin or member of org " + org) else None
  }

  /** With members, admins and a team list all lists of strings, a name
      passes exactly when it is listed as a member or as an admin. */
  lemma InOrgNames(members: seq<string>, admins: seq<string>, s: string)
    ensures InOrg(StrList(members), StrList(admins), Str(s)) == Ok(s in members || s in admins)
  {
    ContainsName(members, s);
    ContainsName(admins, s);
  }

  /** A team list of strings passes exactly when every name in it is a
      member or an admin. */
  lemma GroupNames(team: Value, members: seq<string>, admins: seq<string>, group: string, names: seq<string>)
    requires team.Map? && Lookup(team.entries, group) == Some(StrList(names))
    ensures GroupOk(team, StrList(members), StrList(admins), group) <==> forall n :: n in names ==> n in members || n in admins
  {
    var list := StrList(names);
    assert Subscript(team, group) == Ok(list);
    assert group in KeySet(team.entries);
    if GroupOk(team, StrList(members), StrList(admins), group) {
      forall n | n in names ensures n in members || n in admins {
        var i :| 0 <= i < |names| && names[i] == n;
        assert list.items[i] in list.items;
        InOrgNames(members, admins, n);
      }
    } else {
      var m :| m in list.items && InOrg(StrList(members), StrList(admins), m) != Ok(true);
      var i :| 0 <= i < |list.items| && list.items[i] == m;
      InOrgNames(members, admins, names[i]);
      assert names[i] in names;
    }
  }

  /** Only "maintainers" and "members" are read: adding any other key to a
      team changes nothing. */
  lemma OtherKeysIgnored(team: seq<(string, Value)>, members: Value, admins: Value, extra: (string, Value))
    requires extra.0 !in Groups
    ensures TeamOk(Map(team + [extra]), members, admins) <==> TeamOk(Map(team), members, admins)
  {
    forall g | g in Groups
      ensures GroupOk(Map(team + [extra]), members, admins, g) <==> GroupOk(Map(team), members, admins, g)
    {
      LookupAppend(team, g, extra);
    }
  }

  /** Every team of an org is visited: the loop over `.items()` passes iff
      each key of the `teams` mapping is bound to a team that passes. */
  lemma EveryTeamChecked(org: string, members: Value, admins: Value, teams: seq<(string, Value)>)
    ensures CheckTeams(org, members, admins, Items(teams)).Ok? <==>
      forall k :: k in KeySet(teams) ==> TeamOk(Lookup(teams, k).value, members, admins)
  {
    var items := Items(teams);
    var ks := Keys(teams);
    if CheckTeams(org, members, admins, items).Ok? {
      forall k | k in KeySet(teams) ensures TeamOk(Lookup(teams, k).value, members, admins) {
        var i :| 0 <= i < |ks| && ks[i] == k;
        assert items[i].0 == k;
      }
    } else {
      var i :| 0 <= i < |items| && !TeamOk(items[i].1, members, admins);
      assert ks[i] in KeySet(teams);
    }
  }

  /** Every org of the document is visited: the check passes on a document
      whose `orgs` is a mapping iff each of its keys is bound to an org that
      passes. */
  lemma EveryOrgChecked(orgs: seq<(string, Value)>)
    ensures TeamMembersInOrg(Map([("orgs", Map(orgs))])).Ok? <==>
      forall k :: k in KeySet(orgs) ==> OrgOk(Lookup(orgs, k).value)
  {
    var doc := Map([("orgs", Map(orgs))]);
    assert Subscript(doc, "orgs") == Ok(Map(orgs));
    var items := Items(orgs);
    var ks := Keys(orgs);
    if TeamMembersInOrg(doc).Ok? {
      forall k | k in KeySet(orgs) ensures OrgOk(Lookup(orgs, k).value) {
        var i :| 0 <= i < |ks| && ks[i] == k;
        assert items[i].0 == k;
      }
    } else {
      var i :| 0 <= i < |items| && !OrgOk(items[i].1);
      assert ks[i] in KeySet(orgs);
    }
  }
}
