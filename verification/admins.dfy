/** `CheckConfig.check_config` of `github-orgs/manifests/validate_config.py`:
    the parsed org file must name at least one admin under
    `orgs.kubeflow.admins`, and every admin must be on a fixed allow-list.
    The document is the input; opening and parsing the file are not part of
    this model. */
module AdminCheck {
  import opened Wrappers
  import opened Yaml

  /** The fifteen GitHub logins allowed to be org admins, in source order. */
  const AllowedAdmins: seq<string> := [
    "andreyvelich", "caniszczyk", "chensun", "googlebot",
    "google-oss-robot", "james-jwu", "jbottum", "jlewi", "johnugeorge",
    "k8s-ci-robot", "theadactyl", "krook", "thelinuxfoundation",
    "terrytangyuan", "zijianjoy"]

  /** The allow-list as the Python list of strings the check searches. */
  function AllowedList(): (r: Value)
    ensures r.List? && |r.items| == |AllowedAdmins|
    ensures forall i :: 0 <= i < |AllowedAdmins| ==> r.items[i] == Str(AllowedAdmins[i])
  {
    List(seq(|AllowedAdmins|, i requires 0 <= i < |AllowedAdmins| => Str(AllowedAdmins[i])))
  }

  /** How the check fails: a Python exception from walking the document, or
      one of the two ValueErrors it raises itself. */
  datatype CheckError =
    | Raised(error: PyError)
    | MissingAdmins(config: string)
    | NotAllowed(admin: Value)

  /** `org.get("orgs").get("kubeflow").get("admins")`: a missing key gives
      None, and calling `get` on anything but a mapping (None included)
      raises AttributeError. */
  function AdminsOf(doc: Value): (r: Result<Value, PyError>)
    ensures r.Err? ==> r.error == AttributeError
    ensures r.Ok? <==> doc.Map? && Get(doc, "orgs").value.Map? && Get(Get(doc, "orgs").value, "kubeflow").value.Map?
    ensures r.Ok? ==>
              var kubeflow := Get(Get(doc, "orgs").value, "kubeflow").value;
              Lookup(kubeflow.entries, "admins") == Some(r.value) ||
              (Lookup(kubeflow.entries, "admins") == None && r.value == Null)
  {
    match Get(doc, "orgs")
    case Err(e) => Err(e)
    case Ok(orgs) =>
      match Get(orgs, "kubeflow")
      case Err(e) => Err(e)
      case Ok(kubeflow) => Get(kubeflow, "admins")
  }

  /** An admin passes when `a in allowed_admins`: an exact, case-sensitive
      match of one of the listed strings. */
  predicate Allowed(a: Value)
  {
    a.Str? && a.s in AllowedAdmins
  }

  /** The first admin, in list order, that is not allowed. */
  function FirstDisallowed(admins: seq<Value>): (r: Option<nat>)
    ensures r.None? <==> forall i :: 0 <= i < |admins| ==> Allowed(admins[i])
    ensures r.Some? ==> r.value < |admins| && !Allowed(admins[r.value])
    ensures r.Some? ==> forall i :: 0 <= i < r.value ==> Allowed(admins[i])
  {
    if |admins| == 0 then None
    else if !IsAllowed(admins[0]) then Some(0)
    else match FirstDisallowed(admins[1..])
      case None => None
      case Some(j) => Some(j + 1)
  }

  /** The `a in allowed_admins` test as Python evaluates it. */
  function IsAllowed(a: Value): (r: bool)
    ensures r <==> Allowed(a)
  {
    AllowedListContains(a);
    Contains(AllowedList(), a).value
  }

  /** Python's list search agrees with `Allowed`: only an equal string
      matches, so a number or None is never allowed. */
  lemma AllowedListContains(a: Value)
    ensures Contains(AllowedList(), a) == Ok(Allowed(a))
  {
    if Allowed(a) {
      var i :| 0 <= i < |AllowedAdmins| && AllowedAdmins[i] == a.s;
      assert Same(a, AllowedList().items[i]);
    } else {
      forall i | 0 <= i < |AllowedList().items| ensures !Same(a, AllowedList().items[i]) {
        SameStr(AllowedAdmins[i], a);
      }
    }
  }

  /** `check_config`: None on success, otherwise what it raises. */
  function CheckConfig(config: string, doc: Value): (r: Result<(), CheckError>)
    ensures r.Ok? <==> AdminsOf(doc).Ok? && Truthy(AdminsOf(doc).value) &&
                       Elements(AdminsOf(doc).value).Ok? &&
                       forall a :: a in Elements(AdminsOf(doc).value).value ==> Allowed(a)
    ensures r == Err(MissingAdmins(config)) <==> AdminsOf(doc).Ok? && !Truthy(AdminsOf(doc).value)
    ensures r.Err? && r.error.Raised? <==>
              (AdminsOf(doc).Err? || (Truthy(AdminsOf(doc).value) && Elements(AdminsOf(doc).value).Err?))
    ensures r.Err? && r.error.NotAllowed? ==> exists i :: FirstBad(Elements(AdminsOf(doc).value).value, i, r.error.admin)
  {
    match AdminsOf(doc)
    case Err(e) => Err(Raised(e))
    case Ok(admins) =>
      if !Truthy(admins) then Err(MissingAdmins(config))
      else match Elements(admins)
        case Err(e) => Err(Raised(e))
        case Ok(items) =>
          match FirstDisallowed(items)
          case None => Ok(())
          case Some(i) =>
            assert FirstBad(items, i, items[i]);
            Err(NotAllowed(items[i]))
  }

  /** `a` is the `i`th admin and the first one not allowed. */
  predicate FirstBad(admins: seq<Value>, i: int, a: Value)
  {
    0 <= i < |admins| && admins[i] == a && !Allowed(a) && forall j :: 0 <= j < i ==> Allowed(admins[j])
  }

  /** The ValueError text the check logs and raises, where the model has it:
      the admin's text is Python's `str()` of it, given here for strings. */
  function Message(e: CheckError): (r: Option<string>)
    ensures e.MissingAdmins? ==> r.Some? && OccursAt(r.value, 7, e.config)
    ensures e.NotAllowed? && e.admin.Str? ==> r.Some? && OccursAt(r.value, 0, e.admin.s)
    ensures e.Raised? ==> r.None?
  {
    match e
    case Raised(_) => None
    case MissingAdmins(config) =>
      Some("config " + config + " is not valid; missing orgs.kubeflow.admins")
    case NotAllowed(a) =>
      if a.Str? then Some(a.s + " is not in the allowed set of admins. Allowed admins is " + JoinComma(AllowedAdmins))
      else None
  }

  /** `", ".join(names)`. */
  function JoinComma(names: seq<string>): string
  {
    if |names| == 0 then ""
    else if |names| == 1 then names[0]
    else names[0] + ", " + JoinComma(names[1..])
  }

  /** A document whose admins are a list of strings. */
  function OrgWithAdmins(names: seq<string>): (doc: Value)
    ensures AdminsOf(doc) == Ok(StrList(names))
  {
    var admins := StrList(names);
    assert Lookup([("admins", admins)], "admins") == Some(admins);
    assert Lookup([("kubeflow", Map([("admins", admins)]))], "kubeflow") == Some(Map([("admins", admins)]));
    assert Lookup([("orgs", Map([("kubeflow", Map([("admins", admins)]))]))], "orgs") == Some(Map([("kubeflow", Map([("admins", admins)]))]));
    Map([("orgs", Map([("kubeflow", Map([("admins", admins)]))]))])
  }

  /** For a list of names the check passes exactly when the list is not
      empty and every name is on the allow-list; order and repetition do
      not matter. */
  lemma NamesPass(config: string, names: seq<string>)
    ensures CheckConfig(config, OrgWithAdmins(names)).Ok? <==> names != [] && forall n :: n in names ==> n in AllowedAdmins
  {
    var admins := StrList(names);
    if forall a :: a in admins.items ==> Allowed(a) {
      forall n | n in names ensures n in AllowedAdmins {
        var i :| 0 <= i < |names| && names[i] == n;
        assert admins.items[i] in admins.items;
      }
    }
    if forall n :: n in names ==> n in AllowedAdmins {
      forall a | a in admins.items ensures Allowed(a) {
        var i :| 0 <= i < |admins.items| && admins.items[i] == a;
        assert names[i] in names;
      }
    }
  }

  /** An empty admin list fails with the missing-admins error. */
  lemma NoAdminsRejected(config: string)
    ensures CheckConfig(config, OrgWithAdmins([])) == Err(MissingAdmins(config))
  {
    assert StrList([]).items == [];
  }

  /** An org whose `kubeflow` entry has no `admins` key fails with the
      missing-admins error: `get` gives None, which is falsy. */
  lemma MissingAdminsRejected(config: string, kubeflow: seq<(string, Value)>)
    requires "admins" !in KeySet(kubeflow)
    ensures CheckConfig(config, Map([("orgs", Map([("kubeflow", Map(kubeflow))]))])) == Err(MissingAdmins(config))
  {
    assert Lookup([("kubeflow", Map(kubeflow))], "kubeflow") == Some(Map(kubeflow));
  }

  /** `admins:` with no value (YAML null) fails with the missing-admins
      error too. */
  lemma NullAdminsRejected(config: string)
    ensures CheckConfig(config, Map([("orgs", Map([("kubeflow", Map([("admins", Null)]))]))])) == Err(MissingAdmins(config))
  {
    assert Lookup([("admins", Null)], "admins") == Some(Null);
    assert Lookup([("kubeflow", Map([("admins", Null)]))], "kubeflow") == Some(Map([("admins", Null)]));
  }

  /** Names compare exactly: a change of case is a different admin. */
  lemma CaseSensitive()
    ensures Allowed(Str("jlewi"))
    ensures !Allowed(Str("JLewi"))
  {
    assert AllowedAdmins[7] == "jlewi";
  }
}
