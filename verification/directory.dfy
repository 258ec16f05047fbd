/** An abstract stand-in for the two remote services the syncer talks to:
    the directory API (groups and their members) and the group-settings API.
    The live state is a map from group address to group; every call may be
    made to fail by a failure oracle, which stands for network, quota and
    permission errors the model does not otherwise explain. */
module Directory {
  import opened Wrappers
  import opened GroupSpecs
  import MemberDiff

  /** The group-settings resource. The syncer writes three fields and reads
      `allowExternalMembers`; `otherFields` stands for every other field of
      the resource, which the syncer passes back unchanged. */
  datatype Settings = Settings(
    description: string,
    whoCanJoin: string,
    whoCanPostMessage: string,
    allowExternalMembers: string,
    otherFields: map<string, string>)

  /** One live group: its directory record, its settings and its members. */
  datatype RemoteGroup = RemoteGroup(name: string, description: string, settings: Settings, members: seq<Member>)

  /** The live directory. `newGroupSettings` are the settings the service
      gives a group it has just created. */
  datatype Directory = Directory(groups: map<string, RemoteGroup>, newGroupSettings: Settings)

  /** An error returned by a call: a `*googleapi.Error` carrying an HTTP
      status, or any other error value (transport, decoding). */
  datatype ApiError = HttpError(code: int) | OtherError

  const NotFound: int := 404
  const Conflict: int := 409

  /** A remote call the syncer issues, with its arguments. */
  datatype Call =
    | GetGroup(group: string)
    | InsertGroup(group: string, name: string, description: string)
    | GetSettings(group: string)
    | UpdateSettings(group: string, settings: Settings)
    | ListMembers(group: string)
    | InsertMember(group: string, member: Member)
    | DeleteMember(group: string, email: string)

  /** The failure oracle: the error a call fails with, or `None` to let the
      directory answer it. */
  type Faults = Call -> Option<ApiError>

  ghost predicate NoFaults(faults: Faults)
  {
    forall c :: faults(c) == None
  }

  /** The outcome of a call that may change the directory. */
  datatype Reply = Reply(err: Option<ApiError>, dir: Directory)

  /** `Groups.Get(email)`: found, or 404. */
  function FetchGroup(dir: Directory, faults: Faults, email: string): Option<ApiError>
  {
    if faults(GetGroup(email)).Some? then faults(GetGroup(email))
    else if email in dir.groups then None
    else Some(HttpError(NotFound))
  }

  /** `Groups.Insert`: creates an empty group, or 409 if one exists. */
  function CreateGroup(dir: Directory, faults: Faults, email: string, name: string, description: string): Reply
  {
    var call := InsertGroup(email, name, description);
    if faults(call).Some? then Reply(faults(call), dir)
    else if email in dir.groups then Reply(Some(HttpError(Conflict)), dir)
    else Reply(None, dir.(groups := dir.groups[email := RemoteGroup(name, description, dir.newGroupSettings, [])]))
  }

  /** Group-settings `Groups.Get`. */
  function FetchSettings(dir: Directory, faults: Faults, email: string): Result<Settings, ApiError>
  {
    if faults(GetSettings(email)).Some? then Err(faults(GetSettings(email)).value)
    else if email in dir.groups then Ok(dir.groups[email].settings)
    else Err(HttpError(NotFound))
  }

  /** Group-settings `Groups.Update`: replaces the whole settings resource. */
  function StoreSettings(dir: Directory, faults: Faults, email: string, s: Settings): Reply
  {
    var call := UpdateSettings(email, s);
    if faults(call).Some? then Reply(faults(call), dir)
    else if email in dir.groups then Reply(None, dir.(groups := dir.groups[email := dir.groups[email].(settings := s)]))
    else Reply(Some(HttpError(NotFound)), dir)
  }

  /** `Members.List(email).Pages(...)`: all pages concatenated. */
  function FetchMembers(dir: Directory, faults: Faults, email: string): Result<seq<Member>, ApiError>
  {
    if faults(ListMembers(email)).Some? then Err(faults(ListMembers(email)).value)
    else if email in dir.groups then Ok(dir.groups[email].members)
    else Err(HttpError(NotFound))
  }

  /** `Members.Insert`: appends the member, or 409 if the address is already
      a member. */
  function AddMember(dir: Directory, faults: Faults, group: string, m: Member): Reply
  {
    var call := InsertMember(group, m);
    if faults(call).Some? then Reply(faults(call), dir)
    else if group !in dir.groups then Reply(Some(HttpError(NotFound)), dir)
    else if m.email in Emails(dir.groups[group].members) then Reply(Some(HttpError(Conflict)), dir)
    else
      var g := dir.groups[group];
      Reply(None, dir.(groups := dir.groups[group := g.(members := g.members + [m])]))
  }

  /** `Members.Delete`: drops the address, or 404 if it is not a member. */
  function RemoveMember(dir: Directory, faults: Faults, group: string, email: string): Reply
  {
    var call := DeleteMember(group, email);
    if faults(call).Some? then Reply(faults(call), dir)
    else if group !in dir.groups || email !in Emails(dir.groups[group].members) then Reply(Some(HttpError(NotFound)), dir)
    else
      var g := dir.groups[group];
      Reply(None, dir.(groups := dir.groups[group := g.(members := MemberDiff.MembersNotIn(g.members, {email}))]))
  }
}
