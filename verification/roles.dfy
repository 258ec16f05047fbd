/** The closed set of group roles of `groups/const.go` and the check the
    syncer applies before inserting a member. */
module Roles {

  const OwnerRole: string := "OWNER"
  const ManagerRole: string := "MANAGER"
  const MemberRole: string := "MEMBER"

  /** The roles `isValidGroupRole` iterates over, in its order. */
  const KnownRoles: seq<string> := [OwnerRole, ManagerRole, MemberRole]

  /** Linear search of `roles` for an exact, case-sensitive match. */
  function RoleIn(roles: seq<string>, role: string): (b: bool)
    ensures b <==> exists i :: 0 <= i < |roles| && roles[i] == role
  {
    if |roles| == 0 then false
    else if roles[0] == role then true
    else RoleIn(roles[1..], role)
  }

  /** `isValidGroupRole`: true exactly for the three role names, compared
      byte for byte; the empty role and any other spelling are rejected. */
  function IsValidGroupRole(role: string): (b: bool)
    ensures b <==> role == "OWNER" || role == "MANAGER" || role == "MEMBER"
  {
    assert KnownRoles[0] == "OWNER" && KnownRoles[1] == "MANAGER" && KnownRoles[2] == "MEMBER";
    RoleIn(KnownRoles, role)
  }
}
