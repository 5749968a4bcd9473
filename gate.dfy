/** The administrative-role gate that every mutating command checks first. */
module Gate {
  import opened Wrappers
  import opened Platform

  /** The configured administrative role name (admin_role_name). */
  const AdminRoleName: string := "管理員"

  /** discord.utils.get(roles, name=n): the first role whose name is n, or nothing. */
  function FindByName(roles: seq<Role>, name: string): (r: Option<Role>)
    ensures r.Some? <==> exists i | 0 <= i < |roles| :: roles[i].name == name
    ensures r.Some? ==> exists i | 0 <= i < |roles| ::
                          roles[i] == r.value && r.value.name == name &&
                          forall j | 0 <= j < i :: roles[j].name != name
  {
    if roles == [] then None
    else if roles[0].name == name then Some(roles[0])
    else
      var r := FindByName(roles[1..], name);
      assert forall i | 0 <= i < |roles| - 1 :: roles[1..][i] == roles[i + 1];
      r
  }

  /** The gate: the caller holds a role named AdminRoleName. It depends on the
      caller's role list at call time only. */
  function IsAuthorized(callerRoles: seq<Role>): (ok: bool)
    ensures ok <==> exists i | 0 <= i < |callerRoles| :: callerRoles[i].name == AdminRoleName
  {
    FindByName(callerRoles, AdminRoleName).Some?
  }
}
