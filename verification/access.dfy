/**
 * The role gates wrapped around the handlers.  The role is the `role`
 * claim of the caller's verified token; it may be missing.
 */
module Access {
  import opened Schema

  /** HTTP status of a refused request. */
  const Forbidden: nat := 403

  /** `admin_required`: only the exact role text ADMIN passes. */
  function AdminRequired(role: Option<string>): (denied: Option<nat>)
    ensures denied == None <==> role == Some(RoleName(Admin))
    ensures denied != None ==> denied == Some(Forbidden)
  {
    if role != Some("ADMIN") then Some(Forbidden) else None
  }

  /** `user_required`: any role the Users table can store passes. */
  function UserRequired(role: Option<string>): (denied: Option<nat>)
    ensures denied == None <==> role.Some? && ParseRole(role.value).Some?
    ensures denied != None ==> denied == Some(Forbidden)
  {
    if role.None? || role.value !in ["CUSTOMER", "ADMIN"] then Some(Forbidden) else None
  }

  /** Admins can reach the user-level endpoints too. */
  lemma AdminPassesUserGate(role: Option<string>)
    requires AdminRequired(role) == None
    ensures UserRequired(role) == None
  {
  }
}
