/** The three user roles and the dashboard each one lands on after signing in. */
module Roles {

  datatype Role = Student | Staff | Issuer

  /** The string the source stores in a profile's `role` field. */
  function RoleName(role: Role): string {
    match role
    case Student => "student"
    case Staff => "staff"
    case Issuer => "issuer"
  }

  /**
   * `getRoleDashboardPath`: a switch over the role string. Each role's name
   * leads to `/` followed by that name; every other string, whatever its
   * case or padding, leads to `/`.
   */
  function DashboardPath(role: string): (path: string)
    ensures forall r: Role :: RoleName(r) == role ==> path == "/" + RoleName(r)
    ensures path == "/" <==> forall r: Role :: RoleName(r) != role
  {
    if role == "student" then assert RoleName(Student) == role; "/student"
    else if role == "staff" then assert RoleName(Staff) == role; "/staff"
    else if role == "issuer" then assert RoleName(Issuer) == role; "/issuer"
    else
      assert RoleName(Student) != role && RoleName(Staff) != role && RoleName(Issuer) != role;
      "/"
  }

  /** Distinct roles reach distinct dashboards. */
  lemma DashboardPathsSeparateRoles(r1: Role, r2: Role)
    ensures DashboardPath(RoleName(r1)) == DashboardPath(RoleName(r2)) <==> r1 == r2
  {
  }
}
