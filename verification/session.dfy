/**
 * The single "current user" slot: saving a profile, reading it back,
 * signing out, the authentication test and the three registrations.
 */
module Session {
  import opened Wrappers
  import opened Roles
  import opened Records
  import opened Storage

  /**
   * What `getCurrentUser` returns: `null`, a profile, or a non-null value of
   * another shape, which the source hands back unchecked as if it were one.
   */
  datatype CurrentUser = NoUser | User(profile: UserProfile) | NotAProfile

  /**
   * `getCurrentUser`: a missing slot, unparsable text and the JSON `null`
   * all read as `null`; any other parsed value is returned as it is.
   */
  function GetCurrentUser(store: Store): (u: CurrentUser)
    ensures u == NoUser <==> UserProfileKey !in store || store[UserProfileKey] in {NullJson, Unparsable}
    ensures u.User? <==> UserProfileKey in store && store[UserProfileKey].ProfileJson?
    ensures u.User? ==> store[UserProfileKey] == ProfileJson(u.profile)
  {
    if UserProfileKey !in store then NoUser
    else
      match store[UserProfileKey]
      case ProfileJson(p) => User(p)
      case NullJson => NoUser
      case Unparsable => NoUser
      case CredentialsJson(_) => NotAProfile
      case OtherJson => NotAProfile
  }

  /**
   * `isAuthenticated`: `getCurrentUser()` is not `null`. So the user counts
   * as signed in whenever the profile slot holds any parsed value but `null`,
   * a profile or not.
   */
  predicate IsAuthenticated(store: Store)
    ensures IsAuthenticated(store) <==> UserProfileKey in store && store[UserProfileKey] !in {NullJson, Unparsable}
  {
    GetCurrentUser(store) != NoUser
  }

  /** `saveUserProfile`: overwrites the profile slot and leaves every other slot alone. */
  function SaveUserProfile(store: Store, profile: UserProfile): (store': Store)
    ensures GetCurrentUser(store') == User(profile)
    ensures IsAuthenticated(store')
    ensures store' - {UserProfileKey} == store - {UserProfileKey}
  {
    store[UserProfileKey := ProfileJson(profile)]
  }

  /** `logout`: removes the profile slot and leaves every other slot alone. */
  function Logout(store: Store): (store': Store)
    ensures GetCurrentUser(store') == NoUser
    ensures !IsAuthenticated(store')
    ensures store' - {UserProfileKey} == store - {UserProfileKey}
  {
    store - {UserProfileKey}
  }

  /** A registration's outcome: the updated storage and the profile returned to the caller. */
  datatype Registration = Registration(store: Store, profile: UserProfile)

  /**
   * `registerStudent`: `id` and `createdAt` stand for the generated user id
   * and the current ISO-8601 time.
   */
  function RegisterStudent(store: Store, data: StudentRegistration, id: string, createdAt: string): (r: Registration)
    ensures r.profile.name == data.name && r.profile.email == data.email
    ensures r.profile.walletAddress == data.walletAddress
    ensures r.profile.id == id && r.profile.createdAt == createdAt
    ensures r.profile.role == Student && RoleFieldsConsistent(r.profile)
    ensures r.profile.organization == None && r.profile.institution == None
    ensures GetCurrentUser(r.store) == User(r.profile)
    ensures r.store - {UserProfileKey} == store - {UserProfileKey}
  {
    var profile := UserProfile(id, data.name, data.email, data.walletAddress, Student, None, None, createdAt);
    Registration(SaveUserProfile(store, profile), profile)
  }

  /** `registerStaff`: as for a student, with the role `staff` and the organization recorded. */
  function RegisterStaff(store: Store, data: StaffRegistration, id: string, createdAt: string): (r: Registration)
    ensures r.profile.name == data.name && r.profile.email == data.email
    ensures r.profile.walletAddress == data.walletAddress
    ensures r.profile.id == id && r.profile.createdAt == createdAt
    ensures r.profile.role == Staff && RoleFieldsConsistent(r.profile)
    ensures r.profile.organization == Some(data.organization) && r.profile.institution == None
    ensures GetCurrentUser(r.store) == User(r.profile)
    ensures r.store - {UserProfileKey} == store - {UserProfileKey}
  {
    var profile := UserProfile(id, data.name, data.email, data.walletAddress, Staff,
                               Some(data.organization), None, createdAt);
    Registration(SaveUserProfile(store, profile), profile)
  }

  /** `registerIssuer`: as for a student, with the role `issuer` and the institution recorded. */
  function RegisterIssuer(store: Store, data: IssuerRegistration, id: string, createdAt: string): (r: Registration)
    ensures r.profile.name == data.name && r.profile.email == data.email
    ensures r.profile.walletAddress == data.walletAddress
    ensures r.profile.id == id && r.profile.createdAt == createdAt
    ensures r.profile.role == Issuer && RoleFieldsConsistent(r.profile)
    ensures r.profile.organization == None && r.profile.institution == Some(data.institution)
    ensures GetCurrentUser(r.store) == User(r.profile)
    ensures r.store - {UserProfileKey} == store - {UserProfileKey}
  {
    var profile := UserProfile(id, data.name, data.email, data.walletAddress, Issuer,
                               None, Some(data.institution), createdAt);
    Registration(SaveUserProfile(store, profile), profile)
  }

  /** The last profile saved is the one read: a save overwrites the previous one wholesale. */
  lemma SaveOverwrites(store: Store, p: UserProfile, q: UserProfile)
    ensures SaveUserProfile(SaveUserProfile(store, p), q) == SaveUserProfile(store, q)
  {
  }

  /** Signing out after a save leaves the storage as signing out alone would. */
  lemma LogoutUndoesSave(store: Store, p: UserProfile)
    ensures Logout(SaveUserProfile(store, p)) == Logout(store)
  {
  }

  /** Signing out twice is signing out once. */
  lemma LogoutIdempotent(store: Store)
    ensures Logout(Logout(store)) == Logout(store)
  {
  }
}
