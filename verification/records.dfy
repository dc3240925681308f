/** The record types the authentication module stores: user profiles and issued credentials. */
module Records {
  import opened Wrappers
  import opened Roles

  /**
   * A registered identity. `organization` belongs to staff members and
   * `institution` to issuers; the remaining fields are common to all roles.
   */
  datatype UserProfile = UserProfile(
    id: string,
    name: string,
    email: string,
    walletAddress: string,
    role: Role,
    organization: Option<string>,
    institution: Option<string>,
    createdAt: string)

  /** The role-specific optional fields are present only for their own role. */
  predicate RoleFieldsConsistent(p: UserProfile) {
    && (p.organization.Some? ==> p.role == Staff)
    && (p.institution.Some? ==> p.role == Issuer)
  }

  datatype StudentRegistration = StudentRegistration(name: string, email: string, walletAddress: string)

  datatype StaffRegistration = StaffRegistration(name: string, email: string, walletAddress: string, organization: string)

  datatype IssuerRegistration = IssuerRegistration(name: string, email: string, walletAddress: string, institution: string)

  /** The declared statuses; only `Issued` is ever written. */
  datatype CredentialStatus = Issued | Pending | Revoked

  datatype IssuedCredential = IssuedCredential(
    id: string,
    title: string,
    description: string,
    studentWalletAddress: string,
    issuerWalletAddress: string,
    issuerName: string,
    issuerInstitution: string,
    issuedDate: string,
    status: CredentialStatus)

  /** What an issuer supplies: a credential without its id, date and status. */
  datatype CredentialRequest = CredentialRequest(
    title: string,
    description: string,
    studentWalletAddress: string,
    issuerWalletAddress: string,
    issuerName: string,
    issuerInstitution: string)

  /** The request a stored credential was made from: its fields without id, date and status. */
  function RequestOf(c: IssuedCredential): CredentialRequest {
    CredentialRequest(c.title, c.description, c.studentWalletAddress, c.issuerWalletAddress,
                      c.issuerName, c.issuerInstitution)
  }

  /**
   * The record `saveIssuedCredential` builds: the request's fields spread
   * into it, then the generated id and date, and the status `issued`.
   */
  function IssueRecord(request: CredentialRequest, id: string, issuedDate: string): (c: IssuedCredential)
    ensures RequestOf(c) == request
    ensures c.id == id && c.issuedDate == issuedDate && c.status == Issued
  {
    IssuedCredential(id, request.title, request.description, request.studentWalletAddress,
                     request.issuerWalletAddress, request.issuerName, request.issuerInstitution,
                     issuedDate, Issued)
  }

  /** A stored record with status `issued` is exactly the issue of its own request, id and date. */
  lemma IssueRecordOfRequest(c: IssuedCredential)
    ensures c.status == Issued <==> c == IssueRecord(RequestOf(c), c.id, c.issuedDate)
  {
  }
}
