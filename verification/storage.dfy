/**
 * The browser's key-value storage as the module sees it. Each slot holds
 * JSON text; the model keeps the value that `JSON.parse` makes of that text,
 * sorted into the shapes the reads tell apart.
 */
module Storage {
  import opened Records

  /** The slot of the signed-in user's profile. */
  const UserProfileKey: string := "credvault_user_profile"

  /** The slot of the issued-credential ledger. */
  const IssuedCredentialsKey: string := "credvault_issued_credentials"

  datatype Stored =
    | ProfileJson(profile: UserProfile)                   // a profile record
    | CredentialsJson(credentials: seq<IssuedCredential>) // an array of credential records
    | NullJson                                            // the text `null`
    | OtherJson                                           // any other well-formed JSON value that is not an array
    | Unparsable                                          // text `JSON.parse` throws on, the empty string included

  /** Every slot of the origin's storage, the two above among them. */
  type Store = map<string, Stored>
}
