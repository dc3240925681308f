/**
 * How the session slot and the ledger slot interact, and what a run of
 * issues does to the ledger and to its two projections.
 */
module StoreLaws {
  import opened Wrappers
  import opened Records
  import opened Storage
  import opened Session
  import opened Ledger

  /** Saving a profile or signing out never changes what the ledger reads as. */
  lemma SessionWritesKeepLedger(store: Store, p: UserProfile)
    ensures GetIssuedCredentials(SaveUserProfile(store, p)) == GetIssuedCredentials(store)
    ensures GetIssuedCredentials(Logout(store)) == GetIssuedCredentials(store)
  {
  }

  /** Issuing a credential never changes who is signed in. */
  lemma IssueKeepsSession(store: Store, request: CredentialRequest, id: string, issuedDate: string)
    requires SaveIssuedCredential(store, request, id, issuedDate).Ok?
    ensures GetCurrentUser(SaveIssuedCredential(store, request, id, issuedDate).value.store) == GetCurrentUser(store)
  {
  }

  /**
   * After an issue, each projection is the old projection followed by the
   * new record when its address matches: nothing earlier moves or changes.
   */
  lemma IssueExtendsProjections(store: Store, request: CredentialRequest, id: string, issuedDate: string,
                                address: string)
    requires SaveIssuedCredential(store, request, id, issuedDate).Ok?
    ensures var after := SaveIssuedCredential(store, request, id, issuedDate).value;
      && GetCredentialsByIssuer(after.store, address)
         == Ok(GetCredentialsByIssuer(store, address).value
               + (if request.issuerWalletAddress == address then [after.credential] else []))
      && GetCredentialsForStudent(after.store, address)
         == Ok(GetCredentialsForStudent(store, address).value
               + (if request.studentWalletAddress == address then [after.credential] else []))
  {
    var after := SaveIssuedCredential(store, request, id, issuedDate).value;
    var cs := GetIssuedCredentials(store).credentials;
    SelectAppend(cs, after.credential, IssuerWallet, address);
    SelectAppend(cs, after.credential, StudentWallet, address);
  }

  /** No two records of the ledger share an id. */
  ghost predicate IdsDistinct(cs: seq<IssuedCredential>) {
    forall i, j :: 0 <= i < j < |cs| ==> cs[i].id != cs[j].id
  }

  /**
   * The source does not guarantee unique ids, but an issue keeps the
   * ledger's ids distinct whenever the generated id is new to it.
   */
  lemma FreshIdKeepsIdsDistinct(store: Store, request: CredentialRequest, id: string, issuedDate: string)
    requires SaveIssuedCredential(store, request, id, issuedDate).Ok?
    requires IdsDistinct(GetIssuedCredentials(store).credentials)
    requires forall c :: c in GetIssuedCredentials(store).credentials ==> c.id != id
    ensures IdsDistinct(GetIssuedCredentials(SaveIssuedCredential(store, request, id, issuedDate).value.store).credentials)
  {
    var cs := GetIssuedCredentials(store).credentials;
    var after := SaveIssuedCredential(store, request, id, issuedDate).value;
    var cs' := cs + [after.credential];
    forall i, j | 0 <= i < j < |cs'| ensures cs'[i].id != cs'[j].id {
      assert cs'[i] == cs[i];
      if j == |cs| {
        assert cs[i] in cs;
      } else {
        assert cs'[j] == cs[j];
      }
    }
  }

  /** One call of `saveIssuedCredential`: the request and the id and date generated for it. */
  datatype IssueCall = IssueCall(request: CredentialRequest, id: string, issuedDate: string)

  /** The records the calls build, one per call, in call order. */
  function RecordsOf(calls: seq<IssueCall>): seq<IssuedCredential> {
    seq(|calls|, i requires 0 <= i < |calls| => IssueRecord(calls[i].request, calls[i].id, calls[i].issuedDate))
  }

  /**
   * Issues the calls one after another, as an issuer's successive mints do,
   * stopping at the first call that throws.
   */
  method IssueAll(store: Store, calls: seq<IssueCall>) returns (r: Result<Store, Thrown>)
    ensures r.Err? <==> |calls| > 0 && GetIssuedCredentials(store) == NotAList
    ensures |calls| == 0 ==> r == Ok(store)
    ensures r.Ok? && |calls| > 0 ==>
              GetIssuedCredentials(r.value) == Listing(GetIssuedCredentials(store).credentials + RecordsOf(calls))
    ensures r.Ok? ==> GetCurrentUser(r.value) == GetCurrentUser(store)
    ensures r.Ok? ==> r.value - {IssuedCredentialsKey} == store - {IssuedCredentialsKey}
  {
    if |calls| == 0 {
      return Ok(store);
    }
    if GetIssuedCredentials(store) == NotAList {
      return Err(TypeError);
    }
    var s := store;
    var issued: seq<IssuedCredential> := [];
    for n := 0 to |calls|
      invariant GetIssuedCredentials(s) == Listing(GetIssuedCredentials(store).credentials + issued)
      invariant |issued| == n
      invariant forall i :: 0 <= i < n ==>
                  issued[i] == IssueRecord(calls[i].request, calls[i].id, calls[i].issuedDate)
      invariant GetCurrentUser(s) == GetCurrentUser(store)
      invariant s - {IssuedCredentialsKey} == store - {IssuedCredentialsKey}
    {
      var call := calls[n];
      var step := SaveIssuedCredential(s, call.request, call.id, call.issuedDate);
      IssueKeepsSession(s, call.request, call.id, call.issuedDate);
      s := step.value.store;
      issued := issued + [step.value.credential];
    }
    return Ok(s);
  }

  /**
   * Issuing N credentials into a storage without a ledger yields a ledger of
   * exactly those N records, in call order, each with status `issued`; the
   * storage afterwards reads as that ledger and keeps every other slot.
   */
  method IssueIntoEmpty(store: Store, calls: seq<IssueCall>) returns (store': Store, ledger: seq<IssuedCredential>)
    requires IssuedCredentialsKey !in store
    ensures GetIssuedCredentials(store') == Listing(ledger)
    ensures store' - {IssuedCredentialsKey} == store - {IssuedCredentialsKey}
    ensures GetCurrentUser(store') == GetCurrentUser(store)
    ensures |ledger| == |calls|
    ensures forall i :: 0 <= i < |calls| ==>
              && ledger[i].status == Issued
              && ledger[i].id == calls[i].id
              && RequestOf(ledger[i]) == calls[i].request
    ensures (forall i, j :: 0 <= i < j < |calls| ==> calls[i].id != calls[j].id) ==> IdsDistinct(ledger)
  {
    var r := IssueAll(store, calls);
    store' := r.value;
    ledger := GetIssuedCredentials(store').credentials;
  }
}
