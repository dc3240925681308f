/**
 * The append-only ledger of issued credentials: appending a record, reading
 * the whole sequence, and the two per-address projections.
 */
module Ledger {
  import opened Wrappers
  import opened Records
  import opened Storage

  /**
   * What `getIssuedCredentials` returns: an array of credentials, or a
   * parsed value that is no array (`null`, a number, an object), which the
   * source returns unchecked.
   */
  datatype Listing = Listing(credentials: seq<IssuedCredential>) | NotAList

  /** The exception raised by calling `push` or `filter` on a value that is no array. */
  datatype Thrown = TypeError

  /**
   * `getIssuedCredentials`: a missing slot and unparsable text read as the
   * empty array; any parsed value is returned as it is.
   */
  function GetIssuedCredentials(store: Store): (l: Listing)
    ensures l == NotAList <==> IsNonArraySlot(store)
    ensures IssuedCredentialsKey !in store || store[IssuedCredentialsKey].Unparsable? ==> l == Listing([])
    ensures IssuedCredentialsKey in store && store[IssuedCredentialsKey].CredentialsJson? ==>
              l == Listing(store[IssuedCredentialsKey].credentials)
  {
    if IssuedCredentialsKey !in store then Listing([])
    else
      match store[IssuedCredentialsKey]
      case CredentialsJson(cs) => Listing(cs)
      case Unparsable => Listing([])
      case NullJson => NotAList
      case OtherJson => NotAList
      case ProfileJson(_) => NotAList
  }

  /** The ledger slot holds a parsed value that is no array: `null`, a profile object or any other JSON value. */
  predicate IsNonArraySlot(store: Store) {
    && IssuedCredentialsKey in store
    && (store[IssuedCredentialsKey] in {NullJson, OtherJson} || store[IssuedCredentialsKey].ProfileJson?)
  }

  /**
   * A missing slot and unparsable text read as an empty ledger: both
   * projections are empty and an issue starts a ledger of one record.
   * `null` or any other non-array value makes every ledger operation throw.
   */
  lemma LedgerSlotReads(store: Store, address: string, request: CredentialRequest, id: string, issuedDate: string)
    ensures IssuedCredentialsKey !in store || store[IssuedCredentialsKey].Unparsable? ==>
              && GetIssuedCredentials(store) == Listing([])
              && GetCredentialsByIssuer(store, address) == Ok([])
              && GetCredentialsForStudent(store, address) == Ok([])
              && SaveIssuedCredential(store, request, id, issuedDate).Ok?
              && GetIssuedCredentials(SaveIssuedCredential(store, request, id, issuedDate).value.store)
                 == Listing([IssueRecord(request, id, issuedDate)])
    ensures IsNonArraySlot(store) ==>
              && GetIssuedCredentials(store) == NotAList
              && GetCredentialsByIssuer(store, address) == Err(TypeError)
              && GetCredentialsForStudent(store, address) == Err(TypeError)
              && SaveIssuedCredential(store, request, id, issuedDate).Err?
  {
  }

  /** A successful issue: the updated storage and the record returned to the caller. */
  datatype Issuance = Issuance(store: Store, credential: IssuedCredential)

  /**
   * `saveIssuedCredential`: builds the record with the generated `id` and
   * `issuedDate`, reads the ledger, appends the record and writes the whole
   * ledger back. When the ledger reads as no array, `push` throws before
   * anything is written.
   */
  function SaveIssuedCredential(store: Store, request: CredentialRequest, id: string, issuedDate: string)
    : (r: Result<Issuance, Thrown>)
    ensures r.Ok? <==> GetIssuedCredentials(store).Listing?
    ensures r.Ok? ==> r.value.credential == IssueRecord(request, id, issuedDate)
    ensures r.Ok? ==> GetIssuedCredentials(r.value.store)
                      == Listing(GetIssuedCredentials(store).credentials + [r.value.credential])
    ensures r.Ok? ==> r.value.store - {IssuedCredentialsKey} == store - {IssuedCredentialsKey}
  {
    var credential := IssueRecord(request, id, issuedDate);
    match GetIssuedCredentials(store)
    case NotAList => Err(TypeError)
    case Listing(existing) =>
      Ok(Issuance(store[IssuedCredentialsKey := CredentialsJson(existing + [credential])], credential))
  }

  /** The two address fields a credential can be looked up by. */
  datatype AddressField = IssuerWallet | StudentWallet

  function AddressOf(c: IssuedCredential, field: AddressField): string {
    match field
    case IssuerWallet => c.issuerWalletAddress
    case StudentWallet => c.studentWalletAddress
  }

  /**
   * `idx` lists, in increasing order, exactly the positions of `cs` whose
   * `field` equals `address`, and `r` holds the records at those positions.
   */
  ghost predicate PicksOut(idx: seq<int>, r: seq<IssuedCredential>, cs: seq<IssuedCredential>,
                           field: AddressField, address: string)
  {
    && |idx| == |r|
    && (forall k :: 0 <= k < |idx| ==> 0 <= idx[k] < |cs| && cs[idx[k]] == r[k])
    && (forall k, l :: 0 <= k < l < |idx| ==> idx[k] < idx[l])
    && (forall i :: 0 <= i < |cs| ==> (AddressOf(cs[i], field) == address <==> i in idx))
  }

  /** `r` is the order-preserving subsequence of `cs` whose `field` equals `address`. */
  ghost predicate IsSelection(r: seq<IssuedCredential>, cs: seq<IssuedCredential>,
                              field: AddressField, address: string)
  {
    exists idx :: PicksOut(idx, r, cs, field, address)
  }

  /** `cs.filter(cred => cred[field] === address)`. */
  function Select(cs: seq<IssuedCredential>, field: AddressField, address: string): (r: seq<IssuedCredential>)
    ensures IsSelection(r, cs, field, address)
  {
    if cs == [] then
      assert PicksOut([], [], cs, field, address);
      []
    else
      var init, last := cs[..|cs| - 1], cs[|cs| - 1];
      var r0 := Select(init, field, address);
      var r := r0 + (if AddressOf(last, field) == address then [last] else []);
      SelectionExtends(r0, init, last, field, address);
      assert init + [last] == cs;
      r
  }

  /** A selection of `cs` extends to one of `cs + [c]` by keeping `c` exactly when it matches. */
  lemma SelectionExtends(r: seq<IssuedCredential>, cs: seq<IssuedCredential>, c: IssuedCredential,
                         field: AddressField, address: string)
    requires IsSelection(r, cs, field, address)
    ensures IsSelection(r + (if AddressOf(c, field) == address then [c] else []), cs + [c], field, address)
  {
    var idx :| PicksOut(idx, r, cs, field, address);
    if AddressOf(c, field) == address {
      PicksOutKeep(idx, r, cs, c, field, address);
    } else {
      PicksOutSkip(idx, r, cs, c, field, address);
      assert r + [] == r;
    }
  }

  lemma PicksOutKeep(idx: seq<int>, r: seq<IssuedCredential>, cs: seq<IssuedCredential>, c: IssuedCredential,
                     field: AddressField, address: string)
    requires PicksOut(idx, r, cs, field, address) && AddressOf(c, field) == address
    ensures PicksOut(idx + [|cs|], r + [c], cs + [c], field, address)
  {
    var idx', r', cs' := idx + [|cs|], r + [c], cs + [c];
    forall k | 0 <= k < |idx'|
      ensures 0 <= idx'[k] < |cs'| && cs'[idx'[k]] == r'[k]
    {
      if k < |idx| {
        assert idx'[k] == idx[k] && r'[k] == r[k];
      }
    }
    forall i | 0 <= i < |cs'|
      ensures AddressOf(cs'[i], field) == address <==> i in idx'
    {
      if i < |cs| {
        assert cs'[i] == cs[i];
        assert i in idx' <==> i in idx;
      } else {
        assert idx'[|idx|] == i;
      }
    }
  }

  lemma PicksOutSkip(idx: seq<int>, r: seq<IssuedCredential>, cs: seq<IssuedCredential>, c: IssuedCredential,
                     field: AddressField, address: string)
    requires PicksOut(idx, r, cs, field, address) && AddressOf(c, field) != address
    ensures PicksOut(idx, r, cs + [c], field, address)
  {
    var cs' := cs + [c];
    forall i | 0 <= i < |cs'|
      ensures AddressOf(cs'[i], field) == address <==> i in idx
    {
      if i < |cs| {
        assert cs'[i] == cs[i];
      }
    }
  }

  /** Two strictly increasing sequences with the same elements are equal. */
  lemma {:induction false} IncreasingSameElements(a: seq<int>, b: seq<int>)
    requires forall k, l :: 0 <= k < l < |a| ==> a[k] < a[l]
    requires forall k, l :: 0 <= k < l < |b| ==> b[k] < b[l]
    requires forall x :: x in a <==> x in b
    ensures a == b
    decreases |a|
  {
    if a == [] {
      if b != [] {
        FirstIsMember(b);
      }
    } else {
      assert a[|a| - 1] in a;
      var m, n := a[|a| - 1], b[|b| - 1];
      assert m in b && n in a;
      assert m == n;
      var a', b' := a[..|a| - 1], b[..|b| - 1];
      forall x ensures x in a' <==> x in b' {
        if x in a' {
          var k :| 0 <= k < |a'| && a'[k] == x;
          assert x < m && x in b;
        }
        if x in b' {
          var k :| 0 <= k < |b'| && b'[k] == x;
          assert x < n && x in a;
        }
      }
      IncreasingSameElements(a', b');
      assert a == a' + [m] && b == b' + [n];
    }
  }

  /** The first element of a non-empty sequence is one of its elements. */
  lemma FirstIsMember(b: seq<int>)
    requires b != []
    ensures b[0] in b
  {
  }

  /** The selection is unique: there is only one order-preserving subsequence of the matching records. */
  lemma SelectionUnique(r1: seq<IssuedCredential>, r2: seq<IssuedCredential>, cs: seq<IssuedCredential>,
                        field: AddressField, address: string)
    requires IsSelection(r1, cs, field, address) && IsSelection(r2, cs, field, address)
    ensures r1 == r2
  {
    var idx1 :| PicksOut(idx1, r1, cs, field, address);
    var idx2 :| PicksOut(idx2, r2, cs, field, address);
    PickedAreMatches(idx1, r1, cs, field, address);
    PickedAreMatches(idx2, r2, cs, field, address);
    IncreasingSameElements(idx1, idx2);
  }

  lemma PickedAreMatches(idx: seq<int>, r: seq<IssuedCredential>, cs: seq<IssuedCredential>,
                         field: AddressField, address: string)
    requires PicksOut(idx, r, cs, field, address)
    ensures forall x :: x in idx <==> 0 <= x < |cs| && AddressOf(cs[x], field) == address
  {
    forall x | x in idx ensures 0 <= x < |cs| {
      var k :| 0 <= k < |idx| && idx[k] == x;
    }
  }

  /** Filtering a ledger with one more record is filtering the old ledger, then keeping the record if it matches. */
  lemma {:induction false} SelectAppend(cs: seq<IssuedCredential>, c: IssuedCredential,
                                        field: AddressField, address: string)
    ensures Select(cs + [c], field, address)
            == Select(cs, field, address) + (if AddressOf(c, field) == address then [c] else [])
  {
    assert (cs + [c])[..|cs|] == cs;
  }

  /** The reads that filter the ledger: `filter` throws on a ledger that is no array. */
  function Filtered(store: Store, field: AddressField, address: string): (r: Result<seq<IssuedCredential>, Thrown>)
    ensures r.Ok? <==> GetIssuedCredentials(store).Listing?
    ensures r.Ok? ==> IsSelection(r.value, GetIssuedCredentials(store).credentials, field, address)
  {
    match GetIssuedCredentials(store)
    case NotAList => Err(TypeError)
    case Listing(cs) => Ok(Select(cs, field, address))
  }

  /** `getCredentialsByIssuer`: the ledger's records whose issuer wallet is `address`, in ledger order. */
  function GetCredentialsByIssuer(store: Store, address: string): (r: Result<seq<IssuedCredential>, Thrown>)
    ensures r.Ok? <==> GetIssuedCredentials(store).Listing?
    ensures r.Ok? ==> IsSelection(r.value, GetIssuedCredentials(store).credentials, IssuerWallet, address)
  {
    Filtered(store, IssuerWallet, address)
  }

  /** `getCredentialsForStudent`: the ledger's records whose student wallet is `address`, in ledger order. */
  function GetCredentialsForStudent(store: Store, address: string): (r: Result<seq<IssuedCredential>, Thrown>)
    ensures r.Ok? <==> GetIssuedCredentials(store).Listing?
    ensures r.Ok? ==> IsSelection(r.value, GetIssuedCredentials(store).credentials, StudentWallet, address)
  {
    Filtered(store, StudentWallet, address)
  }
}
