/**
 * The two advisory validators of the authentication module: the e-mail shape
 * check and the three-tier wallet-address check. Neither is enforced by the
 * store; callers are expected to run them before registering a user.
 */
module Validation {
  import opened JsText

  // ---------------------------------------------------------------------
  // E-mail
  // ---------------------------------------------------------------------

  /** A character of the class `[^\s@]`. */
  predicate IsAddressChar(c: char) {
    !IsSpace(c) && c != '@'
  }

  predicate AllAddressChars(s: string) {
    forall i :: 0 <= i < |s| ==> IsAddressChar(s[i])
  }

  /** `isValidEmail`: the regular-expression test, which accepts exactly the strings of the e-mail shape. */
  predicate IsValidEmail(email: string)
    ensures IsValidEmail(email) <==> EmailShape(email)
  {
    EmailRegexIffShape(email);
    EmailPatternMatches(email)
  }

  /**
   * `/^[^\s@]+@[^\s@]+\.[^\s@]+$/.test(email)`: the string splits, at an `@`
   * at index `at` and a `.` at index `dot`, into three non-empty runs of
   * `[^\s@]`. The regular expression may backtrack over every such split, so
   * the test succeeds when any of them exists.
   */
  predicate EmailPatternMatches(email: string) {
    exists at, dot | 0 < at < |email| && at + 1 < dot < |email| - 1 :: EmailSplitAt(email, at, dot)
  }

  predicate EmailSplitAt(email: string, at: int, dot: int)
    requires 0 < at && at + 1 < dot < |email| - 1
  {
    && email[at] == '@'
    && email[dot] == '.'
    && AllAddressChars(email[..at])
    && AllAddressChars(email[at + 1..dot])
    && AllAddressChars(email[dot + 1..])
  }

  /**
   * The e-mail shape in words: no whitespace, exactly one `@`, something
   * before it, and after it a `.` that is neither the first nor the last
   * character of the domain.
   */
  ghost predicate EmailShape(email: string) {
    && (forall i :: 0 <= i < |email| ==> !IsSpace(email[i]))
    && multiset(email)['@'] == 1
    && (forall at :: 0 <= at < |email| && email[at] == '@' ==> LocalAndDomain(email, at))
  }

  ghost predicate LocalAndDomain(email: string, at: int)
    requires 0 <= at < |email|
  {
    var local, domain := email[..at], email[at + 1..];
    local != [] && exists k :: 0 < k < |domain| - 1 && domain[k] == '.'
  }

  /** Two distinct occurrences of `c` give `c` a multiplicity of at least two. */
  lemma TwoOccurrences(s: string, i: int, j: int, c: char)
    requires 0 <= i < j < |s| && s[i] == c && s[j] == c
    ensures multiset(s)[c] >= 2
  {
    assert s == s[..i] + [s[i]] + s[i + 1..j] + [s[j]] + s[j + 1..];
  }

  /** The regular expression accepts exactly the strings of the e-mail shape. */
  lemma EmailRegexIffShape(email: string)
    ensures EmailPatternMatches(email) <==> EmailShape(email)
  {
    if EmailPatternMatches(email) {
      var at, dot :| 0 < at < |email| && at + 1 < dot < |email| - 1 && EmailSplitAt(email, at, dot);
      SplitHasShape(email, at, dot);
    }
    if EmailShape(email) {
      ShapeHasSplit(email);
    }
  }

  lemma SplitHasShape(email: string, at: int, dot: int)
    requires 0 < at && at + 1 < dot < |email| - 1 && EmailSplitAt(email, at, dot)
    ensures EmailShape(email)
  {
    var local, mid, tld := email[..at], email[at + 1..dot], email[dot + 1..];
    forall i | 0 <= i < |email|
      ensures !IsSpace(email[i]) && (email[i] == '@' ==> i == at)
    {
      if i < at {
        assert email[i] == local[i];
      } else if at < i < dot {
        assert email[i] == mid[i - at - 1];
      } else if dot < i {
        assert email[i] == tld[i - dot - 1];
      }
    }
    SingleOccurrence(email, at);
    assert email[at + 1..][dot - at - 1] == '.';
    assert LocalAndDomain(email, at);
  }

  /** A character found at exactly one index has multiplicity one. */
  lemma SingleOccurrence(s: string, at: int)
    requires 0 <= at < |s|
    requires forall i :: 0 <= i < |s| && s[i] == s[at] ==> i == at
    ensures multiset(s)[s[at]] == 1
  {
    var c := s[at];
    assert s == s[..at] + [c] + s[at + 1..];
    assert c !in s[..at];
    assert c !in s[at + 1..];
  }

  lemma ShapeHasSplit(email: string)
    requires EmailShape(email)
    ensures EmailPatternMatches(email)
  {
    assert '@' in multiset(email);
    var at :| 0 <= at < |email| && email[at] == '@';
    assert LocalAndDomain(email, at);
    var domain := email[at + 1..];
    var k :| 0 < k < |domain| - 1 && domain[k] == '.';
    var dot := at + 1 + k;
    forall i | 0 <= i < |email| && i != at
      ensures IsAddressChar(email[i])
    {
      if email[i] == '@' {
        if i < at { TwoOccurrences(email, i, at, '@'); } else { TwoOccurrences(email, at, i, '@'); }
      }
    }
    assert EmailSplitAt(email, at, dot);
  }

  // ---------------------------------------------------------------------
  // Wallet addresses
  // ---------------------------------------------------------------------

  /** A character of the class `[a-fA-F0-9]`. */
  predicate IsHexDigit(c: char) {
    '0' <= c <= '9' || 'a' <= c <= 'f' || 'A' <= c <= 'F'
  }

  /** A character of the class `[a-zA-Z0-9_-]`. */
  predicate IsNameChar(c: char) {
    'a' <= c <= 'z' || 'A' <= c <= 'Z' || '0' <= c <= '9' || c == '_' || c == '-'
  }

  /** `/^0x[a-fA-F0-9]{1,64}$/.test(t)`. */
  predicate IsHexAddress(t: string) {
    && 3 <= |t| <= 66
    && t[..2] == "0x"
    && forall i :: 2 <= i < |t| ==> IsHexDigit(t[i])
  }

  /** `/^[a-zA-Z0-9_-]+\.apt$/.test(t)`. */
  predicate IsNamedAddress(t: string) {
    && |t| >= 5
    && t[|t| - 4..] == ".apt"
    && forall i :: 0 <= i < |t| - 4 ==> IsNameChar(t[i])
  }

  /**
   * `isValidWallet`: an empty input is rejected; otherwise the trimmed input
   * is judged by the first tier that claims it: a `0x` prefix claims it for
   * the hexadecimal rule, an occurrence of `.apt` for the named-address
   * rule, and anything else falls back to a length window of 6 to 100
   * UTF-16 code units.
   */
  predicate IsValidWallet(address: string)
    ensures AllSpace(address) ==> !IsValidWallet(address)
    ensures IsValidWallet(address) ==> |Trim(address)| >= 3
  {
    TrimEmptyIffAllSpace(address);
    ShortestTrimmedWallet(Trim(address));
    address != [] && IsValidTrimmedWallet(Trim(address))
  }

  /** The tier cascade, applied to the already trimmed input. */
  predicate IsValidTrimmedWallet(trimmed: string) {
    if StartsWith(trimmed, "0x") then IsHexAddress(trimmed)
    else if Includes(trimmed, ".apt") then IsNamedAddress(trimmed)
    else 6 <= Utf16Length(trimmed) <= 100
  }

  /** Whitespace at either end never changes the verdict: every tier looks only at the trimmed input. */
  lemma WalletTrimInvariant(address: string)
    ensures IsValidWallet(address) == IsValidWallet(Trim(address))
  {
    TrimIdempotent(address);
  }

  /**
   * First tier: a trimmed input that starts with `0x` is accepted exactly
   * when the rest is 1 to 64 hexadecimal digits; the length fallback is
   * never consulted for it.
   */
  lemma HexTier(address: string)
    requires StartsWith(Trim(address), "0x")
    ensures var rest := Trim(address)[2..];
      IsValidWallet(address) <==> 1 <= |rest| <= 64 && forall i :: 0 <= i < |rest| ==> IsHexDigit(rest[i])
  {
    var t := Trim(address);
    var rest := t[2..];
    assert forall i :: 2 <= i < |t| ==> t[i] == rest[i - 2];
  }

  /**
   * Second tier: a trimmed input without the `0x` prefix that contains
   * `.apt` anywhere is accepted exactly when it is one non-empty run of
   * `[A-Za-z0-9_-]` followed by `.apt` at the very end.
   */
  lemma NamedTier(address: string)
    requires !StartsWith(Trim(address), "0x") && Includes(Trim(address), ".apt")
    ensures var t := Trim(address);
      IsValidWallet(address) <==>
        |t| > 4 && t == t[..|t| - 4] + ".apt" && forall i :: 0 <= i < |t| - 4 ==> IsNameChar(t[i])
  {
    var t := Trim(address);
    if |t| > 4 && t == t[..|t| - 4] + ".apt" {
      assert t[|t| - 4..] == ".apt";
    }
    if IsNamedAddress(t) {
      assert t == t[..|t| - 4] + t[|t| - 4..];
    }
  }

  /**
   * Third tier: a trimmed input that neither starts with `0x` nor contains
   * `.apt` is accepted exactly when its length is 6 to 100 UTF-16 code units.
   */
  lemma FallbackTier(address: string)
    requires !StartsWith(Trim(address), "0x") && !Includes(Trim(address), ".apt")
    ensures IsValidWallet(address) <==> 6 <= Utf16Length(Trim(address)) <= 100
  {
    if address == [] {
      assert Trim(address) == [];
    }
  }

  /**
   * An accepted named address has no other `.` than the one of its `.apt`
   * suffix, so `.apt` occurs in it exactly once.
   */
  lemma NamedAddressHasOneDot(t: string, i: int)
    requires IsNamedAddress(t)
    requires 0 <= i < |t| && t[i] == '.'
    ensures i == |t| - 4
  {
    if i >= |t| - 4 {
      assert t[i] == t[|t| - 4..][i - (|t| - 4)];
    }
  }

  /**
   * The named-address tier has no upper length bound: any non-empty run of
   * name characters not starting with `0x`, followed by `.apt`, is accepted,
   * however long it is, although the fallback tier caps other inputs at 100.
   */
  lemma NamedAddressesAreUnbounded(name: string)
    requires name != [] && forall i :: 0 <= i < |name| ==> IsNameChar(name[i])
    requires !StartsWith(name, "0x")
    ensures IsValidWallet(name + ".apt")
  {
    var t := name + ".apt";
    assert t[0] == name[0] && t[|t| - 1] == 't';
    TrimOfUnpadded(t);
    if |name| >= 2 {
      assert t[..2] == name[..2];
    } else {
      assert t[1] == '.';
    }
    assert OccursAt(t, ".apt", |name|);
    assert t[|t| - 4..] == ".apt";
  }

  /**
   * An input starting with `0x` that holds a `.` is rejected, even when what
   * follows the `0x` would make a well-formed named address.
   */
  lemma HexPrefixShadowsNamedAddress(address: string, i: int)
    requires StartsWith(Trim(address), "0x")
    requires 0 <= i < |Trim(address)| && Trim(address)[i] == '.'
    ensures !IsValidWallet(address)
  {
    var t := Trim(address);
    assert t[..2] == "0x";
    assert i >= 2;
  }

  /** An accepted trimmed input has at least three characters: `0x1` is the shortest. */
  lemma ShortestTrimmedWallet(t: string)
    ensures IsValidTrimmedWallet(t) ==> |t| >= 3
  {
    if IsValidTrimmedWallet(t) && !StartsWith(t, "0x") && !Includes(t, ".apt") {
      assert Utf16Length(t) <= 2 * |t|;
    }
  }

  /** An input with no whitespace at either end is judged by the tier cascade as it stands. */
  lemma UnpaddedWallet(address: string)
    requires address != [] && !IsSpace(address[0]) && !IsSpace(address[|address| - 1])
    ensures IsValidWallet(address) == IsValidTrimmedWallet(address)
  {
    TrimOfUnpadded(address);
  }

  /** A string without a `.` does not contain `.apt`. */
  lemma NoDotNoApt(s: string)
    requires forall i :: 0 <= i < |s| ==> s[i] != '.'
    ensures !Includes(s, ".apt")
  {
    forall i | 0 <= i <= |s| - 4 ensures !OccursAt(s, ".apt", i) {
      assert s[i..i + 4][0] == s[i];
    }
  }

  /** Accepted by the hexadecimal tier. */
  lemma HexExample()
    ensures IsValidWallet("0x1aF9")
  {
    UnpaddedWallet("0x1aF9");
  }

  /** Accepted by the named-address tier. */
  lemma NamedExample()
    ensures IsValidWallet("alice.apt")
  {
    UnpaddedWallet("alice.apt");
    assert OccursAt("alice.apt", ".apt", 5);
  }

  /** Accepted by the length fallback. */
  lemma FallbackExample()
    ensures IsValidWallet("abcdef")
  {
    UnpaddedWallet("abcdef");
    NoDotNoApt("abcdef");
  }

  /** Rejected: non-hex digits after `0x`, although six characters long. */
  lemma NonHexExample()
    ensures !IsValidWallet("0xZZZZ")
  {
    UnpaddedWallet("0xZZZZ");
  }

  /** Rejected: too short for the length fallback. */
  lemma ShortExample()
    ensures !IsValidWallet("ab")
  {
    UnpaddedWallet("ab");
    NoDotNoApt("ab");
  }

  /** Rejected: a bare `0x` is claimed by the hexadecimal tier, which needs at least one digit. */
  lemma BarePrefixExample()
    ensures !IsValidWallet("0x")
  {
    UnpaddedWallet("0x");
  }

  /** Rejected: text after `.apt`, although long enough for the fallback. */
  lemma TrailingAptExample()
    ensures !IsValidWallet("abc.apt.xyz")
  {
    UnpaddedWallet("abc.apt.xyz");
    assert OccursAt("abc.apt.xyz", ".apt", 3);
  }

  /** Accepted: an upper-case `0X` escapes the hexadecimal tier and passes the length fallback. */
  lemma UpperCasePrefixExample()
    ensures IsValidWallet("0X1234")
  {
    UnpaddedWallet("0X1234");
    NoDotNoApt("0X1234");
  }

  /** Accepted: one `@`, then a domain with an inner `.`. */
  lemma EmailExample()
    ensures IsValidEmail("a@b.com")
  {
    assert EmailSplitAt("a@b.com", 1, 3);
  }

  /** Accepted: the domain may start with `.` as long as another `.` lies inside it. */
  lemma LeadingDotEmailExample()
    ensures IsValidEmail("a@.b.c")
  {
    assert EmailSplitAt("a@.b.c", 1, 4);
  }

  /** Rejected: there is no `@`. */
  lemma NoAtEmailExample()
    ensures !IsValidEmail("not-an-email")
  {
    var s := "not-an-email";
    assert forall i :: 0 <= i < |s| ==> s[i] != '@';
    assert '@' !in multiset(s);
  }

  /** Rejected: there are two `@`. */
  lemma TwoAtEmailExample()
    ensures !IsValidEmail("a@b@c.com")
  {
    TwoOccurrences("a@b@c.com", 1, 3, '@');
  }
}
