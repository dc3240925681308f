/**
 * The few JavaScript string primitives the validators rely on: the
 * whitespace set shared by `String.prototype.trim` and the regular-expression
 * class `\s`, `trim` itself, `startsWith`, `includes`, and `length`, which
 * counts UTF-16 code units rather than code points.
 */
module JsText {

  /**
   * The ECMAScript WhiteSpace and LineTerminator code points (ECMA-262,
   * "White Space" and "Line Terminators"; the space separators are those of
   * Unicode category Zs). `trim` strips exactly these, and `\s` matches
   * exactly these.
   */
  predicate IsSpace(c: char) {
    var n := c as int;
    || 0x09 <= n <= 0x0D   // tab, line feed, vertical tab, form feed, carriage return
    || n == 0x20 || n == 0xA0 || n == 0x1680
    || 0x2000 <= n <= 0x200A
    || n == 0x2028 || n == 0x2029   // line and paragraph separators
    || n == 0x202F || n == 0x205F || n == 0x3000
    || n == 0xFEFF   // zero-width no-break space
  }

  ghost predicate AllSpace(s: string) {
    forall i :: 0 <= i < |s| ==> IsSpace(s[i])
  }

  /** The end of the run of whitespace that starts at `k`. */
  function LeadingSpaceEnd(s: string, k: nat): (n: nat)
    requires k <= |s|
    ensures k <= n <= |s|
    ensures forall j :: k <= j < n ==> IsSpace(s[j])
    ensures n == |s| || !IsSpace(s[n])
    decreases |s| - k
  {
    if k < |s| && IsSpace(s[k]) then LeadingSpaceEnd(s, k + 1) else k
  }

  /** The start of the run of whitespace that ends at `k`, not going below `lo`. */
  function TrailingSpaceStart(s: string, lo: nat, k: nat): (m: nat)
    requires lo <= k <= |s|
    ensures lo <= m <= k
    ensures forall j :: m <= j < k ==> IsSpace(s[j])
    ensures m == lo || !IsSpace(s[m - 1])
    decreases k
  {
    if lo < k && IsSpace(s[k - 1]) then TrailingSpaceStart(s, lo, k - 1) else k
  }

  /**
   * `String.prototype.trim`: the contiguous middle of `s` left once the
   * whitespace at both ends is gone.
   */
  function Trim(s: string): (r: string)
    ensures |r| <= |s|
    ensures r == [] || (!IsSpace(r[0]) && !IsSpace(r[|r| - 1]))
    ensures exists i :: StripsTo(s, r, i)
  {
    var i := LeadingSpaceEnd(s, 0);
    var e := TrailingSpaceStart(s, i, |s|);
    var r := s[i..e];
    assert StripsTo(s, r, i);
    r
  }

  /** `r` is `s` with `i` whitespace characters removed in front and only whitespace removed behind. */
  ghost predicate StripsTo(s: string, r: string, i: int) {
    && 0 <= i <= |s| - |r|
    && r == s[i..i + |r|]
    && (forall j :: 0 <= j < i ==> IsSpace(s[j]))
    && (forall j :: i + |r| <= j < |s| ==> IsSpace(s[j]))
  }

  /**
   * Trim is the only way to strip `s` down to a slice with no whitespace at
   * either end: any such slice is `Trim(s)`.
   */
  lemma TrimUnique(s: string, r: string, i: int)
    requires StripsTo(s, r, i)
    requires r == [] || (!IsSpace(r[0]) && !IsSpace(r[|r| - 1]))
    ensures r == Trim(s)
  {
    var t := Trim(s);
    var i0 :| StripsTo(s, t, i0);
    if r == [] {
      assert forall j :: 0 <= j < |s| ==> IsSpace(s[j]);
    } else {
      assert s[i] == r[0] && s[i + |r| - 1] == r[|r| - 1];
      assert !IsSpace(s[i]) && !IsSpace(s[i + |r| - 1]);
      assert t != [];
      assert s[i0] == t[0] && s[i0 + |t| - 1] == t[|t| - 1];
      assert i == i0 && |r| == |t|;
    }
  }

  /** A string with no whitespace at either end is its own trim. */
  lemma TrimOfUnpadded(s: string)
    requires s == [] || (!IsSpace(s[0]) && !IsSpace(s[|s| - 1]))
    ensures Trim(s) == s
  {
    assert StripsTo(s, s, 0);
    TrimUnique(s, s, 0);
  }

  /** Trimming twice is trimming once. */
  lemma TrimIdempotent(s: string)
    ensures Trim(Trim(s)) == Trim(s)
  {
    TrimOfUnpadded(Trim(s));
  }

  /** A string trims to nothing exactly when it is all whitespace. */
  lemma TrimEmptyIffAllSpace(s: string)
    ensures Trim(s) == [] <==> AllSpace(s)
  {
    if AllSpace(s) {
      assert StripsTo(s, [], 0);
      TrimUnique(s, [], 0);
    }
  }

  /** `s.startsWith(prefix)`. */
  predicate StartsWith(s: string, prefix: string) {
    |prefix| <= |s| && s[..|prefix|] == prefix
  }

  /** `s.includes(sub)`: `sub` occurs somewhere in `s`. */
  predicate Includes(s: string, sub: string) {
    exists i :: 0 <= i <= |s| - |sub| && OccursAt(s, sub, i)
  }

  predicate OccursAt(s: string, sub: string, i: int)
    requires 0 <= i <= |s| - |sub|
  {
    s[i..i + |sub|] == sub
  }

  /** Whether `c` lies outside the Basic Multilingual Plane, where UTF-16 needs a surrogate pair. */
  predicate IsAstral(c: char) {
    c as int > 0xFFFF
  }

  /** The positions of `s` holding a character that needs a surrogate pair. */
  ghost function AstralPositions(s: string): set<int> {
    set i | 0 <= i < |s| && IsAstral(s[i])
  }

  /** `s.length`: the number of UTF-16 code units of `s`, one per character plus one more per astral character. */
  function Utf16Length(s: string): (n: nat)
    ensures n == |s| + |AstralPositions(s)|
    ensures |s| <= n <= 2 * |s|
    ensures n == |s| <==> forall i :: 0 <= i < |s| ==> !IsAstral(s[i])
  {
    if s == [] then
      assert AstralPositions(s) == {};
      0
    else
      var init := s[..|s| - 1];
      AstralPositionsOfSnoc(s);
      Utf16Length(init) + (if IsAstral(s[|s| - 1]) then 2 else 1)
  }

  /** The astral positions of `s` are those of `s` without its last character, plus that last position if it is astral. */
  lemma AstralPositionsOfSnoc(s: string)
    requires s != []
    ensures AstralPositions(s) == AstralPositions(s[..|s| - 1]) + (if IsAstral(s[|s| - 1]) then {|s| - 1} else {})
    ensures |s| - 1 !in AstralPositions(s[..|s| - 1])
    ensures |AstralPositions(s)| == |AstralPositions(s[..|s| - 1])| + (if IsAstral(s[|s| - 1]) then 1 else 0)
  {
  }
}
