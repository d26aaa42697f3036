/** Small values shared by every part of the backend model. */
module Common {

  /** An optional value: a missing request field, a lookup that found nothing. */
  datatype Option<T> = None | Some(value: T) {
    function GetOr(default: T): T {
      match this
      case Some(v) => v
      case None => default
    }
  }

  /** Identifiers are the hex strings of database object ids. */
  type UserId = string
  type GameId = string

  /** Instants, in milliseconds; the clock is always passed in as "now". */
  type Time = int

  /** JavaScript's `findIndex`: the first position whose element satisfies p, or -1. */
  function IndexWhere<T>(s: seq<T>, p: T -> bool): (r: int)
    ensures -1 <= r < |s|
    ensures r == -1 <==> forall k :: 0 <= k < |s| ==> !p(s[k])
    ensures r >= 0 ==> p(s[r]) && forall k :: 0 <= k < r ==> !p(s[k])
  {
    if s == [] then -1
    else if p(s[0]) then 0
    else
      var r' := IndexWhere(s[1..], p);
      assert forall k :: 1 <= k < |s| ==> s[k] == s[1..][k - 1];
      if r' == -1 then -1 else r' + 1
  }

  /**
   * The guard of every "my data or, for an admin, anyone's" read: a request
   * naming another user by `params.userId` is refused unless the caller is an admin.
   */
  predicate OtherUserDenied(param: Option<UserId>, caller: UserId, isAdmin: bool) {
    param.Some? && param.value != caller && !isAdmin
  }

  function Max(a: int, b: int): int {
    if a >= b then a else b
  }

  /**
   * JavaScript's `Math.round(n / d)` for non-negative n, computed exactly:
   * the integer r with r - 1/2 <= n / d < r + 1/2.
   */
  function RoundedQuotient(n: nat, d: nat): nat
    requires d > 0
  {
    (2 * n + d) / (2 * d)
  }

  /** The rounded quotient is the nearest integer to n / d, a half rounded up. */
  lemma RoundedQuotientNearest(n: nat, d: nat)
    requires d > 0
    ensures var r := RoundedQuotient(n, d); 2 * r * d <= 2 * n + d < 2 * r * d + 2 * d
  {
    var q := RoundedQuotient(n, d);
    QuotientBounds(2 * n + d, 2 * d);
    assert q * (2 * d) == 2 * q * d;
  }

  /** Rounding a quotient that lies between two integers stays between them. */
  lemma RoundedBetween(n: nat, d: nat, lo: nat, hi: nat)
    requires d > 0 && lo * d <= n <= hi * d
    ensures lo <= RoundedQuotient(n, d) <= hi
  {
    var r := RoundedQuotient(n, d);
    RoundedQuotientNearest(n, d);
    assert 2 * r * d == 2 * (r * d);
    assert (hi + 1) * d == hi * d + d;
    assert (r + 1) * d == r * d + d;
    MulCancel(r, hi + 1, d);
    MulCancel(lo, r + 1, d);
  }

  /** `Math.round(part / whole * 100)`: a share of a count as a whole percentage. */
  function RoundedPercent(part: nat, whole: nat): nat
    requires whole > 0
  {
    RoundedQuotient(100 * part, whole)
  }

  /** The percentage is the nearest whole one, and a part of the whole is at most 100 per cent. */
  lemma RoundedPercentNearest(part: nat, whole: nat)
    requires whole > 0
    ensures var r := RoundedPercent(part, whole);
      && 2 * r * whole <= 200 * part + whole < 2 * r * whole + 2 * whole
      && (part <= whole ==> r <= 100)
  {
    RoundedQuotientNearest(100 * part, whole);
    if part <= whole {
      RoundedBetween(100 * part, whole, 0, 100);
    }
  }

  lemma QuotientBounds(n: nat, d: nat)
    requires d > 0
    ensures (n / d) * d <= n < (n / d) * d + d
  {
  }

  lemma MulCancel(a: nat, b: nat, d: nat)
    requires d > 0 && a * d < b * d
    ensures a < b
  {
    if a >= b {
      MulMonotone(b, a, d);
    }
  }

  lemma MulMonotone(a: nat, b: nat, c: nat)
    requires a <= b
    ensures a * c <= b * c
  {
  }

  /** The characters `String.prototype.trim` removes: white space and line terminators. */
  predicate IsJsSpace(c: char) {
    || c == '\t' || c == '\n' || c == '\U{000B}' || c == '\U{000C}' || c == '\r' || c == ' '
    || c == '\U{00A0}' || c == '\U{1680}' || ('\U{2000}' <= c <= '\U{200A}')
    || c == '\U{2028}' || c == '\U{2029}' || c == '\U{202F}' || c == '\U{205F}' || c == '\U{3000}' || c == '\U{FEFF}'
  }

  /** The first position at or after i that does not hold white space, or |s|. */
  function SkipSpaces(s: string, i: nat): (j: nat)
    requires i <= |s|
    ensures i <= j <= |s|
    ensures forall k :: i <= k < j ==> IsJsSpace(s[k])
    ensures j == |s| || !IsJsSpace(s[j])
    decreases |s| - i
  {
    if i < |s| && IsJsSpace(s[i]) then SkipSpaces(s, i + 1) else i
  }

  /** The position after the last character before j that is not white space, or 0. */
  function SkipSpacesBack(s: string, j: nat): (i: nat)
    requires j <= |s|
    ensures i <= j
    ensures forall k :: i <= k < j ==> IsJsSpace(s[k])
    ensures i == 0 || !IsJsSpace(s[i - 1])
  {
    if j > 0 && IsJsSpace(s[j - 1]) then SkipSpacesBack(s, j - 1) else j
  }

  /** s without its leading white space. */
  function TrimStart(s: string): (r: string)
    ensures |r| <= |s| && r == s[|s| - |r|..]
    ensures forall k :: 0 <= k < |s| - |r| ==> IsJsSpace(s[k])
    ensures r == [] || !IsJsSpace(r[0])
  {
    s[SkipSpaces(s, 0)..]
  }

  /** s without its trailing white space. */
  function TrimEnd(s: string): (r: string)
    ensures |r| <= |s| && r == s[..|r|]
    ensures forall k :: |r| <= k < |s| ==> IsJsSpace(s[k])
    ensures r == [] || !IsJsSpace(r[|r| - 1])
  {
    s[..SkipSpacesBack(s, |s|)]
  }

  /** Neither end of s is white space. */
  predicate IsTrimmed(s: string) {
    s == [] || (!IsJsSpace(s[0]) && !IsJsSpace(s[|s| - 1]))
  }

  /** `String.prototype.trim`: s without white space at either end. */
  function Trim(s: string): (r: string)
    ensures IsTrimmed(r)
  {
    var t := TrimStart(s);
    var r := TrimEnd(t);
    assert r == [] || r[0] == t[0];
    r
  }

  /** Trim keeps an infix of s and removes only white space, from both ends. */
  lemma TrimRemovesOnlySpace(s: string)
    ensures var i, r := |s| - |TrimStart(s)|, Trim(s);
      && i + |r| <= |s| && r == s[i..i + |r|]
      && (forall k :: 0 <= k < i ==> IsJsSpace(s[k]))
      && (forall k :: i + |r| <= k < |s| ==> IsJsSpace(s[k]))
  {
    var t := TrimStart(s);
    var r := TrimEnd(t);
    assert Trim(s) == r;
    PrefixOfSuffix(s, t, r);
  }

  /** A prefix r of the suffix t of s is the infix of s after the part t drops. */
  lemma PrefixOfSuffix(s: string, t: string, r: string)
    requires |t| <= |s| && t == s[|s| - |t|..]
    requires |r| <= |t| && r == t[..|r|]
    requires forall k :: |r| <= k < |t| ==> IsJsSpace(t[k])
    ensures var i := |s| - |t|; r == s[i..i + |r|] && forall k :: i + |r| <= k < |s| ==> IsJsSpace(s[k])
  {
    var i := |s| - |t|;
    forall k | i + |r| <= k < |s| ensures IsJsSpace(s[k]) {
      assert s[k] == t[k - i];
    }
  }

  /** Trimming changes nothing exactly when neither end is white space. */
  lemma TrimmedIsFixed(s: string)
    ensures IsTrimmed(s) <==> Trim(s) == s
  {
    if IsTrimmed(s) {
      assert SkipSpaces(s, 0) == 0;
      assert SkipSpacesBack(s, |s|) == |s|;
    }
  }

  /** Trimming a trimmed string changes nothing. */
  lemma TrimIdempotent(s: string)
    ensures Trim(Trim(s)) == Trim(s)
  {
    TrimmedIsFixed(Trim(s));
  }

  /** `toLowerCase` on the ASCII letters. */
  function LowerChar(c: char): (l: char)
    ensures 'A' <= c <= 'Z' ==> l as int == c as int + 32
    ensures !('A' <= c <= 'Z') ==> l == c
  {
    if 'A' <= c <= 'Z' then (c as int + 32) as char else c
  }

  function Lower(s: string): (r: string)
    ensures |r| == |s| && forall k :: 0 <= k < |s| ==> r[k] == LowerChar(s[k])
  {
    seq(|s|, k requires 0 <= k < |s| => LowerChar(s[k]))
  }

  lemma LowerIdempotent(s: string)
    ensures Lower(Lower(s)) == Lower(s)
  {
    assert forall k :: 0 <= k < |s| ==> !('A' <= Lower(s)[k] <= 'Z');
  }
}
