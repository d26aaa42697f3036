/**
 * The request guards: the `Authorization: Bearer <token>` parser that feeds
 * token verification, and the admin and owner-or-admin checks on the
 * verified payload.
 */
module Jwt {
  import opened Common
  import opened UserModel

  // ---------------------------------------------------------------- split

  /** The first position of c in s, or -1. */
  function IndexOf(s: string, c: char): (r: int)
    ensures -1 <= r < |s|
    ensures r == -1 <==> c !in s
    ensures r >= 0 ==> s[r] == c && c !in s[..r]
  {
    if s == [] then -1
    else if s[0] == c then 0
    else
      var r := IndexOf(s[1..], c);
      assert forall k :: 1 <= k < |s| ==> s[k] == s[1..][k - 1];
      if r == -1 then -1
      else
        assert s[..r + 1] == [s[0]] + s[1..][..r];
        r + 1
  }

  /** `s.split(sep)` for a one-character separator: the pieces between separators, empty ones included. */
  function Split(s: string, sep: char): (parts: seq<string>)
    ensures |parts| >= 1
    ensures forall k :: 0 <= k < |parts| ==> sep !in parts[k]
    decreases |s|
  {
    var i := IndexOf(s, sep);
    if i == -1 then [s] else [s[..i]] + Split(s[i + 1..], sep)
  }

  /** The pieces joined back with the separator. */
  function Join(parts: seq<string>, sep: char): string
    requires |parts| >= 1
  {
    if |parts| == 1 then parts[0] else parts[0] + [sep] + Join(parts[1..], sep)
  }

  /** Splitting loses nothing: joining the pieces gives the string back. */
  lemma {:induction false} SplitJoin(s: string, sep: char)
    ensures Join(Split(s, sep), sep) == s
    decreases |s|
  {
    var i := IndexOf(s, sep);
    if i != -1 {
      var rest := Split(s[i + 1..], sep);
      SplitJoin(s[i + 1..], sep);
      JoinCons(s[..i], rest, sep);
      assert s == s[..i] + [sep] + s[i + 1..];
    }
  }

  lemma JoinCons(x: string, rest: seq<string>, sep: char)
    requires |rest| >= 1
    ensures Join([x] + rest, sep) == x + [sep] + Join(rest, sep)
  {
    assert ([x] + rest)[1..] == rest;
  }

  /** The first piece is what comes before the first separator; there is a second piece iff there is a separator. */
  lemma SplitHead(s: string, sep: char)
    ensures var parts, i := Split(s, sep), IndexOf(s, sep);
      && (i == -1 ==> parts == [s])
      && (i >= 0 ==> |parts| >= 2 && parts[0] == s[..i] && parts[1] == Split(s[i + 1..], sep)[0])
  {
  }

  /** The first piece: a prefix free of the separator that ends at a separator or at the end. */
  lemma FirstPiece(s: string, sep: char)
    ensures var w := Split(s, sep)[0];
      && |w| <= |s| && s[..|w|] == w && sep !in w && (|w| == |s| || s[|w|] == sep)
  {
    var i := IndexOf(s, sep);
    if i == -1 {
      assert Split(s, sep)[0] == s;
    } else {
      assert Split(s, sep)[0] == s[..i];
      assert |s[..i]| == i;
    }
  }

  // ---------------------------------------------------------------- getTokenFromHeaders

  /** What the parser hands to token verification: null, undefined, or a string. */
  datatype TokenResult = NoToken | Missing | Token(token: string)

  const Scheme: string := "Bearer"

  /** `getTokenFromHeaders`: the second space-separated segment when the first is exactly "Bearer". */
  function GetTokenFromHeaders(authorization: Option<string>): (r: TokenResult)
    ensures authorization.None? || authorization.value == "" ==> r == NoToken
  {
    if authorization.None? || authorization.value == "" then NoToken
    else
      var parts := Split(authorization.value, ' ');
      if parts[0] != Scheme then NoToken
      else if |parts| < 2 then Missing
      else Token(parts[1])
  }

  /** The first segment is "Bearer" exactly when the header is "Bearer" or starts with "Bearer ". */
  lemma SchemeWord(h: string)
    ensures Split(h, ' ')[0] == Scheme <==> h == Scheme || (|h| >= 7 && h[..7] == Scheme + " ")
  {
    FirstPiece(h, ' ');
    var w := Split(h, ' ')[0];
    if |h| >= 7 && h[..7] == Scheme + " " {
      SchemePrefix(h, w);
    }
    if w == Scheme && h != Scheme {
      assert h[..7] == w + [h[6]];
    }
  }

  lemma SchemePrefix(h: string, w: string)
    requires |h| >= 7 && h[..7] == Scheme + " "
    requires |w| <= |h| && h[..|w|] == w && ' ' !in w && (|w| == |h| || h[|w|] == ' ')
    ensures w == Scheme
  {
    assert h[..6] == Scheme && h[6] == ' ';
  }

  /**
   * The parser read on the header itself: a token after "Bearer " runs up
   * to the next space or the end; "Bearer" alone yields undefined; anything
   * else yields null.
   */
  lemma TokenFromHeaderText(h: string)
    ensures var r := GetTokenFromHeaders(Some(h));
      && (r == Missing <==> h == Scheme)
      && (r.Token? <==> |h| >= 7 && h[..7] == Scheme + " ")
      && (r.Token? ==>
            && ' ' !in r.token && 7 + |r.token| <= |h| && h[7..7 + |r.token|] == r.token
            && (7 + |r.token| == |h| || h[7 + |r.token|] == ' '))
  {
    SchemeWord(h);
    SplitHead(h, ' ');
    var i := IndexOf(h, ' ');
    if h == Scheme {
      assert i == -1;
    } else if |h| >= 7 && h[..7] == Scheme + " " {
      assert i == 6 by {
        assert h[6] == (Scheme + " ")[6];
        assert h[..6] == Scheme;
      }
      var rest := h[7..];
      FirstPiece(rest, ' ');
      var t := Split(rest, ' ')[0];
      assert GetTokenFromHeaders(Some(h)) == Token(t);
      assert h[7..7 + |t|] == rest[..|t|];
      if 7 + |t| < |h| {
        assert h[7 + |t|] == rest[|t|];
      }
    }
  }

  /** A header "Bearer <t>" with a token free of spaces hands t on, whatever follows after a space. */
  lemma BearerRoundTrip(t: string, rest: string)
    requires ' ' !in t
    ensures GetTokenFromHeaders(Some(Scheme + " " + t)) == Token(t)
    ensures GetTokenFromHeaders(Some(Scheme + " " + t + " " + rest)) == Token(t)
  {
    var h1 := Scheme + " " + t;
    var h2 := Scheme + " " + t + " " + rest;
    TokenFromHeaderText(h1);
    TokenFromHeaderText(h2);
    assert h1[..7] == Scheme + " " && h1[7..] == t;
    assert h2[..7] == Scheme + " " && h2[7..7 + |t|] == t && h2[7 + |t|] == ' ';
    var r1 := GetTokenFromHeaders(Some(h1)).token;
    var r2 := GetTokenFromHeaders(Some(h2)).token;
    PrefixesWithoutSpace(h1[7..], r1, t);
    PrefixesWithoutSpace(h2[7..], r2, t);
  }

  /** Two space-free prefixes of s that each end at a space or at the end of s are equal. */
  lemma PrefixesWithoutSpace(s: string, a: string, b: string)
    requires |a| <= |s| && s[..|a|] == a && ' ' !in a && (|a| == |s| || s[|a|] == ' ')
    requires |b| <= |s| && s[..|b|] == b && ' ' !in b && (|b| == |s| || s[|b|] == ' ')
    ensures a == b
  {
  }

  // ---------------------------------------------------------------- authentication

  /** The verified token's payload: the user's id and the admin flag set at login. */
  datatype Payload = Payload(id: UserId, isAdmin: bool)

  /** The payload signed at login: `isAdmin` is whether the role is "admin". */
  function PayloadFor(id: UserId, u: User): (p: Payload)
    ensures p.id == id
    ensures p.isAdmin <==> u.role == AdminRole
  {
    Payload(id, IsAdminRole(u.role))
  }

  datatype AuthOutcome = Unauthorized | Authenticated(payload: Payload)

  /**
   * `isAuthenticated`: a request without a usable token is refused; the
   * signature check is the given verifier.
   */
  function Authenticate(authorization: Option<string>, verify: string -> Option<Payload>): (r: AuthOutcome)
    ensures r.Authenticated? <==>
      var t := GetTokenFromHeaders(authorization);
      t.Token? && t.token != "" && verify(t.token).Some?
    ensures r.Authenticated? ==> r.payload == verify(GetTokenFromHeaders(authorization).token).value
  {
    match GetTokenFromHeaders(authorization)
    case Token(t) =>
      if t == "" then Unauthorized
      else if verify(t).Some? then Authenticated(verify(t).value) else Unauthorized
    case _ => Unauthorized
  }

  // ---------------------------------------------------------------- guards

  datatype GuardOutcome = Next | Forbidden

  /** `isAdmin`: through only for an admin, 403 otherwise. */
  function IsAdminGuard(p: Payload): (g: GuardOutcome)
    ensures g == Next <==> p.isAdmin
  {
    if !p.isAdmin then Forbidden else Next
  }

  /** `isUserOrAdmin`: through for an admin, or when `params.userId` is the caller's own id. */
  function IsUserOrAdmin(p: Payload, param: Option<UserId>): (g: GuardOutcome)
    ensures g == Next <==> p.isAdmin || param == Some(p.id)
  {
    if p.isAdmin then Next
    else if param.Some? && p.id == param.value then Next
    else Forbidden
  }

  /**
   * The guard and the in-handler check agree on a request that names a
   * user; on one that names nobody the guard still refuses a non-admin,
   * while the handlers serve the caller's own data.
   */
  lemma GuardMatchesHandlers(p: Payload, param: Option<UserId>)
    ensures param.Some? ==> (IsUserOrAdmin(p, param) == Next <==> !OtherUserDenied(param, p.id, p.isAdmin))
    ensures param.None? ==> !OtherUserDenied(param, p.id, p.isAdmin)
    ensures param.None? ==> (IsUserOrAdmin(p, param) == Next <==> p.isAdmin)
  {
  }

  /** An admin passes every guard; a user passes the owner guard only for their own id. */
  lemma AdminPassesEverything(p: Payload, param: Option<UserId>)
    ensures p.isAdmin ==> IsAdminGuard(p) == Next && IsUserOrAdmin(p, param) == Next
    ensures !p.isAdmin ==> IsAdminGuard(p) == Forbidden
    ensures !p.isAdmin && IsUserOrAdmin(p, param) == Next ==> param == Some(p.id)
  {
  }
}
