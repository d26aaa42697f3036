/**
 * The user document: its normalised fields, the email and password
 * validators, the role and age-range enums, and the defaults of a new
 * user's play statistics.
 */
module UserModel {
  import opened Common

  // ---------------------------------------------------------------- character classes

  predicate IsUpper(c: char) { 'A' <= c <= 'Z' }
  predicate IsLowerLetter(c: char) { 'a' <= c <= 'z' }
  predicate IsDigit(c: char) { '0' <= c <= '9' }

  /** `\w`: ASCII letters, digits and the underscore. */
  predicate IsWordChar(c: char) { IsUpper(c) || IsLowerLetter(c) || IsDigit(c) || c == '_' }

  /** `[\w-\.]`, the characters of the part before the `@`. */
  predicate IsLocalChar(c: char) { IsWordChar(c) || c == '-' || c == '.' }

  /** `[\w-]`, the characters of a domain label. */
  predicate IsLabelChar(c: char) { IsWordChar(c) || c == '-' }

  /** The characters a regular expression `.` does not match. */
  predicate IsLineTerminator(c: char) {
    c == '\n' || c == '\r' || c == '\U{2028}' || c == '\U{2029}'
  }

  /** The password's special characters, `[!@#$%^&*()_+\-=\[\]{};':"\\|,.<>\/?]`. */
  predicate IsSpecial(c: char) {
    c in "!@#$%^&*()_+-=[]{};':\"\\|,.<>/?"
  }

  // ---------------------------------------------------------------- password

  /** `(?=.*[C])` tried at the start: a character of class C reached across no line terminator. */
  ghost predicate LooksAhead(s: string, cls: char -> bool) {
    exists j :: 0 <= j < |s| && cls(s[j]) && forall k :: 0 <= k < j ==> !IsLineTerminator(s[k])
  }

  /**
   * The password pattern read as a language: the four lookaheads at the
   * start, then `.{5,}$`, five or more characters none of which ends a line.
   */
  ghost predicate PasswordPattern(s: string) {
    && LooksAhead(s, IsUpper) && LooksAhead(s, IsDigit) && LooksAhead(s, IsSpecial) && LooksAhead(s, IsLowerLetter)
    && |s| >= 5 && forall k :: 0 <= k < |s| ==> !IsLineTerminator(s[k])
  }

  /** Whether some character of s is in the class. */
  function Any(s: string, cls: char -> bool): (r: bool)
    ensures r <==> exists k :: 0 <= k < |s| && cls(s[k])
  {
    if s == [] then false
    else if cls(s[0]) then true
    else
      assert forall k :: 1 <= k < |s| ==> s[k] == s[1..][k - 1];
      Any(s[1..], cls)
  }

  /** The password validator as the schema runs it. */
  function ValidPassword(s: string): (ok: bool)
    ensures ok ==> |s| >= 5
  {
    && |s| >= 5
    && !Any(s, IsLineTerminator)
    && Any(s, IsUpper) && Any(s, IsDigit) && Any(s, IsSpecial) && Any(s, IsLowerLetter)
  }

  /** The validator accepts exactly the strings the pattern matches. */
  lemma PasswordMatchesPattern(s: string)
    ensures ValidPassword(s) <==> PasswordPattern(s)
  {
    if ValidPassword(s) {
      forall cls: char -> bool | Any(s, cls) ensures LooksAhead(s, cls) {
        var j :| 0 <= j < |s| && cls(s[j]);
        assert forall k :: 0 <= k < j ==> !IsLineTerminator(s[k]);
      }
    }
    if PasswordPattern(s) {
      forall cls: char -> bool | LooksAhead(s, cls) ensures Any(s, cls) {
        var j :| 0 <= j < |s| && cls(s[j]) && forall k :: 0 <= k < j ==> !IsLineTerminator(s[k]);
      }
    }
  }

  // ---------------------------------------------------------------- email

  /** `[\w-\.]+`, the part before the `@`. */
  predicate LocalPattern(l: string) {
    |l| >= 1 && forall k :: 0 <= k < |l| ==> IsLocalChar(l[k])
  }

  /** `([\w-]+\.)+`: one or more non-empty labels, each followed by a dot. */
  predicate LabelsPattern(p: string) {
    && |p| >= 2 && p[0] != '.' && p[|p| - 1] == '.'
    && (forall k :: 0 <= k < |p| ==> IsLabelChar(p[k]) || p[k] == '.')
    && (forall k, l :: 0 <= k < |p| && 0 <= l < |p| && l == k + 1 ==> p[k] != '.' || p[l] != '.')
  }

  /** `[\w-]{2,4}`, the last label. */
  predicate TldPattern(t: string) {
    2 <= |t| <= 4 && forall k :: 0 <= k < |t| ==> IsLabelChar(t[k])
  }

  /** s read as `local @ labels tld` with the `@` at i and the last dot at j. */
  predicate EmailSplit(s: string, i: int, j: int)
    requires 0 <= i < j < |s|
  {
    s[i] == '@' && LocalPattern(s[..i]) && LabelsPattern(s[i + 1..j + 1]) && TldPattern(s[j + 1..])
  }

  /** The email pattern `^[\w-\.]+@([\w-]+\.)+[\w-]{2,4}$` read as a language: some split fits. */
  ghost predicate EmailPattern(s: string) {
    exists i, j :: 0 <= i < j < |s| && EmailSplit(s, i, j)
  }

  /** The last position of c in s, or -1. */
  function LastIndexOf(s: string, c: char): (r: int)
    ensures -1 <= r < |s|
    ensures r >= 0 ==> s[r] == c
    ensures forall k :: r < k < |s| ==> s[k] != c
  {
    if s == [] then -1
    else if s[|s| - 1] == c then |s| - 1
    else LastIndexOf(s[..|s| - 1], c)
  }

  /** The position of the first `@`, or -1. */
  function FirstAt(s: string): int {
    IndexWhere(s, (c: char) => c == '@')
  }

  /** The email validator as a scan: the split at the first `@` and the last dot after it. */
  function ValidEmail(s: string): (ok: bool)
    ensures ok ==> '@' in s
  {
    var i := FirstAt(s);
    if i < 0 then false
    else
      var j := i + 1 + LastIndexOf(s[i + 1..], '.');
      j > i && EmailSplit(s, i, j)
  }

  /** In a split that fits, the `@` is the first one and the dot the last one. */
  lemma EmailSplitUnique(s: string, i: int, j: int)
    requires 0 <= i < j < |s| && EmailSplit(s, i, j)
    ensures FirstAt(s) == i
    ensures i + 1 + LastIndexOf(s[i + 1..], '.') == j
  {
    assert forall k :: 0 <= k < i ==> s[k] == s[..i][k];
    var d := s[i + 1..];
    var t := s[j + 1..];
    assert d[j - i - 1] == '.' by {
      assert s[i + 1..j + 1][j - i - 1] == s[j];
    }
    forall k | j - i - 1 < k < |d| ensures d[k] != '.' {
      assert d[k] == t[k - (j - i)];
    }
  }

  /** The validator accepts exactly the strings the pattern matches. */
  lemma EmailMatchesPattern(s: string)
    ensures ValidEmail(s) <==> EmailPattern(s)
  {
    if ValidEmail(s) {
      ValidEmailFits(s);
    }
    if EmailPattern(s) {
      var i, j :| 0 <= i < j < |s| && EmailSplit(s, i, j);
      EmailSplitUnique(s, i, j);
    }
  }

  lemma ValidEmailFits(s: string)
    requires ValidEmail(s)
    ensures EmailPattern(s)
  {
    var i := FirstAt(s);
    var j := i + 1 + LastIndexOf(s[i + 1..], '.');
    assert 0 <= i < j < |s| && EmailSplit(s, i, j);
  }

  // ---------------------------------------------------------------- enums

  datatype Role = UserRole | AdminRole

  function RoleName(r: Role): string {
    match r
    case UserRole => "user"
    case AdminRole => "admin"
  }

  /** The role enum with its default: an absent role is "user". */
  function ParseRole(raw: Option<string>): (r: Option<Role>)
    ensures raw.None? ==> r == Some(UserRole)
    ensures raw.Some? ==> (r.Some? <==> raw.value in ["user", "admin"])
    ensures r.Some? && raw.Some? ==> RoleName(r.value) == raw.value
  {
    var name := raw.GetOr("user");
    if name == "user" then Some(UserRole)
    else if name == "admin" then Some(AdminRole)
    else None
  }

  /** What the tokens carry: `isAdmin = role === "admin"`. */
  predicate IsAdminRole(r: Role) { r == AdminRole }

  datatype AgeRange = Age10To17 | Age18To24 | Age25To34 | Age35To44 | Age45To54 | Age55To64 | Age65Plus

  function AgeRangeName(a: AgeRange): string {
    match a
    case Age10To17 => "10-17"
    case Age18To24 => "18-24"
    case Age25To34 => "25-34"
    case Age35To44 => "35-44"
    case Age45To54 => "45-54"
    case Age55To64 => "55-64"
    case Age65Plus => "65+"
  }

  /** The age-range enum: one of the seven bands, no default. */
  function ParseAgeRange(s: string): (r: Option<AgeRange>)
    ensures r.Some? <==> s in ["10-17", "18-24", "25-34", "35-44", "45-54", "55-64", "65+"]
    ensures r.Some? ==> AgeRangeName(r.value) == s
    ensures forall a :: AgeRangeName(a) == s ==> r == Some(a)
  {
    if s == "10-17" then Some(Age10To17)
    else if s == "18-24" then Some(Age18To24)
    else if s == "25-34" then Some(Age25To34)
    else if s == "35-44" then Some(Age35To44)
    else if s == "45-54" then Some(Age45To54)
    else if s == "55-64" then Some(Age55To64)
    else if s == "65+" then Some(Age65Plus)
    else None
  }

  // ---------------------------------------------------------------- normalisation

  /** The `lowercase` and `trim` setters of `username` and `email`. */
  function Normalise(s: string): string {
    Trim(Lower(s))
  }

  /** Lower-casing keeps every character's white-space status, so it skips the same spaces. */
  lemma {:induction false} LowerSkipSpaces(s: string, i: nat)
    requires i <= |s|
    ensures SkipSpaces(Lower(s), i) == SkipSpaces(s, i)
    decreases |s| - i
  {
    if i < |s| {
      assert IsJsSpace(Lower(s)[i]) <==> IsJsSpace(s[i]);
      if IsJsSpace(s[i]) {
        LowerSkipSpaces(s, i + 1);
      }
    }
  }

  lemma {:induction false} LowerSkipSpacesBack(s: string, j: nat)
    requires j <= |s|
    ensures SkipSpacesBack(Lower(s), j) == SkipSpacesBack(s, j)
  {
    if j > 0 {
      assert IsJsSpace(Lower(s)[j - 1]) <==> IsJsSpace(s[j - 1]);
      if IsJsSpace(s[j - 1]) {
        LowerSkipSpacesBack(s, j - 1);
      }
    }
  }

  lemma LowerTrimStart(s: string)
    ensures TrimStart(Lower(s)) == Lower(TrimStart(s))
  {
    LowerSkipSpaces(s, 0);
    var n := SkipSpaces(s, 0);
    assert Lower(s)[n..] == Lower(s[n..]);
  }

  lemma LowerTrimEnd(s: string)
    ensures TrimEnd(Lower(s)) == Lower(TrimEnd(s))
  {
    LowerSkipSpacesBack(s, |s|);
    var n := SkipSpacesBack(s, |s|);
    assert Lower(s)[..n] == Lower(s[..n]);
  }

  /** Lower-casing and trimming commute, so the order of the two setters does not matter. */
  lemma LowerTrimCommute(s: string)
    ensures Trim(Lower(s)) == Lower(Trim(s))
  {
    LowerTrimStart(s);
    LowerTrimEnd(TrimStart(s));
  }

  /** A stored username or email is already normal: normalising it again changes nothing. */
  lemma NormaliseIdempotent(s: string)
    ensures Normalise(Normalise(s)) == Normalise(s)
  {
    var t := Lower(s);
    LowerTrimCommute(t);
    LowerIdempotent(s);
    TrimIdempotent(t);
  }

  /** A normal string has no upper-case letter and no white space at either end. */
  lemma NormalisedShape(s: string)
    ensures var n := Normalise(s);
      && (forall k :: 0 <= k < |n| ==> !IsUpper(n[k]))
      && (n == [] || (!IsJsSpace(n[0]) && !IsJsSpace(n[|n| - 1])))
  {
    assert IsTrimmed(Normalise(s));
    LowerTrimCommute(s);
    LowerHasNoUpper(Trim(s));
  }

  lemma LowerHasNoUpper(t: string)
    ensures forall k :: 0 <= k < |Lower(t)| ==> !IsUpper(Lower(t)[k])
  {
  }

  // ---------------------------------------------------------------- the document

  /** The denormalised play statistics kept on each user. */
  datatype UserStats = UserStats(totalPlayTime: int, gamesPlayed: int, highestScore: int, lastActive: Time)

  /** The statistics of a new user: nothing played yet, active now. */
  function NewStats(now: Time): (st: UserStats)
    ensures st.totalPlayTime == 0 && st.gamesPlayed == 0 && st.highestScore == 0
    ensures st.lastActive == now
  {
    UserStats(0, 0, 0, now)
  }

  datatype User = User(fullName: string, username: string, email: string, password: string,
                       role: Role, ageRange: AgeRange, favourites: seq<GameId>,
                       stats: UserStats, createdAt: Time)

  /** The fields of a new user as sent; any may be absent. */
  datatype UserForm = UserForm(fullName: Option<string>, username: Option<string>, email: Option<string>,
                               password: Option<string>, role: Option<string>, ageRange: Option<string>)

  /** The validated paths of the user document. */
  datatype Path = FullNamePath | UsernamePath | EmailPath | PasswordPath | RolePath | AgeRangePath

  /**
   * Whether validation fails on path p: a required string fails when absent
   * or empty after its setters, the email and password when their pattern
   * does not match, the enums outside their values.
   */
  predicate PathFails(f: UserForm, p: Path) {
    match p
    case FullNamePath => FullNameFails(f.fullName)
    case UsernamePath => UsernameFails(f.username)
    case EmailPath => EmailFails(f.email)
    case PasswordPath => PasswordFails(f.password)
    case RolePath => ParseRole(f.role).None?
    case AgeRangePath => AgeRangeFails(f.ageRange)
  }

  predicate FullNameFails(v: Option<string>) { v.None? || Trim(v.value) == "" }
  predicate UsernameFails(v: Option<string>) { v.None? || Normalise(v.value) == "" }
  predicate EmailFails(v: Option<string>) { v.None? || !ValidEmail(Normalise(v.value)) }
  predicate PasswordFails(v: Option<string>) { v.None? || !ValidPassword(v.value) }
  predicate AgeRangeFails(v: Option<string>) { v.None? || ParseAgeRange(v.value).None? }

  datatype UserResult = Rejected(paths: set<Path>) | Accepted(user: User)

  /**
   * A new user document as the schema builds and validates it: setters
   * first, then every validator; any failing path rejects the document.
   */
  function NewUser(f: UserForm, now: Time): (r: UserResult)
    ensures r.Rejected? <==>
      || FullNameFails(f.fullName) || UsernameFails(f.username) || EmailFails(f.email)
      || PasswordFails(f.password) || ParseRole(f.role).None? || AgeRangeFails(f.ageRange)
    ensures r.Rejected? ==> forall p :: p in r.paths <==> PathFails(f, p)
    ensures r.Accepted? ==>
      && f.fullName.Some? && r.user.fullName == Trim(f.fullName.value) && r.user.fullName != ""
      && f.username.Some? && r.user.username == Normalise(f.username.value) && r.user.username != ""
      && f.email.Some? && r.user.email == Normalise(f.email.value) && ValidEmail(r.user.email)
      && f.password.Some? && r.user.password == f.password.value && ValidPassword(r.user.password)
      && (f.role.None? ==> r.user.role == UserRole)
      && (f.role.Some? ==> RoleName(r.user.role) == f.role.value)
      && f.ageRange.Some? && AgeRangeName(r.user.ageRange) == f.ageRange.value
      && r.user.favourites == [] && r.user.stats == NewStats(now) && r.user.createdAt == now
  {
    if || FullNameFails(f.fullName) || UsernameFails(f.username) || EmailFails(f.email)
       || PasswordFails(f.password) || ParseRole(f.role).None? || AgeRangeFails(f.ageRange)
    then Rejected(set p: Path | PathFails(f, p))
    else
      Accepted(User(Trim(f.fullName.value), Normalise(f.username.value), Normalise(f.email.value),
                    f.password.value, ParseRole(f.role).value, ParseAgeRange(f.ageRange.value).value,
                    [], NewStats(now), now))
  }

  /** A stored user's username and email survive being saved again unchanged. */
  lemma AcceptedIsNormal(f: UserForm, now: Time)
    requires NewUser(f, now).Accepted?
    ensures var u := NewUser(f, now).user;
      Normalise(u.username) == u.username && Normalise(u.email) == u.email
  {
    NormaliseIdempotent(f.username.value);
    NormaliseIdempotent(f.email.value);
  }
}
