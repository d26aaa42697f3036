/**
 * The leaderboard document: one table per (game, timeframe), each an
 * ordered list of entries {user, username, score, achievedAt} plus a
 * lastUpdated stamp, and the invariants the ranking engine keeps on it.
 */
module LeaderboardModel {
  import opened Common
  import opened StableSort

  datatype Timeframe = Daily | Weekly | Monthly | AllTime

  function TimeframeName(t: Timeframe): string {
    match t
    case Daily => "daily"
    case Weekly => "weekly"
    case Monthly => "monthly"
    case AllTime => "allTime"
  }

  /** The schema's enum check on a timeframe named in a request. */
  function ParseTimeframe(s: string): (r: Option<Timeframe>)
    ensures r.Some? <==> s in ["daily", "weekly", "monthly", "allTime"]
    ensures r.Some? ==> TimeframeName(r.value) == s
    ensures forall t :: TimeframeName(t) == s ==> r == Some(t)
  {
    if s == "daily" then Some(Daily)
    else if s == "weekly" then Some(Weekly)
    else if s == "monthly" then Some(Monthly)
    else if s == "allTime" then Some(AllTime)
    else None
  }

  /** Every handler reads `timeframe = "allTime"` from the request. */
  function TimeframeOrDefault(raw: Option<string>): (tf: string)
    ensures raw.None? ==> ParseTimeframe(tf) == Some(AllTime)
    ensures raw.Some? ==> tf == raw.value
  {
    raw.GetOr("allTime")
  }

  /** What `User.findById` yields that the engine reads. */
  datatype UserProfile = UserProfile(username: string, fullName: string, highestScore: int)

  datatype Entry = Entry(user: UserId, username: string, score: int, achievedAt: Time)

  datatype Table = Table(game: GameId, timeframe: Timeframe, entries: seq<Entry>, lastUpdated: Time)

  /** A table as `Leaderboard.create` makes it: no entries, lastUpdated defaulting to now. */
  function NewTable(game: GameId, timeframe: Timeframe, now: Time): (t: Table)
    ensures t.game == game && t.timeframe == timeframe
    ensures t.entries == [] && t.lastUpdated == now
  {
    Table(game, timeframe, [], now)
  }

  function ScoreKey(e: Entry): real { e.score as real }
  function UserOf(e: Entry): UserId { e.user }
  function KeyOf(t: Table): (GameId, Timeframe) { (t.game, t.timeframe) }

  ghost predicate UniqueUsers(entries: seq<Entry>) {
    DistinctBy(entries, UserOf)
  }

  /** Every stored entry names its user, has a username and a positive score. */
  ghost predicate WellFormedEntries(entries: seq<Entry>) {
    forall e :: e in entries ==> e.username != "" && e.score > 0
  }

  ghost predicate RankedByScore(entries: seq<Entry>) {
    SortedDesc(entries, ScoreKey)
  }

  ghost predicate ValidTable(t: Table) {
    UniqueUsers(t.entries) && WellFormedEntries(t.entries) && RankedByScore(t.entries)
  }

  /** The unique index on (game, timeframe), and every table valid. */
  ghost predicate ValidTables(tables: seq<Table>) {
    DistinctBy(tables, KeyOf) && forall i :: 0 <= i < |tables| ==> ValidTable(tables[i])
  }

  /** `entries.findIndex(entry => entry.user.toString() === userId)`. */
  function FindEntry(entries: seq<Entry>, u: UserId): (r: int)
    ensures -1 <= r < |entries|
    ensures r == -1 <==> forall k :: 0 <= k < |entries| ==> entries[k].user != u
    ensures r >= 0 ==> entries[r].user == u && forall k :: 0 <= k < r ==> entries[k].user != u
  {
    IndexWhere(entries, (e: Entry) => e.user == u)
  }

  /** With unique users, the entry of u is the one found wherever it is. */
  lemma FindEntryUnique(entries: seq<Entry>, k: int)
    requires UniqueUsers(entries) && 0 <= k < |entries|
    ensures FindEntry(entries, entries[k].user) == k
  {
  }

  function EntryOf(entries: seq<Entry>, u: UserId): (r: Option<Entry>)
    ensures r.Some? ==> r.value in entries && r.value.user == u
    ensures r.None? <==> forall k :: 0 <= k < |entries| ==> entries[k].user != u
  {
    var i := FindEntry(entries, u);
    if i == -1 then None else Some(entries[i])
  }

  /** The stored score of u, if u has an entry. */
  function ScoreOf(entries: seq<Entry>, u: UserId): Option<int> {
    match EntryOf(entries, u)
    case None => None
    case Some(e) => Some(e.score)
  }

  /** With unique users, the entry of u depends only on which entries of u are present. */
  lemma EntryOfSameMembers(s: seq<Entry>, r: seq<Entry>, u: UserId)
    requires UniqueUsers(s) && UniqueUsers(r)
    requires forall e: Entry :: e.user == u ==> (e in r <==> e in s)
    ensures EntryOf(r, u) == EntryOf(s, u)
  {
    var i := FindEntry(s, u);
    if i != -1 {
      assert s[i] in s;
      var k :| 0 <= k < |r| && r[k] == s[i];
      FindEntryUnique(r, k);
    }
  }

  /** `Leaderboard.findOne({ game, timeframe })`, the timeframe as named in the request. */
  function FindTable(tables: seq<Table>, game: GameId, timeframe: string): (r: int)
    ensures -1 <= r < |tables|
    ensures r == -1 <==> forall k :: 0 <= k < |tables| ==>
      !(tables[k].game == game && TimeframeName(tables[k].timeframe) == timeframe)
    ensures r >= 0 ==> tables[r].game == game && TimeframeName(tables[r].timeframe) == timeframe
    ensures r >= 0 ==> forall k :: 0 <= k < r ==>
      !(tables[k].game == game && TimeframeName(tables[k].timeframe) == timeframe)
  {
    IndexWhere(tables, (t: Table) => t.game == game && TimeframeName(t.timeframe) == timeframe)
  }

  /** The unique index: the table found is the only one with that key. */
  lemma FindTableUnique(tables: seq<Table>, k: int)
    requires DistinctBy(tables, KeyOf) && 0 <= k < |tables|
    ensures FindTable(tables, tables[k].game, TimeframeName(tables[k].timeframe)) == k
  {
    var r := FindTable(tables, tables[k].game, TimeframeName(tables[k].timeframe));
    assert ParseTimeframe(TimeframeName(tables[r].timeframe)) == Some(tables[r].timeframe);
  }

  /** `entries.filter(entry => entry.user.toString() !== userId)`. */
  function WithoutUser(entries: seq<Entry>, u: UserId): (r: seq<Entry>)
    ensures forall e :: e in r <==> e in entries && e.user != u
    ensures |r| <= |entries|
  {
    if entries == [] then []
    else if entries[0].user == u then WithoutUser(entries[1..], u)
    else [entries[0]] + WithoutUser(entries[1..], u)
  }

  lemma {:induction false} WithoutUserAppend(a: seq<Entry>, b: seq<Entry>, u: UserId)
    ensures WithoutUser(a + b, u) == WithoutUser(a, u) + WithoutUser(b, u)
  {
    if a == [] {
      assert a + b == b;
    } else {
      assert (a + b)[0] == a[0];
      assert (a + b)[1..] == a[1..] + b;
      WithoutUserAppend(a[1..], b, u);
    }
  }

  lemma {:induction false} WithoutAbsentUser(entries: seq<Entry>, u: UserId)
    requires forall k :: 0 <= k < |entries| ==> entries[k].user != u
    ensures WithoutUser(entries, u) == entries
  {
    if entries != [] {
      WithoutAbsentUser(entries[1..], u);
    }
  }

  /**
   * The admin removal reports "not found" by comparing lengths: the filter
   * keeps the length exactly when the user has no entry.
   */
  lemma {:induction false} RemovalKeepsLengthIffAbsent(entries: seq<Entry>, u: UserId)
    ensures |WithoutUser(entries, u)| == |entries| <==> EntryOf(entries, u).None?
  {
    if entries != [] {
      RemovalKeepsLengthIffAbsent(entries[1..], u);
      assert EntryOf(entries[1..], u).None? <==>
        forall k :: 1 <= k < |entries| ==> entries[k].user != u by {
        assert forall k :: 1 <= k < |entries| ==> entries[k] == entries[1..][k - 1];
      }
    }
  }

  /** Removing one user keeps the invariants of the table. */
  lemma WithoutUserKeepsValid(t: Table, u: UserId)
    requires ValidTable(t)
    ensures ValidTable(t.(entries := WithoutUser(t.entries, u)))
  {
    FilterKeepsOrder(t.entries, u);
  }

  lemma {:induction false} FilterKeepsOrder(s: seq<Entry>, u: UserId)
    requires UniqueUsers(s) && RankedByScore(s)
    ensures UniqueUsers(WithoutUser(s, u)) && RankedByScore(WithoutUser(s, u))
  {
    if s != [] {
      var rest := WithoutUser(s[1..], u);
      var r := WithoutUser(s, u);
      FilterKeepsOrder(s[1..], u);
      if s[0].user != u {
        assert r == [s[0]] + rest;
        forall j | 0 <= j < |rest| ensures ScoreKey(s[0]) >= ScoreKey(rest[j]) && s[0].user != rest[j].user {
          HeadOutranksRest(s, rest[j]);
        }
        ConsRanked(s[0], rest);
      }
    }
  }

  /** The first entry of a ranked table outranks, and differs in user from, every later one. */
  lemma HeadOutranksRest(s: seq<Entry>, e: Entry)
    requires UniqueUsers(s) && RankedByScore(s) && s != [] && e in s[1..]
    ensures ScoreKey(s[0]) >= ScoreKey(e) && s[0].user != e.user
  {
    var m :| 0 <= m < |s[1..]| && s[1..][m] == e;
    assert s[m + 1] == e;
  }

  /** An entry that outranks and differs from every entry of a ranked table can head it. */
  lemma ConsRanked(x: Entry, rest: seq<Entry>)
    requires UniqueUsers(rest) && RankedByScore(rest)
    requires forall j :: 0 <= j < |rest| ==> ScoreKey(x) >= ScoreKey(rest[j]) && x.user != rest[j].user
    ensures UniqueUsers([x] + rest) && RankedByScore([x] + rest)
  {
    var r := [x] + rest;
    forall i, j | 0 <= i < j < |r| ensures ScoreKey(r[i]) >= ScoreKey(r[j]) && UserOf(r[i]) != UserOf(r[j]) {
      assert r[j] == rest[j - 1];
      if i > 0 {
        assert r[i] == rest[i - 1];
      }
    }
  }

  /** Removing one user leaves every other user's entry as it was and drops the user's own. */
  lemma WithoutUserEntries(t: Table, u: UserId)
    requires ValidTable(t)
    ensures forall v :: v != u ==> EntryOf(WithoutUser(t.entries, u), v) == EntryOf(t.entries, v)
    ensures EntryOf(WithoutUser(t.entries, u), u).None?
  {
    var r := WithoutUser(t.entries, u);
    WithoutUserKeepsValid(t, u);
    assert UniqueUsers(r);
    forall v | v != u ensures EntryOf(r, v) == EntryOf(t.entries, v) {
      EntryOfSameMembers(t.entries, r, v);
    }
  }
}
