/**
 * The read side of the leaderboard controller: one table sliced for
 * display, one user's rank in every table, and the platform-wide ranking
 * that sums every user's scores over all tables.
 */
module RankQueries {
  import opened Common
  import opened StableSort
  import opened LeaderboardModel

  /** A `limit` query parameter: absent (the default 10), or `parseInt` of it. */
  datatype LimitParam = DefaultLimit | Parsed(n: int) | NaN

  /** `slice(0, parseInt(limit))`: a negative end counts from the back, NaN means 0. */
  function SliceEnd(len: nat, limit: LimitParam): (k: nat)
    ensures k <= len
    ensures limit == DefaultLimit ==> k == if len < 10 then len else 10
    ensures limit.Parsed? && limit.n >= 0 ==> k == if len < limit.n then len else limit.n
    ensures limit.Parsed? && limit.n < 0 ==> k == if len + limit.n < 0 then 0 else len + limit.n
    ensures limit == NaN ==> k == 0
  {
    match limit
    case DefaultLimit => if len < 10 then len else 10
    case NaN => 0
    case Parsed(n) =>
      if n >= 0 then (if len < n then len else n)
      else if len + n < 0 then 0 else len + n
  }

  // ---------------------------------------------------------------- getLeaderboard

  datatype UserRank = UserRank(position: nat, score: int, achievedAt: Time)

  datatype LeaderboardView =
    | GameMissing                                           // 404
    | NoTable(timeframe: string)                            // 200 with `entries: []`
    | Ranked(game: GameId, timeframe: string, lastUpdated: Time,
             entries: seq<Entry>, totalEntries: nat, userRank: Option<UserRank>)

  /** The caller's 1-based position in a table, with the score and time it records. */
  function RankIn(entries: seq<Entry>, caller: Option<UserId>): (r: Option<UserRank>)
    ensures r.Some? <==> caller.Some? && EntryOf(entries, caller.value).Some?
    ensures r.Some? ==>
      && 1 <= r.value.position <= |entries|
      && entries[r.value.position - 1] == Entry(caller.value, entries[r.value.position - 1].username,
                                                r.value.score, r.value.achievedAt)
      && (forall k :: 0 <= k < r.value.position - 1 ==> entries[k].user != caller.value)
  {
    match caller
    case None => None
    case Some(u) =>
      var i := FindEntry(entries, u);
      if i == -1 then None else Some(UserRank(i + 1, entries[i].score, entries[i].achievedAt))
  }

  /** `getLeaderboard`: the game lookup, then the table, or an empty answer when there is none. */
  function GetLeaderboard(gameFound: bool, game: GameId, tables: seq<Table>, timeframe: string,
                          limit: LimitParam, caller: Option<UserId>): (r: LeaderboardView)
    ensures r.GameMissing? <==> !gameFound
    ensures r.NoTable? <==> gameFound && FindTable(tables, game, timeframe) == -1
    ensures r.NoTable? ==> r.timeframe == timeframe
    ensures r.Ranked? ==>
      var t := tables[FindTable(tables, game, timeframe)];
      && r.game == game && r.timeframe == timeframe && r.lastUpdated == t.lastUpdated
      && r.totalEntries == |t.entries|
      && r.entries <= t.entries
      && |r.entries| == SliceEnd(|t.entries|, limit)
      && r.userRank == RankIn(t.entries, caller)
  {
    if !gameFound then GameMissing
    else
      var i := FindTable(tables, game, timeframe);
      if i == -1 then NoTable(timeframe)
      else
        var t := tables[i];
        Ranked(t.game, timeframe, t.lastUpdated, t.entries[..SliceEnd(|t.entries|, limit)],
               |t.entries|, RankIn(t.entries, caller))
  }

  /**
   * In a valid table the reported position is the caller's rank: everyone
   * above scored at least as much, everyone below at most as much.
   */
  lemma PositionIsRank(t: Table, caller: Option<UserId>)
    requires ValidTable(t)
    ensures var r := RankIn(t.entries, caller);
      r.Some? ==>
        && (forall k :: 0 <= k < r.value.position - 1 ==> t.entries[k].score >= r.value.score)
        && (forall k :: r.value.position <= k < |t.entries| ==> t.entries[k].score <= r.value.score)
  {
    var r := RankIn(t.entries, caller);
    if r.Some? {
      var p := r.value.position - 1;
      forall k | 0 <= k < p ensures t.entries[k].score >= r.value.score {
        assert ScoreKey(t.entries[k]) >= ScoreKey(t.entries[p]);
      }
      forall k | p < k < |t.entries| ensures t.entries[k].score <= r.value.score {
        assert ScoreKey(t.entries[p]) >= ScoreKey(t.entries[k]);
      }
    }
  }

  // ---------------------------------------------------------------- getUserRanks

  datatype RankRow = RankRow(game: GameId, timeframe: Timeframe, rank: nat, score: int,
                             achievedAt: Time, totalPlayers: nat)

  /** One table's row for u: the position found by `findIndex`, plus one. */
  function RowFor(t: Table, u: UserId): (r: RankRow)
    requires EntryOf(t.entries, u).Some?
    ensures 1 <= r.rank <= r.totalPlayers == |t.entries|
    ensures t.entries[r.rank - 1].user == u
    ensures r.score == t.entries[r.rank - 1].score && r.achievedAt == t.entries[r.rank - 1].achievedAt
    ensures r.game == t.game && r.timeframe == t.timeframe
  {
    var i := FindEntry(t.entries, u);
    RankRow(t.game, t.timeframe, i + 1, t.entries[i].score, t.entries[i].achievedAt, |t.entries|)
  }

  /** `Leaderboard.find({"entries.user": u})` mapped to rows, in collection order. */
  function RowsFor(tables: seq<Table>, u: UserId): (rows: seq<RankRow>)
    ensures forall row :: row in rows ==>
      exists k :: 0 <= k < |tables| && EntryOf(tables[k].entries, u).Some? && row == RowFor(tables[k], u)
    ensures forall k :: 0 <= k < |tables| && EntryOf(tables[k].entries, u).Some? ==> RowFor(tables[k], u) in rows
  {
    if tables == [] then []
    else
      var rest := RowsFor(tables[1..], u);
      assert forall k :: 1 <= k < |tables| ==> tables[k] == tables[1..][k - 1];
      if EntryOf(tables[0].entries, u).Some? then [RowFor(tables[0], u)] + rest else rest
  }

  /** The percentile rank/totalPlayers; lower is better. */
  function Percentile(r: RankRow): real {
    if r.totalPlayers == 0 then 0.0 else (r.rank as real) / (r.totalPlayers as real)
  }

  function BetterFirst(r: RankRow): real { -Percentile(r) }

  /** `userRanks.sort((a, b) => a.rank / a.totalPlayers - b.rank / b.totalPlayers)`. */
  function UserRanks(tables: seq<Table>, u: UserId): seq<RankRow> {
    SortDesc(RowsFor(tables, u), BetterFirst)
  }

  /**
   * One row per table containing u, each with rank = index + 1 and
   * totalPlayers = the table's size, ordered by ascending percentile, rows
   * with equal percentile in collection order.
   */
  lemma UserRanksCorrect(tables: seq<Table>, u: UserId)
    ensures var rows := UserRanks(tables, u);
      && multiset(rows) == multiset(RowsFor(tables, u))
      && (forall row :: row in rows ==>
            exists k :: 0 <= k < |tables| && EntryOf(tables[k].entries, u).Some? && row == RowFor(tables[k], u))
      && (forall k :: 0 <= k < |tables| && EntryOf(tables[k].entries, u).Some? ==> RowFor(tables[k], u) in rows)
      && (forall i, j :: 0 <= i < j < |rows| ==> Percentile(rows[i]) <= Percentile(rows[j]))
      && (forall p :: WithKey(rows, BetterFirst, p) == WithKey(RowsFor(tables, u), BetterFirst, p))
  {
    var rows := UserRanks(tables, u);
    var unsorted := RowsFor(tables, u);
    forall row | row in rows ensures row in unsorted {
      assert row in multiset(rows);
    }
    forall row | row in unsorted ensures row in rows {
      assert row in multiset(unsorted);
    }
    forall i, j | 0 <= i < j < |rows| ensures Percentile(rows[i]) <= Percentile(rows[j]) {
      assert BetterFirst(rows[i]) >= BetterFirst(rows[j]);
    }
    forall p ensures WithKey(rows, BetterFirst, p) == WithKey(unsorted, BetterFirst, p) {
      SortStable(unsorted, BetterFirst, p);
    }
  }

  datatype RanksResult = RanksForbidden | Ranks(rows: seq<RankRow>)

  /**
   * `getUserRanks`: the rows of `params.userId`, or of the caller when there
   * is none; another user's rows only for an admin.
   */
  function GetUserRanks(param: Option<UserId>, caller: UserId, isAdmin: bool, tables: seq<Table>): (r: RanksResult)
    ensures r.RanksForbidden? <==> param.Some? && param.value != caller && !isAdmin
    ensures r.Ranks? ==> r.rows == UserRanks(tables, param.GetOr(caller))
  {
    if OtherUserDenied(param, caller, isAdmin) then RanksForbidden
    else Ranks(UserRanks(tables, param.GetOr(caller)))
  }

  // ---------------------------------------------------------------- getGlobalRankings

  /** One unwound entry: `{ $unwind: "$entries" }` keeps the table's game beside it. */
  datatype Contribution = Contribution(game: GameId, entry: Entry)

  function Unwind(tables: seq<Table>): (cs: seq<Contribution>)
    ensures |tables| == 0 ==> cs == []
  {
    if tables == [] then []
    else Unwind(tables[..|tables| - 1]) + Contributions(tables[|tables| - 1])
  }

  function Contributions(t: Table): (cs: seq<Contribution>)
    ensures |cs| == |t.entries|
    ensures forall k :: 0 <= k < |cs| ==> cs[k] == Contribution(t.game, t.entries[k])
  {
    seq(|t.entries|, k requires 0 <= k < |t.entries| => Contribution(t.game, t.entries[k]))
  }

  // Reference definitions, one user at a time, over the unwound entries.

  function TotalFor(cs: seq<Contribution>, u: UserId): int {
    if cs == [] then 0
    else TotalFor(cs[..|cs| - 1], u) + (if cs[|cs| - 1].entry.user == u then cs[|cs| - 1].entry.score else 0)
  }

  function GamesFor(cs: seq<Contribution>, u: UserId): set<GameId> {
    if cs == [] then {}
    else GamesFor(cs[..|cs| - 1], u) + (if cs[|cs| - 1].entry.user == u then {cs[|cs| - 1].game} else {})
  }

  function HighestFor(cs: seq<Contribution>, u: UserId): Option<int> {
    if cs == [] then None
    else
      var prev := HighestFor(cs[..|cs| - 1], u);
      var c := cs[|cs| - 1];
      if c.entry.user != u then prev
      else if prev.None? then Some(c.entry.score)
      else Some(Max(prev.value, c.entry.score))
  }

  /** The username of u's first contribution, as `$first` picks it. */
  function FirstName(cs: seq<Contribution>, u: UserId): Option<string> {
    if cs == [] then None
    else
      var prev := FirstName(cs[..|cs| - 1], u);
      if prev.None? && cs[|cs| - 1].entry.user == u then Some(cs[|cs| - 1].entry.username) else prev
  }

  function UsersIn(cs: seq<Contribution>): set<UserId> {
    set k | 0 <= k < |cs| :: cs[k].entry.user
  }

  /** A `$group` row under construction. */
  datatype Group = Group(user: UserId, username: string, totalScore: int, games: set<GameId>, highestScore: int)

  function GroupUser(g: Group): UserId { g.user }
  function TotalKey(g: Group): real { g.totalScore as real }

  function GroupUsers(groups: seq<Group>): set<UserId> {
    set k | 0 <= k < |groups| :: groups[k].user
  }

  function AddContribution(groups: seq<Group>, c: Contribution): seq<Group> {
    var i := IndexWhere(groups, (g: Group) => g.user == c.entry.user);
    if i == -1 then groups + [Group(c.entry.user, c.entry.username, c.entry.score, {c.game}, c.entry.score)]
    else groups[i := groups[i].(totalScore := groups[i].totalScore + c.entry.score,
                                games := groups[i].games + {c.game},
                                highestScore := Max(groups[i].highestScore, c.entry.score))]
  }

  /** The `$group` stage: one row per user, users in order of first appearance. */
  function GroupByUser(cs: seq<Contribution>): seq<Group> {
    if cs == [] then []
    else AddContribution(GroupByUser(cs[..|cs| - 1]), cs[|cs| - 1])
  }

  /** A group agrees with the reference definitions for its user. */
  ghost predicate Summarises(g: Group, cs: seq<Contribution>) {
    && g.totalScore == TotalFor(cs, g.user)
    && g.games == GamesFor(cs, g.user)
    && HighestFor(cs, g.user) == Some(g.highestScore)
    && FirstName(cs, g.user) == Some(g.username)
  }

  /** The `$group` rows so far are one per user seen, each summarising its user. */
  ghost predicate GroupsCorrect(groups: seq<Group>, cs: seq<Contribution>) {
    && DistinctBy(groups, GroupUser)
    && GroupUsers(groups) == UsersIn(cs)
    && forall k :: 0 <= k < |groups| ==> Summarises(groups[k], cs)
  }

  /**
   * `$group`: exactly one row per user who has an entry anywhere, holding the
   * sum of that user's scores, the set of games and the highest score.
   */
  lemma {:induction false} GroupByUserCorrect(cs: seq<Contribution>)
    ensures GroupsCorrect(GroupByUser(cs), cs)
  {
    if cs != [] {
      var init, c := cs[..|cs| - 1], cs[|cs| - 1];
      GroupByUserCorrect(init);
      assert cs == init + [c];
      AddContributionCorrect(GroupByUser(init), init, c);
    }
  }

  /** Folding one more contribution into correct groups keeps them correct. */
  lemma AddContributionCorrect(prev: seq<Group>, init: seq<Contribution>, c: Contribution)
    requires GroupsCorrect(prev, init)
    ensures GroupsCorrect(AddContribution(prev, c), init + [c])
  {
    var cs := init + [c];
    var u := c.entry.user;
    assert cs[..|cs| - 1] == init && cs[|cs| - 1] == c;
    assert UsersIn(cs) == UsersIn(init) + {u} by {
      assert forall k :: 0 <= k < |init| ==> init[k] == cs[k];
      assert cs[|init|] == c;
    }
    forall v | v != u ensures ReferencesAgree(cs, init, v) {
    }
    var i := IndexWhere(prev, (g: Group) => g.user == u);
    if i == -1 {
      assert u !in UsersIn(init);
      NoGroupNoContribution(init, u);
      AddNewUserCorrect(prev, init, c);
    } else {
      AddKnownUserCorrect(prev, init, c, i);
    }
  }

  /** For a user other than the last contributor's, the references do not move. */
  ghost predicate ReferencesAgree(cs: seq<Contribution>, init: seq<Contribution>, v: UserId) {
    TotalFor(cs, v) == TotalFor(init, v) && GamesFor(cs, v) == GamesFor(init, v)
    && HighestFor(cs, v) == HighestFor(init, v) && FirstName(cs, v) == FirstName(init, v)
  }

  lemma AddNewUserCorrect(prev: seq<Group>, init: seq<Contribution>, c: Contribution)
    requires GroupsCorrect(prev, init)
    requires forall k :: 0 <= k < |prev| ==> prev[k].user != c.entry.user
    requires HighestFor(init, c.entry.user).None? && FirstName(init, c.entry.user).None?
    requires TotalFor(init, c.entry.user) == 0 && GamesFor(init, c.entry.user) == {}
    requires UsersIn(init + [c]) == UsersIn(init) + {c.entry.user}
    requires forall v :: v != c.entry.user ==> ReferencesAgree(init + [c], init, v)
    ensures GroupsCorrect(AddContribution(prev, c), init + [c])
  {
    var cs := init + [c];
    var u := c.entry.user;
    var groups := AddContribution(prev, c);
    assert cs[..|cs| - 1] == init && cs[|cs| - 1] == c;
    var g := Group(u, c.entry.username, c.entry.score, {c.game}, c.entry.score);
    assert groups == prev + [g];
    SnocGroupUsers(prev, g);
    forall k | 0 <= k < |groups| ensures Summarises(groups[k], cs) {
      if k < |prev| {
        assert groups[k] == prev[k];
        assert ReferencesAgree(cs, init, prev[k].user);
      }
    }
  }

  lemma AddKnownUserCorrect(prev: seq<Group>, init: seq<Contribution>, c: Contribution, i: nat)
    requires GroupsCorrect(prev, init)
    requires i < |prev| && prev[i].user == c.entry.user
    requires forall k :: 0 <= k < i ==> prev[k].user != c.entry.user
    requires UsersIn(init + [c]) == UsersIn(init) + {c.entry.user}
    requires forall v :: v != c.entry.user ==> ReferencesAgree(init + [c], init, v)
    ensures GroupsCorrect(AddContribution(prev, c), init + [c])
  {
    var cs := init + [c];
    var u := c.entry.user;
    var groups := AddContribution(prev, c);
    assert cs[..|cs| - 1] == init && cs[|cs| - 1] == c;
    assert IndexWhere(prev, (g: Group) => g.user == u) == i;
    assert Summarises(prev[i], init);
    SameGroupUsers(prev, groups);
    forall k | 0 <= k < |groups| ensures Summarises(groups[k], cs) {
      if k != i {
        assert groups[k] == prev[k];
        assert GroupUser(prev[k]) != GroupUser(prev[i]);
        assert ReferencesAgree(cs, init, prev[k].user);
      }
    }
  }

  /** A new row for a new user keeps the rows' users distinct and adds that user. */
  lemma SnocGroupUsers(prev: seq<Group>, g: Group)
    requires DistinctBy(prev, GroupUser)
    requires forall k :: 0 <= k < |prev| ==> prev[k].user != g.user
    ensures DistinctBy(prev + [g], GroupUser) && GroupUsers(prev + [g]) == GroupUsers(prev) + {g.user}
  {
    var groups := prev + [g];
    assert forall k :: 0 <= k < |prev| ==> groups[k] == prev[k];
    forall v | v in GroupUsers(prev) + {g.user} ensures v in GroupUsers(groups) {
      if v == g.user {
        assert groups[|prev|].user == v;
      } else {
        var k :| 0 <= k < |prev| && prev[k].user == v;
        assert groups[k].user == v;
      }
    }
  }

  /** Rows updated in place, each keeping its user, keep the users and their distinctness. */
  lemma SameGroupUsers(prev: seq<Group>, groups: seq<Group>)
    requires DistinctBy(prev, GroupUser)
    requires |groups| == |prev| && forall k :: 0 <= k < |prev| ==> groups[k].user == prev[k].user
    ensures DistinctBy(groups, GroupUser) && GroupUsers(groups) == GroupUsers(prev)
  {
    forall a, b | 0 <= a < b < |groups| ensures GroupUser(groups[a]) != GroupUser(groups[b]) {
      assert GroupUser(groups[a]) == GroupUser(prev[a]);
      assert GroupUser(groups[b]) == GroupUser(prev[b]);
    }
    forall v | v in GroupUsers(prev) ensures v in GroupUsers(groups) {
      var k :| 0 <= k < |prev| && prev[k].user == v;
      assert groups[k].user == v;
    }
  }

  /** A user absent from the contributions has no total, games, highest score or name. */
  lemma {:induction false} NoGroupNoContribution(cs: seq<Contribution>, u: UserId)
    requires u !in UsersIn(cs)
    ensures HighestFor(cs, u).None? && FirstName(cs, u).None? && TotalFor(cs, u) == 0 && GamesFor(cs, u) == {}
  {
    if cs != [] {
      var init := cs[..|cs| - 1];
      assert UsersIn(init) <= UsersIn(cs) by {
        assert forall k :: 0 <= k < |init| ==> init[k] == cs[k];
      }
      NoGroupNoContribution(init, u);
      assert cs[|cs| - 1].entry.user in UsersIn(cs);
    }
  }

  datatype GlobalRow = GlobalRow(userId: UserId, username: string, rank: nat, totalScore: int,
                                 gamesRanked: nat, highestScore: int, fullName: string)

  /** `$limit: parseInt(limit)`: the aggregation refuses a limit that is not a positive number. */
  function AggregationLimit(limit: LimitParam): (r: Option<nat>)
    ensures r.Some? ==> r.value > 0
    ensures limit == DefaultLimit ==> r == Some(10)
    ensures limit.Parsed? ==> (r.Some? <==> limit.n > 0) && (r.Some? ==> r.value == limit.n)
    ensures limit == NaN ==> r.None?
  {
    match limit
    case DefaultLimit => Some(10)
    case NaN => None
    case Parsed(n) => if n > 0 then Some(n) else None
  }

  function NameOf(users: map<UserId, UserProfile>, u: UserId): string {
    if u in users then users[u].fullName else "Unknown"
  }

  /** The final `map`: the rank is the position plus one, the name looked up per user. */
  function NumberRows(top: seq<Group>, users: map<UserId, UserProfile>): (rows: seq<GlobalRow>)
    ensures |rows| == |top|
    ensures forall i :: 0 <= i < |top| ==>
      rows[i] == GlobalRow(top[i].user, top[i].username, i + 1, top[i].totalScore, |top[i].games|,
                           top[i].highestScore, NameOf(users, top[i].user))
  {
    seq(|top|, i requires 0 <= i < |top| =>
      GlobalRow(top[i].user, top[i].username, i + 1, top[i].totalScore, |top[i].games|,
                top[i].highestScore, NameOf(users, top[i].user)))
  }

  /** The `$group` rows sorted by total score, highest first (`$sort: { totalScore: -1 }`). */
  function RankedGroups(tables: seq<Table>): seq<Group> {
    SortDesc(GroupByUser(Unwind(tables)), TotalKey)
  }

  /** `getGlobalRankings`: unwind, group, sort, limit, then number and look up each user. None: 500. */
  function GlobalRankings(tables: seq<Table>, limit: LimitParam, users: map<UserId, UserProfile>): Option<seq<GlobalRow>> {
    match AggregationLimit(limit)
    case None => None
    case Some(n) =>
      var sorted := RankedGroups(tables);
      Some(NumberRows(sorted[..if |sorted| < n then |sorted| else n], users))
  }

  /** The sorted groups: each user once, each summarising that user, every user present. */
  lemma RankedGroupsCorrect(tables: seq<Table>)
    ensures var sorted := RankedGroups(tables);
      var cs := Unwind(tables);
      && DistinctBy(sorted, GroupUser)
      && SortedDesc(sorted, TotalKey)
      && (forall k :: 0 <= k < |sorted| ==> sorted[k].user in UsersIn(cs) && Summarises(sorted[k], cs))
      && (forall u :: u in UsersIn(cs) ==> exists k :: 0 <= k < |sorted| && sorted[k].user == u)
  {
    var cs := Unwind(tables);
    var groups := GroupByUser(cs);
    GroupByUserCorrect(cs);
    var sorted := SortDesc(groups, TotalKey);
    SortDistinct(groups, TotalKey, GroupUser);
    forall k | 0 <= k < |sorted| ensures sorted[k].user in UsersIn(cs) && Summarises(sorted[k], cs) {
      SortedGroupSummarises(groups, sorted, cs, k);
    }
    forall u | u in UsersIn(cs) ensures exists k :: 0 <= k < |sorted| && sorted[k].user == u {
      UserKeptBySort(groups, sorted, u);
    }
  }

  lemma SortedGroupSummarises(groups: seq<Group>, sorted: seq<Group>, cs: seq<Contribution>, k: int)
    requires GroupsCorrect(groups, cs) && multiset(sorted) == multiset(groups)
    requires 0 <= k < |sorted|
    ensures sorted[k].user in UsersIn(cs) && Summarises(sorted[k], cs)
  {
    assert sorted[k] in multiset(groups);
    var j :| 0 <= j < |groups| && groups[j] == sorted[k];
    assert groups[j].user in GroupUsers(groups);
  }

  lemma UserKeptBySort(groups: seq<Group>, sorted: seq<Group>, u: UserId)
    requires u in GroupUsers(groups) && multiset(sorted) == multiset(groups)
    ensures exists k :: 0 <= k < |sorted| && sorted[k].user == u
  {
    var j :| 0 <= j < |groups| && groups[j].user == u;
    assert groups[j] in multiset(sorted);
    var k :| 0 <= k < |sorted| && sorted[k] == groups[j];
  }

  /** The rows agree with the reference definitions of each user's total, games and best. */
  ghost predicate RowSummarises(row: GlobalRow, i: nat, cs: seq<Contribution>, users: map<UserId, UserProfile>) {
    && row.rank == i + 1
    && row.userId in UsersIn(cs)
    && row.totalScore == TotalFor(cs, row.userId)
    && row.gamesRanked == |GamesFor(cs, row.userId)|
    && HighestFor(cs, row.userId) == Some(row.highestScore)
    && FirstName(cs, row.userId) == Some(row.username)
    && row.fullName == (if row.userId in users then users[row.userId].fullName else "Unknown")
  }

  /** Each row summarises its user, and its rank is its position plus one. */
  ghost predicate RowsSummarise(rows: seq<GlobalRow>, cs: seq<Contribution>, users: map<UserId, UserProfile>) {
    forall i :: 0 <= i < |rows| ==> RowSummarises(rows[i], i, cs, users)
  }

  ghost predicate RowsDistinct(rows: seq<GlobalRow>) {
    forall i, j :: 0 <= i < j < |rows| ==> rows[i].userId != rows[j].userId
  }

  ghost predicate RowsDescending(rows: seq<GlobalRow>) {
    forall i, j :: 0 <= i < j < |rows| ==> rows[i].totalScore >= rows[j].totalScore
  }

  /** A user is left out only when n rows are shown, and then totals no more than the last of them. */
  ghost predicate CutOffBelowLast(rows: seq<GlobalRow>, n: nat, cs: seq<Contribution>) {
    forall u :: u in UsersIn(cs) && (forall i :: 0 <= i < |rows| ==> rows[i].userId != u) ==>
      0 < |rows| == n && TotalFor(cs, u) <= rows[|rows| - 1].totalScore
  }

  /**
   * What the global ranking promises for a limit n: at most n rows, each
   * holding a distinct user's sum of scores over every table, number of
   * distinct games and highest single score, numbered from 1 in order of
   * total descending; a user is left out only when n rows are shown, and
   * then totals no more than the last of them.
   */
  ghost predicate RankingCorrect(rows: seq<GlobalRow>, n: nat, cs: seq<Contribution>, users: map<UserId, UserProfile>) {
    && |rows| <= n
    && RowsSummarise(rows, cs, users)
    && RowsDistinct(rows)
    && RowsDescending(rows)
    && CutOffBelowLast(rows, n, cs)
  }

  /** `getGlobalRankings` fails exactly on a bad limit, and otherwise ranks as promised. */
  lemma GlobalRankingsCorrect(tables: seq<Table>, limit: LimitParam, users: map<UserId, UserProfile>)
    ensures var r := GlobalRankings(tables, limit, users);
      && (r.None? <==> AggregationLimit(limit).None?)
      && (r.Some? ==> RankingCorrect(r.value, AggregationLimit(limit).value, Unwind(tables), users))
  {
    if AggregationLimit(limit).Some? {
      RankedGroupsCorrect(tables);
      RowsCorrect(RankedGroups(tables), AggregationLimit(limit).value, Unwind(tables), users);
    }
  }

  /** The first n sorted groups, numbered, are a correct ranking. */
  lemma RowsCorrect(sorted: seq<Group>, n: nat, cs: seq<Contribution>, users: map<UserId, UserProfile>)
    requires n > 0
    requires DistinctBy(sorted, GroupUser) && SortedDesc(sorted, TotalKey)
    requires forall k :: 0 <= k < |sorted| ==> sorted[k].user in UsersIn(cs) && Summarises(sorted[k], cs)
    requires forall u :: u in UsersIn(cs) ==> exists k :: 0 <= k < |sorted| && sorted[k].user == u
    ensures RankingCorrect(NumberRows(sorted[..if |sorted| < n then |sorted| else n], users), n, cs, users)
  {
    var m := if |sorted| < n then |sorted| else n;
    NumberedRowsCorrect(sorted, m, cs, users);
    LeftOutBelowLast(sorted, m, n, cs, users);
  }

  /** Numbering a prefix of the sorted groups gives rows that summarise distinct users, best first. */
  lemma NumberedRowsCorrect(sorted: seq<Group>, m: nat, cs: seq<Contribution>, users: map<UserId, UserProfile>)
    requires m <= |sorted|
    requires DistinctBy(sorted, GroupUser) && SortedDesc(sorted, TotalKey)
    requires forall k :: 0 <= k < |sorted| ==> sorted[k].user in UsersIn(cs) && Summarises(sorted[k], cs)
    ensures var rows := NumberRows(sorted[..m], users);
      RowsSummarise(rows, cs, users) && RowsDistinct(rows) && RowsDescending(rows)
  {
    var rows := NumberRows(sorted[..m], users);
    assert forall i :: 0 <= i < m ==> rows[i].userId == sorted[i].user && rows[i].totalScore == sorted[i].totalScore;
    forall i | 0 <= i < m ensures RowSummarises(rows[i], i, cs, users) {
      assert Summarises(sorted[i], cs);
    }
    forall i, j | 0 <= i < j < m ensures rows[i].totalScore >= rows[j].totalScore {
      assert TotalKey(sorted[i]) >= TotalKey(sorted[j]);
    }
    forall i, j | 0 <= i < j < m ensures rows[i].userId != rows[j].userId {
      assert GroupUser(sorted[i]) != GroupUser(sorted[j]);
    }
  }

  /** A user cut off by the limit totals no more than the last row shown. */
  lemma LeftOutBelowLast(sorted: seq<Group>, m: nat, n: nat, cs: seq<Contribution>, users: map<UserId, UserProfile>)
    requires n > 0 && m == if |sorted| < n then |sorted| else n
    requires SortedDesc(sorted, TotalKey)
    requires forall k :: 0 <= k < |sorted| ==> sorted[k].user in UsersIn(cs) && Summarises(sorted[k], cs)
    requires forall u :: u in UsersIn(cs) ==> exists k :: 0 <= k < |sorted| && sorted[k].user == u
    ensures CutOffBelowLast(NumberRows(sorted[..m], users), n, cs)
  {
    var rows := NumberRows(sorted[..m], users);
    forall u | u in UsersIn(cs) && (forall i :: 0 <= i < |rows| ==> rows[i].userId != u)
      ensures 0 < |rows| == n && TotalFor(cs, u) <= rows[|rows| - 1].totalScore
    {
      LeftOutRow(sorted, m, n, cs, users, u);
    }
  }

  lemma LeftOutRow(sorted: seq<Group>, m: nat, n: nat, cs: seq<Contribution>, users: map<UserId, UserProfile>, u: UserId)
    requires n > 0 && m == if |sorted| < n then |sorted| else n
    requires SortedDesc(sorted, TotalKey)
    requires forall k :: 0 <= k < |sorted| ==> sorted[k].user in UsersIn(cs) && Summarises(sorted[k], cs)
    requires exists k :: 0 <= k < |sorted| && sorted[k].user == u
    requires var rows := NumberRows(sorted[..m], users); forall i :: 0 <= i < |rows| ==> rows[i].userId != u
    ensures var rows := NumberRows(sorted[..m], users); 0 < |rows| == n && TotalFor(cs, u) <= rows[|rows| - 1].totalScore
  {
    var rows := NumberRows(sorted[..m], users);
    forall i | 0 <= i < m ensures sorted[i].user != u {
      assert rows[i].userId == sorted[i].user;
    }
    LeftOutUser(sorted, m, n, cs, u);
    assert rows[m - 1].totalScore == sorted[m - 1].totalScore;
  }

  /** A user missing from the first m sorted groups is cut off by the limit, below the last group shown. */
  lemma LeftOutUser(sorted: seq<Group>, m: nat, n: nat, cs: seq<Contribution>, u: UserId)
    requires n > 0 && m == if |sorted| < n then |sorted| else n
    requires SortedDesc(sorted, TotalKey)
    requires forall k :: 0 <= k < |sorted| ==> sorted[k].user in UsersIn(cs) && Summarises(sorted[k], cs)
    requires exists k :: 0 <= k < |sorted| && sorted[k].user == u
    requires forall i :: 0 <= i < m ==> sorted[i].user != u
    ensures 0 < m == n && TotalFor(cs, u) <= sorted[m - 1].totalScore
  {
    var k :| 0 <= k < |sorted| && sorted[k].user == u;
    assert m <= k;
    assert Summarises(sorted[k], cs);
    assert TotalKey(sorted[m - 1]) >= TotalKey(sorted[k]);
  }

}
