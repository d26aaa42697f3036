/**
 * Play analytics: recording play sessions and user actions with their
 * effects on the user's statistics and the game's counters, the per-game
 * analytics, the play history, and the grouping of earned achievements.
 */
module PlayAnalytics {
  import opened Common
  import opened StableSort
  import opened UserModel

  // ---------------------------------------------------------------- records

  /** An earned achievement: its `achievement` name and whatever else the client sent with it. */
  datatype Achievement = Achievement(achievement: string, fields: map<string, string>)

  /** One analytics record; level, levelCompleted and achievements only come with a play session. */
  datatype Session = Session(user: UserId, game: GameId, playDate: Time, score: int, playDuration: int,
                             completed: bool, deviceType: string, userAction: string,
                             level: Option<int>, levelCompleted: Option<bool>,
                             achievementsEarned: seq<Achievement>)

  /** The body of a play-session request; any field may be absent. */
  datatype SessionBody = SessionBody(score: Option<int>, playDuration: Option<int>, completed: Option<bool>,
                                     level: Option<int>, deviceType: Option<string>,
                                     levelCompleted: Option<bool>, achievementsEarned: Option<seq<Achievement>>)

  /** The record `recordPlaySession` creates: absent fields take the destructuring defaults. */
  function PlaySession(body: SessionBody, user: UserId, game: GameId, now: Time): (s: Session)
    ensures s.user == user && s.game == game && s.userAction == "play" && s.playDate == now
    ensures body.score.None? ==> s.score == 0
    ensures body.playDuration.None? ==> s.playDuration == 0
    ensures body.completed.None? ==> !s.completed
    ensures body.level.None? ==> s.level == Some(1)
    ensures body.deviceType.None? ==> s.deviceType == "desktop"
    ensures body.levelCompleted.None? ==> s.levelCompleted == Some(false)
    ensures body.achievementsEarned.None? ==> s.achievementsEarned == []
    ensures body.score.Some? ==> s.score == body.score.value
    ensures body.playDuration.Some? ==> s.playDuration == body.playDuration.value
    ensures body.achievementsEarned.Some? ==> s.achievementsEarned == body.achievementsEarned.value
    ensures body.completed.Some? ==> s.completed == body.completed.value
    ensures body.level.Some? ==> s.level == body.level
    ensures body.deviceType.Some? ==> s.deviceType == body.deviceType.value
    ensures body.levelCompleted.Some? ==> s.levelCompleted == body.levelCompleted
  {
    Session(user, game, now, body.score.GetOr(0), body.playDuration.GetOr(0), body.completed.GetOr(false),
            body.deviceType.GetOr("desktop"), "play", Some(body.level.GetOr(1)),
            Some(body.levelCompleted.GetOr(false)), body.achievementsEarned.GetOr([]))
  }

  /** The counters `recordPlaySession` and `recordUserAction` keep on a game. */
  datatype GameCounters = GameCounters(totalPlays: int, favouriteCount: int)

  /** The analytics collection, the users by id, and the games by id with their counters. */
  datatype AnalyticsState = AnalyticsState(sessions: seq<Session>, users: map<UserId, User>, games: map<GameId, GameCounters>)

  /** A favourites list holds each game once. */
  ghost predicate DistinctGames(s: seq<GameId>) {
    forall i, j :: 0 <= i < j < |s| ==> s[i] != s[j]
  }

  ghost predicate ValidAnalytics(st: AnalyticsState) {
    forall u :: u in st.users ==> DistinctGames(st.users[u].favourites)
  }

  // ---------------------------------------------------------------- play sessions

  /** `$inc` of play time and games played, `$max` of the highest score, `$set` of lastActive. */
  function Played(st: UserStats, duration: int, score: int, now: Time): UserStats {
    UserStats(st.totalPlayTime + duration, st.gamesPlayed + 1, Max(st.highestScore, score), now)
  }

  /** `findByIdAndUpdate` on the user's statistics; an unknown id matches nothing. */
  function WithStats(users: map<UserId, User>, id: UserId, duration: int, score: int, now: Time): map<UserId, User> {
    if id in users then users[id := users[id].(stats := Played(users[id].stats, duration, score, now))] else users
  }

  datatype PlayOutcome = PlayGameNotFound | PlayRecorded(session: Session)

  /** `recordPlaySession` on the store: 404 for an unknown game, else record, count and credit. */
  function RecordPlay(st: AnalyticsState, user: UserId, game: GameId, body: SessionBody, now: Time): (res: (PlayOutcome, AnalyticsState))
    ensures res.0.PlayGameNotFound? <==> game !in st.games
    ensures res.0.PlayGameNotFound? ==> res.1 == st
  {
    if game !in st.games then (PlayGameNotFound, st)
    else
      var s := PlaySession(body, user, game, now);
      var c := st.games[game];
      (PlayRecorded(s), AnalyticsState(st.sessions + [s], WithStats(st.users, user, s.playDuration, s.score, now),
                                       st.games[game := c.(totalPlays := c.totalPlays + 1)]))
  }

  /**
   * A recorded play adds its record, raises the game's play count by one,
   * adds the duration to the player's play time, counts one more game played,
   * keeps the larger of the old best and the new score, and changes nothing else.
   */
  lemma RecordPlayEffect(st: AnalyticsState, user: UserId, game: GameId, body: SessionBody, now: Time)
    requires game in st.games
    ensures var (out, st') := RecordPlay(st, user, game, body, now);
      var s := PlaySession(body, user, game, now);
      && out == PlayRecorded(s)
      && st'.sessions == st.sessions + [s]
      && st'.games.Keys == st.games.Keys
      && st'.games[game] == st.games[game].(totalPlays := st.games[game].totalPlays + 1)
      && (forall g :: g in st.games && g != game ==> st'.games[g] == st.games[g])
      && st'.users.Keys == st.users.Keys
      && (forall u :: u in st.users && u != user ==> st'.users[u] == st.users[u])
      && (user in st.users ==>
            var before, after := st.users[user].stats, st'.users[user].stats;
            && st'.users[user] == st.users[user].(stats := after)
            && after.totalPlayTime == before.totalPlayTime + s.playDuration
            && after.gamesPlayed == before.gamesPlayed + 1
            && after.highestScore >= before.highestScore && after.highestScore >= s.score
            && (after.highestScore == before.highestScore || after.highestScore == s.score)
            && after.lastActive == now)
  {
  }

  lemma RecordPlayKeepsValid(st: AnalyticsState, user: UserId, game: GameId, body: SessionBody, now: Time)
    requires ValidAnalytics(st)
    ensures ValidAnalytics(RecordPlay(st, user, game, body, now).1)
  {
    var st' := RecordPlay(st, user, game, body, now).1;
    forall u | u in st'.users ensures DistinctGames(st'.users[u].favourites) {
      assert st'.users[u].favourites == st.users[u].favourites;
    }
  }

  /** A play as it reaches the statistics: its duration and its score. */
  datatype Play = Play(duration: int, score: int)

  function TotalDuration(plays: seq<Play>): int {
    if plays == [] then 0 else TotalDuration(plays[..|plays| - 1]) + plays[|plays| - 1].duration
  }

  /** The statistics after a run of plays, applied in order at the given instant. */
  function PlayAll(st: UserStats, plays: seq<Play>, now: Time): UserStats {
    if plays == [] then st
    else
      var last := plays[|plays| - 1];
      Played(PlayAll(st, plays[..|plays| - 1], now), last.duration, last.score, now)
  }

  /**
   * Over any run of plays the play time grows by the sum of the durations,
   * the games played by the number of plays, and the highest score is the
   * best of the old one and every score played.
   */
  lemma {:induction false} PlayAllTotals(st: UserStats, plays: seq<Play>, now: Time)
    ensures var after := PlayAll(st, plays, now);
      && after.totalPlayTime == st.totalPlayTime + TotalDuration(plays)
      && after.gamesPlayed == st.gamesPlayed + |plays|
      && after.highestScore >= st.highestScore
      && (forall k :: 0 <= k < |plays| ==> after.highestScore >= plays[k].score)
      && (after.highestScore == st.highestScore || exists k :: 0 <= k < |plays| && after.highestScore == plays[k].score)
  {
    if plays != [] {
      var init := plays[..|plays| - 1];
      PlayAllTotals(st, init, now);
      var mid := PlayAll(st, init, now);
      forall k | 0 <= k < |init| ensures plays[k] == init[k] {
      }
      if mid.highestScore != st.highestScore && mid.highestScore >= plays[|plays| - 1].score {
        var k :| 0 <= k < |init| && mid.highestScore == init[k].score;
        assert plays[k] == init[k];
      }
    }
  }

  // ---------------------------------------------------------------- user actions

  /** The action whitelist of `recordUserAction`. */
  predicate AllowedAction(a: string) {
    a in ["favourite", "unfavourite", "view"]
  }

  datatype ActionOutcome = InvalidAction | ActionGameNotFound | ActionRecorded(record: Session)

  /** The record of a user action: no score, duration or completion, the device defaulting to desktop. */
  function ActionRecord(user: UserId, game: GameId, action: string, device: Option<string>, now: Time): (s: Session)
    ensures s.userAction == action && s.playDate == now && s.user == user && s.game == game
    ensures s.score == 0 && s.playDuration == 0 && !s.completed && s.achievementsEarned == []
    ensures device.None? ==> s.deviceType == "desktop"
    ensures device.Some? ==> s.deviceType == device.value
  {
    Session(user, game, now, 0, 0, false, device.GetOr("desktop"), action, None, None, [])
  }

  /** `$addToSet`: g appended unless already present. */
  function AddToSet(s: seq<GameId>, g: GameId): (r: seq<GameId>)
    ensures forall x :: x in r <==> x in s || x == g
    ensures g in s ==> r == s
    ensures g !in s ==> r == s + [g]
  {
    if g in s then s else s + [g]
  }

  /** `$pull`: every occurrence of g removed. */
  function Pull(s: seq<GameId>, g: GameId): (r: seq<GameId>)
    ensures forall x :: x in r <==> x in s && x != g
    ensures |r| <= |s|
  {
    if s == [] then []
    else if s[0] == g then Pull(s[1..], g)
    else [s[0]] + Pull(s[1..], g)
  }

  lemma AddToSetIdempotent(s: seq<GameId>, g: GameId)
    ensures AddToSet(AddToSet(s, g), g) == AddToSet(s, g)
  {
  }

  lemma AddToSetKeepsDistinct(s: seq<GameId>, g: GameId)
    requires DistinctGames(s)
    ensures DistinctGames(AddToSet(s, g))
  {
  }

  lemma {:induction false} PullKeepsDistinct(s: seq<GameId>, g: GameId)
    requires DistinctGames(s)
    ensures DistinctGames(Pull(s, g))
  {
    if s != [] {
      PullKeepsDistinct(s[1..], g);
      if s[0] != g {
        var r := Pull(s[1..], g);
        forall j | 0 <= j < |r| ensures s[0] != r[j] {
          assert r[j] in s[1..];
        }
        assert Pull(s, g) == [s[0]] + r;
      }
    }
  }

  /**
   * The favourite branches as written: "favourite" bumps the count and adds
   * to the user's favourites; "unfavorite" (so spelt) takes both back; any
   * other action leaves them alone.
   */
  function FavouriteEffect(users: map<UserId, User>, games: map<GameId, GameCounters>, user: UserId, game: GameId,
                           action: string): (map<UserId, User>, map<GameId, GameCounters>)
    requires game in games
  {
    var c := games[game];
    if action == "favourite" then
      (if user in users then users[user := users[user].(favourites := AddToSet(users[user].favourites, game))] else users,
       games[game := c.(favouriteCount := c.favouriteCount + 1)])
    else if action == "unfavorite" then
      (if user in users then users[user := users[user].(favourites := Pull(users[user].favourites, game))] else users,
       games[game := c.(favouriteCount := c.favouriteCount - 1)])
    else (users, games)
  }

  /** The last `findByIdAndUpdate`, stamping the user active. */
  function Touch(users: map<UserId, User>, user: UserId, now: Time): map<UserId, User> {
    if user in users then users[user := users[user].(stats := users[user].stats.(lastActive := now))] else users
  }

  /** `recordUserAction` on the store: 400 for an action off the list, before the 404 for an unknown game. */
  function RecordAction(st: AnalyticsState, user: UserId, game: GameId, action: Option<string>, device: Option<string>,
                        now: Time): (res: (ActionOutcome, AnalyticsState))
    ensures res.0 == InvalidAction <==> action.None? || !AllowedAction(action.value)
    ensures res.0 == ActionGameNotFound <==> action.Some? && AllowedAction(action.value) && game !in st.games
    ensures !res.0.ActionRecorded? ==> res.1 == st
  {
    if action.None? || !AllowedAction(action.value) then (InvalidAction, st)
    else if game !in st.games then (ActionGameNotFound, st)
    else
      var r := ActionRecord(user, game, action.value, device, now);
      var (users, games) := FavouriteEffect(st.users, st.games, user, game, action.value);
      (ActionRecorded(r), AnalyticsState(st.sessions + [r], Touch(users, user, now), games))
  }

  /**
   * A favourite adds the record, bumps the game's favourite count by one and
   * puts the game among the user's favourites once; nothing else changes
   * but the user's last activity.
   */
  lemma FavouriteEffectLemma(st: AnalyticsState, user: UserId, game: GameId, device: Option<string>, now: Time)
    requires game in st.games
    ensures var (out, st') := RecordAction(st, user, game, Some("favourite"), device, now);
      && out == ActionRecorded(ActionRecord(user, game, "favourite", device, now))
      && st'.sessions == st.sessions + [out.record]
      && st'.games == st.games[game := st.games[game].(favouriteCount := st.games[game].favouriteCount + 1)]
      && st'.users.Keys == st.users.Keys
      && (forall u :: u in st.users && u != user ==> st'.users[u] == st.users[u])
      && (user in st.users ==>
            && st'.users[user].favourites == AddToSet(st.users[user].favourites, game)
            && st'.users[user].stats == st.users[user].stats.(lastActive := now))
  {
  }

  /**
   * "unfavourite" passes the whitelist but matches neither effect branch:
   * only the record and the last-activity stamp are written, as for "view".
   */
  lemma UnfavouriteChangesNoFavourites(st: AnalyticsState, user: UserId, game: GameId, action: string,
                                       device: Option<string>, now: Time)
    requires game in st.games && action in ["unfavourite", "view"]
    ensures var (out, st') := RecordAction(st, user, game, Some(action), device, now);
      && out.ActionRecorded?
      && st'.sessions == st.sessions + [out.record]
      && st'.games == st.games
      && st'.users == Touch(st.users, user, now)
      && (user in st.users ==> st'.users[user].favourites == st.users[user].favourites)
  {
  }

  /** The "unfavorite" branch is dead: the whitelist rejects that spelling before it is reached. */
  lemma UnfavoriteBranchUnreachable(st: AnalyticsState, user: UserId, game: GameId, device: Option<string>, now: Time)
    ensures RecordAction(st, user, game, Some("unfavorite"), device, now) == (InvalidAction, st)
  {
    assert !AllowedAction("unfavorite");
  }

  /** Favouriting twice leaves the same favourites as favouriting once. */
  lemma FavouriteTwice(st: AnalyticsState, user: UserId, game: GameId, device: Option<string>, now: Time, later: Time)
    requires game in st.games && user in st.users
    ensures var once := RecordAction(st, user, game, Some("favourite"), device, now).1;
      var twice := RecordAction(once, user, game, Some("favourite"), device, later).1;
      twice.users[user].favourites == once.users[user].favourites
      && twice.games[game].favouriteCount == st.games[game].favouriteCount + 2
  {
    var once := RecordAction(st, user, game, Some("favourite"), device, now).1;
    AddToSetIdempotent(st.users[user].favourites, game);
    assert once.users[user].favourites == AddToSet(st.users[user].favourites, game);
  }

  lemma RecordActionKeepsValid(st: AnalyticsState, user: UserId, game: GameId, action: Option<string>,
                               device: Option<string>, now: Time)
    requires ValidAnalytics(st)
    ensures ValidAnalytics(RecordAction(st, user, game, action, device, now).1)
  {
    var st' := RecordAction(st, user, game, action, device, now).1;
    if action.Some? && AllowedAction(action.value) && game in st.games && user in st.users {
      var favs := st.users[user].favourites;
      if action.value == "favourite" {
        AddToSetKeepsDistinct(favs, game);
      }
      assert st'.users[user].favourites == favs || st'.users[user].favourites == AddToSet(favs, game);
    }
  }

  /**
   * Under the invariant, a favourite leaves the game at exactly one place in
   * the user's favourites, as `$addToSet` promises.
   */
  lemma FavouriteHeldOnce(st: AnalyticsState, user: UserId, game: GameId, device: Option<string>, now: Time)
    requires ValidAnalytics(st) && game in st.games && user in st.users
    ensures var favs := RecordAction(st, user, game, Some("favourite"), device, now).1.users[user].favourites;
      exists i :: 0 <= i < |favs| && favs[i] == game && forall j :: 0 <= j < |favs| && favs[j] == game ==> j == i
  {
    var st' := RecordAction(st, user, game, Some("favourite"), device, now).1;
    RecordActionKeepsValid(st, user, game, Some("favourite"), device, now);
    FavouriteEffectLemma(st, user, game, device, now);
    var favs := st'.users[user].favourites;
    assert DistinctGames(favs);
    var i :| 0 <= i < |favs| && favs[i] == game;
  }

  // ---------------------------------------------------------------- the store

  class AnalyticsStore {
    var sessions: seq<Session>
    var users: map<UserId, User>
    var games: map<GameId, GameCounters>

    function State(): AnalyticsState
      reads this
    {
      AnalyticsState(sessions, users, games)
    }

    ghost predicate Valid()
      reads this
    {
      ValidAnalytics(State())
    }

    constructor(users: map<UserId, User>, games: map<GameId, GameCounters>)
      requires ValidAnalytics(AnalyticsState([], users, games))
      ensures Valid()
      ensures State() == AnalyticsState([], users, games)
    {
      this.sessions := [];
      this.users := users;
      this.games := games;
    }

    /** `recordPlaySession`: create the record, then `$inc` the game, then update the user. */
    method RecordPlaySession(user: UserId, game: GameId, body: SessionBody, now: Time) returns (out: PlayOutcome)
      requires Valid()
      modifies this
      ensures Valid()
      ensures (out, State()) == RecordPlay(old(State()), user, game, body, now)
    {
      RecordPlayKeepsValid(State(), user, game, body, now);
      if game !in games {
        return PlayGameNotFound;
      }
      var s := PlaySession(body, user, game, now);
      sessions := sessions + [s];
      var c := games[game];
      games := games[game := c.(totalPlays := c.totalPlays + 1)];
      if user in users {
        var u := users[user];
        users := users[user := u.(stats := Played(u.stats, s.playDuration, s.score, now))];
      }
      out := PlayRecorded(s);
    }

    /** `recordUserAction`: check the action, then the game, record, apply the favourite effect, stamp the user. */
    method RecordUserAction(user: UserId, game: GameId, action: Option<string>, device: Option<string>, now: Time)
      returns (out: ActionOutcome)
      requires Valid()
      modifies this
      ensures Valid()
      ensures (out, State()) == RecordAction(old(State()), user, game, action, device, now)
    {
      RecordActionKeepsValid(State(), user, game, action, device, now);
      if action.None? || !AllowedAction(action.value) {
        return InvalidAction;
      }
      if game !in games {
        return ActionGameNotFound;
      }
      var r := ActionRecord(user, game, action.value, device, now);
      sessions := sessions + [r];
      var (users', games') := FavouriteEffect(users, games, user, game, action.value);
      users, games := users', games';
      if user in users {
        users := users[user := users[user].(stats := users[user].stats.(lastActive := now))];
      }
      out := ActionRecorded(r);
    }
  }

  // ---------------------------------------------------------------- reads

  /** The play records of one game, in collection order. */
  function PlaysOf(sessions: seq<Session>, game: GameId): (r: seq<Session>)
    ensures forall s :: s in r <==> s in sessions && s.game == game && s.userAction == "play"
    ensures |r| <= |sessions|
  {
    if sessions == [] then []
    else
      var rest := PlaysOf(sessions[..|sessions| - 1], game);
      var s := sessions[|sessions| - 1];
      assert sessions == sessions[..|sessions| - 1] + [s];
      if s.game == game && s.userAction == "play" then rest + [s] else rest
  }

  function CompletedCount(plays: seq<Session>): (n: nat)
    ensures n <= |plays|
  {
    if plays == [] then 0
    else CompletedCount(plays[..|plays| - 1]) + (if plays[|plays| - 1].completed then 1 else 0)
  }

  function DurationSum(plays: seq<Session>): int {
    if plays == [] then 0 else DurationSum(plays[..|plays| - 1]) + plays[|plays| - 1].playDuration
  }

  /** `$max` over the durations of a non-empty group. */
  function DurationMax(plays: seq<Session>): (m: int)
    requires plays != []
    ensures forall k :: 0 <= k < |plays| ==> plays[k].playDuration <= m
    ensures exists k :: 0 <= k < |plays| && plays[k].playDuration == m
  {
    var last := plays[|plays| - 1].playDuration;
    if |plays| == 1 then last
    else
      var m := DurationMax(plays[..|plays| - 1]);
      assert forall k :: 0 <= k < |plays| - 1 ==> plays[k] == plays[..|plays| - 1][k];
      Max(m, last)
  }

  /** `Math.round(completed / total * 100)`, and 0 when the game has no play. */
  function CompletionRate(plays: seq<Session>): (r: nat)
    ensures r <= 100
    ensures plays == [] ==> r == 0
    ensures plays != [] ==> 2 * r * |plays| <= 200 * CompletedCount(plays) + |plays| < 2 * r * |plays| + 2 * |plays|
  {
    if plays == [] then 0
    else
      RoundedPercentNearest(CompletedCount(plays), |plays|);
      RoundedPercent(CompletedCount(plays), |plays|)
  }

  datatype DurationStats = DurationStats(max: int, total: int)

  datatype GameAnalytics = GameAnalytics(game: GameId, totalPlays: nat, playDuration: DurationStats, completionRate: nat)

  /** `getGameAnalytics`: 404 for an unknown game, else the figures over its play records. */
  function GetGameAnalytics(gameFound: bool, sessions: seq<Session>, game: GameId): (r: Option<GameAnalytics>)
    ensures r.None? <==> !gameFound
    ensures r.Some? ==> r.value.totalPlays == |PlaysOf(sessions, game)| && r.value.completionRate <= 100
    ensures r.Some? ==> r.value.game == game && r.value.completionRate == CompletionRate(PlaysOf(sessions, game))
    ensures r.Some? && PlaysOf(sessions, game) == [] ==>
      r.value.playDuration == DurationStats(0, 0) && r.value.completionRate == 0
  {
    if !gameFound then None
    else
      var plays := PlaysOf(sessions, game);
      var durations := if plays == [] then DurationStats(0, 0) else DurationStats(DurationMax(plays), DurationSum(plays));
      Some(GameAnalytics(game, |plays|, durations, CompletionRate(plays)))
  }

  /** With plays, the maximum is the largest play's duration and the total their sum. */
  lemma GameDurationsCorrect(sessions: seq<Session>, game: GameId)
    requires PlaysOf(sessions, game) != []
    ensures var r := GetGameAnalytics(true, sessions, game).value.playDuration;
      var plays := PlaysOf(sessions, game);
      && (forall s :: s in plays ==> s.playDuration <= r.max)
      && (exists s :: s in plays && s.playDuration == r.max)
      && r.total == DurationSum(plays)
  {
    var plays := PlaysOf(sessions, game);
    var m := DurationMax(plays);
    var k :| 0 <= k < |plays| && plays[k].playDuration == m;
    assert plays[k] in plays;
  }

  function PlayDateKey(s: Session): real { s.playDate as real }

  /** The user's play records, in collection order. */
  function UserPlays(sessions: seq<Session>, user: UserId): (r: seq<Session>)
    ensures forall s :: s in r <==> s in sessions && s.user == user && s.userAction == "play"
  {
    if sessions == [] then []
    else
      var rest := UserPlays(sessions[..|sessions| - 1], user);
      var s := sessions[|sessions| - 1];
      assert sessions == sessions[..|sessions| - 1] + [s];
      if s.user == user && s.userAction == "play" then rest + [s] else rest
  }

  datatype HistoryResult = HistoryForbidden | History(plays: seq<Session>)

  /** `getUserPlayHistory`: the named user's (or the caller's) play records, newest first. */
  function GetUserPlayHistory(param: Option<UserId>, caller: UserId, isAdmin: bool, sessions: seq<Session>): (r: HistoryResult)
    ensures r.HistoryForbidden? <==> OtherUserDenied(param, caller, isAdmin)
    ensures r.History? ==> r.plays == SortDesc(UserPlays(sessions, param.GetOr(caller)), PlayDateKey)
  {
    if OtherUserDenied(param, caller, isAdmin) then HistoryForbidden
    else History(SortDesc(UserPlays(sessions, param.GetOr(caller)), PlayDateKey))
  }

  /** The history holds exactly the user's play records, each as often as stored, newest first. */
  lemma PlayHistoryCorrect(param: Option<UserId>, caller: UserId, isAdmin: bool, sessions: seq<Session>)
    requires !OtherUserDenied(param, caller, isAdmin)
    ensures var h := GetUserPlayHistory(param, caller, isAdmin, sessions).plays;
      var u := param.GetOr(caller);
      && multiset(h) == multiset(UserPlays(sessions, u))
      && (forall s :: s in h <==> s in sessions && s.user == u && s.userAction == "play")
      && (forall i, j :: 0 <= i < j < |h| ==> h[i].playDate >= h[j].playDate)
  {
    var h := GetUserPlayHistory(param, caller, isAdmin, sessions).plays;
    var ps := UserPlays(sessions, param.GetOr(caller));
    forall s ensures s in h <==> s in ps {
      assert s in h <==> s in multiset(h);
      assert s in ps <==> s in multiset(ps);
    }
    forall i, j | 0 <= i < j < |h| ensures h[i].playDate >= h[j].playDate {
      assert PlayDateKey(h[i]) >= PlayDateKey(h[j]);
    }
  }

  // ---------------------------------------------------------------- achievements

  /** The first achievement of xs with the given name, or -1: `achievements.find(...)`. */
  function FirstWith(xs: seq<Achievement>, name: string): (r: int)
    ensures -1 <= r < |xs|
    ensures r == -1 <==> forall k :: 0 <= k < |xs| ==> xs[k].achievement != name
    ensures r >= 0 ==> xs[r].achievement == name && forall k :: 0 <= k < r ==> xs[k].achievement != name
  {
    IndexWhere(xs, (a: Achievement) => a.achievement == name)
  }

  /** One step of the inner `forEach`: push x unless an achievement of its name is already there. */
  function Keep(acc: seq<Achievement>, x: Achievement): seq<Achievement> {
    if FirstWith(acc, x.achievement) == -1 then acc + [x] else acc
  }

  /** The inner `forEach` over xs. */
  function AddNew(acc: seq<Achievement>, xs: seq<Achievement>): seq<Achievement> {
    if xs == [] then acc else Keep(AddNew(acc, xs[..|xs| - 1]), xs[|xs| - 1])
  }

  datatype AchievementGroup = AchievementGroup(game: GameId, achievements: seq<Achievement>)

  function GroupGame(g: AchievementGroup): GameId { g.game }

  function GroupFor(groups: seq<AchievementGroup>, game: GameId): (r: int)
    ensures -1 <= r < |groups|
    ensures r == -1 <==> forall k :: 0 <= k < |groups| ==> groups[k].game != game
    ensures r >= 0 ==> groups[r].game == game && forall k :: 0 <= k < r ==> groups[k].game != game
  {
    IndexWhere(groups, (g: AchievementGroup) => g.game == game)
  }

  /** One record folded into `achievementsByGame`; new games are added at the end, as object keys are. */
  function AddRecord(groups: seq<AchievementGroup>, r: Session): seq<AchievementGroup> {
    var k := GroupFor(groups, r.game);
    if k == -1 then groups + [AchievementGroup(r.game, AddNew([], r.achievementsEarned))]
    else groups[k := groups[k].(achievements := AddNew(groups[k].achievements, r.achievementsEarned))]
  }

  /** `Object.values(achievementsByGame)` after every record. */
  function Grouped(records: seq<Session>): seq<AchievementGroup> {
    if records == [] then [] else AddRecord(Grouped(records[..|records| - 1]), records[|records| - 1])
  }

  /** The grouping loop of `getUserAchievements`. */
  method GroupAchievements(records: seq<Session>) returns (groups: seq<AchievementGroup>)
    ensures groups == Grouped(records)
  {
    groups := [];
    var i := 0;
    while i < |records|
      invariant 0 <= i <= |records|
      invariant groups == Grouped(records[..i])
    {
      assert records[..i + 1][..i] == records[..i];
      groups := AddRecordTo(groups, records[i]);
      i := i + 1;
    }
    assert records[..i] == records;
  }

  /** The outer `forEach` callback: find or create the game's entry, then push its new achievements. */
  method AddRecordTo(before: seq<AchievementGroup>, r: Session) returns (groups: seq<AchievementGroup>)
    ensures groups == AddRecord(before, r)
  {
    groups := before;
    var k := GroupFor(groups, r.game);
    if k == -1 {
      groups := groups + [AchievementGroup(r.game, [])];
      k := |groups| - 1;
    }
    var acc := PushNew(groups[k].achievements, r.achievementsEarned);
    groups := groups[k := groups[k].(achievements := acc)];
    RecordAdded(before, r, k, acc);
  }

  /** One pass of the outer `forEach` is `AddRecord`, whether or not the game had an entry. */
  lemma RecordAdded(before: seq<AchievementGroup>, r: Session, k: nat, acc: seq<Achievement>)
    requires var g := GroupFor(before, r.game);
      && (g == -1 ==> k == |before| && acc == AddNew([], r.achievementsEarned))
      && (g >= 0 ==> k == g && acc == AddNew(before[g].achievements, r.achievementsEarned))
    ensures var mid := if GroupFor(before, r.game) == -1 then before + [AchievementGroup(r.game, [])] else before;
      k < |mid| && AddRecord(before, r) == mid[k := mid[k].(achievements := acc)]
  {
  }

  /** The inner `forEach`: push each achievement not yet in the game's list. */
  method PushNew(acc0: seq<Achievement>, xs: seq<Achievement>) returns (acc: seq<Achievement>)
    ensures acc == AddNew(acc0, xs)
  {
    acc := acc0;
    var j := 0;
    while j < |xs|
      invariant 0 <= j <= |xs|
      invariant acc == AddNew(acc0, xs[..j])
    {
      assert xs[..j + 1][..j] == xs[..j];
      if FirstWith(acc, xs[j].achievement) == -1 {
        acc := acc + [xs[j]];
      }
      j := j + 1;
    }
    assert xs[..j] == xs;
  }

  /** Every achievement of the records of one game, in record order. */
  function OfGame(records: seq<Session>, game: GameId): seq<Achievement> {
    if records == [] then []
    else
      var r := records[|records| - 1];
      OfGame(records[..|records| - 1], game) + (if r.game == game then r.achievementsEarned else [])
  }

  lemma {:induction false} AddNewAppend(acc: seq<Achievement>, xs: seq<Achievement>, ys: seq<Achievement>)
    ensures AddNew(acc, xs + ys) == AddNew(AddNew(acc, xs), ys)
    decreases |ys|
  {
    if ys == [] {
      assert xs + ys == xs;
    } else {
      var n := |ys| - 1;
      assert (xs + ys)[..|xs + ys| - 1] == xs + ys[..n];
      assert (xs + ys)[|xs + ys| - 1] == ys[n];
      AddNewAppend(acc, xs, ys[..n]);
    }
  }

  /**
   * The groups: one per game that has records, each game once, each holding
   * the first-occurrence selection of that game's achievements in record order.
   */
  ghost predicate GroupingCorrect(groups: seq<AchievementGroup>, records: seq<Session>) {
    && DistinctBy(groups, GroupGame)
    && (forall g :: GroupFor(groups, g) != -1 <==> exists k :: 0 <= k < |records| && records[k].game == g)
    && (forall k :: 0 <= k < |groups| ==> groups[k].achievements == AddNew([], OfGame(records, groups[k].game)))
  }

  lemma {:induction false} NoRecordsOfGame(records: seq<Session>, game: GameId)
    requires forall k :: 0 <= k < |records| ==> records[k].game != game
    ensures OfGame(records, game) == []
  {
    if records != [] {
      NoRecordsOfGame(records[..|records| - 1], game);
    }
  }

  lemma {:induction false} GroupedCorrect(records: seq<Session>)
    ensures GroupingCorrect(Grouped(records), records)
  {
    if records != [] {
      var init := records[..|records| - 1];
      var r := records[|records| - 1];
      GroupedCorrect(init);
      AddRecordCorrect(Grouped(init), init, r);
      assert init + [r] == records;
    }
  }

  lemma AddRecordCorrect(groups: seq<AchievementGroup>, init: seq<Session>, r: Session)
    requires GroupingCorrect(groups, init)
    ensures GroupingCorrect(AddRecord(groups, r), init + [r])
  {
    AddRecordDistinct(groups, r);
    AddRecordGames(groups, init, r);
    AddRecordAchievements(groups, init, r);
  }

  /** Where the group of a game is after one record is folded in. */
  lemma GroupForAfter(groups: seq<AchievementGroup>, r: Session, g: GameId)
    ensures var k, groups' := GroupFor(groups, r.game), AddRecord(groups, r);
      GroupFor(groups', g) == if GroupFor(groups, g) != -1 then GroupFor(groups, g)
                              else if g == r.game then |groups| else -1
  {
    var k, groups' := GroupFor(groups, r.game), AddRecord(groups, r);
    var i := GroupFor(groups, g);
    assert forall m :: 0 <= m < |groups| ==> groups'[m].game == groups[m].game;
    if i != -1 {
      assert groups'[i].game == g;
    } else if g == r.game {
      assert groups'[|groups|].game == g;
    }
  }

  lemma AddRecordDistinct(groups: seq<AchievementGroup>, r: Session)
    requires DistinctBy(groups, GroupGame)
    ensures DistinctBy(AddRecord(groups, r), GroupGame)
  {
    var groups' := AddRecord(groups, r);
    assert forall m :: 0 <= m < |groups| ==> groups'[m].game == groups[m].game;
  }

  lemma AddRecordGames(groups: seq<AchievementGroup>, init: seq<Session>, r: Session)
    requires forall g :: GroupFor(groups, g) != -1 <==> exists k :: 0 <= k < |init| && init[k].game == g
    ensures var records, groups' := init + [r], AddRecord(groups, r);
      forall g :: GroupFor(groups', g) != -1 <==> exists k :: 0 <= k < |records| && records[k].game == g
  {
    var records, groups' := init + [r], AddRecord(groups, r);
    forall g ensures GroupFor(groups', g) != -1 <==> exists k :: 0 <= k < |records| && records[k].game == g {
      GroupForAfter(groups, r, g);
      if exists k :: 0 <= k < |init| && init[k].game == g {
        var k :| 0 <= k < |init| && init[k].game == g;
        assert records[k] == init[k];
      }
      if exists k :: 0 <= k < |records| && records[k].game == g {
        var k :| 0 <= k < |records| && records[k].game == g;
        if k < |init| {
          assert records[k] == init[k];
        }
      }
      assert records[|init|] == r;
    }
  }

  lemma AddRecordAchievements(groups: seq<AchievementGroup>, init: seq<Session>, r: Session)
    requires GroupingCorrect(groups, init)
    ensures var records, groups' := init + [r], AddRecord(groups, r);
      forall m :: 0 <= m < |groups'| ==> groups'[m].achievements == AddNew([], OfGame(records, groups'[m].game))
  {
    var records, groups' := init + [r], AddRecord(groups, r);
    forall m | 0 <= m < |groups'| ensures groups'[m].achievements == AddNew([], OfGame(records, groups'[m].game)) {
      GroupAfterRecord(groups, init, r, m);
    }
  }

  lemma GroupAfterRecord(groups: seq<AchievementGroup>, init: seq<Session>, r: Session, m: int)
    requires GroupingCorrect(groups, init)
    requires 0 <= m < |AddRecord(groups, r)|
    ensures var g := AddRecord(groups, r)[m];
      g.achievements == AddNew([], OfGame(init + [r], g.game))
  {
    var k := GroupFor(groups, r.game);
    if m == |groups| {
      NewGroupAchievements(groups, init, r);
    } else if m == k {
      OfGameSnoc(init, r, r.game);
      AddNewAppend([], OfGame(init, r.game), r.achievementsEarned);
    } else {
      assert AddRecord(groups, r)[m] == groups[m];
      assert groups[m].game != r.game by {
        if k != -1 {
          assert GroupGame(groups[m]) != GroupGame(groups[k]);
        }
      }
      OtherGroupAchievements(groups, init, r, m);
    }
  }

  /** A game seen for the first time gets the record's own achievements, first occurrences kept. */
  lemma NewGroupAchievements(groups: seq<AchievementGroup>, init: seq<Session>, r: Session)
    requires GroupingCorrect(groups, init)
    requires GroupFor(groups, r.game) == -1
    ensures OfGame(init + [r], r.game) == r.achievementsEarned
  {
    assert !exists k :: 0 <= k < |init| && init[k].game == r.game;
    NoRecordsOfGame(init, r.game);
    OfGameSnoc(init, r, r.game);
    assert [] + r.achievementsEarned == r.achievementsEarned;
  }

  /** A group of another game is untouched by the record. */
  lemma OtherGroupAchievements(groups: seq<AchievementGroup>, init: seq<Session>, r: Session, m: int)
    requires GroupingCorrect(groups, init)
    requires 0 <= m < |groups| && groups[m].game != r.game
    ensures groups[m].achievements == AddNew([], OfGame(init + [r], groups[m].game))
  {
    var g := groups[m].game;
    OfGameSnoc(init, r, g);
    assert OfGame(init + [r], g) == OfGame(init, g) + [] == OfGame(init, g);
    assert groups[m].achievements == AddNew([], OfGame(init, g));
  }

  lemma OfGameSnoc(init: seq<Session>, r: Session, g: GameId)
    ensures OfGame(init + [r], g) == OfGame(init, g) + (if r.game == g then r.achievementsEarned else [])
  {
    assert (init + [r])[..|init|] == init;
  }

  lemma {:induction false} FirstWithSnoc(xs: seq<Achievement>, x: Achievement, name: string)
    ensures FirstWith(xs + [x], name) ==
      if FirstWith(xs, name) != -1 then FirstWith(xs, name) else if x.achievement == name then |xs| else -1
  {
    var ys := xs + [x];
    var r := FirstWith(xs, name);
    assert forall k :: 0 <= k < |xs| ==> ys[k] == xs[k];
    if r != -1 {
      assert ys[r].achievement == name;
      assert forall k :: 0 <= k < r ==> ys[k].achievement != name;
    } else if x.achievement == name {
      assert ys[|xs|].achievement == name;
    }
  }

  /**
   * The first-occurrence selection: names are distinct, every name of xs is
   * kept, each kept achievement is the first of xs with its name, and they
   * appear in the order their names first occur.
   */
  ghost predicate KeepsFirst(d: seq<Achievement>, xs: seq<Achievement>) {
    && (forall i, j :: 0 <= i < j < |d| ==> d[i].achievement != d[j].achievement)
    && (forall k :: 0 <= k < |xs| ==> FirstWith(d, xs[k].achievement) != -1)
    && (forall k :: 0 <= k < |d| ==> 0 <= FirstWith(xs, d[k].achievement) && d[k] == xs[FirstWith(xs, d[k].achievement)])
    && (forall i, j :: 0 <= i < j < |d| ==> FirstWith(xs, d[i].achievement) < FirstWith(xs, d[j].achievement))
  }

  lemma {:induction false} DedupKeepsFirst(xs: seq<Achievement>)
    ensures KeepsFirst(AddNew([], xs), xs)
  {
    if xs != [] {
      var p := xs[..|xs| - 1];
      var x := xs[|xs| - 1];
      assert xs == p + [x];
      DedupKeepsFirst(p);
      KeepDistinct(AddNew([], p), p, x);
      KeepCovers(AddNew([], p), p, x);
      KeepTakesFirst(AddNew([], p), p, x);
      KeepInOrder(AddNew([], p), p, x);
    }
  }

  lemma KeepDistinct(d: seq<Achievement>, p: seq<Achievement>, x: Achievement)
    requires KeepsFirst(d, p)
    ensures forall i, j :: 0 <= i < j < |Keep(d, x)| ==> Keep(d, x)[i].achievement != Keep(d, x)[j].achievement
  {
    if FirstWith(d, x.achievement) == -1 {
      AppendDistinct(d, x);
    }
  }

  /** Appending a name d lacks keeps d's names distinct. */
  lemma AppendDistinct(d: seq<Achievement>, x: Achievement)
    requires forall i, j :: 0 <= i < j < |d| ==> d[i].achievement != d[j].achievement
    requires forall k :: 0 <= k < |d| ==> d[k].achievement != x.achievement
    ensures var e := d + [x]; forall i, j :: 0 <= i < j < |e| ==> e[i].achievement != e[j].achievement
  {
    var e := d + [x];
    assert forall k :: 0 <= k < |d| ==> e[k] == d[k];
  }

  lemma KeepCovers(d: seq<Achievement>, p: seq<Achievement>, x: Achievement)
    requires KeepsFirst(d, p)
    ensures var d', ys := Keep(d, x), p + [x];
      forall k :: 0 <= k < |ys| ==> FirstWith(d', ys[k].achievement) != -1
  {
    var d', ys := Keep(d, x), p + [x];
    forall k | 0 <= k < |ys| ensures FirstWith(d', ys[k].achievement) != -1 {
      FirstWithSnoc(d, x, ys[k].achievement);
      if k < |p| {
        assert ys[k] == p[k];
      }
    }
  }

  /** An achievement whose name d lacks has no earlier occurrence in p. */
  lemma NewNameIsNew(d: seq<Achievement>, p: seq<Achievement>, x: Achievement)
    requires KeepsFirst(d, p) && FirstWith(d, x.achievement) == -1
    ensures FirstWith(p, x.achievement) == -1
  {
    forall k | 0 <= k < |p| ensures p[k].achievement != x.achievement {
      assert FirstWith(d, p[k].achievement) != -1;
    }
  }

  lemma KeepTakesFirst(d: seq<Achievement>, p: seq<Achievement>, x: Achievement)
    requires KeepsFirst(d, p)
    ensures var d', ys := Keep(d, x), p + [x];
      forall k :: 0 <= k < |d'| ==> 0 <= FirstWith(ys, d'[k].achievement) && d'[k] == ys[FirstWith(ys, d'[k].achievement)]
  {
    var d', ys := Keep(d, x), p + [x];
    if FirstWith(d, x.achievement) != -1 {
      assert d' == d;
      forall k | 0 <= k < |d| ensures 0 <= FirstWith(ys, d[k].achievement) && d[k] == ys[FirstWith(ys, d[k].achievement)] {
        KeptEntry(d, p, x, k);
      }
    } else {
      NewNameIsNew(d, p, x);
      FirstWithSnocNew(p, x);
      assert d' == d + [x];
      forall k | 0 <= k < |d'| ensures 0 <= FirstWith(ys, d'[k].achievement) && d'[k] == ys[FirstWith(ys, d'[k].achievement)] {
        if k < |d| {
          KeptEntry(d, p, x, k);
          assert d'[k] == d[k];
        } else {
          assert d'[k] == x && ys[|p|] == x;
        }
      }
    }
  }

  /** An achievement already kept is still found first where it was once x is appended. */
  lemma KeptEntry(d: seq<Achievement>, p: seq<Achievement>, x: Achievement, k: int)
    requires KeepsFirst(d, p) && 0 <= k < |d|
    ensures var ys := p + [x]; 0 <= FirstWith(ys, d[k].achievement) && d[k] == ys[FirstWith(ys, d[k].achievement)]
  {
    var i := FirstWith(p, d[k].achievement);
    assert 0 <= i && d[k] == p[i];
    FirstWithSnocFound(p, x, d[k].achievement);
    assert (p + [x])[i] == p[i];
  }

  lemma KeepInOrder(d: seq<Achievement>, p: seq<Achievement>, x: Achievement)
    requires KeepsFirst(d, p)
    ensures var d', ys := Keep(d, x), p + [x];
      forall i, j :: 0 <= i < j < |d'| ==> FirstWith(ys, d'[i].achievement) < FirstWith(ys, d'[j].achievement)
  {
    var d', ys := Keep(d, x), p + [x];
    forall i | 0 <= i < |d| ensures FirstWith(ys, d[i].achievement) == FirstWith(p, d[i].achievement) {
      FirstWithSnocFound(p, x, d[i].achievement);
    }
    if FirstWith(d, x.achievement) == -1 {
      NewNameIsNew(d, p, x);
      FirstWithSnocNew(p, x);
      assert forall i :: 0 <= i < |d| ==> d'[i] == d[i];
      assert d'[|d|] == x;
    }
  }

  lemma FirstWithSnocFound(xs: seq<Achievement>, x: Achievement, name: string)
    requires FirstWith(xs, name) != -1
    ensures FirstWith(xs + [x], name) == FirstWith(xs, name)
  {
    FirstWithSnoc(xs, x, name);
  }

  lemma FirstWithSnocNew(xs: seq<Achievement>, x: Achievement)
    requires FirstWith(xs, x.achievement) == -1
    ensures FirstWith(xs + [x], x.achievement) == |xs|
  {
    FirstWithSnoc(xs, x, x.achievement);
  }

  /** The records `getUserAchievements` reads: the user's records that earned something, newest first. */
  function AchievementRecords(sessions: seq<Session>, user: UserId): seq<Session> {
    SortDesc(WithAchievements(sessions, user), PlayDateKey)
  }

  function WithAchievements(sessions: seq<Session>, user: UserId): (r: seq<Session>)
    ensures forall s :: s in r <==> s in sessions && s.user == user && s.achievementsEarned != []
  {
    if sessions == [] then []
    else
      var rest := WithAchievements(sessions[..|sessions| - 1], user);
      var s := sessions[|sessions| - 1];
      assert sessions == sessions[..|sessions| - 1] + [s];
      if s.user == user && s.achievementsEarned != [] then rest + [s] else rest
  }

  datatype AchievementsResult = AchievementsForbidden | Achievements(groups: seq<AchievementGroup>)

  /** `getUserAchievements`: the access check, the query, then the grouping loop. */
  method GetUserAchievements(param: Option<UserId>, caller: UserId, isAdmin: bool, sessions: seq<Session>)
    returns (r: AchievementsResult)
    ensures r.AchievementsForbidden? <==> OtherUserDenied(param, caller, isAdmin)
    ensures r.Achievements? ==>
      var records := AchievementRecords(sessions, param.GetOr(caller));
      && r.groups == Grouped(records)
      && GroupingCorrect(r.groups, records)
      && (forall k :: 0 <= k < |r.groups| ==> KeepsFirst(r.groups[k].achievements, OfGame(records, r.groups[k].game)))
  {
    if OtherUserDenied(param, caller, isAdmin) {
      return AchievementsForbidden;
    }
    var records := AchievementRecords(sessions, param.GetOr(caller));
    var groups := GroupAchievements(records);
    GroupedCorrect(records);
    forall k | 0 <= k < |groups| ensures KeepsFirst(groups[k].achievements, OfGame(records, groups[k].game)) {
      DedupKeepsFirst(OfGame(records, groups[k].game));
    }
    r := Achievements(groups);
  }
}
