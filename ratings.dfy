/**
 * Game ratings: one 1..5 star rating per (user, game), created or updated
 * in a single upsert, deleted by its owner or an admin, listed in one of
 * four orders, summarised on the game record, and counted into a 1..5
 * histogram with whole percentages.
 */
module Ratings {
  import opened Common
  import opened StableSort

  /** The schema's bounds: a stored score is between 1 and 5. */
  type Stars = s: int | 1 <= s <= 5 witness 1

  /** Rating ids are handed out by the store, one per created rating. */
  type RatingId = nat

  datatype Rating = Rating(id: RatingId, user: UserId, game: GameId, score: Stars,
                           comments: Option<string>, createdAt: Time, updatedAt: Time)

  function RatingIdOf(r: Rating): RatingId { r.id }
  function RaterOf(r: Rating): (UserId, GameId) { (r.user, r.game) }

  /** The controller's guard `score < 1 || score > 5`; a missing score passes it. */
  predicate ScoreRejected(score: Option<int>) {
    score.Some? && (score.value < 1 || score.value > 5)
  }

  /** `trim: true` on comments. */
  function TrimComments(c: Option<string>): (r: Option<string>)
    ensures r.None? <==> c.None?
    ensures r.Some? ==> r.value == Trim(c.value) && IsTrimmed(r.value)
  {
    match c
    case None => None
    case Some(s) => Some(Trim(s))
  }

  /** `Rating.findOne({ user, game })`. */
  function FindRating(ratings: seq<Rating>, user: UserId, game: GameId): (r: int)
    ensures -1 <= r < |ratings|
    ensures r == -1 <==> forall k :: 0 <= k < |ratings| ==> RaterOf(ratings[k]) != (user, game)
    ensures r >= 0 ==> RaterOf(ratings[r]) == (user, game) && forall k :: 0 <= k < r ==> RaterOf(ratings[k]) != (user, game)
  {
    IndexWhere(ratings, (x: Rating) => x.user == user && x.game == game)
  }

  /** The lookup looks only at the (user, game) pairs. */
  lemma FindSameRaters(a: seq<Rating>, b: seq<Rating>, user: UserId, game: GameId)
    requires |a| == |b| && forall k :: 0 <= k < |a| ==> RaterOf(a[k]) == RaterOf(b[k])
    ensures FindRating(a, user, game) == FindRating(b, user, game)
  {
    var i, j := FindRating(a, user, game), FindRating(b, user, game);
    if i >= 0 && j >= 0 {
      assert !(i < j) && !(j < i);
    }
  }

  /** Appending a rating changes the lookup only for a pair not found before. */
  lemma FindAfterAppend(a: seq<Rating>, r: Rating, user: UserId, game: GameId)
    ensures FindRating(a + [r], user, game) ==
      if FindRating(a, user, game) >= 0 then FindRating(a, user, game)
      else if RaterOf(r) == (user, game) then |a| else -1
  {
    var s := a + [r];
    assert forall k :: 0 <= k < |a| ==> s[k] == a[k];
    assert s[|a|] == r;
    var i, j := FindRating(a, user, game), FindRating(s, user, game);
    if i >= 0 && j >= 0 {
      assert !(i < j) && !(j < i);
    }
  }

  /** `Rating.findById(id)`. */
  function FindRatingById(ratings: seq<Rating>, id: RatingId): (r: int)
    ensures -1 <= r < |ratings|
    ensures r == -1 <==> forall k :: 0 <= k < |ratings| ==> ratings[k].id != id
    ensures r >= 0 ==> ratings[r].id == id
  {
    IndexWhere(ratings, (x: Rating) => x.id == id)
  }

  /** `Rating.find({ game })`, in collection order. */
  function RatingsOf(ratings: seq<Rating>, game: GameId): seq<Rating> {
    if ratings == [] then []
    else if ratings[0].game == game then [ratings[0]] + RatingsOf(ratings[1..], game)
    else RatingsOf(ratings[1..], game)
  }

  /** The game's ratings are exactly the ratings of the game. */
  lemma {:induction false} RatingsOfMembers(ratings: seq<Rating>, game: GameId)
    ensures forall x :: x in RatingsOf(ratings, game) <==> x in ratings && x.game == game
  {
    if ratings != [] {
      RatingsOfMembers(ratings[1..], game);
      assert ratings == [ratings[0]] + ratings[1..];
    }
  }

  /** `Rating.find({ user })`, in collection order. */
  function RatingsBy(ratings: seq<Rating>, user: UserId): seq<Rating> {
    if ratings == [] then []
    else if ratings[0].user == user then [ratings[0]] + RatingsBy(ratings[1..], user)
    else RatingsBy(ratings[1..], user)
  }

  /** The user's ratings are exactly the ratings by the user. */
  lemma {:induction false} RatingsByMembers(ratings: seq<Rating>, user: UserId)
    ensures forall x :: x in RatingsBy(ratings, user) <==> x in ratings && x.user == user
  {
    if ratings != [] {
      RatingsByMembers(ratings[1..], user);
      assert ratings == [ratings[0]] + ratings[1..];
    }
  }

  function ScoreSum(rs: seq<Rating>): nat {
    if rs == [] then 0 else rs[0].score + ScoreSum(rs[1..])
  }

  /** The number of ratings with score s. */
  function CountScore(rs: seq<Rating>, s: int): nat {
    if rs == [] then 0 else (if rs[0].score == s then 1 else 0) + CountScore(rs[1..], s)
  }

  /**
   * The `rating` sub-document of a game: the average times ten, rounded
   * (`Math.round(avg * 10) / 10` keeps one decimal), and the count.
   */
  datatype GameRating = GameRating(averageTenths: nat, totalRatings: nat)

  /** The schema defaults of a game nobody has rated. */
  const Unrated := GameRating(0, 0)

  /** `updateGameAverageRating`: `$avg` and `$sum: 1` over the game's ratings, or 0 and 0 when none is left. */
  function Summarise(ratings: seq<Rating>, game: GameId): GameRating {
    var rs := RatingsOf(ratings, game);
    if |rs| == 0 then Unrated else GameRating(RoundedQuotient(10 * ScoreSum(rs), |rs|), |rs|)
  }

  lemma {:induction false} ScoreSumBounds(rs: seq<Rating>)
    ensures |rs| <= ScoreSum(rs) <= 5 * |rs|
  {
    if rs != [] {
      ScoreSumBounds(rs[1..]);
    }
  }

  /**
   * The summary counts the game's ratings; with none left both fields are 0,
   * otherwise the average lies between 1.0 and 5.0.
   */
  lemma SummaryCorrect(ratings: seq<Rating>, game: GameId)
    ensures var g, rs := Summarise(ratings, game), RatingsOf(ratings, game);
      && g.totalRatings == |rs|
      && (g.totalRatings == 0 <==> g == Unrated)
      && (g.totalRatings == 0 <==> forall k :: 0 <= k < |ratings| ==> ratings[k].game != game)
      && (g.totalRatings > 0 ==> 10 <= g.averageTenths <= 50)
  {
    var rs := RatingsOf(ratings, game);
    RatingsOfMembers(ratings, game);
    if |rs| > 0 {
      ScoreSumBounds(rs);
      RoundedBetween(10 * ScoreSum(rs), |rs|, 10, 50);
      assert rs[0] in rs;
    } else {
      forall k | 0 <= k < |ratings| ensures ratings[k].game != game {
        assert ratings[k] in ratings;
      }
    }
  }

  ghost predicate CommentsTrimmed(ratings: seq<Rating>) {
    forall k :: 0 <= k < |ratings| ==> ratings[k].comments.None? || IsTrimmed(ratings[k].comments.value)
  }

  // ---------------------------------------------------------------- the store

  datatype UpsertOutcome =
    | GameNotFound          // 404
    | ScoreOutOfRange       // 400
    | CreateFailed          // 500: a new rating without a score fails the schema's `required`
    | Created(rating: Rating)
    | Updated(rating: Rating)

  function UpsertStatus(o: UpsertOutcome): int {
    match o
    case GameNotFound => 404
    case ScoreOutOfRange => 400
    case CreateFailed => 500
    case Created(_) => 201
    case Updated(_) => 200
  }

  datatype DeleteOutcome = RatingNotFound | DeleteForbidden | Deleted(rating: Rating)

  function DeleteStatus(o: DeleteOutcome): int {
    match o
    case RatingNotFound => 404
    case DeleteForbidden => 403
    case Deleted(_) => 204
  }

  /** The owner-or-admin guard of `deleteRating`. */
  predicate MayDelete(r: Rating, caller: UserId, isAdmin: bool) {
    r.user == caller || isAdmin
  }

  /** The stored rating after `findByIdAndUpdate(id, { score, comments })`: a missing field is left as it was. */
  function Revised(r: Rating, score: Option<Stars>, comments: Option<string>, now: Time): (u: Rating)
    ensures u.id == r.id && u.user == r.user && u.game == r.game && u.createdAt == r.createdAt && u.updatedAt == now
    ensures u.score == score.GetOr(r.score)
    ensures u.comments == if comments.Some? then TrimComments(comments) else r.comments
  {
    r.(score := score.GetOr(r.score),
       comments := if comments.Some? then TrimComments(comments) else r.comments,
       updatedAt := now)
  }

  /** The rating collection, the id counter, and the `rating` field of each game record that has one. */
  datatype RatingState = RatingState(ratings: seq<Rating>, nextId: nat, gameRatings: map<GameId, GameRating>)

  ghost predicate ValidState(st: RatingState) {
    StoreInvariant(st.ratings, st.nextId, st.gameRatings)
  }

  /** `Rating.findOne({ user, game })` as `getUserGameRating` answers it; None: 404. */
  function GetUserGameRating(ratings: seq<Rating>, user: UserId, game: GameId): (r: Option<Rating>)
    ensures r.Some? ==> r.value in ratings && RaterOf(r.value) == (user, game)
    ensures r.None? <==> forall k :: 0 <= k < |ratings| ==> RaterOf(ratings[k]) != (user, game)
  {
    var i := FindRating(ratings, user, game);
    if i == -1 then None else Some(ratings[i])
  }

  function StarsOf(score: Option<int>): Option<Stars>
    requires !ScoreRejected(score)
  {
    if score.Some? then Some(score.value as Stars) else None
  }

  /** `createOrUpdateRating` on the store: its answer and the store afterwards. */
  function Upsert(st: RatingState, gameFound: bool, caller: UserId, game: GameId, score: Option<int>,
                  comments: Option<string>, now: Time): (UpsertOutcome, RatingState)
  {
    if !gameFound then (GameNotFound, st)
    else if ScoreRejected(score) then (ScoreOutOfRange, st)
    else
      var i := FindRating(st.ratings, caller, game);
      if i >= 0 then
        var r := Revised(st.ratings[i], StarsOf(score), comments, now);
        var rs := st.ratings[i := r];
        (Updated(r), RatingState(rs, st.nextId, st.gameRatings[game := Summarise(rs, game)]))
      else if score.None? then (CreateFailed, st)
      else
        var r := Rating(st.nextId, caller, game, score.value as Stars, TrimComments(comments), now, now);
        var rs := st.ratings + [r];
        (Created(r), RatingState(rs, st.nextId + 1, st.gameRatings[game := Summarise(rs, game)]))
  }

  /**
   * The upsert's answers: 404 without the game, 400 out of range, an update
   * exactly when the caller has rated the game, a create exactly when not and
   * a score is sent, 500 when creating without a score; nothing changes
   * unless a rating is created or updated.
   */
  lemma UpsertOutcomes(st: RatingState, gameFound: bool, caller: UserId, game: GameId, score: Option<int>,
                       comments: Option<string>, now: Time)
    ensures var (out, st') := Upsert(st, gameFound, caller, game, score, comments, now);
      var before := GetUserGameRating(st.ratings, caller, game);
      && (out.GameNotFound? <==> !gameFound)
      && (out.ScoreOutOfRange? <==> gameFound && ScoreRejected(score))
      && (out.Created? <==> gameFound && score.Some? && !ScoreRejected(score) && before.None?)
      && (out.Updated? <==> gameFound && !ScoreRejected(score) && before.Some?)
      && (out.CreateFailed? <==> gameFound && score.None? && before.None?)
      && (!out.Created? && !out.Updated? ==> st' == st)
  {
  }

  /** The upsert's update branch, spelled out. */
  lemma UpsertUpdates(st: RatingState, caller: UserId, game: GameId, score: Option<int>, comments: Option<string>, now: Time)
    requires !ScoreRejected(score) && FindRating(st.ratings, caller, game) >= 0
    ensures var i := FindRating(st.ratings, caller, game);
      var r := Revised(st.ratings[i], StarsOf(score), comments, now);
      Upsert(st, true, caller, game, score, comments, now) ==
        (Updated(r), RatingState(st.ratings[i := r], st.nextId, st.gameRatings[game := Summarise(st.ratings[i := r], game)]))
  {
  }

  /** The upsert's create branch, spelled out. */
  lemma UpsertCreates(st: RatingState, caller: UserId, game: GameId, score: Option<int>, comments: Option<string>, now: Time)
    requires !ScoreRejected(score) && score.Some? && FindRating(st.ratings, caller, game) == -1
    ensures var r := Rating(st.nextId, caller, game, score.value as Stars, TrimComments(comments), now, now);
      Upsert(st, true, caller, game, score, comments, now) ==
        (Created(r), RatingState(st.ratings + [r], st.nextId + 1, st.gameRatings[game := Summarise(st.ratings + [r], game)]))
  {
  }

  lemma UpsertKeepsValid(st: RatingState, gameFound: bool, caller: UserId, game: GameId, score: Option<int>,
                         comments: Option<string>, now: Time)
    requires ValidState(st)
    ensures ValidState(Upsert(st, gameFound, caller, game, score, comments, now).1)
  {
    if gameFound && !ScoreRejected(score) {
      var i := FindRating(st.ratings, caller, game);
      if i >= 0 {
        UpdatePreserves(st.ratings, st.nextId, st.gameRatings, i, Revised(st.ratings[i], StarsOf(score), comments, now));
        UpsertUpdates(st, caller, game, score, comments, now);
      } else if score.Some? {
        var r := Rating(st.nextId, caller, game, score.value as Stars, TrimComments(comments), now, now);
        AppendPreserves(st.ratings, st.nextId, st.gameRatings, r);
        UpsertCreates(st, caller, game, score, comments, now);
      }
    }
  }

  /**
   * The upsert: 404 without the game, 400 out of range, otherwise the
   * caller's rating of the game holds the new score (or keeps the old one
   * when none is sent), created when there was none; the game's summary is
   * refreshed.
   */
  lemma UpsertCorrect(st: RatingState, gameFound: bool, caller: UserId, game: GameId, score: Option<int>,
                      comments: Option<string>, now: Time)
    ensures var (out, st') := Upsert(st, gameFound, caller, game, score, comments, now);
      var before := GetUserGameRating(st.ratings, caller, game);
      out.Created? || out.Updated? ==>
        && GetUserGameRating(st'.ratings, caller, game) == Some(out.rating)
        && out.rating.score == (if score.Some? then score.value else before.value.score)
        && out.rating.updatedAt == now
        && |st'.ratings| == |st.ratings| + (if out.Created? then 1 else 0)
        && st'.gameRatings == st.gameRatings[game := Summarise(st'.ratings, game)]
  {
    if gameFound && !ScoreRejected(score) {
      var i := FindRating(st.ratings, caller, game);
      if i >= 0 {
        var r := Revised(st.ratings[i], StarsOf(score), comments, now);
        ReplaceKeepsRaters(st.ratings, i, r);
        FindSameRaters(st.ratings[i := r], st.ratings, caller, game);
      } else if score.Some? {
        var r := Rating(st.nextId, caller, game, score.value as Stars, TrimComments(comments), now, now);
        FindAfterAppend(st.ratings, r, caller, game);
        assert (st.ratings + [r])[|st.ratings|] == r;
      }
    }
  }

  lemma ReplaceKeepsRaters(a: seq<Rating>, i: nat, r: Rating)
    requires i < |a| && RaterOf(r) == RaterOf(a[i])
    ensures |a[i := r]| == |a| && forall k :: 0 <= k < |a| ==> RaterOf(a[i := r][k]) == RaterOf(a[k])
  {
  }

  /** An upsert of the caller's rating of one game leaves every other (user, game) rating as it was. */
  lemma UpsertKeepsOthers(st: RatingState, gameFound: bool, caller: UserId, game: GameId, score: Option<int>,
                          comments: Option<string>, now: Time, u: UserId, g: GameId)
    requires (u, g) != (caller, game)
    ensures var st' := Upsert(st, gameFound, caller, game, score, comments, now).1;
      GetUserGameRating(st'.ratings, u, g) == GetUserGameRating(st.ratings, u, g)
  {
    if gameFound && !ScoreRejected(score) {
      var i := FindRating(st.ratings, caller, game);
      if i >= 0 {
        var r := Revised(st.ratings[i], StarsOf(score), comments, now);
        ReplaceKeepsRaters(st.ratings, i, r);
        FindSameRaters(st.ratings[i := r], st.ratings, u, g);
        var j := FindRating(st.ratings, u, g);
        if j >= 0 {
          assert j != i;
          assert st.ratings[i := r][j] == st.ratings[j];
        }
      } else if score.Some? {
        var r := Rating(st.nextId, caller, game, score.value as Stars, TrimComments(comments), now, now);
        FindAfterAppend(st.ratings, r, u, g);
        var j := FindRating(st.ratings, u, g);
        if j >= 0 {
          assert (st.ratings + [r])[j] == st.ratings[j];
        }
      }
    }
  }

  /** `deleteRating` on the store: its answer and the store afterwards. */
  function Delete(st: RatingState, id: RatingId, caller: UserId, isAdmin: bool): (DeleteOutcome, RatingState) {
    var i := FindRatingById(st.ratings, id);
    if i == -1 then (RatingNotFound, st)
    else if !MayDelete(st.ratings[i], caller, isAdmin) then (DeleteForbidden, st)
    else (Deleted(st.ratings[i]), Removed(st, i))
  }

  /** The store without its i-th rating, that rating's game summary refreshed. */
  function Removed(st: RatingState, i: nat): RatingState
    requires i < |st.ratings|
  {
    var r := st.ratings[i];
    var rs := st.ratings[..i] + st.ratings[i + 1..];
    RatingState(rs, st.nextId, st.gameRatings[r.game := Summarise(rs, r.game)])
  }

  /**
   * The delete guard: 404 for an unknown id, 403 with nothing deleted unless
   * the caller owns the rating or is an admin; otherwise exactly that rating
   * is gone and its game's summary refreshed (0 and 0 once none is left).
   */
  lemma DeleteCorrect(st: RatingState, id: RatingId, caller: UserId, isAdmin: bool)
    requires DistinctBy(st.ratings, RatingIdOf)
    ensures var (out, st') := Delete(st, id, caller, isAdmin);
      && (out.RatingNotFound? <==> forall k :: 0 <= k < |st.ratings| ==> st.ratings[k].id != id)
      && (out.DeleteForbidden? <==> exists k :: 0 <= k < |st.ratings| && st.ratings[k].id == id && !MayDelete(st.ratings[k], caller, isAdmin))
      && (!out.Deleted? ==> st' == st)
      && (out.Deleted? ==>
            && out.rating in st.ratings && out.rating.id == id && MayDelete(out.rating, caller, isAdmin)
            && (forall x :: x in st'.ratings <==> x in st.ratings && x.id != id)
            && |st'.ratings| == |st.ratings| - 1
            && st'.gameRatings == st.gameRatings[out.rating.game := Summarise(st'.ratings, out.rating.game)])
  {
    var i := FindRatingById(st.ratings, id);
    if i >= 0 {
      forall k | 0 <= k < |st.ratings| && st.ratings[k].id == id ensures k == i {
        assert RatingIdOf(st.ratings[k]) == RatingIdOf(st.ratings[i]);
      }
      if MayDelete(st.ratings[i], caller, isAdmin) {
        RemoveAtMembers(st.ratings, i, id);
      }
    }
  }

  /** Removing the one rating with a given id leaves exactly the others. */
  lemma RemoveAtMembers(rs: seq<Rating>, i: nat, id: RatingId)
    requires i < |rs| && rs[i].id == id
    requires forall k :: 0 <= k < |rs| && rs[k].id == id ==> k == i
    ensures var after := rs[..i] + rs[i + 1..];
      && |after| == |rs| - 1
      && forall x :: x in after <==> x in rs && x.id != id
  {
    var after := rs[..i] + rs[i + 1..];
    assert forall k :: 0 <= k < |after| ==> after[k] == rs[if k < i then k else k + 1];
    forall x | x in rs && x.id != id ensures x in after {
      var k :| 0 <= k < |rs| && rs[k] == x;
      assert after[if k < i then k else k - 1] == x;
    }
  }

  lemma DeleteKeepsValid(st: RatingState, id: RatingId, caller: UserId, isAdmin: bool)
    requires ValidState(st)
    ensures ValidState(Delete(st, id, caller, isAdmin).1)
  {
    var i := FindRatingById(st.ratings, id);
    if i >= 0 && MayDelete(st.ratings[i], caller, isAdmin) {
      RemovePreserves(st, i);
    }
  }

  /** The invariant is a property of the state's value. */
  lemma SameState(a: RatingState, b: RatingState)
    requires a == b && ValidState(a)
    ensures ValidState(b)
  {
  }

  class RatingStore {
    var ratings: seq<Rating>
    var nextId: nat
    /** The `rating` field of each game record that has one. */
    var gameRatings: map<GameId, GameRating>

    function State(): RatingState
      reads this
    {
      RatingState(ratings, nextId, gameRatings)
    }

    ghost predicate Valid()
      reads this
    {
      ValidState(State())
    }

    /** The `rating` sub-document a game reads, the schema defaults when it was never written. */
    function StoredRating(game: GameId): GameRating
      reads this
    {
      if game in gameRatings then gameRatings[game] else Unrated
    }

    constructor()
      ensures Valid()
      ensures ratings == [] && gameRatings == map[]
    {
      ratings := [];
      nextId := 0;
      gameRatings := map[];
    }

    /** In a valid store every game's stored rating is the summary of its ratings. */
    lemma StoredRatingIsSummary(game: GameId)
      requires Valid()
      ensures StoredRating(game) == Summarise(ratings, game)
    {
      if game !in gameRatings {
        SummaryCorrect(ratings, game);
      }
    }

    /** `createOrUpdateRating`, as `Upsert` describes it. */
    method CreateOrUpdate(gameFound: bool, caller: UserId, game: GameId, score: Option<int>,
                          comments: Option<string>, now: Time) returns (out: UpsertOutcome)
      requires Valid()
      modifies this
      ensures Valid()
      ensures (out, State()) == Upsert(old(State()), gameFound, caller, game, score, comments, now)
    {
      ghost var st := State();
      UpsertKeepsValid(st, gameFound, caller, game, score, comments, now);
      if !gameFound {
        return GameNotFound;
      }
      if ScoreRejected(score) {
        return ScoreOutOfRange;
      }
      var i := FindRating(ratings, caller, game);
      if i >= 0 {
        UpsertUpdates(st, caller, game, score, comments, now);
        var r := FindByIndexAndUpdate(i, StarsOf(score), comments, now);
        out := Updated(r);
      } else if score.None? {
        return CreateFailed;
      } else {
        UpsertCreates(st, caller, game, score, comments, now);
        var r := CreateRating(caller, game, score.value as Stars, comments, now);
        out := Created(r);
      }
      UpdateGameAverageRating(game);
      SameState(Upsert(st, gameFound, caller, game, score, comments, now).1, State());
    }

    /** `Rating.findByIdAndUpdate(id, { score, comments }, { new: true })` on the rating at position i. */
    method FindByIndexAndUpdate(i: nat, score: Option<Stars>, comments: Option<string>, now: Time) returns (r: Rating)
      requires i < |ratings|
      modifies this
      ensures r == Revised(old(ratings)[i], score, comments, now)
      ensures ratings == old(ratings)[i := r] && nextId == old(nextId) && gameRatings == old(gameRatings)
    {
      r := Revised(ratings[i], score, comments, now);
      ratings := ratings[i := r];
    }

    /** `Rating.create`: a new rating with the next id and both timestamps now. */
    method CreateRating(user: UserId, game: GameId, score: Stars, comments: Option<string>, now: Time) returns (r: Rating)
      modifies this
      ensures r == Rating(old(nextId), user, game, score, TrimComments(comments), now, now)
      ensures ratings == old(ratings) + [r] && nextId == old(nextId) + 1 && gameRatings == old(gameRatings)
    {
      r := Rating(nextId, user, game, score, TrimComments(comments), now, now);
      ratings, nextId := ratings + [r], nextId + 1;
    }

    /**
     * `updateGameAverageRating`: the game's `rating` field is recomputed from
     * its current ratings (0 and 0 when none is left); nothing else changes.
     */
    method UpdateGameAverageRating(game: GameId)
      modifies this
      ensures ratings == old(ratings) && nextId == old(nextId)
      ensures gameRatings == old(gameRatings)[game := Summarise(ratings, game)]
    {
      gameRatings := gameRatings[game := Summarise(ratings, game)];
    }

    /** `deleteRating`, as `Delete` describes it. */
    method DeleteRating(id: RatingId, caller: UserId, isAdmin: bool) returns (out: DeleteOutcome)
      requires Valid()
      modifies this
      ensures Valid()
      ensures (out, State()) == Delete(old(State()), id, caller, isAdmin)
    {
      ghost var expected := Delete(State(), id, caller, isAdmin);
      DeleteKeepsValid(State(), id, caller, isAdmin);
      var i := FindRatingById(ratings, id);
      if i == -1 {
        return RatingNotFound;
      }
      var r := ratings[i];
      if !MayDelete(r, caller, isAdmin) {
        return DeleteForbidden;
      }
      ratings := ratings[..i] + ratings[i + 1..];
      UpdateGameAverageRating(r.game);
      out := Deleted(r);
      assert (out, State()) == expected;
    }

    /**
     * `getGameRatingStats`: the 404 check, then a 1..5 distribution filled
     * from the `$group` result, its total, and a percentage per score.
     */
    method GameRatingStats(gameFound: bool, game: GameId) returns (out: StatsOutcome)
      ensures out.StatsGameNotFound? <==> !gameFound
      ensures out.Stats? ==>
        var rs := RatingsOf(ratings, game);
        && out.averageTenths == StoredRating(game).averageTenths
        && out.totalRatings == CountTo(rs, 5)
        && |out.distribution| == 5
        && forall k :: 0 <= k < 5 ==> out.distribution[k] == ShareOf(rs, k + 1)
    {
      if !gameFound {
        return StatsGameNotFound;
      }
      var rs := RatingsOf(ratings, game);
      var distribution := FillDistribution(rs);
      var total, shares := Percentages(rs, distribution);
      out := Stats(StoredRating(game).averageTenths, total, shares);
    }
  }

  /**
   * The store's invariant: one rating per (user, game), distinct ids below
   * nextId, trimmed comments, and every game's stored summary agreeing with
   * its ratings.
   */
  ghost predicate StoreInvariant(ratings: seq<Rating>, nextId: nat, gameRatings: map<GameId, GameRating>) {
    && DistinctBy(ratings, RaterOf)
    && DistinctBy(ratings, RatingIdOf)
    && IdsBelow(ratings, nextId)
    && CommentsTrimmed(ratings)
    && SummariesAgree(ratings, gameRatings)
  }

  ghost predicate IdsBelow(ratings: seq<Rating>, nextId: nat) {
    forall k :: 0 <= k < |ratings| ==> ratings[k].id < nextId
  }

  /** Every rated game has a stored summary, and every stored summary is up to date. */
  ghost predicate SummariesAgree(ratings: seq<Rating>, gameRatings: map<GameId, GameRating>) {
    && (forall g :: g in gameRatings ==> gameRatings[g] == Summarise(ratings, g))
    && (forall k :: 0 <= k < |ratings| ==> ratings[k].game in gameRatings)
  }

  /** Refreshing the summary of the one game whose ratings changed keeps all summaries up to date. */
  lemma RefreshAgrees(before: seq<Rating>, after: seq<Rating>, gameRatings: map<GameId, GameRating>, game: GameId)
    requires SummariesAgree(before, gameRatings)
    requires forall g :: g != game ==> Summarise(after, g) == Summarise(before, g)
    requires forall k :: 0 <= k < |after| ==> after[k].game in gameRatings || after[k].game == game
    ensures SummariesAgree(after, gameRatings[game := Summarise(after, game)])
  {
    var m := gameRatings[game := Summarise(after, game)];
    forall g | g in m ensures m[g] == Summarise(after, g) {
      if g != game {
        assert m[g] == gameRatings[g] == Summarise(before, g);
      }
    }
  }

  lemma UpdatePreserves(ratings: seq<Rating>, nextId: nat, gameRatings: map<GameId, GameRating>, i: nat, r: Rating)
    requires StoreInvariant(ratings, nextId, gameRatings)
    requires i < |ratings| && RaterOf(r) == RaterOf(ratings[i]) && r.id == ratings[i].id
    requires r.comments.None? || IsTrimmed(r.comments.value)
    ensures ValidState(RatingState(ratings[i := r], nextId, gameRatings[r.game := Summarise(ratings[i := r], r.game)]))
  {
    var after := ratings[i := r];
    UpdateKeepsKeys(ratings, i, r);
    ReplaceKeepsOthers(ratings, i, r);
    assert IdsBelow(after, nextId) by {
      assert forall k :: 0 <= k < |after| ==> after[k].id == ratings[k].id;
    }
    assert CommentsTrimmed(after) by {
      assert forall k :: 0 <= k < |after| && k != i ==> after[k] == ratings[k];
    }
    assert forall k :: 0 <= k < |after| ==> after[k].game == ratings[k].game;
    RefreshAgrees(ratings, after, gameRatings, r.game);
  }

  lemma AppendPreserves(ratings: seq<Rating>, nextId: nat, gameRatings: map<GameId, GameRating>, r: Rating)
    requires StoreInvariant(ratings, nextId, gameRatings)
    requires r.id == nextId && FindRating(ratings, r.user, r.game) == -1
    requires r.comments.None? || IsTrimmed(r.comments.value)
    ensures ValidState(RatingState(ratings + [r], nextId + 1, gameRatings[r.game := Summarise(ratings + [r], r.game)]))
  {
    var after := ratings + [r];
    AppendKeepsKeys(ratings, r, nextId);
    AppendKeepsOthers(ratings, r);
    assert forall k :: 0 <= k < |ratings| ==> after[k] == ratings[k];
    assert IdsBelow(after, nextId + 1);
    assert CommentsTrimmed(after);
    RefreshAgrees(ratings, after, gameRatings, r.game);
  }

  lemma RemovePreserves(st: RatingState, i: nat)
    requires ValidState(st) && i < |st.ratings|
    ensures ValidState(Removed(st, i))
  {
    RemoveKeepsEntries(st, i);
    RemoveKeepsSummaries(st, i);
  }

  lemma RemoveKeepsEntries(st: RatingState, i: nat)
    requires ValidState(st) && i < |st.ratings|
    ensures var after := Removed(st, i).ratings;
      && DistinctBy(after, RaterOf) && DistinctBy(after, RatingIdOf)
      && IdsBelow(after, st.nextId) && CommentsTrimmed(after)
  {
    RemoveKeepsKeys(st.ratings, i);
    RemoveKeepsFields(st.ratings, i, st.nextId, st.gameRatings);
  }

  lemma RemoveKeepsSummaries(st: RatingState, i: nat)
    requires ValidState(st) && i < |st.ratings|
    ensures SummariesAgree(Removed(st, i).ratings, Removed(st, i).gameRatings)
  {
    var ratings := st.ratings;
    RemoveKeepsOthers(ratings, i);
    RemoveKeepsFields(ratings, i, st.nextId, st.gameRatings);
    RefreshAgrees(ratings, ratings[..i] + ratings[i + 1..], st.gameRatings, ratings[i].game);
  }

  lemma RemoveKeepsFields(ratings: seq<Rating>, i: nat, nextId: nat, gameRatings: map<GameId, GameRating>)
    requires i < |ratings| && IdsBelow(ratings, nextId) && CommentsTrimmed(ratings)
    requires forall k :: 0 <= k < |ratings| ==> ratings[k].game in gameRatings
    ensures var after := ratings[..i] + ratings[i + 1..];
      && IdsBelow(after, nextId) && CommentsTrimmed(after)
      && forall k :: 0 <= k < |after| ==> after[k].game in gameRatings
  {
    var after := ratings[..i] + ratings[i + 1..];
    assert forall k :: 0 <= k < |after| ==> after[k] == ratings[if k < i then k else k + 1];
  }

  lemma UpdateKeepsKeys(ratings: seq<Rating>, i: nat, r: Rating)
    requires i < |ratings| && DistinctBy(ratings, RaterOf) && DistinctBy(ratings, RatingIdOf)
    requires RaterOf(r) == RaterOf(ratings[i]) && r.id == ratings[i].id
    ensures DistinctBy(ratings[i := r], RaterOf) && DistinctBy(ratings[i := r], RatingIdOf)
  {
    var s := ratings[i := r];
    assert forall k :: 0 <= k < |s| ==> RaterOf(s[k]) == RaterOf(ratings[k]) && RatingIdOf(s[k]) == RatingIdOf(ratings[k]);
  }

  lemma AppendKeepsKeys(ratings: seq<Rating>, r: Rating, nextId: nat)
    requires DistinctBy(ratings, RaterOf) && DistinctBy(ratings, RatingIdOf)
    requires forall k :: 0 <= k < |ratings| ==> ratings[k].id < nextId && RaterOf(ratings[k]) != RaterOf(r)
    requires r.id == nextId
    ensures DistinctBy(ratings + [r], RaterOf) && DistinctBy(ratings + [r], RatingIdOf)
  {
    var s := ratings + [r];
    assert forall k :: 0 <= k < |ratings| ==> s[k] == ratings[k];
  }

  lemma RemoveKeepsKeys(ratings: seq<Rating>, i: nat)
    requires i < |ratings| && DistinctBy(ratings, RaterOf) && DistinctBy(ratings, RatingIdOf)
    ensures DistinctBy(ratings[..i] + ratings[i + 1..], RaterOf) && DistinctBy(ratings[..i] + ratings[i + 1..], RatingIdOf)
  {
    var s := ratings[..i] + ratings[i + 1..];
    assert forall k :: 0 <= k < |s| ==> s[k] == ratings[if k < i then k else k + 1];
  }

  lemma {:induction false} RatingsOfAppend(a: seq<Rating>, b: seq<Rating>, g: GameId)
    ensures RatingsOf(a + b, g) == RatingsOf(a, g) + RatingsOf(b, g)
  {
    if a == [] {
      assert a + b == b;
    } else {
      assert (a + b)[0] == a[0];
      assert (a + b)[1..] == a[1..] + b;
      RatingsOfAppend(a[1..], b, g);
    }
  }

  /** Replacing one rating by one of the same game leaves every other game's summary where it was. */
  lemma ReplaceKeepsOthers(before: seq<Rating>, i: nat, r: Rating)
    requires i < |before| && r.game == before[i].game
    ensures forall g :: g != r.game ==> Summarise(before[i := r], g) == Summarise(before, g)
  {
    forall g | g != r.game ensures RatingsOf(before[i := r], g) == RatingsOf(before, g) {
      assert before == before[..i] + ([before[i]] + before[i + 1..]);
      assert before[i := r] == before[..i] + ([r] + before[i + 1..]);
      RatingsOfAppend(before[..i], [before[i]] + before[i + 1..], g);
      RatingsOfAppend(before[..i], [r] + before[i + 1..], g);
    }
  }

  /** Removing one rating leaves every other game's summary where it was. */
  lemma RemoveKeepsOthers(before: seq<Rating>, i: nat)
    requires i < |before|
    ensures forall g :: g != before[i].game ==> Summarise(before[..i] + before[i + 1..], g) == Summarise(before, g)
  {
    forall g | g != before[i].game ensures RatingsOf(before[..i] + before[i + 1..], g) == RatingsOf(before, g) {
      assert before == before[..i] + ([before[i]] + before[i + 1..]);
      RatingsOfAppend(before[..i], [before[i]] + before[i + 1..], g);
      RatingsOfAppend(before[..i], before[i + 1..], g);
    }
  }

  /** Adding one rating leaves every other game's summary where it was. */
  lemma AppendKeepsOthers(before: seq<Rating>, r: Rating)
    ensures forall g :: g != r.game ==> Summarise(before + [r], g) == Summarise(before, g)
  {
    forall g | g != r.game ensures RatingsOf(before + [r], g) == RatingsOf(before, g) {
      RatingsOfAppend(before, [r], g);
    }
  }

  // ---------------------------------------------------------------- listings

  /** The four orders `getGameRatings` offers. */
  datatype RatingOrder = NewestFirst | OldestFirst | HighestFirst | LowestFirst

  /** The `sort` query parameter, "newest" when absent; an unknown word means newest first. */
  function ParseSort(sort: Option<string>): (o: RatingOrder)
    ensures o == OldestFirst <==> sort == Some("oldest")
    ensures o == HighestFirst <==> sort == Some("highest")
    ensures o == LowestFirst <==> sort == Some("lowest")
    ensures o == NewestFirst <==> sort !in {Some("oldest"), Some("highest"), Some("lowest")}
  {
    var word := sort.GetOr("newest");
    if word == "oldest" then OldestFirst
    else if word == "highest" then HighestFirst
    else if word == "lowest" then LowestFirst
    else NewestFirst
  }

  /** The sort key that puts a listing in order o, largest first. */
  function OrderKey(o: RatingOrder): Rating -> real {
    match o
    case NewestFirst => (r: Rating) => r.createdAt as real
    case OldestFirst => (r: Rating) => -(r.createdAt as real)
    case HighestFirst => (r: Rating) => r.score as real
    case LowestFirst => (r: Rating) => -(r.score as real)
  }

  /** `{ createdAt: -1 }`, `{ createdAt: 1 }`, `{ score: -1 }`, `{ score: 1 }`. */
  predicate ComesFirst(o: RatingOrder, a: Rating, b: Rating) {
    match o
    case NewestFirst => a.createdAt >= b.createdAt
    case OldestFirst => a.createdAt <= b.createdAt
    case HighestFirst => a.score >= b.score
    case LowestFirst => a.score <= b.score
  }

  ghost predicate OrderedBy(rs: seq<Rating>, o: RatingOrder) {
    forall i, j :: 0 <= i < j < |rs| ==> ComesFirst(o, rs[i], rs[j])
  }

  function SortRatings(rs: seq<Rating>, o: RatingOrder): seq<Rating> {
    SortDesc(rs, OrderKey(o))
  }

  lemma SortRatingsCorrect(rs: seq<Rating>, o: RatingOrder)
    ensures multiset(SortRatings(rs, o)) == multiset(rs)
    ensures OrderedBy(SortRatings(rs, o), o)
  {
    var r := SortRatings(rs, o);
    var key := OrderKey(o);
    forall i, j | 0 <= i < j < |r| ensures key(r[i]) >= key(r[j]) {
    }
  }

  /** `getGameRatings`: 404 without the game, else the game's ratings in the requested order. */
  function GetGameRatings(gameFound: bool, ratings: seq<Rating>, game: GameId, sort: Option<string>): Option<seq<Rating>> {
    if !gameFound then None else Some(SortRatings(RatingsOf(ratings, game), ParseSort(sort)))
  }

  /** The listing holds exactly the game's ratings, each once, in the order asked for. */
  lemma GameRatingsCorrect(gameFound: bool, ratings: seq<Rating>, game: GameId, sort: Option<string>)
    ensures var r := GetGameRatings(gameFound, ratings, game, sort);
      && (r.None? <==> !gameFound)
      && (r.Some? ==>
            && multiset(r.value) == multiset(RatingsOf(ratings, game))
            && (forall x :: x in r.value <==> x in ratings && x.game == game)
            && OrderedBy(r.value, ParseSort(sort)))
  {
    if gameFound {
      var rs := RatingsOf(ratings, game);
      RatingsOfMembers(ratings, game);
      SortRatingsCorrect(rs, ParseSort(sort));
      var r := SortRatings(rs, ParseSort(sort));
      forall x ensures x in r <==> x in rs {
        assert x in r <==> x in multiset(r);
        assert x in rs <==> x in multiset(rs);
      }
    }
  }

  datatype UserRatings = ListForbidden | Listed(ratings: seq<Rating>)

  /**
   * `getUserRatings`: the ratings of `params.userId`, or of the caller,
   * newest first; another user's only for an admin.
   */
  function GetUserRatings(param: Option<UserId>, caller: UserId, isAdmin: bool, ratings: seq<Rating>): UserRatings {
    if OtherUserDenied(param, caller, isAdmin) then ListForbidden
    else Listed(SortRatings(RatingsBy(ratings, param.GetOr(caller)), NewestFirst))
  }

  lemma UserRatingsCorrect(param: Option<UserId>, caller: UserId, isAdmin: bool, ratings: seq<Rating>)
    ensures var r := GetUserRatings(param, caller, isAdmin, ratings);
      && (r.ListForbidden? <==> param.Some? && param.value != caller && !isAdmin)
      && (r.Listed? ==>
            && multiset(r.ratings) == multiset(RatingsBy(ratings, param.GetOr(caller)))
            && (forall x :: x in r.ratings <==> x in ratings && x.user == param.GetOr(caller))
            && OrderedBy(r.ratings, NewestFirst))
  {
    var rs := RatingsBy(ratings, param.GetOr(caller));
    RatingsByMembers(ratings, param.GetOr(caller));
    SortRatingsCorrect(rs, NewestFirst);
    var r := SortRatings(rs, NewestFirst);
    forall x ensures x in r <==> x in rs {
      assert x in r <==> x in multiset(r);
      assert x in rs <==> x in multiset(rs);
    }
  }

  // ---------------------------------------------------------------- the histogram

  datatype ScoreCount = ScoreCount(score: int, count: nat)
  datatype ScoreShare = ScoreShare(score: int, count: nat, percentage: nat)
  datatype StatsOutcome =
    | StatsGameNotFound
    | Stats(averageTenths: nat, totalRatings: nat, distribution: seq<ScoreShare>)

  /** The counts of scores 1..s. */
  function CountTo(rs: seq<Rating>, s: nat): nat {
    if s == 0 then 0 else CountTo(rs, s - 1) + CountScore(rs, s)
  }

  /** The distribution row of score s: its count and whole percentage of all the game's ratings. */
  function ShareOf(rs: seq<Rating>, s: int): ScoreShare {
    var total := CountTo(rs, 5);
    ScoreShare(s, CountScore(rs, s), if total > 0 then RoundedPercent(CountScore(rs, s), total) else 0)
  }

  /** `$group: { _id: "$score", count: { $sum: 1 } }, $sort: { _id: -1 }` for the scores s down to 1. */
  function ScoreGroups(rs: seq<Rating>, s: nat): seq<ScoreCount> {
    if s == 0 then []
    else if CountScore(rs, s) > 0 then [ScoreCount(s, CountScore(rs, s))] + ScoreGroups(rs, s - 1)
    else ScoreGroups(rs, s - 1)
  }

  function ScoresOf(groups: seq<ScoreCount>): set<int> {
    set k | 0 <= k < |groups| :: groups[k].score
  }

  /**
   * The `distribution` object: keys 1..5 set to 0, then each `$group` row
   * written over its key.
   */
  method FillDistribution(rs: seq<Rating>) returns (distribution: map<int, nat>)
    ensures forall t :: 1 <= t <= 5 ==> t in distribution && distribution[t] == CountScore(rs, t)
  {
    var groups := ScoreGroups(rs, 5);
    ScoreGroupsCorrect(rs, 5);
    distribution := map[];
    for s := 1 to 6
      invariant forall t :: 1 <= t < s ==> t in distribution && distribution[t] == 0
    {
      distribution := distribution[s := 0];
    }
    for j := 0 to |groups|
      invariant forall t :: 1 <= t <= 5 ==> t in distribution
      invariant forall t :: 1 <= t <= 5 ==>
        distribution[t] == if t in ScoresOf(groups[..j]) then CountScore(rs, t) else 0
    {
      ScoresOfSnoc(groups, j);
      distribution := distribution[groups[j].score := groups[j].count];
    }
    assert groups[..|groups|] == groups;
    ZeroUnlessGrouped(rs, groups);
  }

  lemma ScoresOfSnoc(groups: seq<ScoreCount>, j: nat)
    requires j < |groups|
    ensures ScoresOf(groups[..j + 1]) == ScoresOf(groups[..j]) + {groups[j].score}
  {
    assert forall k :: 0 <= k < j ==> groups[..j + 1][k] == groups[..j][k];
    assert groups[..j + 1][j] == groups[j];
  }

  lemma ZeroUnlessGrouped(rs: seq<Rating>, groups: seq<ScoreCount>)
    requires groups == ScoreGroups(rs, 5)
    ensures forall t :: 1 <= t <= 5 ==> (if t in ScoresOf(groups) then CountScore(rs, t) else 0) == CountScore(rs, t)
  {
    ScoreGroupsCorrect(rs, 5);
  }

  /** `reduce` over the values for the total, then one row per key with its whole percentage. */
  method Percentages(rs: seq<Rating>, distribution: map<int, nat>) returns (total: nat, shares: seq<ScoreShare>)
    requires forall t :: 1 <= t <= 5 ==> t in distribution && distribution[t] == CountScore(rs, t)
    ensures total == CountTo(rs, 5)
    ensures |shares| == 5 && forall k :: 0 <= k < 5 ==> shares[k] == ShareOf(rs, k + 1)
  {
    total := 0;
    for s := 1 to 6
      invariant total == CountTo(rs, s - 1)
    {
      total := total + distribution[s];
    }
    shares := [];
    for s := 1 to 6
      invariant |shares| == s - 1
      invariant forall k :: 0 <= k < s - 1 ==> shares[k] == ShareOf(rs, k + 1)
    {
      var count := distribution[s];
      shares := shares + [ScoreShare(s, count, if total > 0 then RoundedPercent(count, total) else 0)];
    }
  }

  /** The `$group` stage yields, for each score with ratings and only those, its count. */
  lemma ScoreGroupsCorrect(rs: seq<Rating>, s: nat)
    ensures var groups := ScoreGroups(rs, s);
      && (forall k :: 0 <= k < |groups| ==> 1 <= groups[k].score <= s && groups[k].count == CountScore(rs, groups[k].score))
      && (forall t :: 1 <= t <= s ==> (t in ScoresOf(groups) <==> CountScore(rs, t) > 0))
  {
    ScoreGroupsCounted(rs, s);
    ScoreGroupsCover(rs, s);
  }

  lemma {:induction false} ScoreGroupsCounted(rs: seq<Rating>, s: nat)
    ensures forall k :: 0 <= k < |ScoreGroups(rs, s)| ==>
      1 <= ScoreGroups(rs, s)[k].score <= s && ScoreGroups(rs, s)[k].count == CountScore(rs, ScoreGroups(rs, s)[k].score)
  {
    if s > 0 {
      ScoreGroupsCounted(rs, s - 1);
      var groups, rest := ScoreGroups(rs, s), ScoreGroups(rs, s - 1);
      if CountScore(rs, s) > 0 {
        var g := ScoreCount(s, CountScore(rs, s));
        assert groups == [g] + rest;
        forall k | 0 <= k < |groups| ensures 1 <= groups[k].score <= s && groups[k].count == CountScore(rs, groups[k].score) {
          if k == 0 {
            assert groups[k] == g;
          } else {
            assert groups[k] == rest[k - 1];
          }
        }
      }
    }
  }

  lemma {:induction false} ScoreGroupsCover(rs: seq<Rating>, s: nat)
    ensures forall t :: 1 <= t <= s ==> (t in ScoresOf(ScoreGroups(rs, s)) <==> CountScore(rs, t) > 0)
  {
    if s > 0 {
      ScoreGroupsCover(rs, s - 1);
      ScoreGroupsCounted(rs, s - 1);
      var rest := ScoreGroups(rs, s - 1);
      assert s !in ScoresOf(rest);
      if CountScore(rs, s) > 0 {
        ScoresOfCons(ScoreCount(s, CountScore(rs, s)), rest);
      }
    }
  }

  lemma ScoresOfCons(g: ScoreCount, rest: seq<ScoreCount>)
    ensures ScoresOf([g] + rest) == {g.score} + ScoresOf(rest)
  {
    var groups := [g] + rest;
    forall t | t in ScoresOf(rest) ensures t in ScoresOf(groups) {
      var k :| 0 <= k < |rest| && rest[k].score == t;
      assert groups[k + 1].score == t;
    }
    assert groups[0].score == g.score;
  }

  lemma {:induction false} CountToStep(rs: seq<Rating>, n: nat)
    requires rs != []
    ensures CountTo(rs, n) == (if 1 <= rs[0].score <= n then 1 else 0) + CountTo(rs[1..], n)
  {
    if n > 0 {
      CountToStep(rs, n - 1);
    }
  }

  /** Every score is one of 1..5, so the five counts add up to the number of ratings. */
  lemma {:induction false} CountsCoverAll(rs: seq<Rating>)
    ensures CountTo(rs, 5) == |rs|
  {
    if rs != [] {
      assert 1 <= rs[0].score <= 5;
      CountToStep(rs, 5);
      CountsCoverAll(rs[1..]);
      assert CountTo(rs, 5) == 1 + CountTo(rs[1..], 5);
    } else {
      NoRatingsNoCounts(rs, 5);
    }
  }

  lemma {:induction false} NoRatingsNoCounts(rs: seq<Rating>, n: nat)
    requires rs == []
    ensures CountTo(rs, n) == 0
  {
    if n > 0 {
      NoRatingsNoCounts(rs, n - 1);
    }
  }

  lemma {:induction false} CountScoreBound(rs: seq<Rating>, s: int)
    ensures CountScore(rs, s) <= |rs|
  {
    if rs != [] {
      CountScoreBound(rs[1..], s);
    }
  }

  /**
   * The distribution: `totalRatings` is the number of the game's ratings, and
   * each share is a whole percentage of it, 0 when there are none.
   */
  lemma DistributionCorrect(ratings: seq<Rating>, game: GameId, s: int)
    ensures var rs := RatingsOf(ratings, game);
      && CountTo(rs, 5) == |rs|
      && ShareOf(rs, s).count <= |rs|
      && ShareOf(rs, s).percentage <= 100
      && (|rs| == 0 ==> ShareOf(rs, s) == ScoreShare(s, 0, 0))
  {
    var rs := RatingsOf(ratings, game);
    CountsCoverAll(rs);
    CountScoreBound(rs, s);
    if |rs| > 0 {
      RoundedPercentNearest(CountScore(rs, s), |rs|);
    }
  }
}
