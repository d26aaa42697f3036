/**
 * Score submission and the admin table operations of the leaderboard
 * controller, over an in-memory store of tables. Each request is one
 * atomic step; the game and user lookups arrive as parameters.
 */
module LeaderboardService {
  import opened Common
  import opened StableSort
  import opened LeaderboardModel

  /** The `score` field of a submission as it arrives in the request body. */
  datatype ScoreField = Missing | NotANumber | Number(value: int)

  datatype ScoreCheck = Rejected | Throws | Accepted(score: int)

  /**
   * `!score || typeof score !== "number"` rejects a missing, zero or
   * non-numeric score; a negative one reaches `score = 0`, an assignment
   * to a `const` binding, which throws.
   */
  function CheckScore(f: ScoreField): (r: ScoreCheck)
    ensures r.Rejected? <==> f.Missing? || f.NotANumber? || f == Number(0)
    ensures r.Throws? <==> f.Number? && f.value < 0
    ensures r.Accepted? ==> f == Number(r.score) && r.score > 0
  {
    match f
    case Missing => Rejected
    case NotANumber => Rejected
    case Number(n) => if n == 0 then Rejected else if n < 0 then Throws else Accepted(n)
  }

  datatype SubmitOutcome =
    | GameNotFound                                  // 404
    | InvalidScore                                  // 400
    | SubmitFailed                                  // 500: the handler threw
    | UserNotFound                                  // 404
    | NotImproved(table: Table)                     // 200, nothing saved
    | Applied(table: Table, newHighestScore: Option<int>)  // 201

  function SubmitStatus(o: SubmitOutcome): nat {
    match o
    case GameNotFound => 404
    case InvalidScore => 400
    case SubmitFailed => 500
    case UserNotFound => 404
    case NotImproved(_) => 200
    case Applied(_, _) => 201
  }

  /** The entries after the update and before the re-sort. */
  function Raised(entries: seq<Entry>, u: UserId, username: string, score: int, now: Time): seq<Entry> {
    var i := FindEntry(entries, u);
    if i == -1 then entries + [Entry(u, username, score, now)]
    else entries[i := entries[i].(score := score, achievedAt := now)]
  }

  /**
   * The insert-or-raise-if-higher rule on one table. None: the stored score
   * is at least as high, and nothing is saved.
   */
  function ApplyScore(t: Table, u: UserId, username: string, score: int, now: Time): Option<Table> {
    var i := FindEntry(t.entries, u);
    if i != -1 && score <= t.entries[i].score then None
    else Some(t.(entries := SortDesc(Raised(t.entries, u, username, score, now), ScoreKey), lastUpdated := now))
  }

  /** The entry a successful submission leaves for u: the old username snapshot is kept. */
  function SubmittedEntry(entries: seq<Entry>, u: UserId, username: string, score: int, now: Time): Entry {
    match EntryOf(entries, u)
    case None => Entry(u, username, score, now)
    case Some(e) => e.(score := score, achievedAt := now)
  }

  lemma RaisedMembers(entries: seq<Entry>, u: UserId, username: string, score: int, now: Time)
    requires UniqueUsers(entries)
    ensures var r := Raised(entries, u, username, score, now);
      && UniqueUsers(r)
      && (forall e :: e in r && e.user != u <==> e in entries && e.user != u)
      && (forall e :: e in r && e.user == u <==> e == SubmittedEntry(entries, u, username, score, now))
      && |r| == |entries| + (if EntryOf(entries, u).None? then 1 else 0)
  {
    var i := FindEntry(entries, u);
    var r := Raised(entries, u, username, score, now);
    if i == -1 {
      assert forall k :: 0 <= k < |entries| ==> r[k] == entries[k];
    } else {
      forall e | e in entries && e.user != u ensures e in r {
        var k :| 0 <= k < |entries| && entries[k] == e;
        assert r[k] == e;
      }
      forall e | e in r ensures e.user == u ==> e == r[i] {
        var k :| 0 <= k < |r| && r[k] == e;
        if k != i {
          assert UserOf(entries[k]) != UserOf(entries[i]);
        }
      }
      assert r[i] == SubmittedEntry(entries, u, username, score, now);
    }
  }

  /**
   * The submission rule: nothing changes unless the score beats the stored
   * one; otherwise u's entry carries the new score and time, every other
   * user's entry is untouched, and lastUpdated is now.
   */
  lemma ApplyScoreRule(t: Table, u: UserId, username: string, score: int, now: Time)
    requires UniqueUsers(t.entries)
    ensures var r := ApplyScore(t, u, username, score, now);
      && (r.None? <==> ScoreOf(t.entries, u).Some? && score <= ScoreOf(t.entries, u).value)
      && (r.Some? ==>
        && r.value.game == t.game && r.value.timeframe == t.timeframe && r.value.lastUpdated == now
        && UniqueUsers(r.value.entries)
        && EntryOf(r.value.entries, u) == Some(SubmittedEntry(t.entries, u, username, score, now))
        && (forall v :: v != u ==> EntryOf(r.value.entries, v) == EntryOf(t.entries, v))
        && |r.value.entries| == |t.entries| + (if EntryOf(t.entries, u).None? then 1 else 0))
  {
    var r := ApplyScore(t, u, username, score, now);
    if r.Some? {
      var raised := Raised(t.entries, u, username, score, now);
      var sorted := r.value.entries;
      RaisedMembers(t.entries, u, username, score, now);
      SortDistinct(raised, ScoreKey, UserOf);
      assert multiset(sorted) == multiset(raised);
      assert |sorted| == |raised| by {
        assert |multiset(sorted)| == |multiset(raised)|;
      }
      assert forall e :: e in sorted <==> e in raised by {
        forall e ensures e in sorted <==> e in raised {
          assert e in sorted <==> e in multiset(sorted);
          assert e in raised <==> e in multiset(raised);
        }
      }
      EntryOfSameMembers(raised, sorted, u);
      var e' := SubmittedEntry(t.entries, u, username, score, now);
      assert e' in raised;
      var k :| 0 <= k < |raised| && raised[k] == e';
      FindEntryUnique(raised, k);
      forall v | v != u ensures EntryOf(sorted, v) == EntryOf(t.entries, v) {
        EntryOfSameMembers(raised, sorted, v);
        EntryOfSameMembers(t.entries, raised, v);
      }
    }
  }

  /** A successful submission keeps the table valid. */
  lemma ApplyScoreKeepsValid(t: Table, u: UserId, username: string, score: int, now: Time)
    requires ValidTable(t) && score > 0
    requires EntryOf(t.entries, u).None? ==> username != ""
    ensures var r := ApplyScore(t, u, username, score, now);
      r.Some? ==> ValidTable(r.value)
  {
    var r := ApplyScore(t, u, username, score, now);
    if r.Some? {
      var raised := Raised(t.entries, u, username, score, now);
      RaisedMembers(t.entries, u, username, score, now);
      SortDistinct(raised, ScoreKey, UserOf);
      forall e | e in r.value.entries ensures e.username != "" && e.score > 0 {
        assert e in multiset(r.value.entries);
        assert e in raised;
      }
    }
  }

  /**
   * Ties: after a successful submission the entries holding any one score
   * are the other users' entries with that score, in their previous order,
   * followed by u's entry when it now has that score. The user who reached
   * a score first keeps the better rank.
   */
  lemma {:induction false} ApplyScoreTies(t: Table, u: UserId, username: string, score: int, now: Time, v: real)
    requires ValidTable(t)
    ensures var r := ApplyScore(t, u, username, score, now);
      r.Some? ==>
        WithKey(r.value.entries, ScoreKey, v)
        == WithKey(WithoutUser(t.entries, u), ScoreKey, v)
           + (if v == score as real then [SubmittedEntry(t.entries, u, username, score, now)] else [])
  {
    var r := ApplyScore(t, u, username, score, now);
    if r.Some? {
      SortStable(Raised(t.entries, u, username, score, now), ScoreKey, v);
      RaisedTies(t.entries, u, username, score, now, v);
    }
  }

  lemma RaisedTies(s: seq<Entry>, u: UserId, username: string, score: int, now: Time, v: real)
    requires UniqueUsers(s) && RankedByScore(s)
    requires EntryOf(s, u).Some? ==> score > EntryOf(s, u).value.score
    ensures WithKey(Raised(s, u, username, score, now), ScoreKey, v)
         == WithKey(WithoutUser(s, u), ScoreKey, v)
            + (if v == score as real then [SubmittedEntry(s, u, username, score, now)] else [])
  {
    var e' := SubmittedEntry(s, u, username, score, now);
    var i := FindEntry(s, u);
    if i == -1 {
      WithKeyAppend(s, [e'], ScoreKey, v);
      WithoutAbsentUser(s, u);
      assert [e'][1..] == [];
    } else {
      RaisedAt(s, u, username, score, now);
      AfterEntry(s, i, e');
      SpliceTies(s[..i], s[i], e', s[i + 1..], u, v);
    }
  }

  /** Raising u's entry at its place i splits the table into the part before, the new entry, and the part after. */
  lemma RaisedAt(s: seq<Entry>, u: UserId, username: string, score: int, now: Time)
    requires FindEntry(s, u) >= 0
    ensures var i := FindEntry(s, u);
      && s == s[..i] + [s[i]] + s[i + 1..]
      && Raised(s, u, username, score, now) == s[..i] + [SubmittedEntry(s, u, username, score, now)] + s[i + 1..]
      && forall k :: 0 <= k < |s[..i]| ==> s[..i][k].user != u
  {
    var i := FindEntry(s, u);
    assert s == s[..i] + [s[i]] + s[i + 1..];
  }

  /** In a ranked table of distinct users, everything after place i is another user's and below a score above s[i]'s. */
  lemma AfterEntry(s: seq<Entry>, i: nat, e': Entry)
    requires UniqueUsers(s) && RankedByScore(s) && i < |s| && ScoreKey(s[i]) < ScoreKey(e')
    ensures var b := s[i + 1..];
      forall k :: 0 <= k < |b| ==> b[k].user != s[i].user && ScoreKey(b[k]) < ScoreKey(e')
  {
    var b := s[i + 1..];
    forall k | 0 <= k < |b| ensures b[k].user != s[i].user && ScoreKey(b[k]) < ScoreKey(e') {
      assert b[k] == s[i + 1 + k];
      assert UserOf(s[i]) != UserOf(s[i + 1 + k]);
    }
  }

  /** Replacing u's entry by a higher one that outranks everything after it. */
  lemma SpliceTies(a: seq<Entry>, prev: Entry, e': Entry, b: seq<Entry>, u: UserId, v: real)
    requires prev.user == u
    requires forall k :: 0 <= k < |a| ==> a[k].user != u
    requires forall k :: 0 <= k < |b| ==> b[k].user != u && ScoreKey(b[k]) < ScoreKey(e')
    ensures WithKey(a + [e'] + b, ScoreKey, v)
         == WithKey(WithoutUser(a + [prev] + b, u), ScoreKey, v) + (if v == ScoreKey(e') then [e'] else [])
  {
    DropReplaced(a, prev, b, u);
    WithKeyAppend(a, b, ScoreKey, v);
    WithKeySplice(a, e', b, v);
    if v == ScoreKey(e') {
      WithKeyNone(b, ScoreKey, v);
    }
  }

  /** WithKey over a + [e] + b, piece by piece. */
  lemma WithKeySplice(a: seq<Entry>, e: Entry, b: seq<Entry>, v: real)
    ensures WithKey(a + [e] + b, ScoreKey, v)
         == WithKey(a, ScoreKey, v) + (if v == ScoreKey(e) then [e] else []) + WithKey(b, ScoreKey, v)
  {
    WithKeyAppend(a + [e], b, ScoreKey, v);
    WithKeyAppend(a, [e], ScoreKey, v);
    WithKeySingle(e, v);
  }

  /** Dropping u from a + [u's entry] + b leaves a + b when neither a nor b holds u. */
  lemma DropReplaced(a: seq<Entry>, prev: Entry, b: seq<Entry>, u: UserId)
    requires prev.user == u
    requires forall k :: 0 <= k < |a| ==> a[k].user != u
    requires forall k :: 0 <= k < |b| ==> b[k].user != u
    ensures WithoutUser(a + [prev] + b, u) == a + b
  {
    WithoutAbsentUser(a, u);
    WithoutAbsentUser(b, u);
    WithoutUserAppend(a + [prev], b, u);
    WithoutUserAppend(a, [prev], u);
    assert WithoutUser([prev], u) == [] by {
      assert [prev][1..] == [];
    }
    assert a + [] == a;
  }

  lemma WithKeySingle(e: Entry, v: real)
    ensures WithKey([e], ScoreKey, v) == if v == ScoreKey(e) then [e] else []
  {
    assert [e][1..] == [];
  }

  /** A sequence of submissions (score, time) by one user, applied in order. */
  function SubmitAll(t: Table, u: UserId, username: string, subs: seq<(int, Time)>): Table
    decreases |subs|
  {
    if subs == [] then t
    else SubmitAll(ApplyScore(t, u, username, subs[0].0, subs[0].1).GetOr(t), u, username, subs[1..])
  }

  /**
   * Monotone best score: after any sequence of accepted submissions the
   * stored score is the maximum of the previous score and every submitted
   * one, and no other user's entry has changed.
   */
  lemma {:induction false} SubmitAllKeepsBest(t: Table, u: UserId, username: string, subs: seq<(int, Time)>)
    requires ValidTable(t) && username != ""
    requires forall k :: 0 <= k < |subs| ==> subs[k].0 > 0
    ensures var t' := SubmitAll(t, u, username, subs);
      && ValidTable(t')
      && (ScoreOf(t'.entries, u).Some? <==> ScoreOf(t.entries, u).Some? || |subs| > 0)
      && (ScoreOf(t'.entries, u).Some? ==>
        && (forall k :: 0 <= k < |subs| ==> subs[k].0 <= ScoreOf(t'.entries, u).value)
        && (ScoreOf(t.entries, u).Some? ==> ScoreOf(t.entries, u).value <= ScoreOf(t'.entries, u).value)
        && (ScoreOf(t'.entries, u) == ScoreOf(t.entries, u)
            || exists k :: 0 <= k < |subs| && subs[k].0 == ScoreOf(t'.entries, u).value))
      && (forall v :: v != u ==> EntryOf(t'.entries, v) == EntryOf(t.entries, v))
    decreases |subs|
  {
    if subs != [] {
      var (score, now) := subs[0];
      var t1 := ApplyScore(t, u, username, score, now).GetOr(t);
      ApplyScoreRule(t, u, username, score, now);
      ApplyScoreKeepsValid(t, u, username, score, now);
      SubmitAllKeepsBest(t1, u, username, subs[1..]);
      var t' := SubmitAll(t, u, username, subs);
      assert t' == SubmitAll(t1, u, username, subs[1..]);
      assert ScoreOf(t1.entries, u).Some?;
      assert score <= ScoreOf(t1.entries, u).value;
      forall k | 0 <= k < |subs| ensures subs[k].0 <= ScoreOf(t'.entries, u).value {
        if k > 0 {
          assert subs[k] == subs[1..][k - 1];
        }
      }
      if ScoreOf(t'.entries, u) != ScoreOf(t.entries, u) {
        if ScoreOf(t'.entries, u) == ScoreOf(t1.entries, u) {
          assert subs[0].0 == ScoreOf(t'.entries, u).value;
        } else {
          var k :| 0 <= k < |subs[1..]| && subs[1..][k].0 == ScoreOf(t'.entries, u).value;
          assert subs[k + 1].0 == ScoreOf(t'.entries, u).value;
        }
      }
    }
  }

  /**
   * The table `postScore` writes to: the stored one for (game, timeframe),
   * or a fresh empty one when none is stored; None when the timeframe is
   * not one the schema's enum admits, so `Leaderboard.create` throws.
   */
  function TargetTable(tables: seq<Table>, game: GameId, timeframe: string, now: Time): (r: Option<Table>)
    ensures r.Some? <==> FindTable(tables, game, timeframe) >= 0 || ParseTimeframe(timeframe).Some?
    ensures r.Some? ==> r.value.game == game && TimeframeName(r.value.timeframe) == timeframe
  {
    var ti := FindTable(tables, game, timeframe);
    if ti >= 0 then Some(tables[ti])
    else match ParseTimeframe(timeframe)
      case None => None
      case Some(tf) => Some(NewTable(game, tf, now))
  }

  /**
   * `postScore` on the store: its outcome and the store it leaves. A missing
   * table is created, and saved, before the entry is added, so it stays
   * even when the later `save` of the entry throws.
   */
  function Submit(tables: seq<Table>, game: GameId, gameFound: bool, caller: UserId, user: Option<UserProfile>,
                  score: ScoreField, timeframe: string, now: Time): (SubmitOutcome, seq<Table>)
  {
    if !gameFound then (GameNotFound, tables)
    else match CheckScore(score)
      case Rejected => (InvalidScore, tables)
      case Throws => (SubmitFailed, tables)
      case Accepted(n) =>
        if user.None? then (UserNotFound, tables)
        else
          var ti := FindTable(tables, game, timeframe);
          if ti == -1 && ParseTimeframe(timeframe).None? then (SubmitFailed, tables)
          else
            var stored := if ti == -1 then tables + [NewTable(game, ParseTimeframe(timeframe).value, now)] else tables;
            var si := if ti == -1 then |tables| else ti;
            var t := stored[si];
            if EntryOf(t.entries, caller).None? && user.value.username == "" then (SubmitFailed, stored)
            else match ApplyScore(t, caller, user.value.username, n, now)
              case None => (NotImproved(t), stored)
              case Some(t') => (Applied(t', if n > user.value.highestScore then Some(n) else None), stored[si := t'])
  }

  /**
   * When a submission is refused: the game lookup, the score check, the
   * user lookup, the timeframe the enum admits, and the required username
   * of a new entry, each case exactly.
   */
  lemma SubmitRefusals(tables: seq<Table>, game: GameId, gameFound: bool, caller: UserId, user: Option<UserProfile>,
                       score: ScoreField, timeframe: string, now: Time)
    ensures var out := Submit(tables, game, gameFound, caller, user, score, timeframe, now).0;
      var t := TargetTable(tables, game, timeframe, now);
      && (out == GameNotFound <==> !gameFound)
      && (out == InvalidScore <==> gameFound && CheckScore(score).Rejected?)
      && (out == UserNotFound <==> gameFound && CheckScore(score).Accepted? && user.None?)
      && (out == SubmitFailed <==>
            gameFound && (CheckScore(score).Throws?
            || (CheckScore(score).Accepted? && user.Some? && t.None?)
            || (CheckScore(score).Accepted? && user.Some? && t.Some?
                && EntryOf(t.value.entries, caller).None? && user.value.username == "")))
  {
    var t := TargetTable(tables, game, timeframe, now);
    if gameFound && CheckScore(score).Accepted? && user.Some? && t.Some? {
      SubmitTarget(tables, game, timeframe, now);
    }
  }

  /**
   * When a submission gets through: a score no higher than the stored one
   * answers NotImproved; any other score, from a user with a stored entry
   * or a username, is applied.
   */
  lemma SubmitSucceeds(tables: seq<Table>, game: GameId, gameFound: bool, caller: UserId, user: Option<UserProfile>,
                       score: ScoreField, timeframe: string, now: Time)
    ensures var out := Submit(tables, game, gameFound, caller, user, score, timeframe, now).0;
      var t := TargetTable(tables, game, timeframe, now);
      var ready := gameFound && CheckScore(score).Accepted? && user.Some? && t.Some?;
      && (out.NotImproved? <==>
            ready && ApplyScore(t.value, caller, user.value.username, CheckScore(score).score, now).None?)
      && (out.Applied? <==>
            ready && (EntryOf(t.value.entries, caller).Some? || user.value.username != "")
            && ApplyScore(t.value, caller, user.value.username, CheckScore(score).score, now).Some?)
  {
    var t := TargetTable(tables, game, timeframe, now);
    if gameFound && CheckScore(score).Accepted? && user.Some? && t.Some? {
      SubmitTarget(tables, game, timeframe, now);
      if ApplyScore(t.value, caller, user.value.username, CheckScore(score).score, now).None? {
        assert FindEntry(t.value.entries, caller) != -1;
      }
    }
  }

  /** The table `Submit` updates is the target table, at the lookup's index or appended. */
  lemma SubmitTarget(tables: seq<Table>, game: GameId, timeframe: string, now: Time)
    requires TargetTable(tables, game, timeframe, now).Some?
    ensures var ti := FindTable(tables, game, timeframe);
      var stored := if ti == -1 then tables + [NewTable(game, ParseTimeframe(timeframe).value, now)] else tables;
      stored[if ti == -1 then |tables| else ti] == TargetTable(tables, game, timeframe, now).value
  {
  }

  /**
   * An applied submission writes the raised or inserted table back under
   * its key, or appends it when the table was new, and reports whether
   * the user's recorded highest score is to be raised.
   */
  lemma SubmitWritesBack(tables: seq<Table>, game: GameId, gameFound: bool, caller: UserId, user: Option<UserProfile>,
                         score: ScoreField, timeframe: string, now: Time)
    ensures var r := Submit(tables, game, gameFound, caller, user, score, timeframe, now);
      var ti := FindTable(tables, game, timeframe);
      r.0.Applied? ==>
        var n := CheckScore(score).score;
        && ApplyScore(TargetTable(tables, game, timeframe, now).value, caller, user.value.username, n, now) == Some(r.0.table)
        && r.1 == (if ti >= 0 then tables[ti := r.0.table] else tables + [r.0.table])
        && r.0.newHighestScore == (if n > user.value.highestScore then Some(n) else None)
  {
    var r := Submit(tables, game, gameFound, caller, user, score, timeframe, now);
    var ti := FindTable(tables, game, timeframe);
    if r.0.Applied? {
      var t := TargetTable(tables, game, timeframe, now);
      SubmitTarget(tables, game, timeframe, now);
      if ti == -1 {
        assert (tables + [t.value])[|tables| := r.0.table] == tables + [r.0.table];
      }
    }
  }

  /**
   * The store every other outcome leaves: a score no higher answers 200
   * with the stored table; a failed save of a new entry leaves the freshly
   * created empty table behind; the rest change nothing.
   */
  lemma SubmitLeavesStore(tables: seq<Table>, game: GameId, gameFound: bool, caller: UserId, user: Option<UserProfile>,
                          score: ScoreField, timeframe: string, now: Time)
    ensures var r := Submit(tables, game, gameFound, caller, user, score, timeframe, now);
      var ti := FindTable(tables, game, timeframe);
      var t := TargetTable(tables, game, timeframe, now);
      && (r.0.NotImproved? ==> ti >= 0 && r.0.table == tables[ti] && r.1 == tables && SubmitStatus(r.0) == 200)
      && (r.0 == SubmitFailed ==>
            r.1 == (if CheckScore(score).Accepted? && t.Some? && ti == -1 then tables + [t.value] else tables))
      && (r.0.Applied? || r.0.NotImproved? || r.0 == SubmitFailed || r.1 == tables)
  {
  }

  /**
   * After an applied submission, looking the table up again finds the
   * caller with the submitted score; after one that was not, the stored
   * score is at least the submitted one.
   */
  lemma SubmitRecordsScore(tables: seq<Table>, game: GameId, gameFound: bool, caller: UserId, user: Option<UserProfile>,
                           score: ScoreField, timeframe: string, now: Time)
    requires ValidTables(tables)
    ensures var r := Submit(tables, game, gameFound, caller, user, score, timeframe, now);
      var i := FindTable(r.1, game, timeframe);
      && (r.0.Applied? ==> i >= 0 && r.1[i] == r.0.table && ScoreOf(r.1[i].entries, caller) == Some(CheckScore(score).score))
      && (r.0.NotImproved? ==>
            i >= 0 && ScoreOf(r.1[i].entries, caller).Some?
            && CheckScore(score).score <= ScoreOf(r.1[i].entries, caller).value)
  {
    var r := Submit(tables, game, gameFound, caller, user, score, timeframe, now);
    var ti := FindTable(tables, game, timeframe);
    if r.0.Applied? || r.0.NotImproved? {
      SubmitWritesBack(tables, game, gameFound, caller, user, score, timeframe, now);
      SubmitLeavesStore(tables, game, gameFound, caller, user, score, timeframe, now);
      var t := TargetTable(tables, game, timeframe, now).value;
      assert ValidTable(t) by {
        if ti == -1 {
          assert t.entries == [];
        }
      }
      ApplyScoreRule(t, caller, user.value.username, CheckScore(score).score, now);
      if r.0.Applied? {
        FindTableAfterPut(tables, game, timeframe, r.0.table);
      }
    }
  }

  /** A submission keeps every table valid and the (game, timeframe) index unique. */
  lemma SubmitKeepsValid(tables: seq<Table>, game: GameId, gameFound: bool, caller: UserId, user: Option<UserProfile>,
                         score: ScoreField, timeframe: string, now: Time)
    requires ValidTables(tables)
    ensures ValidTables(Submit(tables, game, gameFound, caller, user, score, timeframe, now).1)
  {
    var r := Submit(tables, game, gameFound, caller, user, score, timeframe, now);
    SubmitWritesBack(tables, game, gameFound, caller, user, score, timeframe, now);
    SubmitLeavesStore(tables, game, gameFound, caller, user, score, timeframe, now);
    var ti := FindTable(tables, game, timeframe);
    var t := TargetTable(tables, game, timeframe, now);
    if t.Some? && ti == -1 {
      PutKeepsValid(tables, -1, t.value);
    }
    if r.0.Applied? {
      ApplyScoreKeepsValid(t.value, caller, user.value.username, CheckScore(score).score, now);
      PutKeepsValid(tables, ti, r.0.table);
    }
  }

  datatype AdminOutcome = Forbidden | TableNotFound | UserNotInTable | Done

  function AdminStatus(o: AdminOutcome): nat {
    match o
    case Forbidden => 403
    case TableNotFound => 404
    case UserNotInTable => 404
    case Done => 200
  }

  /** `resetLeaderboard` on the store: its outcome and the store it leaves. */
  function ResetTable(tables: seq<Table>, isAdmin: bool, game: GameId, timeframe: string, now: Time): (AdminOutcome, seq<Table>)
  {
    if !isAdmin then (Forbidden, tables)
    else
      var i := FindTable(tables, game, timeframe);
      if i == -1 then (TableNotFound, tables)
      else (Done, tables[i := tables[i].(entries := [], lastUpdated := now)])
  }

  /**
   * A reset is refused exactly to non-admins, misses exactly when no table
   * is stored, and otherwise empties that one table, stamps it now, and
   * leaves every other table as it was.
   */
  lemma ResetOutcomes(tables: seq<Table>, isAdmin: bool, game: GameId, timeframe: string, now: Time)
    ensures var r := ResetTable(tables, isAdmin, game, timeframe, now);
      var i := FindTable(tables, game, timeframe);
      && (r.0 == Forbidden <==> !isAdmin)
      && (r.0 == TableNotFound <==> isAdmin && i == -1)
      && (r.0 == Done <==> isAdmin && i >= 0)
      && (r.0 != Done ==> r.1 == tables)
      && (r.0 == Done ==>
            && |r.1| == |tables| && FindTable(r.1, game, timeframe) == i
            && r.1[i].entries == [] && r.1[i].lastUpdated == now && KeyOf(r.1[i]) == KeyOf(tables[i])
            && forall k :: 0 <= k < |tables| && k != i ==> r.1[k] == tables[k])
  {
    var i := FindTable(tables, game, timeframe);
    if isAdmin && i >= 0 {
      FindTableAfterPut(tables, game, timeframe, tables[i].(entries := [], lastUpdated := now));
    }
  }

  lemma ResetKeepsValid(tables: seq<Table>, isAdmin: bool, game: GameId, timeframe: string, now: Time)
    requires ValidTables(tables)
    ensures ValidTables(ResetTable(tables, isAdmin, game, timeframe, now).1)
  {
    var i := FindTable(tables, game, timeframe);
    if isAdmin && i >= 0 {
      PutKeepsValid(tables, i, tables[i].(entries := [], lastUpdated := now));
    }
  }

  /** `deleteUserFromLeaderboard` on the store: its outcome and the store it leaves. */
  function RemoveFrom(tables: seq<Table>, isAdmin: bool, game: GameId, u: UserId, timeframe: string, now: Time): (AdminOutcome, seq<Table>)
  {
    if !isAdmin then (Forbidden, tables)
    else
      var i := FindTable(tables, game, timeframe);
      if i == -1 then (TableNotFound, tables)
      else
        var kept := WithoutUser(tables[i].entries, u);
        if |kept| == |tables[i].entries| then (UserNotInTable, tables)
        else (Done, tables[i := tables[i].(entries := kept, lastUpdated := now)])
  }

  /**
   * A removal is refused exactly to non-admins, misses exactly when no
   * table is stored or the user has no entry in it, and otherwise drops
   * that user's entry, keeps every other entry, stamps the table now, and
   * leaves every other table as it was.
   */
  lemma RemoveOutcomes(tables: seq<Table>, isAdmin: bool, game: GameId, u: UserId, timeframe: string, now: Time)
    ensures var r := RemoveFrom(tables, isAdmin, game, u, timeframe, now);
      var i := FindTable(tables, game, timeframe);
      && (r.0 == Forbidden <==> !isAdmin)
      && (r.0 == TableNotFound <==> isAdmin && i == -1)
      && (r.0 == UserNotInTable <==> isAdmin && i >= 0 && EntryOf(tables[i].entries, u).None?)
      && (r.0 == Done <==> isAdmin && i >= 0 && EntryOf(tables[i].entries, u).Some?)
      && (r.0 != Done ==> r.1 == tables)
      && (r.0 == Done ==>
            && |r.1| == |tables| && FindTable(r.1, game, timeframe) == i
            && EntryOf(r.1[i].entries, u).None?
            && (forall e :: e in r.1[i].entries <==> e in tables[i].entries && e.user != u)
            && r.1[i].lastUpdated == now && KeyOf(r.1[i]) == KeyOf(tables[i])
            && forall k :: 0 <= k < |tables| && k != i ==> r.1[k] == tables[k])
  {
    var r := RemoveFrom(tables, isAdmin, game, u, timeframe, now);
    var i := FindTable(tables, game, timeframe);
    if isAdmin && i >= 0 {
      RemovalKeepsLengthIffAbsent(tables[i].entries, u);
      if r.0 == Done {
        FindTableAfterPut(tables, game, timeframe, r.1[i]);
      }
    }
  }

  lemma RemoveKeepsValid(tables: seq<Table>, isAdmin: bool, game: GameId, u: UserId, timeframe: string, now: Time)
    requires ValidTables(tables)
    ensures ValidTables(RemoveFrom(tables, isAdmin, game, u, timeframe, now).1)
  {
    var i := FindTable(tables, game, timeframe);
    if isAdmin && i >= 0 {
      WithoutUserKeepsValid(tables[i], u);
      PutKeepsValid(tables, i, tables[i].(entries := WithoutUser(tables[i].entries, u), lastUpdated := now));
    }
  }

  /** The leaderboard collection: one table per (game, timeframe). */
  class LeaderboardStore {
    var tables: seq<Table>

    ghost predicate Valid()
      reads this
    {
      ValidTables(tables)
    }

    constructor ()
      ensures Valid() && tables == []
    {
      tables := [];
    }

    /**
     * `postScore`: game lookup, score check, user lookup, find-or-create the
     * table, insert or raise, stamp lastUpdated, re-sort, save, and report
     * whether the user's recorded highest score is to be raised.
     */
    method PostScore(game: GameId, gameFound: bool, caller: UserId, user: Option<UserProfile>,
                     score: ScoreField, timeframe: string, now: Time) returns (out: SubmitOutcome)
      requires Valid()
      modifies this
      ensures Valid()
      ensures (out, tables) == Submit(old(tables), game, gameFound, caller, user, score, timeframe, now)
    {
      ghost var before := tables;
      if !gameFound {
        return GameNotFound;
      }
      var check := CheckScore(score);
      if check.Rejected? {
        return InvalidScore;
      } else if check.Throws? {
        return SubmitFailed;
      }
      var n := check.score;
      if user.None? {
        return UserNotFound;
      }
      var profile := user.value;
      var ti := FindTable(tables, game, timeframe);
      if ti == -1 {
        var tf := ParseTimeframe(timeframe);
        if tf.None? {
          // the schema's enum rejects the timeframe when the table is created
          return SubmitFailed;
        }
        // `Leaderboard.create` saves the empty table at once
        tables := tables + [NewTable(game, tf.value, now)];
        ti := |tables| - 1;
      }
      var t := tables[ti];
      if EntryOf(t.entries, caller).None? && profile.username == "" {
        // the schema requires a username on every entry: save rejects it
        SubmitKeepsValid(before, game, gameFound, caller, user, score, timeframe, now);
        return SubmitFailed;
      }
      var r := ApplyScore(t, caller, profile.username, n, now);
      if r.None? {
        SubmitKeepsValid(before, game, gameFound, caller, user, score, timeframe, now);
        return NotImproved(t);
      }
      tables := tables[ti := r.value];
      out := Applied(r.value, if n > profile.highestScore then Some(n) else None);
      SubmitKeepsValid(before, game, gameFound, caller, user, score, timeframe, now);
    }

    /** `resetLeaderboard`: admin only; empties the table and stamps lastUpdated. */
    method Reset(isAdmin: bool, game: GameId, timeframe: string, now: Time) returns (out: AdminOutcome)
      requires Valid()
      modifies this
      ensures Valid()
      ensures (out, tables) == ResetTable(old(tables), isAdmin, game, timeframe, now)
    {
      if !isAdmin {
        return Forbidden;
      }
      var ti := FindTable(tables, game, timeframe);
      if ti == -1 {
        return TableNotFound;
      }
      var t := tables[ti].(entries := [], lastUpdated := now);
      PutKeepsValid(tables, ti, t);
      tables := tables[ti := t];
      out := Done;
    }

    /**
     * `deleteUserFromLeaderboard`: admin only; filters out the user's entries,
     * reports not-found when the length did not change, else stamps lastUpdated.
     */
    method RemoveUser(isAdmin: bool, game: GameId, u: UserId, timeframe: string, now: Time) returns (out: AdminOutcome)
      requires Valid()
      modifies this
      ensures Valid()
      ensures (out, tables) == RemoveFrom(old(tables), isAdmin, game, u, timeframe, now)
    {
      if !isAdmin {
        return Forbidden;
      }
      var ti := FindTable(tables, game, timeframe);
      if ti == -1 {
        return TableNotFound;
      }
      var t := tables[ti];
      var kept := WithoutUser(t.entries, u);
      if |kept| == |t.entries| {
        return UserNotInTable;
      }
      WithoutUserKeepsValid(t, u);
      var t' := t.(entries := kept, lastUpdated := now);
      PutKeepsValid(tables, ti, t');
      tables := tables[ti := t'];
      out := Done;
    }
  }

  /** Writing a table back where the lookup found it, or appending one it missed, keeps the lookup on it. */
  lemma FindTableAfterPut(tables: seq<Table>, game: GameId, timeframe: string, t: Table)
    requires t.game == game && TimeframeName(t.timeframe) == timeframe
    ensures var i := FindTable(tables, game, timeframe);
      && (i >= 0 ==> FindTable(tables[i := t], game, timeframe) == i)
      && (i == -1 ==> FindTable(tables + [t], game, timeframe) == |tables|)
  {
    var i := FindTable(tables, game, timeframe);
    var after := if i >= 0 then tables[i := t] else tables + [t];
    var j := if i >= 0 then i else |tables|;
    assert forall k :: 0 <= k < j ==> after[k] == tables[k];
    assert after[j] == t;
  }

  /** Writing a valid table back under its own key, or a fresh key, keeps the store valid. */
  lemma PutKeepsValid(tables: seq<Table>, i: int, t: Table)
    requires ValidTables(tables) && ValidTable(t) && -1 <= i < |tables|
    requires i >= 0 ==> KeyOf(t) == KeyOf(tables[i])
    requires i == -1 ==> forall k :: 0 <= k < |tables| ==> KeyOf(tables[k]) != KeyOf(t)
    ensures i >= 0 ==> ValidTables(tables[i := t])
    ensures i == -1 ==> ValidTables(tables + [t])
  {
  }
}
