/**
 * The round lifecycle state machine over the game's tables: the settings
 * (`difficulty`, `game_status`, `ended_at`), `rounds`, `guesses`,
 * `standings_history` and the given `players`. Each SQL statement of the
 * engine is an update of one of these maps.
 */
module Engine {
  import opened Wrappers
  import opened Text
  import opened Parsing
  import opened Tables
  import opened Scoring
  import opened Ranking

  /**
   * Why an admin action changed nothing. `YearOutOfRange` is the failed
   * request of a correct year the database cannot hold.
   */
  datatype Refusal = DifficultyLocked | GameEnded | RoundAlreadyOpen | NoOpenRound | YearOutOfRange

  /** The outcome of an admin action: done, or refused with the message's reason. */
  datatype Reply = Done | Refused(why: Refusal)

  /**
   * The outcome of a guess submission. `YearTooLarge` is the failed request
   * of a guessed year the database cannot hold.
   */
  datatype SubmitResult = NotRegistered | SubmissionsLocked | NoRoundOpen | EnterOne | YearTooLarge | Saved(roundId: nat)

  predicate IsDifficulty(d: string) {
    d == "easy" || d == "hard" || d == "extreme"
  }

  /** `game_status()`: the stored setting, trimmed and lower-cased; anything unrecognised reads as "running". */
  function GameStatusOf(raw: string): (r: string)
    ensures r == "running" || r == "ended"
    ensures r == "ended" <==> LowerAll(Trim(raw)) == "ended"
    ensures raw == "running" || raw == "ended" ==> r == raw
  {
    var s := LowerAll(Trim(raw));
    assert raw == "ended" ==> s == raw;
    assert raw == "running" ==> s == raw;
    if s == "running" || s == "ended" then s else "running"
  }

  /** The difficulty `set_difficulty` stores for a form value: trimmed, lower-cased, "easy" when unknown or missing. */
  function DifficultyOf(raw: string): (r: string)
    ensures IsDifficulty(r)
    ensures raw != "" && IsDifficulty(LowerAll(Trim(raw))) ==> r == LowerAll(Trim(raw))
    ensures raw != "" && !IsDifficulty(LowerAll(Trim(raw))) ==> r == "easy"
    ensures raw == "" ==> r == "easy"
  {
    var d := LowerAll(Trim(if raw == "" then "easy" else raw));
    assert raw == "" ==> d == "easy";
    if IsDifficulty(d) then d else "easy"
  }

  /** `(value or "").strip() or None`: a form text field, blank meaning absent. */
  function Blank(field: string): (r: Option<string>)
    ensures r.Some? ==> r.value != "" && Trimmed(r.value)
    ensures r.None? <==> Trim(field) == ""
    ensures r.Some? ==> r.value == Trim(field)
  {
    var t := Trim(field);
    if t == "" then None else Some(t)
  }

  /** The year typed in a form: trimmed, then parsed; an unparsable or blank value is absent. */
  function YearField(field: string): (r: Option<int>)
    ensures r.Some? <==> Convertible(Trim(field))
  {
    ParseOptionalInt(Trim(field))
  }

  /**
   * A year typed as a decimal numeral, with or without a minus sign, reads
   * as its value, unless it has more digits than `int()` converts.
   */
  lemma YearFieldOfNumeral(field: string, n: nat)
    ensures Trim(field) == ShowNat(n) ==>
              YearField(field) == if |ShowNat(n)| <= MaxStrDigits then Some(n as int) else None
    ensures Trim(field) == "-" + ShowNat(n) ==>
              YearField(field) == if |ShowNat(n)| <= MaxStrDigits then Some(-(n as int)) else None
  {
    if Trim(field) == ShowNat(n) {
      ParseShowRoundTrip(n);
    }
    if Trim(field) == "-" + ShowNat(n) {
      ParseShowRoundTrip(-(n as int));
      assert -(-(n as int)) == n;
    }
  }

  /**
   * The guess upsert of `submit`: a new row starts with zero points and both
   * timestamps `now`; an existing row gets the new song, artist, year and
   * `updated_at` and keeps its points and `created_at`.
   */
  function Upsert(guesses: map<Key, Guess>, key: Key, song: Option<string>, artist: Option<string>, year: Option<int>, now: string): (r: map<Key, Guess>)
    ensures r.Keys == guesses.Keys + {key}
    ensures forall k :: k in guesses && k != key ==> r[k] == guesses[k]
    ensures r[key].song == song && r[key].artist == artist && r[key].year == year && r[key].updatedAt == now
    ensures key in guesses ==> SamePoints(r[key], guesses[key]) && r[key].createdAt == guesses[key].createdAt
    ensures key !in guesses ==> r[key].totalPoints == r[key].pointsSong == r[key].pointsArtist == r[key].pointsYear == 0
    ensures key !in guesses ==> r[key].createdAt == now
  {
    if key in guesses then
      guesses[key := guesses[key].(song := song, artist := artist, year := year, updatedAt := now)]
    else
      guesses[key := Guess(song, artist, year, 0, 0, 0, 0, now, now)]
  }

  /** Submitting the same guess again leaves the table as the first submission left it. */
  lemma UpsertIdempotent(guesses: map<Key, Guess>, key: Key, song: Option<string>, artist: Option<string>, year: Option<int>, now: string)
    ensures var once := Upsert(guesses, key, song, artist, year, now);
            Upsert(once, key, song, artist, year, now) == once
  {
  }

  /** A submission never changes anybody's standings: existing points are kept and new rows carry 0. */
  lemma UpsertKeepsStandings(players: seq<Player>, guesses: map<Key, Guess>, key: Key, song: Option<string>, artist: Option<string>, year: Option<int>, now: string, bound: nat)
    ensures Standings(players, Upsert(guesses, key, song, artist, year, now), bound) == Standings(players, guesses, bound)
  {
    var after := Upsert(guesses, key, song, artist, year, now);
    forall p | p in players ensures PlayerPoints(after, p.id, bound) == PlayerPoints(guesses, p.id, bound) {
      forall rid: nat | rid < bound ensures TotalAt(after, rid, p.id) == TotalAt(guesses, rid, p.id) {
      }
      PointsFrame(after, guesses, p.id, bound);
    }
    assert PlayerRows(players, after, bound) == PlayerRows(players, guesses, bound);
  }

  /** Scoring round `rid` changes a player's points by exactly the change of that round's total. */
  lemma ScoringChangesOneRound(guesses: map<Key, Guess>, rid: nat, rnd: Round, difficulty: string, now: string, pid: nat, bound: nat)
    requires rid < bound
    ensures var after := ScoreRound(guesses, rid, rnd, difficulty, now);
            PlayerPoints(after, pid, bound)
            == PlayerPoints(guesses, pid, bound) + TotalAt(after, rid, pid) - TotalAt(guesses, rid, pid)
  {
    var after := ScoreRound(guesses, rid, rnd, difficulty, now);
    PointsOneRound(guesses, after, rid, pid, bound);
  }

  /** The invariant the engine keeps by convention: no two rounds are open. */
  predicate AtMostOneOpen(rounds: map<nat, Round>) {
    forall i, j :: i in rounds && j in rounds && rounds[i].status == Open && rounds[j].status == Open ==> i == j
  }

  predicate IdsBelow(rounds: map<nat, Round>, next: nat) {
    forall id :: id in rounds ==> id < next
  }

  /** Referential integrity: every key names an existing round and a registered player. */
  predicate Refers(keys: set<Key>, rounds: map<nat, Round>, ids: set<nat>) {
    forall k :: k in keys ==> k.0 in rounds && k.1 in ids
  }

  lemma RefersGrows(keys: set<Key>, r1: map<nat, Round>, r2: map<nat, Round>, ids: set<nat>)
    requires Refers(keys, r1, ids) && r1.Keys <= r2.Keys
    ensures Refers(keys, r2, ids)
  {
  }

  /** Adding a key for an existing round and a registered player keeps the references intact. */
  lemma RefersInsert(keys: set<Key>, key: Key, rounds: map<nat, Round>, ids: set<nat>)
    requires Refers(keys, rounds, ids) && key.0 in rounds && key.1 in ids
    ensures Refers(keys + {key}, rounds, ids)
  {
  }

  /** Adding snapshot rows of an existing round keeps the history's references intact. */
  lemma RefersUnion(history: map<Key, Snapshot>, entries: map<Key, Snapshot>, rounds: map<nat, Round>, ids: set<nat>, rid: nat)
    requires Refers(history.Keys, rounds, ids) && rid in rounds
    requires forall k :: k in entries ==> k.0 == rid && k.1 in ids
    ensures Refers((history + entries).Keys, rounds, ids)
  {
  }

  /** Adding an open round when none is open leaves exactly that one open. */
  lemma OpenNewRound(rounds: map<nat, Round>, next: nat, rnd: Round)
    requires IdsBelow(rounds, next) && rnd.status == Open
    requires forall id :: id in rounds ==> rounds[id].status != Open
    ensures var r := rounds[next := rnd];
            && IdsBelow(r, next + 1) && AtMostOneOpen(r)
            && LatestWith(r, Open, next + 1) == Some(next)
  {
  }

  /** Replacing a round by one with the same status keeps the ids and which rounds are open. */
  lemma KeepStatus(rounds: map<nat, Round>, rid: nat, rnd: Round)
    requires rid in rounds && rnd.status == rounds[rid].status
    ensures var r := rounds[rid := rnd];
            && r.Keys == rounds.Keys
            && (AtMostOneOpen(rounds) ==> AtMostOneOpen(r))
  {
    var r := rounds[rid := rnd];
    assert forall id :: id in r ==> r[id].status == rounds[id].status;
  }

  /** Closing the open round leaves no open round. */
  lemma CloseOpenRound(rounds: map<nat, Round>, rid: nat, now: string)
    requires AtMostOneOpen(rounds) && rid in rounds && rounds[rid].status == Open
    ensures var r := rounds[rid := rounds[rid].(status := Closed, closedAt := Some(now))];
            && r.Keys == rounds.Keys && AtMostOneOpen(r)
            && forall id :: id in r ==> r[id].status != Open
  {
  }

  /** The loop of `get_rank_delta_for_latest` over the latest ranks, once an earlier closed round exists. */
  method RankDifferences(lastRank: map<nat, int>, prevRank: map<nat, int>) returns (delta: map<nat, int>)
    ensures delta == RankChange(lastRank, prevRank)
  {
    delta := map[];
    var pending := lastRank.Keys;
    while pending != {}
      invariant pending <= lastRank.Keys
      invariant delta.Keys == lastRank.Keys - pending
      invariant forall pid :: pid in delta ==>
                  delta[pid] == (if pid in prevRank then prevRank[pid] else lastRank[pid]) - lastRank[pid]
      decreases pending
    {
      var pid :| pid in pending;
      var lr := lastRank[pid];
      var pr := lr;
      if pid in prevRank {
        pr := prevRank[pid];
      }
      delta := delta[pid := pr - lr];
      pending := pending - {pid};
    }
  }

  /** The loop of `save_standings_snapshot`: upserts one history row per standings row, in order. */
  method UpsertSnapshot(history: map<Key, Snapshot>, st: seq<Row>, rid: nat, now: string) returns (h: map<Key, Snapshot>)
    ensures h == history + SnapshotEntries(st, rid, now)
  {
    h := history;
    var i := 0;
    while i < |st|
      invariant 0 <= i <= |st|
      invariant h == history + SnapshotEntries(st[..i], rid, now)
    {
      SnapshotStep(history, st, i, rid, now);
      h := h[(rid, st[i].playerId) := Snapshot(i + 1, st[i].points, now)];
      i := i + 1;
    }
    assert st[..|st|] == st;
  }

  class Game {
    var difficulty: string
    var statusSetting: string
    var endedAt: string
    var rounds: map<nat, Round>
    /** The next id AUTOINCREMENT hands out; deleting rounds never lowers it. */
    var nextRoundId: nat
    var guesses: map<Key, Guess>
    var history: map<Key, Snapshot>
    const players: seq<Player>

    ghost predicate Valid()
      reads this
    {
      && IsDifficulty(difficulty)
      && DistinctPlayerIds(players)
      && IdsBelow(rounds, nextRoundId)
      && AtMostOneOpen(rounds)
      && Refers(guesses.Keys, rounds, PlayerIds(players))
      && Refers(history.Keys, rounds, PlayerIds(players))
    }

    /** The state `init_db` creates: default settings and empty game tables. */
    constructor (players: seq<Player>)
      requires DistinctPlayerIds(players)
      ensures Valid()
      ensures this.players == players
      ensures difficulty == "easy" && statusSetting == "running" && endedAt == ""
      ensures rounds == map[] && guesses == map[] && history == map[] && nextRoundId == 1
    {
      this.players := players;
      difficulty, statusSetting, endedAt := "easy", "running", "";
      rounds, nextRoundId := map[], 1;
      guesses, history := map[], map[];
    }

    function IsEnded(): (r: bool)
      reads this
      ensures statusSetting == "ended" ==> r
      ensures statusSetting == "running" ==> !r
    {
      GameStatusOf(statusSetting) == "ended"
    }

    /** `difficulty_locked()`: some round exists. */
    function DifficultyLockedNow(): (r: bool)
      reads this
      ensures r <==> exists id :: id in rounds
    {
      |rounds| > 0
    }

    /** `get_open_round()`: the open round with the highest id, if any. */
    function OpenRound(): (r: Option<nat>)
      reads this
      requires Valid()
      ensures r.Some? ==> r.value in rounds && rounds[r.value].status == Open
      ensures r.Some? ==> forall id :: id in rounds && rounds[id].status == Open ==> id == r.value
      ensures r.None? <==> forall id :: id in rounds ==> rounds[id].status != Open
    {
      LatestWith(rounds, Open, nextRoundId)
    }

    /** `compute_standings()` over every round so far: one row per player, best first. */
    function CurrentStandings(): (r: seq<Row>)
      reads this
      ensures |r| == |players|
      ensures Sorted(r)
    {
      SortRowsSorted(PlayerRows(players, guesses, nextRoundId));
      Standings(players, guesses, nextRoundId)
    }

    /** The `set_difficulty` action: refused once a round exists. */
    method SetDifficulty(raw: string) returns (reply: Reply)
      requires Valid()
      modifies this`difficulty
      ensures Valid()
      ensures DifficultyLockedNow() ==> reply == Refused(DifficultyLocked) && difficulty == old(difficulty)
      ensures !DifficultyLockedNow() ==> reply == Done && difficulty == DifficultyOf(raw)
    {
      if |rounds| > 0 {
        reply := Refused(DifficultyLocked);
      } else {
        difficulty := DifficultyOf(raw);
        reply := Done;
      }
    }

    /** The `create_round` action: refused when the game is ended or a round is open. */
    method CreateRound(question: string, now: string) returns (reply: Reply)
      requires Valid()
      modifies this`rounds, this`nextRoundId
      ensures Valid()
      ensures IsEnded() ==> reply == Refused(GameEnded)
      ensures !IsEnded() && old(OpenRound()).Some? ==> reply == Refused(RoundAlreadyOpen)
      ensures reply != Done ==> rounds == old(rounds) && nextRoundId == old(nextRoundId)
      ensures !IsEnded() && old(OpenRound()).None? ==>
                && reply == Done
                && rounds == old(rounds)[old(nextRoundId) := Round(Trim(question), Open, None, None, None, now, None)]
                && nextRoundId == old(nextRoundId) + 1
                && OpenRound() == Some(old(nextRoundId))
    {
      if IsEnded() {
        reply := Refused(GameEnded);
      } else if OpenRound().Some? {
        reply := Refused(RoundAlreadyOpen);
      } else {
        var id := nextRoundId;
        var rnd := Round(Trim(question), Open, None, None, None, now, None);
        OpenNewRound(rounds, id, rnd);
        RefersGrows(guesses.Keys, rounds, rounds[id := rnd], PlayerIds(players));
        RefersGrows(history.Keys, rounds, rounds[id := rnd], PlayerIds(players));
        rounds := rounds[id := rnd];
        nextRoundId := nextRoundId + 1;
        reply := Done;
      }
    }

    /** The `set_answers` action: rewrites the open round's correct answers. */
    method SetAnswers(songField: string, artistField: string, yearField: string) returns (reply: Reply)
      requires Valid()
      modifies this`rounds
      ensures Valid()
      ensures IsEnded() ==> reply == Refused(GameEnded) && rounds == old(rounds)
      ensures !IsEnded() && old(OpenRound()).None? ==> reply == Refused(NoOpenRound) && rounds == old(rounds)
      ensures !IsEnded() && old(OpenRound()).Some? ==>
                var rid, year := old(OpenRound()).value, YearField(yearField);
                if !Storable(year) then reply == Refused(YearOutOfRange) && rounds == old(rounds)
                else
                  && reply == Done
                  && rounds == old(rounds)[rid := old(rounds)[rid].(correctSong := Blank(songField),
                                                                    correctArtist := Blank(artistField),
                                                                    correctYear := year)]
    {
      var open := OpenRound();
      var year := YearField(yearField);
      if IsEnded() {
        reply := Refused(GameEnded);
      } else if open.None? {
        reply := Refused(NoOpenRound);
      } else if !Storable(year) {
        reply := Refused(YearOutOfRange);
      } else {
        StoreAnswers(open.value, Blank(songField), Blank(artistField), year);
        reply := Done;
      }
    }

    /** The `UPDATE rounds SET correct_song=?, correct_artist=?, correct_year=?` of `set_answers`. */
    method StoreAnswers(rid: nat, song: Option<string>, artist: Option<string>, year: Option<int>)
      requires Valid() && rid in rounds
      modifies this`rounds
      ensures Valid()
      ensures rounds == old(rounds)[rid := old(rounds)[rid].(correctSong := song, correctArtist := artist, correctYear := year)]
    {
      var rnd := rounds[rid].(correctSong := song, correctArtist := artist, correctYear := year);
      KeepStatus(rounds, rid, rnd);
      rounds := rounds[rid := rnd];
    }

    /** `compute_and_store_round_scores`: scores every guess of round `rid`; a missing round is a no-op. */
    method ComputeAndStoreRoundScores(rid: nat, now: string)
      requires Valid()
      modifies this`guesses
      ensures Valid()
      ensures rid !in rounds ==> guesses == old(guesses)
      ensures rid in rounds ==> guesses == ScoreRound(old(guesses), rid, rounds[rid], difficulty, now)
    {
      if rid !in rounds {
        return;
      }
      var rnd := rounds[rid];
      var pending := set k | k in guesses && k.0 == rid;
      ScorePartStart(guesses, rid, rnd, difficulty, now);
      while pending != {}
        invariant forall k :: k in pending ==> k in old(guesses) && k.0 == rid
        invariant guesses == ScorePart(old(guesses), rid, rnd, difficulty, now, pending)
        decreases pending
      {
        var k :| k in pending;
        ScorePartStep(old(guesses), rid, rnd, difficulty, now, pending, k);
        guesses := guesses[k := ScoreGuess(guesses[k], rnd, difficulty, now)];
        pending := pending - {k};
      }
      ScorePartDone(old(guesses), rid, rnd, difficulty, now);
      assert guesses == ScoreRound(old(guesses), rid, rnd, difficulty, now);
    }

    /**
     * `save_standings_snapshot`: one history row per standings row, rank the
     * 1-based position, replacing rows already stored for this round.
     */
    method SaveStandingsSnapshot(rid: nat, now: string)
      requires Valid() && rid in rounds
      modifies this`history
      ensures Valid()
      ensures history == old(history) + SnapshotEntries(CurrentStandings(), rid, now)
    {
      var st := Standings(players, guesses, nextRoundId);
      var h := UpsertSnapshot(history, st, rid, now);
      SnapshotNamesPlayers(players, guesses, nextRoundId, rid, now);
      RefersUnion(history, SnapshotEntries(st, rid, now), rounds, PlayerIds(players), rid);
      history := h;
    }

    /** Lines shared by `close_round` and `end_game`: score, mark closed, snapshot. */
    method CloseAndScore(rid: nat, now: string)
      requires Valid() && OpenRound() == Some(rid)
      modifies this`guesses, this`rounds, this`history
      ensures Valid()
      ensures guesses == ScoreRound(old(guesses), rid, old(rounds)[rid], difficulty, now)
      ensures rounds == old(rounds)[rid := old(rounds)[rid].(status := Closed, closedAt := Some(now))]
      ensures history == old(history) + SnapshotEntries(CurrentStandings(), rid, now)
      ensures OpenRound() == None
    {
      ComputeAndStoreRoundScores(rid, now);
      CloseOpenRound(rounds, rid, now);
      rounds := rounds[rid := rounds[rid].(status := Closed, closedAt := Some(now))];
      SaveStandingsSnapshot(rid, now);
    }

    /** The `close_round` action. */
    method CloseRound(now: string) returns (reply: Reply)
      requires Valid()
      modifies this`guesses, this`rounds, this`history
      ensures Valid()
      ensures IsEnded() ==> reply == Refused(GameEnded)
      ensures !IsEnded() && old(OpenRound()).None? ==> reply == Refused(NoOpenRound)
      ensures reply != Done ==> guesses == old(guesses) && rounds == old(rounds) && history == old(history)
      ensures !IsEnded() && old(OpenRound()).Some? ==>
                var rid := old(OpenRound()).value;
                && reply == Done
                && guesses == ScoreRound(old(guesses), rid, old(rounds)[rid], difficulty, now)
                && rounds == old(rounds)[rid := old(rounds)[rid].(status := Closed, closedAt := Some(now))]
                && history == old(history) + SnapshotEntries(CurrentStandings(), rid, now)
                && OpenRound() == None
    {
      var open := OpenRound();
      if IsEnded() {
        reply := Refused(GameEnded);
      } else if open.None? {
        reply := Refused(NoOpenRound);
      } else {
        CloseAndScore(open.value, now);
        reply := Done;
      }
    }

    /** The `end_game` action: closes and scores any open round, then locks the game. */
    method EndGame(now: string) returns (alreadyEnded: bool)
      requires Valid()
      modifies this`guesses, this`rounds, this`history, this`statusSetting, this`endedAt
      ensures Valid()
      ensures alreadyEnded == old(IsEnded())
      ensures alreadyEnded ==>
                && guesses == old(guesses) && rounds == old(rounds) && history == old(history)
                && statusSetting == old(statusSetting) && endedAt == old(endedAt)
      ensures !alreadyEnded && old(OpenRound()).None? ==>
                guesses == old(guesses) && rounds == old(rounds) && history == old(history)
      ensures !alreadyEnded && old(OpenRound()).Some? ==>
                var rid := old(OpenRound()).value;
                && guesses == ScoreRound(old(guesses), rid, old(rounds)[rid], difficulty, now)
                && rounds == old(rounds)[rid := old(rounds)[rid].(status := Closed, closedAt := Some(now))]
                && history == old(history) + SnapshotEntries(CurrentStandings(), rid, now)
      ensures !alreadyEnded ==> statusSetting == "ended" && endedAt == now && IsEnded() && OpenRound() == None
    {
      alreadyEnded := IsEnded();
      if !alreadyEnded {
        var open := OpenRound();
        if open.Some? {
          CloseAndScore(open.value, now);
        }
        statusSetting, endedAt := "ended", now;
      }
    }

    /** The `resume_game` action: running again; rounds are left as they are. */
    method ResumeGame()
      requires Valid()
      modifies this`statusSetting, this`endedAt
      ensures Valid()
      ensures statusSetting == "running" && endedAt == "" && !IsEnded()
    {
      statusSetting, endedAt := "running", "";
    }

    /** The `reset_game` action: wipes rounds, guesses and history, restores the default settings, keeps players. */
    method ResetGame()
      requires Valid()
      modifies this`guesses, this`rounds, this`history, this`difficulty, this`statusSetting, this`endedAt
      ensures Valid()
      ensures rounds == map[] && guesses == map[] && history == map[]
      ensures difficulty == "easy" && statusSetting == "running" && endedAt == ""
      ensures OpenRound() == None && !DifficultyLockedNow()
      ensures forall row :: row in CurrentStandings() ==> row.points == 0
    {
      guesses, history, rounds := map[], map[], map[];
      difficulty, statusSetting, endedAt := "easy", "running", "";
      StandingsWithoutGuesses(players, nextRoundId);
    }

    /**
     * The guess upsert of `submit`, for the player `pid` and the raw form
     * fields: refused when the player is unknown, the game is ended, no round
     * is open, nothing is left after blank fields and an unparsable year
     * are dropped, or the year does not fit the database's integer column.
     */
    method Submit(pid: nat, songField: string, artistField: string, yearField: string, now: string) returns (res: SubmitResult)
      requires Valid()
      modifies this`guesses
      ensures Valid()
      ensures !res.Saved? ==> guesses == old(guesses)
      ensures pid !in PlayerIds(players) ==> res == NotRegistered
      ensures pid in PlayerIds(players) && IsEnded() ==> res == SubmissionsLocked
      ensures pid in PlayerIds(players) && !IsEnded() && OpenRound().None? ==> res == NoRoundOpen
      ensures pid in PlayerIds(players) && !IsEnded() && OpenRound().Some? ==>
                var song, artist, year := Blank(songField), Blank(artistField), YearField(yearField);
                if song.None? && artist.None? && year.None? then res == EnterOne
                else if !Storable(year) then res == YearTooLarge
                else res == Saved(OpenRound().value)
                     && guesses == Upsert(old(guesses), (OpenRound().value, pid), song, artist, year, now)
    {
      var open := OpenRound();
      var song, artist, year := Blank(songField), Blank(artistField), YearField(yearField);
      if pid !in PlayerIds(players) {
        res := NotRegistered;
      } else if IsEnded() {
        res := SubmissionsLocked;
      } else if open.None? {
        res := NoRoundOpen;
      } else if song.None? && artist.None? && year.None? {
        res := EnterOne;
      } else if !Storable(year) {
        res := YearTooLarge;
      } else {
        StoreGuess((open.value, pid), song, artist, year, now);
        res := Saved(open.value);
      }
    }

    /** The `INSERT … ON CONFLICT DO UPDATE` of `submit` for an existing round and a registered player. */
    method StoreGuess(key: Key, song: Option<string>, artist: Option<string>, year: Option<int>, now: string)
      requires Valid() && key.0 in rounds && key.1 in PlayerIds(players)
      modifies this`guesses
      ensures Valid()
      ensures guesses == Upsert(old(guesses), key, song, artist, year, now)
    {
      RefersInsert(guesses.Keys, key, rounds, PlayerIds(players));
      guesses := Upsert(guesses, key, song, artist, year, now);
    }

    /** `get_rank_delta_for_latest`: previous minus latest rank for each player ranked in the latest closed round. */
    method RankDeltaForLatest() returns (delta: map<nat, int>)
      ensures delta == RankDelta(rounds, history, nextRoundId)
    {
      var last := LatestWith(rounds, Closed, nextRoundId);
      if last.None? {
        return map[];
      }
      var prev := LatestWith(rounds, Closed, last.value);
      var lastRank := RankOf(history, last.value);
      if prev.None? {
        return map pid | pid in lastRank :: 0;
      }
      delta := RankDifferences(lastRank, RankOf(history, prev.value));
    }
  }
}
