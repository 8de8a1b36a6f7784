/**
 * Standings and rank movement: `compute_standings` (one row per player
 * with the sum of their guesses' totals, ordered by points descending and
 * then by name under ASCII case folding), the snapshot rows that
 * `save_standings_snapshot` writes (rank = 1-based position), the lookup of
 * the most recent round with a given status, and the delta map of
 * `get_rank_delta_for_latest`.
 */
module Ranking {
  import opened Wrappers
  import opened Text
  import opened Tables

  datatype Row = Row(playerId: nat, name: string, points: int)

  // ---------------------------------------------------------------
  // Per-player sums
  // ---------------------------------------------------------------

  /** `total_points` of the player's guess in round `rid`, or 0 without one. */
  function TotalAt(guesses: map<Key, Guess>, rid: nat, pid: nat): (r: int)
    ensures (rid, pid) !in guesses ==> r == 0
    ensures (rid, pid) in guesses ==> r == guesses[(rid, pid)].totalPoints
  {
    if (rid, pid) in guesses then guesses[(rid, pid)].totalPoints else 0
  }

  /**
   * `COALESCE(SUM(g.total_points), 0)` over the player's guesses in the
   * rounds with id below `bound`.
   */
  function PlayerPoints(guesses: map<Key, Guess>, pid: nat, bound: nat): (r: int)
    ensures (forall k :: k in guesses ==> guesses[k].totalPoints >= 0) ==> r >= 0
    decreases bound
  {
    if bound == 0 then 0
    else PlayerPoints(guesses, pid, bound - 1) + TotalAt(guesses, bound - 1, pid)
  }

  /** A player without guesses has 0 points. */
  lemma {:induction false} NoGuessesNoPoints(guesses: map<Key, Guess>, pid: nat, bound: nat)
    requires forall rid :: rid < bound ==> (rid, pid) !in guesses
    ensures PlayerPoints(guesses, pid, bound) == 0
  {
    if bound > 0 { NoGuessesNoPoints(guesses, pid, bound - 1); }
  }

  /**
   * Once every guess lies in a round below `bound`, raising the bound adds
   * nothing: the sum below `bound` is the sum over all of the player's guesses.
   */
  lemma {:induction false} PointsIgnoreLaterRounds(guesses: map<Key, Guess>, pid: nat, bound: nat, more: nat)
    requires forall k :: k in guesses ==> k.0 < bound
    ensures PlayerPoints(guesses, pid, bound + more) == PlayerPoints(guesses, pid, bound)
  {
    if more > 0 {
      PointsIgnoreLaterRounds(guesses, pid, bound, more - 1);
      assert (bound + more - 1, pid) !in guesses;
    }
  }

  /** The sum depends only on the player's per-round totals. */
  lemma {:induction false} PointsFrame(g1: map<Key, Guess>, g2: map<Key, Guess>, pid: nat, bound: nat)
    requires forall rid: nat :: rid < bound ==> TotalAt(g1, rid, pid) == TotalAt(g2, rid, pid)
    ensures PlayerPoints(g1, pid, bound) == PlayerPoints(g2, pid, bound)
  {
    if bound > 0 { PointsFrame(g1, g2, pid, bound - 1); }
  }

  /** Changing one round's total changes the sum by exactly that difference. */
  lemma {:induction false} PointsOneRound(g1: map<Key, Guess>, g2: map<Key, Guess>, rid: nat, pid: nat, bound: nat)
    requires rid < bound
    requires forall r: nat :: r < bound && r != rid ==> TotalAt(g1, r, pid) == TotalAt(g2, r, pid)
    ensures PlayerPoints(g2, pid, bound) == PlayerPoints(g1, pid, bound) + TotalAt(g2, rid, pid) - TotalAt(g1, rid, pid)
  {
    if bound - 1 == rid {
      PointsFrame(g1, g2, pid, bound - 1);
    } else {
      PointsOneRound(g1, g2, rid, pid, bound - 1);
    }
  }

  // ---------------------------------------------------------------
  // Ordering
  // ---------------------------------------------------------------

  /** `ORDER BY points DESC, name COLLATE NOCASE ASC`: does row `a` strictly precede row `b`? */
  predicate Before(a: Row, b: Row)
    ensures Before(a, b) ==> a.points >= b.points
    ensures a.points > b.points ==> Before(a, b)
    ensures a.points == b.points && LowerAll(a.name) == LowerAll(b.name) ==> !Before(a, b)
  {
    LexLessIrreflexive(LowerAll(a.name));
    a.points > b.points || (a.points == b.points && LexLess(LowerAll(a.name), LowerAll(b.name)))
  }

  predicate Sorted(rows: seq<Row>) {
    forall i, j :: 0 <= i < j < |rows| ==> !Before(rows[j], rows[i])
  }

  predicate IdsDistinct(rows: seq<Row>) {
    forall i, j :: 0 <= i < j < |rows| ==> rows[i].playerId != rows[j].playerId
  }

  lemma BeforeAsymmetric(a: Row, b: Row)
    requires Before(a, b)
    ensures !Before(b, a)
  {
    if a.points == b.points {
      LexLessAsymmetric(LowerAll(a.name), LowerAll(b.name));
    }
  }

  /** "Not before" is transitive, so sorting by `Before` is well defined. */
  lemma NotBeforeTransitive(a: Row, b: Row, c: Row)
    requires !Before(b, a) && !Before(c, b)
    ensures !Before(c, a)
  {
    if c.points == a.points {
      LexLeqTransitive(LowerAll(a.name), LowerAll(b.name), LowerAll(c.name));
    }
  }

  /** Inserts `x` before the first row that does not precede it. */
  function Insert(x: Row, s: seq<Row>): (r: seq<Row>)
    ensures multiset(r) == multiset(s) + multiset{x}
    ensures |r| == |s| + 1
  {
    if s == [] || !Before(s[0], x) then [x] + s
    else assert s == [s[0]] + s[1..]; [s[0]] + Insert(x, s[1..])
  }

  lemma {:induction false} InsertSorted(x: Row, s: seq<Row>)
    requires Sorted(s)
    ensures Sorted(Insert(x, s))
  {
    var r := Insert(x, s);
    if s == [] {
    } else if !Before(s[0], x) {
      forall i, j | 0 <= i < j < |r| ensures !Before(r[j], r[i]) {
        if i == 0 && j > 1 { NotBeforeTransitive(x, s[0], s[j - 1]); }
      }
    } else {
      InsertSorted(x, s[1..]);
      var t := Insert(x, s[1..]);
      forall j | 0 <= j < |t| ensures !Before(t[j], s[0]) {
        assert t[j] in multiset(t);
        if t[j] == x {
          BeforeAsymmetric(s[0], x);
        } else {
          assert t[j] in s[1..];
        }
      }
    }
  }

  lemma {:induction false} InsertDistinct(x: Row, s: seq<Row>)
    requires IdsDistinct(s)
    requires forall i :: 0 <= i < |s| ==> s[i].playerId != x.playerId
    ensures IdsDistinct(Insert(x, s))
  {
    if s != [] && Before(s[0], x) {
      InsertDistinct(x, s[1..]);
      var t := Insert(x, s[1..]);
      forall j | 0 <= j < |t| ensures t[j].playerId != s[0].playerId {
        assert t[j] in multiset(t);
        if t[j] != x {
          assert t[j] in s[1..];
        }
      }
    }
  }

  /** Insertion sort by `Before` (stable: rows that tie keep their input order). */
  function SortRows(rows: seq<Row>): (r: seq<Row>)
    ensures multiset(r) == multiset(rows)
    ensures |r| == |rows|
  {
    if rows == [] then []
    else assert rows == [rows[0]] + rows[1..]; Insert(rows[0], SortRows(rows[1..]))
  }

  lemma {:induction false} SortRowsSorted(rows: seq<Row>)
    ensures Sorted(SortRows(rows))
  {
    if rows != [] {
      SortRowsSorted(rows[1..]);
      InsertSorted(rows[0], SortRows(rows[1..]));
    }
  }

  lemma {:induction false} SortRowsDistinct(rows: seq<Row>)
    requires IdsDistinct(rows)
    ensures IdsDistinct(SortRows(rows))
  {
    if rows != [] {
      SortRowsDistinct(rows[1..]);
      var t := SortRows(rows[1..]);
      forall i | 0 <= i < |t| ensures t[i].playerId != rows[0].playerId {
        assert t[i] in multiset(t);
        assert t[i] in rows[1..];
      }
      InsertDistinct(rows[0], t);
    }
  }

  // ---------------------------------------------------------------
  // compute_standings
  // ---------------------------------------------------------------

  predicate DistinctPlayerIds(players: seq<Player>) {
    forall i, j :: 0 <= i < j < |players| ==> players[i].id != players[j].id
  }

  function RowOf(p: Player, guesses: map<Key, Guess>, bound: nat): Row {
    Row(p.id, p.name, PlayerPoints(guesses, p.id, bound))
  }

  function PlayerRows(players: seq<Player>, guesses: map<Key, Guess>, bound: nat): (r: seq<Row>)
    ensures |r| == |players|
    ensures forall i :: 0 <= i < |players| ==> r[i] == RowOf(players[i], guesses, bound)
  {
    seq(|players|, i requires 0 <= i < |players| => RowOf(players[i], guesses, bound))
  }

  /** `compute_standings`: the player rows sorted by `Before`. */
  function Standings(players: seq<Player>, guesses: map<Key, Guess>, bound: nat): (r: seq<Row>)
    ensures multiset(r) == multiset(PlayerRows(players, guesses, bound))
  {
    SortRows(PlayerRows(players, guesses, bound))
  }

  function PlayerIds(players: seq<Player>): set<nat> {
    set p | p in players :: p.id
  }

  /** Every standings row is a player's, carrying the sum of that player's totals (round ids below `bound`). */
  lemma StandingsRowsArePlayers(players: seq<Player>, guesses: map<Key, Guess>, bound: nat)
    ensures var r := Standings(players, guesses, bound);
      && |r| == |players|
      && (forall i :: 0 <= i < |r| ==> Player(r[i].playerId, r[i].name) in players)
      && (forall i :: 0 <= i < |r| ==> r[i].points == PlayerPoints(guesses, r[i].playerId, bound))
  {
    var rows := PlayerRows(players, guesses, bound);
    var r := SortRows(rows);
    forall i | 0 <= i < |r|
      ensures Player(r[i].playerId, r[i].name) in players
      ensures r[i].points == PlayerPoints(guesses, r[i].playerId, bound)
    {
      assert r[i] in multiset(rows);
      var k :| 0 <= k < |rows| && rows[k] == r[i];
      assert players[k] == Player(r[i].playerId, r[i].name);
    }
  }

  /** Every player has a row in the standings, and with distinct player ids only one. */
  lemma StandingsCoverPlayers(players: seq<Player>, guesses: map<Key, Guess>, bound: nat)
    ensures var r := Standings(players, guesses, bound);
      && (forall p :: p in players ==> RowOf(p, guesses, bound) in r)
      && (DistinctPlayerIds(players) ==> IdsDistinct(r))
  {
    var rows := PlayerRows(players, guesses, bound);
    var r := SortRows(rows);
    if DistinctPlayerIds(players) {
      SortRowsDistinct(rows);
    }
    forall p | p in players ensures RowOf(p, guesses, bound) in r {
      var k :| 0 <= k < |players| && players[k] == p;
      assert rows[k] in multiset(r);
    }
  }

  /** The standings are ordered by points descending, then by case-folded name ascending. */
  lemma StandingsOrdered(players: seq<Player>, guesses: map<Key, Guess>, bound: nat)
    ensures var r := Standings(players, guesses, bound);
      forall i, j :: 0 <= i < j < |r| ==>
        r[i].points > r[j].points
        || (r[i].points == r[j].points && !LexLess(LowerAll(r[j].name), LowerAll(r[i].name)))
  {
    SortRowsSorted(PlayerRows(players, guesses, bound));
  }

  /** After a reset (no guesses at all) everybody stands at 0 points. */
  lemma StandingsWithoutGuesses(players: seq<Player>, bound: nat)
    ensures forall row :: row in Standings(players, map[], bound) ==> row.points == 0
  {
    var r := Standings(players, map[], bound);
    StandingsRowsArePlayers(players, map[], bound);
    forall row | row in r ensures row.points == 0 {
      NoGuessesNoPoints(map[], row.playerId, bound);
    }
  }

  // ---------------------------------------------------------------
  // Snapshots
  // ---------------------------------------------------------------

  /**
   * The `standings_history` rows that `save_standings_snapshot` upserts for
   * round `rid`: the row at position i (0-based) gets rank i + 1.
   */
  function SnapshotEntries(rows: seq<Row>, rid: nat, now: string): (m: map<Key, Snapshot>)
    ensures forall k :: k in m ==> k.0 == rid
    decreases |rows|
  {
    if rows == [] then map[]
    else
      var n := |rows| - 1;
      SnapshotEntries(rows[..n], rid, now)[(rid, rows[n].playerId) := Snapshot(n + 1, rows[n].points, now)]
  }

  /** The snapshot holds a row for exactly the players of `rows`. */
  lemma {:induction false} SnapshotKeys(rows: seq<Row>, rid: nat, now: string, pid: nat)
    ensures (rid, pid) in SnapshotEntries(rows, rid, now) <==> exists i :: 0 <= i < |rows| && rows[i].playerId == pid
    decreases |rows|
  {
    if rows != [] {
      var n := |rows| - 1;
      SnapshotKeys(rows[..n], rid, now, pid);
      if (rid, pid) in SnapshotEntries(rows[..n], rid, now) {
        var i :| 0 <= i < n && rows[..n][i].playerId == pid;
        assert rows[i].playerId == pid;
      }
      if exists i :: 0 <= i < |rows| && rows[i].playerId == pid {
        var i :| 0 <= i < |rows| && rows[i].playerId == pid;
        if i < n { assert rows[..n][i].playerId == pid; }
      }
    }
  }

  /** With distinct players, the snapshot rank of the i-th row is i + 1 and its points are the row's. */
  lemma {:induction false} SnapshotRanks(rows: seq<Row>, rid: nat, now: string, i: nat)
    requires IdsDistinct(rows)
    requires i < |rows|
    ensures (rid, rows[i].playerId) in SnapshotEntries(rows, rid, now)
    ensures SnapshotEntries(rows, rid, now)[(rid, rows[i].playerId)] == Snapshot(i + 1, rows[i].points, now)
    decreases |rows|
  {
    var n := |rows| - 1;
    if i < n {
      var front := rows[..n];
      assert front[i] == rows[i];
      assert IdsDistinct(front) by {
        forall a, b | 0 <= a < b < n ensures front[a].playerId != front[b].playerId {
          assert front[a] == rows[a] && front[b] == rows[b];
        }
      }
      assert rows[i].playerId != rows[n].playerId;
      SnapshotRanks(front, rid, now, i);
    }
  }

  /** One more upserted snapshot row extends the entries by the next position. */
  lemma SnapshotStep(before: map<Key, Snapshot>, rows: seq<Row>, i: nat, rid: nat, now: string)
    requires i < |rows|
    ensures (before + SnapshotEntries(rows[..i], rid, now))[(rid, rows[i].playerId) := Snapshot(i + 1, rows[i].points, now)]
            == before + SnapshotEntries(rows[..i + 1], rid, now)
  {
    assert rows[..i + 1][..i] == rows[..i];
  }

  /** Every snapshot row of the standings names round `rid` and a registered player. */
  lemma SnapshotNamesPlayers(players: seq<Player>, guesses: map<Key, Guess>, bound: nat, rid: nat, now: string)
    ensures forall k :: k in SnapshotEntries(Standings(players, guesses, bound), rid, now) ==> k.0 == rid && k.1 in PlayerIds(players)
  {
    var st := Standings(players, guesses, bound);
    var e := SnapshotEntries(st, rid, now);
    StandingsRowsArePlayers(players, guesses, bound);
    forall k | k in e ensures k.1 in PlayerIds(players) {
      SnapshotKeys(st, rid, now, k.1);
      var j :| 0 <= j < |st| && st[j].playerId == k.1;
      assert Player(st[j].playerId, st[j].name) in players;
    }
  }

  /**
   * The snapshot of the standings for round `rid`: one row per player and
   * nothing else, the i-th standings row ranked i + 1 with its points.
   */
  lemma SnapshotOfStandings(players: seq<Player>, guesses: map<Key, Guess>, bound: nat, rid: nat, now: string)
    requires DistinctPlayerIds(players)
    ensures var st := Standings(players, guesses, bound);
            var e := SnapshotEntries(st, rid, now);
            && (forall k :: k in e ==> k.0 == rid && k.1 in PlayerIds(players))
            && (forall p :: p in players ==> (rid, p.id) in e)
            && (forall i :: 0 <= i < |st| ==> (rid, st[i].playerId) in e && e[(rid, st[i].playerId)] == Snapshot(i + 1, st[i].points, now))
  {
    var st := Standings(players, guesses, bound);
    var e := SnapshotEntries(st, rid, now);
    SnapshotNamesPlayers(players, guesses, bound, rid, now);
    StandingsCoverPlayers(players, guesses, bound);
    forall p | p in players ensures (rid, p.id) in e {
      var j :| 0 <= j < |st| && st[j] == RowOf(p, guesses, bound);
      SnapshotKeys(st, rid, now, p.id);
    }
    forall i | 0 <= i < |st| ensures (rid, st[i].playerId) in e && e[(rid, st[i].playerId)] == Snapshot(i + 1, st[i].points, now) {
      SnapshotRanks(st, rid, now, i);
    }
  }

  // ---------------------------------------------------------------
  // Latest round with a status, rank delta
  // ---------------------------------------------------------------

  /** `SELECT id FROM rounds WHERE status=? AND id < below ORDER BY id DESC LIMIT 1`. */
  function LatestWith(rounds: map<nat, Round>, st: Status, below: nat): (r: Option<nat>)
    ensures r.Some? ==> r.value < below && r.value in rounds && rounds[r.value].status == st
    ensures r.Some? ==> forall id :: r.value < id < below && id in rounds ==> rounds[id].status != st
    ensures r.None? ==> forall id :: id < below && id in rounds ==> rounds[id].status != st
    decreases below
  {
    if below == 0 then None
    else if below - 1 in rounds && rounds[below - 1].status == st then Some(below - 1)
    else LatestWith(rounds, st, below - 1)
  }

  /** `{player_id: rank}` of the snapshot rows of round `rid`. */
  function RankOf(history: map<Key, Snapshot>, rid: nat): (m: map<nat, int>)
    ensures forall pid :: pid in m <==> (rid, pid) in history
    ensures forall pid :: pid in m ==> m[pid] == history[(rid, pid)].rank
  {
    map k | k in history && k.0 == rid :: k.1 := history[k].rank
  }

  /**
   * Previous rank minus latest rank for every player ranked latest; a
   * player without a previous rank counts as unchanged.
   */
  function RankChange(lastRank: map<nat, int>, prevRank: map<nat, int>): (d: map<nat, int>)
    ensures d.Keys == lastRank.Keys
    ensures forall pid :: pid in d && pid !in prevRank ==> d[pid] == 0
    ensures forall pid :: pid in d && pid in prevRank ==> d[pid] == prevRank[pid] - lastRank[pid]
  {
    map pid | pid in lastRank :: (if pid in prevRank then prevRank[pid] else lastRank[pid]) - lastRank[pid]
  }

  /**
   * `get_rank_delta_for_latest`: for every player ranked in the latest
   * closed round, their rank in the closed round before it minus their
   * latest rank (0 when they have no earlier rank or there is no earlier
   * closed round); empty when no round is closed.
   */
  function RankDelta(rounds: map<nat, Round>, history: map<Key, Snapshot>, bound: nat): (d: map<nat, int>)
    ensures LatestWith(rounds, Closed, bound).None? ==> d == map[]
    ensures LatestWith(rounds, Closed, bound).Some? ==>
              forall pid :: pid in d <==> (LatestWith(rounds, Closed, bound).value, pid) in history
  {
    match LatestWith(rounds, Closed, bound)
    case None => map[]
    case Some(last) =>
      var lr := RankOf(history, last);
      match LatestWith(rounds, Closed, last)
      case None => map pid | pid in lr :: 0
      case Some(prev) => RankChange(lr, RankOf(history, prev))
  }

  /** With no closed round the delta map is empty. */
  lemma RankDeltaNoClosedRound(rounds: map<nat, Round>, history: map<Key, Snapshot>, bound: nat)
    requires forall id :: id in rounds ==> rounds[id].status != Closed
    ensures RankDelta(rounds, history, bound) == map[]
  {
  }

  /** With exactly one closed round, every player ranked in it has delta 0. */
  lemma RankDeltaOneClosedRound(rounds: map<nat, Round>, history: map<Key, Snapshot>, bound: nat, only: nat)
    requires only < bound && only in rounds && rounds[only].status == Closed
    requires forall id :: id in rounds && rounds[id].status == Closed ==> id == only
    ensures var d := RankDelta(rounds, history, bound);
            (forall pid :: pid in d <==> (only, pid) in history) && (forall pid :: pid in d ==> d[pid] == 0)
  {
    assert LatestWith(rounds, Closed, bound) == Some(only);
    assert LatestWith(rounds, Closed, only) == None;
  }

  /**
   * With `last` the latest closed round and `prev` the closed round before
   * it, a player ranked `l` in `last` gets previous rank minus `l`, or 0
   * without a previous rank.
   */
  lemma RankDeltaBetweenRounds(rounds: map<nat, Round>, history: map<Key, Snapshot>, bound: nat, last: nat, prev: nat, pid: nat)
    requires prev < last < bound
    requires last in rounds && rounds[last].status == Closed && prev in rounds && rounds[prev].status == Closed
    requires forall id :: last < id < bound && id in rounds ==> rounds[id].status != Closed
    requires forall id :: prev < id < last && id in rounds ==> rounds[id].status != Closed
    requires (last, pid) in history
    ensures var d := RankDelta(rounds, history, bound);
            (forall q :: q in d <==> (last, q) in history)
            && pid in d
            && d[pid] == if (prev, pid) in history then history[(prev, pid)].rank - history[(last, pid)].rank else 0
  {
    assert LatestWith(rounds, Closed, bound) == Some(last);
    assert LatestWith(rounds, Closed, last) == Some(prev);
  }
}
