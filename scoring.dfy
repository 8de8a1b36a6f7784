/**
 * The scoring engine: year points by difficulty (`score_year`),
 * song/artist points (`score_song_artist`), and the per-guess and
 * per-round point assignment performed by `compute_and_store_round_scores`.
 */
module Scoring {
  import opened Wrappers
  import opened Text
  import opened Tables

  /** The best year score a difficulty can give. */
  function MaxYearPoints(difficulty: string): int {
    if difficulty == "easy" then 5
    else if difficulty == "hard" || difficulty == "extreme" then 10
    else 0
  }

  /**
   * Year points for a distance `diff` between guessed and correct year.
   * An unknown difficulty scores 0.
   */
  function ScoreYear(diff: int, difficulty: string): (r: int)
    ensures -5 <= r <= MaxYearPoints(difficulty)
    ensures diff == 0 ==> r == MaxYearPoints(difficulty)
    ensures r < 0 ==> diff > 10 || (difficulty == "hard" && diff < 0)
  {
    if difficulty == "easy" then
      if diff == 0 then 5
      else if diff == 1 then 4
      else if diff == 2 then 3
      else if 3 <= diff <= 5 then 2
      else if 6 <= diff <= 10 then 1
      else 0
    else if difficulty == "hard" then
      if diff == 0 then 10
      else if diff == 1 then 8
      else if diff == 2 then 6
      else if 3 <= diff <= 5 then 4
      else if 6 <= diff <= 10 then 2
      else -4
    else if difficulty == "extreme" then
      if diff == 0 then 10
      else if diff > 10 then -5
      else 0
    else 0
  }

  /** The distance band of a year difference: 0, 1, 2, 3..5, 6..10, above 10. */
  function Band(diff: nat): (b: nat)
    ensures b < 6
  {
    if diff <= 2 then diff
    else if diff <= 5 then 3
    else if diff <= 10 then 4
    else 5
  }

  /** The points per band, one curve per difficulty. */
  function Curve(difficulty: string): (c: seq<int>)
    ensures |c| == 6
  {
    if difficulty == "easy" then [5, 4, 3, 2, 1, 0]
    else if difficulty == "hard" then [10, 8, 6, 4, 2, -4]
    else if difficulty == "extreme" then [10, 0, 0, 0, 0, -5]
    else [0, 0, 0, 0, 0, 0]
  }

  /** `score_year` is the table lookup: the band of the distance in the difficulty's curve. */
  lemma ScoreYearIsTable(diff: nat, difficulty: string)
    ensures ScoreYear(diff, difficulty) == Curve(difficulty)[Band(diff)]
  {
  }

  /** For every difficulty the year score never grows as the distance grows. */
  lemma ScoreYearNonIncreasing(d1: nat, d2: nat, difficulty: string)
    requires d1 <= d2
    ensures ScoreYear(d2, difficulty) <= ScoreYear(d1, difficulty)
  {
    ScoreYearIsTable(d1, difficulty);
    ScoreYearIsTable(d2, difficulty);
    assert Band(d1) <= Band(d2);
  }

  /** `normalize_text` on a nullable value: `None` becomes "". */
  function NormalizeText(s: Option<string>): (r: string)
    ensures Normalized(r)
    ensures s.None? ==> r == ""
    ensures s.Some? ==> (r == "" <==> AllSpace(s.value))
    ensures s == Some("") ==> r == ""
  {
    match s
    case None => ""
    case Some(t) => NormalizeIsNormalized(t); Normalize(t)
  }

  /** Five points for a match after normalisation, none otherwise or without a correct value. */
  function ScoreSongArtist(guess: Option<string>, correct: string): (r: int)
    ensures r == 0 || r == 5
    ensures r == 5 <==> correct != "" && NormalizeText(guess) == Normalize(correct)
  {
    if correct == "" then 0
    else if NormalizeText(guess) == Normalize(correct) then 5
    else 0
  }

  /** Typing the normalised form of the correct answer always earns the five points. */
  lemma NormalizedAnswerScores(correct: string)
    requires correct != ""
    ensures ScoreSongArtist(Some(Normalize(correct)), correct) == 5
  {
    NormalizeIdempotent(correct);
  }

  function Abs(x: int): nat {
    if x < 0 then -x else x
  }

  /** Year points of one guess: 0 unless both the guessed and the correct year are present. */
  function YearPoints(guessYear: Option<int>, correctYear: Option<int>, difficulty: string): (r: int)
    ensures guessYear.None? || correctYear.None? ==> r == 0
    ensures guessYear.Some? && correctYear.Some? && guessYear.value == correctYear.value ==> r == MaxYearPoints(difficulty)
    ensures -5 <= r <= MaxYearPoints(difficulty)
  {
    if guessYear.Some? && correctYear.Some? then
      ScoreYear(Abs(guessYear.value - correctYear.value), difficulty)
    else 0
  }

  /**
   * A guess after scoring against `rnd`: the four point columns are
   * recomputed and `updated_at` is stamped; the guess itself and
   * `created_at` stay as they were.
   */
  function ScoreGuess(g: Guess, rnd: Round, difficulty: string, now: string): (r: Guess)
    ensures r.song == g.song && r.artist == g.artist && r.year == g.year && r.createdAt == g.createdAt
    ensures r.updatedAt == now
    ensures r.pointsSong == ScoreSongArtist(g.song, rnd.correctSong.GetOr(""))
    ensures r.pointsArtist == ScoreSongArtist(g.artist, rnd.correctArtist.GetOr(""))
    ensures r.pointsYear == YearPoints(g.year, rnd.correctYear, difficulty)
    ensures r.totalPoints == r.pointsSong + r.pointsArtist + r.pointsYear
  {
    var py := YearPoints(g.year, rnd.correctYear, difficulty);
    var ps := ScoreSongArtist(g.song, rnd.correctSong.GetOr(""));
    var pa := ScoreSongArtist(g.artist, rnd.correctArtist.GetOr(""));
    g.(pointsYear := py, pointsSong := ps, pointsArtist := pa, totalPoints := py + ps + pa, updatedAt := now)
  }

  /** A guess's total lies between -5 and 20, and negative totals come only from the year. */
  lemma TotalBounds(g: Guess, rnd: Round, difficulty: string, now: string)
    requires difficulty == "easy" || difficulty == "hard" || difficulty == "extreme"
    ensures -5 <= ScoreGuess(g, rnd, difficulty, now).totalPoints <= 20
    ensures ScoreGuess(g, rnd, difficulty, now).totalPoints < 0 ==> ScoreGuess(g, rnd, difficulty, now).pointsYear < 0
  {
  }

  /** The whole round's guesses after scoring; guesses of other rounds are left alone. */
  function ScoreRound(guesses: map<Key, Guess>, rid: nat, rnd: Round, difficulty: string, now: string): (r: map<Key, Guess>)
    ensures r.Keys == guesses.Keys
    ensures forall k :: k in guesses && k.0 != rid ==> r[k] == guesses[k]
    ensures forall k :: k in guesses && k.0 == rid ==> r[k] == ScoreGuess(guesses[k], rnd, difficulty, now)
  {
    map k | k in guesses :: if k.0 == rid then ScoreGuess(guesses[k], rnd, difficulty, now) else guesses[k]
  }

  predicate SamePoints(a: Guess, b: Guess) {
    a.pointsYear == b.pointsYear && a.pointsSong == b.pointsSong
    && a.pointsArtist == b.pointsArtist && a.totalPoints == b.totalPoints
  }

  /**
   * Scoring is idempotent: re-running it, at any later time, leaves every
   * point value as the first run set it; at the same time it changes nothing.
   */
  lemma ScoreRoundIdempotent(guesses: map<Key, Guess>, rid: nat, rnd: Round, difficulty: string, now: string, later: string)
    ensures var once := ScoreRound(guesses, rid, rnd, difficulty, now);
            var twice := ScoreRound(once, rid, rnd, difficulty, later);
            twice.Keys == once.Keys && forall k :: k in once ==> SamePoints(twice[k], once[k])
    ensures var once := ScoreRound(guesses, rid, rnd, difficulty, now);
            ScoreRound(once, rid, rnd, difficulty, now) == once
  {
    var once := ScoreRound(guesses, rid, rnd, difficulty, now);
    var twice := ScoreRound(once, rid, rnd, difficulty, later);
    forall k | k in once ensures SamePoints(twice[k], once[k]) {
      if k.0 == rid { ScoreGuessIdempotent(guesses[k], rnd, difficulty, now, later); }
    }
    var again := ScoreRound(once, rid, rnd, difficulty, now);
    forall k | k in once ensures again[k] == once[k] {
      if k.0 == rid { ScoreGuessIdempotent(guesses[k], rnd, difficulty, now, now); }
    }
  }

  /** Scoring a scored guess again sets the same points, and at the same time changes nothing. */
  lemma ScoreGuessIdempotent(g: Guess, rnd: Round, difficulty: string, now: string, later: string)
    ensures var once := ScoreGuess(g, rnd, difficulty, now);
            SamePoints(ScoreGuess(once, rnd, difficulty, later), once)
            && (later == now ==> ScoreGuess(once, rnd, difficulty, later) == once)
  {
  }

  /** The round's scoring part way through: the guesses still `pending` are not yet scored. */
  function ScorePart(guesses: map<Key, Guess>, rid: nat, rnd: Round, difficulty: string, now: string, pending: set<Key>): map<Key, Guess> {
    map k | k in guesses :: if k.0 == rid && k !in pending then ScoreGuess(guesses[k], rnd, difficulty, now) else guesses[k]
  }

  lemma ScorePartStart(guesses: map<Key, Guess>, rid: nat, rnd: Round, difficulty: string, now: string)
    ensures ScorePart(guesses, rid, rnd, difficulty, now, set k | k in guesses && k.0 == rid) == guesses
  {
  }

  lemma ScorePartStep(guesses: map<Key, Guess>, rid: nat, rnd: Round, difficulty: string, now: string, pending: set<Key>, k: Key)
    requires k in pending && k in guesses && k.0 == rid
    ensures var part := ScorePart(guesses, rid, rnd, difficulty, now, pending);
            && part[k] == guesses[k]
            && part[k := ScoreGuess(guesses[k], rnd, difficulty, now)] == ScorePart(guesses, rid, rnd, difficulty, now, pending - {k})
  {
  }

  lemma ScorePartDone(guesses: map<Key, Guess>, rid: nat, rnd: Round, difficulty: string, now: string)
    ensures ScorePart(guesses, rid, rnd, difficulty, now, {}) == ScoreRound(guesses, rid, rnd, difficulty, now)
  {
  }
}
