/**
 * The rows of the game's tables. Each table becomes a map keyed the way
 * the schema keys it; the row datatypes below hold the non-key columns.
 * Timestamps are the strings the caller supplies as `now`.
 */
module Tables {
  import opened Wrappers

  datatype Status = Open | Closed

  /** The range of an SQLite INTEGER, a signed 64-bit value; binding a larger Python int fails. */
  const MinInteger := -0x8000_0000_0000_0000
  const MaxInteger := 0x7FFF_FFFF_FFFF_FFFF

  /** An optional integer the database driver can bind: absent, or inside the 64-bit range. */
  predicate Storable(v: Option<int>) {
    v.None? || MinInteger <= v.value <= MaxInteger
  }

  /** A row of `rounds` (its id is the map key). */
  datatype Round = Round(
    question: string,
    status: Status,
    correctSong: Option<string>,
    correctArtist: Option<string>,
    correctYear: Option<int>,
    createdAt: string,
    closedAt: Option<string>)

  /** A row of `guesses` (its key is the pair (round id, player id), unique by the schema). */
  datatype Guess = Guess(
    song: Option<string>,
    artist: Option<string>,
    year: Option<int>,
    pointsYear: int,
    pointsSong: int,
    pointsArtist: int,
    totalPoints: int,
    createdAt: string,
    updatedAt: string)

  /** A row of `standings_history` (its key is the pair (round id, player id)). */
  datatype Snapshot = Snapshot(rank: int, points: int, createdAt: string)

  /** A row of `players`. */
  datatype Player = Player(id: nat, name: string)

  type Key = (nat, nat)
}
