/** The rows of the leaderboard table and the payload a submission writes
    (api/leaderboard.js, lines 3-4, 100 and 173-180). */
module Records {

  /** At most this many rows are fetched for one mode. */
  const MAX_ROWS: nat := 20
  /** The ranked view shows this many rows. */
  const TOP_N: nat := 10

  /** The game modes that have a leaderboard. */
  const ALLOWED_MODES: set<string> := {"skeleton", "muscle"}

  /** A stored row: `{id, mode, player_name, score, max_score, duration_ms,
      accuracy_percent, created_at}`, with the timestamp as milliseconds. */
  datatype Entry = Entry(
    id: nat,
    mode: string,
    playerName: string,
    score: int,
    maxScore: int,
    durationMs: int,
    accuracyPercent: int,
    createdAt: int)

  /** The body a submission sends to the store (`upsertPayload`). */
  datatype Payload = Payload(
    mode: string,
    playerName: string,
    score: int,
    maxScore: int,
    durationMs: int,
    accuracyPercent: int)

  /** The two fields that decide whether one result beats another. */
  datatype Merit = Merit(score: int, durationMs: int)

  function EntryMerit(e: Entry): Merit {
    Merit(e.score, e.durationMs)
  }

  function PayloadMerit(p: Payload): Merit {
    Merit(p.score, p.durationMs)
  }

  /** Two rows belong to the same player in the same mode. */
  predicate SameKey(a: Entry, b: Entry) {
    a.mode == b.mode && a.playerName == b.playerName
  }
}
