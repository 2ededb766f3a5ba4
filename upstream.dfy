/**
  The shapes of the upstream game-statistics API responses that the job reads, reduced to
  the fields it uses. A JSON field that may be missing, `null` or of the wrong type is an
  `Option`; the HTTP outcome of one request is a `Reply`.
*/
module Upstream {
  import opened Wrappers

  /** Outcome of one `fetch` followed by `.json()`: status 200 with its payload, another
      status, or an exception (network failure, unparseable body, missing nested field). */
  datatype Reply<T> = Ok(data: T) | NotOk | Threw

  /** `data` of the account endpoint: `account_level`, `card.small`, `region`. */
  datatype Account = Account(level: int, cardSmall: string, region: string)

  /** `data.current_data` of the MMR endpoint: `currenttierpatched`, `images.small`. */
  datatype CurrentData = CurrentData(tierPatched: string, smallImage: string)

  /** `data.highest_rank` of the MMR endpoint: `patched_tier`, `tier`. */
  datatype HighestRank = HighestRank(patchedTier: string, tier: int)

  datatype Mmr = Mmr(current: Option<CurrentData>, highest: Option<HighestRank>)

  /** `stats` of one participant of a match. */
  datatype Stats = Stats(kills: nat, deaths: nat, assists: nat,
                         headshots: nat, bodyshots: nat, legshots: nat)

  /** One entry of a match's `players` list. */
  datatype Participant = Participant(
    name: string, tag: string, team: string,
    character: string, agentSmall: string,
    stats: Stats,
    currentTierPatched: string, currentTier: int)

  datatype TeamData = TeamData(hasWon: bool, roundsWon: nat)

  /** `teams` of a match: the `blue` and `red` sides. */
  datatype Teams = Teams(blue: TeamData, red: TeamData)

  /** One match of the history endpoint (`metadata.matchid`, `metadata.map`,
      `metadata.mode`, `metadata.game_start`, `players`, `teams`). `players` is `None` when the payload's `players`
      is missing, `null` or not an array; `teams` is `None` when it is missing or `null`. */
  datatype Match = Match(
    matchId: string, mapName: string, mode: string, gameStart: int,
    players: Option<seq<Participant>>,
    teams: Option<Teams>)

  /** The three endpoints, as functions of the request's path parameters: account by
      (name, tag); MMR and match history by (region, name, tag). A match-history reply whose
      `data` is absent is `Ok([])`. */
  datatype Api = Api(
    account: (string, string) -> Reply<Account>,
    mmr: (string, string, string) -> Reply<Mmr>,
    matches: (string, string, string) -> Reply<seq<Match>>)
}
