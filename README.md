# Protocolo V roster and squad tracker, modelled in Dafny

Protocolo V is a dashboard for a Valorant team. It has two halves, and this project models
the core of both.

* `update-data.js` is a batch job. It:
  * reads the team roster from a spreadsheet exported as CSV;
  * looks every member up on an unofficial game-statistics API: account, rank (MMR) and
    the last competitive matches;
  * keeps every fetched match with a player list in a run-wide cache, first writer wins;
  * turns each cached match in which two or more roster members played together into an
    "operation": squad, score, result, K/D/A and headshot percentage;
  * publishes the players and the operations, newest first.
* `script.js` is the page. It reads the published document, which has either the legacy
  shape (a bare array of players) or the current shape (players and operations). It then
  distributes the players over a table of five tactical roles. Each role has two seats and
  a waiting list of at most four places.

The model is organised by the job's phases:

| module | file | models |
|---|---|---|
| `Wrappers` | `wrappers.dfy` | `undefined`/`null` as `Option`; filter-and-map over a sequence |
| `Text` | `text.dfy` | the JavaScript string operations the job uses (`toLowerCase`, `trim`, `replace`, `includes`, `split`, decimal text) |
| `Upstream` | `upstream.dfy` | the API payloads; each reply is `Ok`, another status, or an exception |
| `Roster` | `roster.dfy` | the CSV parse and the roster set (lines 18-45) |
| `PlayerSync` | `player_sync.dfy` | one pass of the per-player loop (lines 55-172) |
| `MatchCache` | `match_cache.dfy` | the `Map` of matches, as a class the loop mutates |
| `Synergy` | `synergy.dfy` | squad detection and the operation records (lines 182-219) |
| `OperationOrder` | `operation_order.dfy` | the newest-first stable sort, in place on an array (line 221) |
| `UpdateJob` | `update_job.dfy` | `run()` end to end, against a specification of the whole run |
| `RoleBoard` | `role_board.dfy` | the page's `rolesConfig` table and its allocation loop |

The parts of the job that change state step by step are Dafny methods, each proved against
a specification function:

* the header scan, the row loop, the main lookup loop, the cache's `forEach`, the walk over
  the cache and the in-place sort;
* the page's `rolesConfig` object, modelled as classes whose fields the allocation loop
  updates.

The decisions made for one player are pure functions: the account reply, the MMR reply
(ranks and icons), the region override and the rank fallback. Each one has a lemma saying
which fields of the record it sets and to what. Two further lemmas tie the published
record to the three replies: `SyncPlayerProfile` and `SyncPlayerFallback`. The listed
operations are paired with lemmas in the table below.

Network replies are parameters. The three API endpoints are the functions of an `Api`
value, and the page's document is a `Payload` value.

## Model

| member | source | states |
|---|---|---|
| Roster.ParseRoster | update-data.js:18-45 | the entries are those of the rows after the header line, in row order, and the roster set is the set of their normalised Riot IDs; a text with no line after the header gives neither |
| Roster.ParseRows | update-data.js:32-44 | the row loop pushes the entries of the accepted data rows in row order, and its roster set is the set of their normalised Riot IDs |
| Roster.FindColumns | update-data.js:24-30 | the role and Riot-ID columns are the last headers whose lower-cased text contains `fun` and `riot`, or -1 |
| Roster.LastMatching | update-data.js:27-30 | the column found matches the fragment, no later header does, and -1 means none |
| Roster.NoColumnIff | update-data.js:25-30 | the scan leaves -1 exactly when no header contains the fragment |
| Roster.Field | update-data.js:36-37 | an existing cell reads as its text with every `"` removed and then trimmed, so the value is quote-free and neither begins nor ends with whitespace; a missing column (including -1) reads as empty |
| Roster.AcceptedOne | update-data.js:33-40 | a row is accepted exactly when it has two cells or more, a non-empty role, and a non-empty Riot ID holding `#`; the entry carries those two fields |
| Roster.AcceptedWellFormed | update-data.js:33-40 | every entry comes from some row, and its fields are non-empty, quote-free and trimmed, with a `#` in the Riot ID |
| Roster.AcceptedAppend | update-data.js:32-44 | entries keep row order: the rows of a concatenation give the concatenation of the entries |
| Roster.NoColumnNoEntries | update-data.js:36-39 | with no role column or no Riot-ID column, no row is accepted |
| Roster.MissingHeaderEmptyRoster | update-data.js:23-39 | a sheet whose header row lacks a `fun` or a `riot` column yields an empty roster |
| Roster.Normalise | update-data.js:41 | a roster key has no whitespace and no upper-case letter |
| Roster.NormaliseConcat | update-data.js:41 | normalising goes character by character in order: whitespace is dropped and every other character becomes its lower-case form |
| Roster.NormaliseKeeps | update-data.js:41 | normalising keeps every character that is neither whitespace nor an upper-case letter |
| Roster.RosterKeysMembers | update-data.js:41-42 | a key is in the roster set exactly when some entry's Riot ID normalises to it |
| Roster.RosterKeysBound | update-data.js:41-42 | the roster set has at most as many keys as there are entries |
| Roster.RosterKeysShape | update-data.js:39-42 | every key of a parsed roster holds `#` and is lower-case and space-free |
| PlayerSync.RegionOverride | update-data.js:86-89 | `na` and `latam` become `br`, and every other region is kept |
| PlayerSync.ApplyAccountRule | update-data.js:80-84 | a successful account reply sets the level and the player card from its data and changes no other field |
| PlayerSync.ApplyMmrRule | update-data.js:96-108 | a patched current tier becomes the current rank with the reply's image as its icon, otherwise both stay; a patched peak tier becomes the peak rank at any tier, otherwise it stays; the peak icon changes only to the tier icon of a patched peak tier above 2, and always does so then; no field other than the ranks and their icons changes |
| PlayerSync.FindFirst | update-data.js:124 | `find`: the first index whose element satisfies the test, or none when no element does |
| PlayerSync.FirstValidMatch | update-data.js:124 | the match chosen for the fallback is the first one in the history with a non-empty players array, and there is none exactly when no match has one |
| PlayerSync.RankFallbackRule | update-data.js:145-154 | the fallback changes only the current rank and its icon, and only when the rank is still `Sem Rank` or `Unranked` and the player's first entry in the valid match (name and tag equal up to case) has a patched tier; in that case it always takes that tier as the rank, and that tier's icon exactly when the tier is above 2 |
| PlayerSync.SyncPlayerSpec | update-data.js:55-172 | the record keeps the roster's Riot ID and role; the error flag is set exactly when a request reached has thrown; matches are passed on only from a successful history, and a successful history is passed on whole when neither earlier request threw; the region asked is never `na` or `latam` |
| PlayerSync.SyncPlayerProfile | update-data.js:55-108 | a thrown account reply publishes the initial record with the error flag; otherwise the level and card come from a successful account reply (else `--` and the default card); the peak rank and icon come from a successful MMR reply as the MMR rule says (else `Sem Rank` without icon); a current rank from the MMR reply that is not a placeholder is published with its image |
| PlayerSync.SyncPlayerFallback | update-data.js:115-154 | when no reply threw, the history is a non-empty success and the MMR reply left a placeholder rank, the player's first entry in the first valid match gives the published rank if its tier is patched; conversely, a published rank other than the MMR reply's comes only from such an entry |
| MatchCache.MatchStore.constructor | update-data.js:49 | the cache starts empty and valid |
| MatchCache.MatchStore.AddAll | update-data.js:157-161 | offering a history's matches keeps the cache valid and leaves it in the state given by inserting them one by one |
| MatchCache.InsertValid | update-data.js:158-159 | one insertion keeps every id listed once, in order, each filed with a match that has a players array and carries that id |
| MatchCache.InsertAllValid | update-data.js:157-161 | offering any matches keeps that invariant |
| MatchCache.InsertAllAppend | update-data.js:157-161 | offering one history after another is the same as offering their concatenation |
| MatchCache.FirstWriterWins | update-data.js:158-159 | an id already cached keeps its match, and the insertion order only grows at the end |
| MatchCache.InsertAllEntries | update-data.js:157-161 | a new id is filed with the first match offered with that id and a players array, and every such match ends up cached |
| MatchCache.InsertAllIdempotent | update-data.js:157-161 | offering the same history twice is the same as once |
| MatchCache.InsertAllUnchanged | update-data.js:158 | offering only matches whose ids are cached, or that have no players array, changes nothing |
| Synergy.SquadMembers | update-data.js:188-191 | the squad holds exactly the participants whose normalised `name#tag` is in the roster set |
| Synergy.SquadAppend | update-data.js:188-191 | the squad keeps upstream order |
| Synergy.SquadPairIff | update-data.js:188-193 | a match has a squad of two or more exactly when two positions of its players list hold roster members |
| Synergy.Headshot | update-data.js:215 | the percentage is 0 when no shot was counted, and otherwise the integer nearest to 100·h/(h+b+l), with halves rounded up, never above 100 |
| Synergy.RoundHalfUp | update-data.js:215 | the integer quotient used for the percentage lies within half a unit of the exact ratio and in 0..100 |
| Synergy.KdaRoundTrip | update-data.js:214 | the K/D/A text splits on `/` into three digit strings that read back as the kills, deaths and assists |
| Synergy.ScoreNaIff | update-data.js:200 | the score is `N/A` exactly when the match has no team data |
| Synergy.OperationOfSpec | update-data.js:186-217 | a cached match yields an operation exactly when its players list is an array with two roster members; the operation carries the match's id, map, mode and start time, the first squad member's team, and one published member per squad member, in order |
| Synergy.ResultAndScore | update-data.js:197-208 | without team data the result is a defeat and the score `N/A`; otherwise the score is blue-red rounds won, and the result is a victory exactly when the side named by the lower-cased team id of the first squad member has won |
| Synergy.CollectOperations | update-data.js:182-219 | the walk over the cache pushes exactly the operations of the qualifying matches, in the cache's insertion order |
| Synergy.EmittedMembers | update-data.js:184-219 | an operation is emitted exactly when some cached id's match yields it |
| OperationOrder.SortByStartDesc | update-data.js:221 | the array ends up holding the stable newest-first sort of its contents |
| OperationOrder.InsertInto | update-data.js:221 | one insertion step places the next element after every element that started no earlier than it, and leaves the rest of the array alone |
| OperationOrder.SortDescSorted | update-data.js:221 | the sorted operations are newest first |
| OperationOrder.SortDescPerm | update-data.js:221 | sorting only reorders: same multiset of operations |
| OperationOrder.SortDescStable | update-data.js:221 | operations with the same start time keep their order (the sort is stable) |
| OperationOrder.SortDescCorrect | update-data.js:221 | newest first, a permutation, the same members, and ties kept in order |
| UpdateJob.Run | update-data.js:10-232 | a run publishes the player records and the sorted operations given by the run's specification |
| UpdateJob.LookUpAll | update-data.js:48-176 | the main loop ends with the records and the valid cache that the lookups specify: one record per roster entry, and the cache given by offering each handed-on history in roster order |
| UpdateJob.GatherCache | update-data.js:53-176 | the loop's cache is the empty cache offered every handed-on match, in roster order |
| UpdateJob.GatherCacheHolds | update-data.js:157-161 | after the loop, every handed-on match with a players array is cached under its id, and each id holds the first such match offered, in roster order and then history order |
| UpdateJob.RunCache | update-data.js:115-161 | every match with a players array, from the history of a roster entry whose three requests all succeeded, is in the run's cache |
| UpdateJob.SortedOperations | update-data.js:221 | the operations come back sorted newest first, stably |
| UpdateJob.WellFormedRoster | update-data.js:33-40 | every roster entry reaching the lookup has the `#` that `split('#')` needs, and trimmed, non-empty fields |
| UpdateJob.GatherPlayers | update-data.js:53-172 | record `k` is the record built for roster entry `k` |
| UpdateJob.EmittedIdsDistinct | update-data.js:184-219 | no two operations share a match id, and each id is a cached one |
| UpdateJob.CacheOperations | update-data.js:182-221 | sorting the operations of a valid cache gives them newest first, as a permutation with distinct ids, ties in cache order, and exactly the operations of the qualifying matches |
| UpdateJob.RunOperations | update-data.js:182-226 | the published operations are newest first, exactly the qualifying cached matches' operations, each once, with same-time ties in cache order |
| UpdateJob.RunPlayers | update-data.js:20-172 | one published record per roster entry, in roster order, each with that entry's Riot ID and role |
| RoleBoard.InitialBoard | script.js:2-8 | the table lists the five roles in declaration order, each with two seats, a zero counter, no one seated and no one waiting |
| RoleBoard.RolesConfig.constructor | script.js:2-8 | the object's entries are distinct and hold the declared table |
| RoleBoard.Select | script.js:19-20 | a bare array is the player list with no operations; the current document gives its players and operations |
| RoleBoard.Target | script.js:26-28 | a player goes to the first role, in table order, that one of its search terms matches, and to none when no role matches |
| RoleBoard.MatchesIff | script.js:27-28 | a role matches when the lower-cased declared role contains the role's lower-cased name, or `smoker` for `Controlador` |
| RoleBoard.TargetAt | script.js:26-35 | the loop's `break` at the first matching role picks that role |
| RoleBoard.Admitted | script.js:29-34 | receiving a player keeps a role's entry consistent |
| RoleBoard.Role.Admit | script.js:29-34 | the entry takes a seat if one is free, else a waiting place if one is free, else is unchanged |
| RoleBoard.RolesConfig.PlaceOne | script.js:24-37 | one player changes only the role it is routed to, as the allocation rule says, and keeps the table consistent |
| RoleBoard.RolesConfig.PlaceEach | script.js:23-38 | the players are placed one after another, in order |
| RoleBoard.PlaceValid | script.js:26-37 | placing keeps the table consistent, changes only the routed role, and changes nothing for a player that matches no role |
| RoleBoard.PlaceOutcome | script.js:29-34 | a player is seated exactly when a seat is free, waits exactly when all seats are taken and a waiting place is free, and is otherwise dropped; both lists keep arrival order |
| RoleBoard.PlaceAllFilled | script.js:23-38 | from the declared table, each role seats the first two players routed to it, keeps the next four waiting in arrival order, and drops the rest |
| RoleBoard.Load | script.js:16-23 | the page fills a fresh table with the document's players and keeps its operations |
| Text.Lower | update-data.js:28 | `toLowerCase` keeps the length and works position by position: each upper-case ASCII letter becomes its lower-case letter and every other character stays |
| Text.ContainsIff | update-data.js:28 | `includes` holds exactly when the fragment occurs at some position |
| Text.RemoveChar | update-data.js:36 | `replace(/"/g, '')` leaves no `"` and keeps every other character |
| Text.RemoveCharConcat | update-data.js:36 | removal goes piece by piece, keeping order and repetitions |
| Text.RemoveCharSingle | update-data.js:36 | on one character: `"` disappears, any other character stays |
| Text.StripSpaceFrom | update-data.js:41 | `replace(/\s/g, '')` adds no character: everything in the result was in the input |
| Text.StripSpaceKeeps | update-data.js:41 | `replace(/\s/g, '')` keeps every non-space character |
| Text.StripSpaceConcat | update-data.js:41 | removing whitespace goes piece by piece, keeping order and repetitions |
| Text.StripSpaceSingle | update-data.js:41 | on one character: whitespace disappears, any other character stays |
| Text.Trim | update-data.js:36 | the trimmed text neither begins nor ends with whitespace |
| Text.TrimSlice | update-data.js:36 | the trimmed text is the slice of the input that starts after the leading whitespace |
| Text.TrimCuts | update-data.js:36 | what trimming cuts at either end is whitespace |
| Text.TrimKeepsOut | update-data.js:36 | trimming introduces no character |
| Text.Split | update-data.js:18 | `split` gives at least one part, no part holds the separator, and more than one part exactly when the separator occurs |
| Text.JoinSplit | update-data.js:18 | joining the parts with the separator gives back the text |
| Text.ParseNatToString | update-data.js:214 | the decimal text of a count reads back as that count |

## Left out

- Network, timing and output: the CSV download, the API requests, the reading of
  `data.json` by the page, the pacing `delay`s, console logging, the file write, `Date.now`
  (the `updatedAt` field) and `process.exit`. Replies are the `Api` and `Payload` parameters.
- The diagnostic block for one member (update-data.js:126-142) only logs.
- The tracker link and `encodeURIComponent` (update-data.js:56-57, 63) are not modelled.
  Only the record fields that later logic reads are kept.
- Text.Lower: lower-cases the ASCII letters only; JavaScript's `toLowerCase` also maps
  other Unicode letters.
- Synergy.Headshot: computes the exact integer round-half-up of 100·h/(h+b+l). The
  source rounds the floating-point product `(h / d) * 100`, which can fall just below an
  exact half. For example, 23 headshots of 40 shots give 57.49999999999999 in floating
  point, so the source publishes 57 where the model gives 58.
- Missing or wrongly typed fields are modelled as follows:
  - An exception inside a player's `try` (a reply that throws, or a missing nested field
    such as `data.card`) is the reply value `Threw`.
  - PlayerSync.SyncPlayer: a reply that throws part-way through is modelled as throwing
    before it sets anything. The source keeps what it set first: `level` (update-data.js:82)
    when `card.small` is missing at line 83, and `currentRank` (line 99) when
    `images.small` is missing at line 100. The model leaves those fields at their
    previous values.
  - A history whose `data` is missing is an empty history.
  - A match's `metadata` is assumed present. In the source, a match that has a players
    array but no `metadata` throws at update-data.js:158, inside the player's `try`. That
    sets the player's error flag, and the history's later matches are not cached. A match
    with neither is skipped without an error.
  - The following are assumed present on every qualifying match. In the source, each one
    that is missing throws outside the per-player `try`. The error is caught at
    update-data.js:234-236, which calls `process.exit(1)` before the write at line 229,
    so no data.json is written.
    - `teams`, when present, has both `blue` and `red` (update-data.js:200).
    - When `teams` is present, the first squad member has a `team`; otherwise
      `teamId.toLowerCase()` throws (update-data.js:197-198).
    - Every squad member has `assets.agent`; otherwise reading `small` throws
      (update-data.js:213).
    - Every squad member has `stats`; otherwise reading `kills` or `headshots` throws
      (update-data.js:214-215).
  - Counts (`kills`, `headshots`, `rounds_won`) are non-negative integers, and
    `game_start` is an integer. A comparator returning `NaN` for a missing start time is
    not modelled.
- Record fields: `level` is `None` for the placeholder `'--'`. The rank icons are values
  (none, an image URL, or a tier icon) rather than the URL strings.
- The page's rendering is not modelled: the `desc` texts, `renderRoles`,
  `renderOperations` (and the check that gates it), the player cards, and the error panel
  shown when `data.json` cannot be read. `Load` starts from a fresh table; the page loads
  once.
