/**
  The batch job end to end: parse the roster, look every player up in roster order while
  filling the shared match cache, derive the squad operations from the cache, and sort
  them newest first. The result is the content of the published `data.json` except its
  `updatedAt` timestamp.
*/
module UpdateJob {
  import opened Wrappers
  import opened Text
  import opened Upstream
  import opened Roster
  import opened PlayerSync
  import opened MatchCache
  import opened Synergy
  import opened OperationOrder

  datatype Output = Output(players: seq<PlayerData>, operations: seq<Operation>)

  /** The player records and the match cache after the main loop over `entries`. */
  datatype Progress = Progress(players: seq<PlayerData>, cache: CacheState)

  /** The outcome of looking up each roster entry, in roster order. */
  function Lookups(entries: seq<RosterEntry>, api: Api): seq<SyncResult>
    requires forall k :: 0 <= k < |entries| ==> '#' in entries[k].riotId
  {
    seq(|entries|, k requires 0 <= k < |entries| => SyncPlayer(entries[k], api))
  }

  /** The main loop's state after the given lookups: one record per lookup, and the
      cache filled with their matches in order. */
  function Gather(lookups: seq<SyncResult>): (r: Progress)
    ensures |r.players| == |lookups|
    ensures CacheValid(r.cache)
  {
    if lookups == [] then Progress([], Empty)
    else
      var prev := Gather(lookups[..|lookups| - 1]);
      var step := lookups[|lookups| - 1];
      InsertAllValid(prev.cache, step.fetched);
      Progress(prev.players + [step.player], InsertAll(prev.cache, step.fetched))
  }

  /** The players and the match cache at the end of the main loop. */
  function RunProgress(csv: string, api: Api): (r: Progress)
    ensures CacheValid(r.cache)
  {
    WellFormedRoster(csv);
    Gather(Lookups(RosterOf(csv), api))
  }

  /** The operations in the order they are pushed, before sorting. */
  function RunEmitted(csv: string, api: Api): seq<Operation>
  {
    var c := RunProgress(csv, api).cache;
    Emitted(c.order, c.byId, RosterKeys(RosterOf(csv)))
  }

  /** What one run publishes for the given sheet and API replies. */
  function RunSpec(csv: string, api: Api): Output
  {
    Output(RunProgress(csv, api).players, SortDesc(RunEmitted(csv, api)))
  }

  /** Every entry of the parsed roster has the `#` the lookup splits on. */
  lemma WellFormedRoster(csv: string)
    ensures forall k :: 0 <= k < |RosterOf(csv)| ==> WellFormed(RosterOf(csv)[k])
  {
    var rows := Split(csv, '\n');
    if |rows| > 1 {
      var headers := Split(rows[0], ',');
      var entries := RosterOf(csv);
      AcceptedWellFormed(rows[1..], LastMatching(headers, "fun"), LastMatching(headers, "riot"));
      forall k | 0 <= k < |entries| ensures WellFormed(entries[k]) {
        assert entries[k] in entries;
      }
    }
  }

  /** The job's `run()`, without its logging, pacing delays and file write. */
  method Run(csv: string, api: Api) returns (out: Output)
    ensures out == RunSpec(csv, api)
  {
    var entries, roster := ParseRoster(csv);
    WellFormedRoster(csv);
    var players, cache := LookUpAll(entries, api);
    var ops := CollectOperations(cache, roster);
    var sorted := SortedOperations(ops);
    out := Output(players, sorted);
  }

  /** The main loop of `run()`: look every roster entry up, in order, keeping each record
      and adding the fetched matches to a fresh cache. */
  method LookUpAll(entries: seq<RosterEntry>, api: Api) returns (players: seq<PlayerData>, cache: MatchStore)
    requires forall k :: 0 <= k < |entries| ==> '#' in entries[k].riotId
    ensures fresh(cache) && cache.Valid()
    ensures Progress(players, cache.State()) == Gather(Lookups(entries, api))
  {
    ghost var lookups := Lookups(entries, api);
    players := [];
    cache := new MatchStore();
    for i := 0 to |entries|
      invariant fresh(cache) && cache.Valid()
      invariant Progress(players, cache.State()) == Gather(lookups[..i])
    {
      GatherNext(lookups, i);
      var step := SyncPlayer(entries[i], api);
      assert step == lookups[i];
      players := players + [step.player];
      cache.AddAll(step.fetched);
    }
    assert lookups[..|entries|] == lookups;
  }

  /** One more lookup appends its record and adds its matches to the cache. */
  lemma GatherNext(lookups: seq<SyncResult>, i: nat)
    requires i < |lookups|
    ensures var prev := Gather(lookups[..i]);
      Gather(lookups[..i + 1]) ==
        Progress(prev.players + [lookups[i].player], InsertAll(prev.cache, lookups[i].fetched))
  {
    assert lookups[..i + 1][..i] == lookups[..i];
  }

  /** Copy the operations into an array, sort it newest first and read it back. */
  method SortedOperations(ops: seq<Operation>) returns (sorted: seq<Operation>)
    ensures sorted == SortDesc(ops)
  {
    var a := new Operation[|ops|](k requires 0 <= k < |ops| => ops[k]);
    assert a[..] == ops;
    SortByStartDesc(a);
    sorted := a[..];
  }

  // ---------------------------------------------------------------------------
  // Properties of a whole run

  /** One record per lookup, in lookup order. */
  lemma {:induction false} GatherPlayers(lookups: seq<SyncResult>)
    ensures forall k :: 0 <= k < |lookups| ==> Gather(lookups).players[k] == lookups[k].player
  {
    if lookups != [] {
      var init := lookups[..|lookups| - 1];
      GatherPlayers(init);
      var prev := Gather(init).players;
      var ps := Gather(lookups).players;
      assert ps == prev + [lookups[|lookups| - 1].player];
      forall k | 0 <= k < |lookups| ensures ps[k] == lookups[k].player {
        if k < |init| {
          assert ps[k] == prev[k] && init[k] == lookups[k];
        }
      }
    }
  }

  /** Every match handed on by the lookups, in roster order. */
  function AllFetched(lookups: seq<SyncResult>): (ms: seq<Match>)
  {
    if lookups == [] then []
    else AllFetched(lookups[..|lookups| - 1]) + lookups[|lookups| - 1].fetched
  }

  /** The loop's cache is the empty cache offered every handed-on match, in roster order. */
  lemma {:induction false} GatherCache(lookups: seq<SyncResult>)
    ensures Gather(lookups).cache == InsertAll(Empty, AllFetched(lookups))
  {
    if lookups != [] {
      var init := lookups[..|lookups| - 1];
      GatherCache(init);
      InsertAllAppend(Empty, AllFetched(init), lookups[|lookups| - 1].fetched);
    }
  }

  /** A match handed on by some lookup is among all the handed-on matches. */
  lemma {:induction false} AllFetchedHas(lookups: seq<SyncResult>, k: nat, m: Match)
    requires k < |lookups| && m in lookups[k].fetched
    ensures m in AllFetched(lookups)
  {
    var init := lookups[..|lookups| - 1];
    if k < |init| {
      assert init[k] == lookups[k];
      AllFetchedHas(init, k, m);
    }
  }

  /** After the main loop, every match with a players array that some lookup handed on is
      cached under its id, and each cached id holds the first such match offered with that
      id, in roster order and then history order. */
  lemma GatherCacheHolds(lookups: seq<SyncResult>)
    ensures var c := Gather(lookups).cache;
      forall k, m :: 0 <= k < |lookups| && m in lookups[k].fetched && Storable(m) ==> m.matchId in c.byId
    ensures var c, ms := Gather(lookups).cache, AllFetched(lookups);
      forall id :: id in c.byId ==> exists n :: FirstStorableAt(ms, n, id) && ms[n] == c.byId[id]
  {
    var ms := AllFetched(lookups);
    GatherCache(lookups);
    InsertAllEntries(Empty, ms);
    forall k, m | 0 <= k < |lookups| && m in lookups[k].fetched && Storable(m)
      ensures m.matchId in Gather(lookups).cache.byId
    {
      AllFetchedHas(lookups, k, m);
      var n :| 0 <= n < |ms| && ms[n] == m;
    }
  }

  /** The published cache of a run: every match with a players array from the history of a
      roster entry whose lookups all succeeded is cached. */
  lemma RunCache(csv: string, api: Api, k: nat, m: Match)
    requires k < |RosterOf(csv)|
    requires var e := RosterOf(csv)[k];
      '#' in e.riotId &&
      var name, tag, region := NameOf(e.riotId), TagOf(e.riotId), RegionUsed(e, api);
      !api.account(name, tag).Threw? && !api.mmr(region, name, tag).Threw? &&
      api.matches(region, name, tag).Ok? && m in api.matches(region, name, tag).data
    requires Storable(m)
    ensures m.matchId in RunProgress(csv, api).cache.byId
  {
    var entries := RosterOf(csv);
    WellFormedRoster(csv);
    var lookups := Lookups(entries, api);
    SyncPlayerSpec(entries[k], api);
    assert lookups[k] == SyncPlayer(entries[k], api);
    GatherCacheHolds(lookups);
  }

  /** No two operations share a match id. */
  predicate DistinctIds(ops: seq<Operation>)
  {
    forall i, j :: 0 <= i < j < |ops| ==> ops[i].id != ops[j].id
  }

  /** The emitted operations have pairwise different ids: the cache lists each id once. */
  lemma {:induction false} EmittedIdsDistinct(order: seq<string>, byId: map<string, Match>, roster: set<string>)
    requires forall id :: id in order ==> id in byId
    requires forall i, j :: 0 <= i < j < |order| ==> order[i] != order[j]
    ensures DistinctIds(Emitted(order, byId, roster))
    ensures forall op :: op in Emitted(order, byId, roster) ==> op.id in order
  {
    if order != [] {
      var init := order[..|order| - 1];
      var last := order[|order| - 1];
      EmittedIdsDistinct(init, byId, roster);
      var prev := Emitted(init, byId, roster);
      var next := OperationOf(last, byId[last], roster);
      var ops := Emitted(order, byId, roster);
      EmittedNext(order, byId, roster, |order| - 1);
      assert order[..|order|] == order;
      assert ops == prev + (if next.Some? then [next.value] else []);
      assert last !in init;
      forall op | op in ops ensures op.id in order {
        if op in prev {
          assert op.id in init;
        } else {
          assert op == OperationOf(last, byId[last], roster).value;
        }
      }
      assert DistinctIds(prev);
      forall i, j | 0 <= i < j < |ops| ensures ops[i].id != ops[j].id {
        if j < |prev| {
          assert ops[i] == prev[i] && ops[j] == prev[j];
          assert prev[i].id != prev[j].id;
        } else {
          assert ops[i] == prev[i] && prev[i] in prev;
          assert prev[i].id in init;
          assert ops[j] == next.value && next.value.id == last;
          assert prev[i].id != last;
        }
      }
    }
  }

  /** What sorting the operations of a valid cache gives: newest first, exactly the
      operations of the qualifying cached matches, and ties in cache order. */
  lemma CacheOperations(c: CacheState, roster: set<string>)
    requires CacheValid(c)
    ensures var emitted := Emitted(c.order, c.byId, roster);
      SortedDesc(SortDesc(emitted)) &&
      multiset(SortDesc(emitted)) == multiset(emitted) &&
      (forall t :: StartedAt(SortDesc(emitted), t) == StartedAt(emitted, t)) &&
      DistinctIds(emitted)
    ensures forall op :: op in SortDesc(Emitted(c.order, c.byId, roster)) <==>
      exists k :: 0 <= k < |c.order| && OperationOf(c.order[k], c.byId[c.order[k]], roster) == Some(op)
  {
    var emitted := Emitted(c.order, c.byId, roster);
    SortDescCorrect(emitted);
    EmittedIdsDistinct(c.order, c.byId, roster);
    forall op ensures op in emitted <==>
      exists k :: 0 <= k < |c.order| && OperationOf(c.order[k], c.byId[c.order[k]], roster) == Some(op)
    {
      EmittedMembers(c.order, c.byId, roster, op);
    }
  }

  /** The published operations: newest first; exactly the operations of the qualifying
      cached matches, each once; and operations that started at the same time keep the
      cache's order. */
  lemma RunOperations(csv: string, api: Api)
    ensures SortedDesc(RunSpec(csv, api).operations)
    ensures multiset(RunSpec(csv, api).operations) == multiset(RunEmitted(csv, api))
    ensures forall t :: StartedAt(RunSpec(csv, api).operations, t) == StartedAt(RunEmitted(csv, api), t)
    ensures DistinctIds(RunEmitted(csv, api))
    ensures var c := RunProgress(csv, api).cache;
      forall op :: op in RunSpec(csv, api).operations <==>
        exists k :: 0 <= k < |c.order| &&
          OperationOf(c.order[k], c.byId[c.order[k]], RosterKeys(RosterOf(csv))) == Some(op)
  {
    CacheOperations(RunProgress(csv, api).cache, RosterKeys(RosterOf(csv)));
  }

  /** One published record per roster entry, in roster order, each with that entry's Riot ID
      and role. */
  lemma RunPlayers(csv: string, api: Api)
    ensures |RunSpec(csv, api).players| == |RosterOf(csv)|
    ensures forall k :: 0 <= k < |RosterOf(csv)| ==>
      RunSpec(csv, api).players[k].riotId == RosterOf(csv)[k].riotId &&
      RunSpec(csv, api).players[k].roleRaw == RosterOf(csv)[k].role
  {
    var entries := RosterOf(csv);
    WellFormedRoster(csv);
    var lookups := Lookups(entries, api);
    var players := RunSpec(csv, api).players;
    assert players == Gather(lookups).players;
    GatherPlayers(lookups);
    forall k | 0 <= k < |entries|
      ensures players[k].riotId == entries[k].riotId && players[k].roleRaw == entries[k].role
    {
      assert players[k] == SyncPlayer(entries[k], api).player;
      SyncPlayerSpec(entries[k], api);
    }
  }
}
