/**
  The run-wide match cache: a JavaScript `Map` from match id to match, filled from every
  player's history. A match is stored only when its `players` is an array, and an id
  already present is never overwritten. The `Map`'s insertion order is kept, because the
  operations are later emitted in that order.
*/
module MatchCache {
  import opened Wrappers
  import opened Upstream

  /** The cache's contents: ids in insertion order, and the stored match of each id. */
  datatype CacheState = CacheState(order: seq<string>, byId: map<string, Match>)

  const Empty := CacheState([], map[])

  /** A match the cache accepts: its `players` is an array (possibly empty). */
  predicate Storable(m: Match)
  {
    m.players.Some?
  }

  /** The cache's invariant: the order lists each key once and nothing else, and every
      stored match is storable and filed under its own id. */
  ghost predicate CacheValid(c: CacheState)
  {
    (forall i, j :: 0 <= i < j < |c.order| ==> c.order[i] != c.order[j]) &&
    (forall id :: id in c.order <==> id in c.byId) &&
    (forall id :: id in c.byId ==> Storable(c.byId[id]) && c.byId[id].matchId == id)
  }

  /** One step of the `forEach`: store the match under its id unless it has no players
      array or its id is already present. */
  function Insert(c: CacheState, m: Match): CacheState
  {
    if Storable(m) && m.matchId !in c.byId then
      CacheState(c.order + [m.matchId], c.byId[m.matchId := m])
    else c
  }

  /** The whole `forEach` over one fetched history. */
  function InsertAll(c: CacheState, ms: seq<Match>): CacheState
  {
    if ms == [] then c else Insert(InsertAll(c, ms[..|ms| - 1]), ms[|ms| - 1])
  }

  /** The cache as the class the job mutates. */
  class MatchStore {
    var order: seq<string>
    var byId: map<string, Match>

    function State(): CacheState
      reads this
    {
      CacheState(order, byId)
    }

    ghost predicate Valid()
      reads this
    {
      CacheValid(State())
    }

    constructor ()
      ensures Valid() && State() == Empty
    {
      order, byId := [], map[];
    }

    /** Lines 157-161 of the job: offer every match of a fetched history to the cache. */
    method AddAll(ms: seq<Match>)
      requires Valid()
      modifies this
      ensures Valid()
      ensures State() == InsertAll(old(State()), ms)
    {
      ghost var start := State();
      for i := 0 to |ms|
        invariant Valid()
        invariant State() == InsertAll(start, ms[..i])
      {
        assert ms[..i + 1][..i] == ms[..i];
        var m := ms[i];
        if m.players.Some? && m.matchId !in byId {
          InsertValid(State(), m);
          byId := byId[m.matchId := m];
          order := order + [m.matchId];
        }
      }
      assert ms[..|ms|] == ms;
    }
  }

  // ---------------------------------------------------------------------------
  // Properties of the cache

  lemma InsertValid(c: CacheState, m: Match)
    requires CacheValid(c)
    ensures CacheValid(Insert(c, m))
  {
    if Storable(m) && m.matchId !in c.byId {
      var c' := Insert(c, m);
      forall i, j | 0 <= i < j < |c'.order| ensures c'.order[i] != c'.order[j] {
        if j == |c.order| {
          assert c.order[i] in c.order;
        }
      }
    }
  }

  /** Offering any matches keeps the invariant. */
  lemma {:induction false} InsertAllValid(c: CacheState, ms: seq<Match>)
    requires CacheValid(c)
    ensures CacheValid(InsertAll(c, ms))
  {
    if ms != [] {
      InsertAllValid(c, ms[..|ms| - 1]);
      InsertValid(InsertAll(c, ms[..|ms| - 1]), ms[|ms| - 1]);
    }
  }

  /** Offering two histories one after the other is offering their concatenation. */
  lemma {:induction false} InsertAllAppend(c: CacheState, a: seq<Match>, b: seq<Match>)
    ensures InsertAll(c, a + b) == InsertAll(InsertAll(c, a), b)
    decreases |b|
  {
    if b == [] {
      assert a + b == a;
    } else {
      InsertAllAppend(c, a, b[..|b| - 1]);
      assert (a + b)[..|a + b| - 1] == a + b[..|b| - 1];
    }
  }

  /** First writer wins: an id already cached keeps its match and its place, and the old
      order is a prefix of the new one. */
  lemma {:induction false} FirstWriterWins(c: CacheState, ms: seq<Match>)
    ensures var r := InsertAll(c, ms);
      c.order <= r.order &&
      forall id :: id in c.byId ==> id in r.byId && r.byId[id] == c.byId[id]
  {
    if ms != [] {
      FirstWriterWins(c, ms[..|ms| - 1]);
    }
  }

  /** Position `k` holds the first storable match with this id among `ms`. */
  predicate FirstStorableAt(ms: seq<Match>, k: int, id: string)
  {
    0 <= k < |ms| && Storable(ms[k]) && ms[k].matchId == id &&
    forall j :: 0 <= j < k ==> !(Storable(ms[j]) && ms[j].matchId == id)
  }

  /** A new entry is the FIRST storable match with that id among those offered, and every
      storable match offered ends up cached under its id. */
  lemma {:induction false} InsertAllEntries(c: CacheState, ms: seq<Match>)
    ensures var r := InsertAll(c, ms);
      forall id :: id in r.byId && id !in c.byId ==>
        exists k :: FirstStorableAt(ms, k, id) && ms[k] == r.byId[id]
    ensures var r := InsertAll(c, ms);
      forall k :: 0 <= k < |ms| && Storable(ms[k]) ==> ms[k].matchId in r.byId
  {
    if ms != [] {
      var init := ms[..|ms| - 1];
      InsertAllEntries(c, init);
      var p := InsertAll(c, init);
      var r := InsertAll(c, ms);
      forall id | id in r.byId && id !in c.byId
        ensures exists k :: FirstStorableAt(ms, k, id) && ms[k] == r.byId[id]
      {
        if id in p.byId {
          var k :| FirstStorableAt(init, k, id) && init[k] == p.byId[id];
          assert forall j :: 0 <= j <= k ==> ms[j] == init[j];
          assert FirstStorableAt(ms, k, id);
        } else {
          var k := |ms| - 1;
          forall j | 0 <= j < k ensures !(Storable(ms[j]) && ms[j].matchId == id) {
            assert ms[j] == init[j];
          }
          assert FirstStorableAt(ms, k, id);
        }
      }
      forall k | 0 <= k < |ms| && Storable(ms[k]) ensures ms[k].matchId in r.byId {
        if k < |init| {
          assert ms[k] == init[k];
        }
      }
    }
  }

  /** Offering the same matches again changes nothing. */
  lemma {:induction false} InsertAllIdempotent(c: CacheState, ms: seq<Match>)
    ensures InsertAll(InsertAll(c, ms), ms) == InsertAll(c, ms)
  {
    var r := InsertAll(c, ms);
    InsertAllEntries(c, ms);
    FirstWriterWins(c, ms);
    InsertAllUnchanged(r, ms);
  }

  /** Offering matches whose ids are all present (or which are not storable) changes nothing. */
  lemma {:induction false} InsertAllUnchanged(c: CacheState, ms: seq<Match>)
    requires forall k :: 0 <= k < |ms| && Storable(ms[k]) ==> ms[k].matchId in c.byId
    ensures InsertAll(c, ms) == c
  {
    if ms != [] {
      InsertAllUnchanged(c, ms[..|ms| - 1]);
    }
  }
}
