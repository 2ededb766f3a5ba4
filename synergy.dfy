/**
  Squad detection over the match cache: a cached match becomes an "operation" when at
  least two of its participants are on the roster. Each operation records the outcome and
  score seen from the first squad member's side, and each member's K/D/A and headshot
  percentage.
*/
module Synergy {
  import opened Wrappers
  import opened Text
  import opened Upstream
  import opened Roster
  import opened MatchCache

  const Victory := "VIT\U{00D3}RIA"
  const Defeat := "DERROTA"
  const NoScore := "N/A"

  /** One squad member as published: display Riot ID, agent, agent image, `k/d/a`, and
      headshot percentage. */
  datatype SquadMember = SquadMember(riotId: string, agent: string, agentImg: string,
                                     kda: string, hs: nat)

  datatype Operation = Operation(
    id: string, mapName: string, mode: string, startedAt: int,
    score: string, result: string, teamColor: string,
    squad: seq<SquadMember>)

  /** The membership key of a participant: `${name}#${tag}` normalised like roster IDs. */
  function ParticipantKey(pl: Participant): string
  {
    Normalise(pl.name + "#" + pl.tag)
  }

  predicate OnRoster(pl: Participant, roster: set<string>)
  {
    ParticipantKey(pl) in roster
  }

  /** The participants on the roster, in the upstream order. */
  function Squad(players: seq<Participant>, roster: set<string>): (squad: seq<Participant>)
    ensures |squad| <= |players|
  {
    if players == [] then []
    else
      var init := Squad(players[..|players| - 1], roster);
      var last := players[|players| - 1];
      if OnRoster(last, roster) then init + [last] else init
  }

  /** The squad holds exactly the participants on the roster. */
  lemma {:induction false} SquadMembers(players: seq<Participant>, roster: set<string>)
    ensures forall x :: x in Squad(players, roster) <==> x in players && OnRoster(x, roster)
  {
    if players != [] {
      var init := players[..|players| - 1];
      SquadMembers(init, roster);
      assert players == init + [players[|players| - 1]];
    }
  }

  /** `Math.round((h / (h + b + l)) * 100) || 0` on non-negative counts: 0 when no shot
      was counted (`0 / 0` is `NaN`), otherwise the integer nearest to the exact ratio
      100h/(h+b+l), halves rounded up. The source rounds the floating-point product, which
      can land just below an exact half; README's "Left out" line for `Synergy.Headshot`
      gives such an input. */
  function Headshot(s: Stats): (hs: nat)
    ensures hs <= 100
    ensures s.headshots + s.bodyshots + s.legshots == 0 ==> hs == 0
    ensures var d := s.headshots + s.bodyshots + s.legshots;
      d > 0 ==> 2 * d * hs - d <= 200 * s.headshots < 2 * d * hs + d
  {
    var h, d := s.headshots, s.headshots + s.bodyshots + s.legshots;
    if d == 0 then 0
    else
      RoundHalfUp(h, d);
      (200 * h + d) / (2 * d)
  }

  /** Bounds of the rounded percentage, proved from the division's quotient and remainder. */
  lemma RoundHalfUp(h: nat, d: nat)
    requires 0 < d && h <= d
    ensures var q := (200 * h + d) / (2 * d);
      0 <= q <= 100 && 2 * d * q - d <= 200 * h < 2 * d * q + d
  {
    var n, m := 200 * h + d, 2 * d;
    var q, r := n / m, n % m;
    assert n == m * q + r && 0 <= r < m;
    if q > 100 {
      MulMonotone(m, 101, q);
      assert false;
    }
  }

  lemma MulMonotone(m: nat, a: nat, b: nat)
    requires a <= b
    ensures m * a <= m * b
  {
  }

  /** `${kills}/${deaths}/${assists}`. */
  function Kda(s: Stats): string
  {
    NatToString(s.kills) + "/" + NatToString(s.deaths) + "/" + NatToString(s.assists)
  }

  /** The K/D/A text splits back into the three counts. */
  lemma KdaRoundTrip(s: Stats)
    ensures var parts := Split(Kda(s), '/');
      |parts| == 3 &&
      (forall i :: 0 <= i < 3 ==> forall j :: 0 <= j < |parts[i]| ==> IsDigit(parts[i][j])) &&
      ParseDigits(parts[0]) == s.kills && ParseDigits(parts[1]) == s.deaths &&
      ParseDigits(parts[2]) == s.assists
  {
    var k, d, a := NatToString(s.kills), NatToString(s.deaths), NatToString(s.assists);
    DigitsHaveNo(s.kills, '/');
    DigitsHaveNo(s.deaths, '/');
    DigitsHaveNo(s.assists, '/');
    SplitThree(k, d, a, '/');
    ParseNatToString(s.kills);
    ParseNatToString(s.deaths);
    ParseNatToString(s.assists);
  }

  /** `${teams.blue.rounds_won}-${teams.red.rounds_won}`, or `N/A` without team data. */
  function ScoreOf(teams: Option<Teams>): string
  {
    match teams
    case None => NoScore
    case Some(t) => NatToString(t.blue.roundsWon) + "-" + NatToString(t.red.roundsWon)
  }

  /** The score is `N/A` exactly when the match has no team data. */
  lemma ScoreNaIff(teams: Option<Teams>)
    ensures ScoreOf(teams) == NoScore <==> teams.None?
  {
    if teams.Some? {
      var sc := ScoreOf(teams);
      assert IsDigit(sc[0]);
    }
  }

  /** `match.teams[teamId.toLowerCase()]`: the side named by the team id, if any. */
  function TeamDataOf(teams: Option<Teams>, teamId: string): Option<TeamData>
  {
    if teams.None? then None
    else if Lower(teamId) == "blue" then Some(teams.value.blue)
    else if Lower(teamId) == "red" then Some(teams.value.red)
    else None
  }

  function MemberOf(pl: Participant): SquadMember
  {
    SquadMember(pl.name + "#" + pl.tag, pl.character, pl.agentSmall, Kda(pl.stats), Headshot(pl.stats))
  }

  /** The published operation for a match with a squad of at least one member. */
  function MakeOperation(id: string, m: Match, squad: seq<Participant>): Operation
    requires |squad| >= 1
  {
    var teamId := squad[0].team;
    var teamData := TeamDataOf(m.teams, teamId);
    var hasWon := teamData.Some? && teamData.value.hasWon;
    Operation(id, m.mapName, m.mode, m.gameStart, ScoreOf(m.teams),
              if hasWon then Victory else Defeat, teamId,
              seq(|squad|, i requires 0 <= i < |squad| => MemberOf(squad[i])))
  }

  /** The operation a cached match yields, if it qualifies. */
  function OperationOf(id: string, m: Match, roster: set<string>): Option<Operation>
  {
    if m.players.None? then None
    else
      var squad := Squad(m.players.value, roster);
      if |squad| >= 2 then Some(MakeOperation(id, m, squad)) else None
  }

  /** The cache's `[matchId, match]` pairs in insertion order, as a `for ... of` visits them. */
  function Entries(order: seq<string>, byId: map<string, Match>): (es: seq<(string, Match)>)
    requires forall id :: id in order ==> id in byId
    ensures |es| == |order|
  {
    seq(|order|, k requires 0 <= k < |order| => (order[k], byId[order[k]]))
  }

  /** `OperationOf` on a cache entry. */
  function EntryOperation(roster: set<string>): ((string, Match)) -> Option<Operation>
  {
    (e: (string, Match)) => OperationOf(e.0, e.1, roster)
  }

  /** The operations of the cached matches, in the cache's insertion order. */
  function Emitted(order: seq<string>, byId: map<string, Match>, roster: set<string>): seq<Operation>
    requires forall id :: id in order ==> id in byId
  {
    Collect(Entries(order, byId), EntryOperation(roster))
  }

  /** One more cache entry extends the emitted operations by its own, if any. */
  lemma EmittedNext(order: seq<string>, byId: map<string, Match>, roster: set<string>, i: nat)
    requires forall id :: id in order ==> id in byId
    requires i < |order|
    ensures var next := OperationOf(order[i], byId[order[i]], roster);
      Emitted(order[..i + 1], byId, roster) ==
        Emitted(order[..i], byId, roster) + (if next.Some? then [next.value] else [])
  {
    assert Entries(order[..i + 1], byId) == Entries(order[..i], byId) + [(order[i], byId[order[i]])];
    CollectNext(Entries(order[..i], byId), (order[i], byId[order[i]]), EntryOperation(roster));
  }

  /** Lines 182-219 of the job: walk the cache and push an operation per qualifying match. */
  method CollectOperations(cache: MatchStore, roster: set<string>) returns (ops: seq<Operation>)
    requires cache.Valid()
    ensures ops == Emitted(cache.order, cache.byId, roster)
  {
    ops := [];
    for i := 0 to |cache.order|
      invariant ops == Emitted(cache.order[..i], cache.byId, roster)
    {
      EmittedNext(cache.order, cache.byId, roster, i);
      var matchId := cache.order[i];
      var m := cache.byId[matchId];
      if m.players.None? {
        continue;
      }
      var squad := Squad(m.players.value, roster);
      if |squad| >= 2 {
        ops := ops + [MakeOperation(matchId, m, squad)];
      }
    }
    assert cache.order[..|cache.order|] == cache.order;
  }

  // ---------------------------------------------------------------------------
  // Properties of squad detection

  /** The squad keeps upstream order: filtering distributes over concatenation. */
  lemma {:induction false} SquadAppend(a: seq<Participant>, b: seq<Participant>, roster: set<string>)
    ensures Squad(a + b, roster) == Squad(a, roster) + Squad(b, roster)
    decreases |b|
  {
    if b == [] {
      assert a + b == a;
    } else {
      var init, x := b[..|b| - 1], b[|b| - 1];
      var t := if OnRoster(x, roster) then [x] else [];
      assert b == init + [x];
      assert a + b == (a + init) + [x];
      calc {
        Squad(a + b, roster);
        { SquadSnoc(a + init, x, roster); }
        Squad(a + init, roster) + t;
        { SquadAppend(a, init, roster); }
        Squad(a, roster) + Squad(init, roster) + t;
        { SquadSnoc(init, x, roster); }
        Squad(a, roster) + Squad(b, roster);
      }
    }
  }

  /** One step of `Squad`. */
  lemma SquadSnoc(s: seq<Participant>, x: Participant, roster: set<string>)
    ensures Squad(s + [x], roster) == Squad(s, roster) + (if OnRoster(x, roster) then [x] else [])
  {
    assert (s + [x])[..|s|] == s;
  }

  /** Positions `i < j` of the participant list both hold roster members. */
  predicate PairAt(players: seq<Participant>, roster: set<string>, i: int, j: int)
  {
    0 <= i < j < |players| && OnRoster(players[i], roster) && OnRoster(players[j], roster)
  }

  /** A roster member anywhere in the list makes the squad non-empty. */
  lemma {:induction false} SquadNonEmpty(players: seq<Participant>, roster: set<string>, i: int)
    requires 0 <= i < |players| && OnRoster(players[i], roster)
    ensures |Squad(players, roster)| >= 1
  {
    if i < |players| - 1 {
      var init := players[..|players| - 1];
      assert init[i] == players[i];
      SquadNonEmpty(init, roster, i);
    }
  }

  /** A non-empty squad has a roster member at some position of the list. */
  lemma {:induction false} SquadWitness(players: seq<Participant>, roster: set<string>) returns (i: int)
    requires |Squad(players, roster)| >= 1
    ensures 0 <= i < |players| && OnRoster(players[i], roster)
  {
    var init := players[..|players| - 1];
    if OnRoster(players[|players| - 1], roster) {
      i := |players| - 1;
    } else {
      i := SquadWitness(init, roster);
      assert init[i] == players[i];
    }
  }

  /** A match has a squad of two or more exactly when two different positions of its
      participant list hold roster members. */
  lemma {:induction false} SquadPairIff(players: seq<Participant>, roster: set<string>)
    ensures |Squad(players, roster)| >= 2 <==> exists i, j :: PairAt(players, roster, i, j)
  {
    if players != [] {
      var init := players[..|players| - 1];
      var n := |players| - 1;
      SquadPairIff(init, roster);
      if |Squad(players, roster)| >= 2 {
        if |Squad(init, roster)| >= 2 {
          var i, j :| PairAt(init, roster, i, j);
          assert players[i] == init[i] && players[j] == init[j];
          assert PairAt(players, roster, i, j);
        } else {
          var i := SquadWitness(init, roster);
          assert players[i] == init[i];
          assert PairAt(players, roster, i, n);
        }
      }
      if exists i, j :: PairAt(players, roster, i, j) {
        var i, j :| PairAt(players, roster, i, j);
        assert players[i] == init[i];
        if j < n {
          assert players[j] == init[j];
          assert PairAt(init, roster, i, j);
        } else {
          SquadNonEmpty(init, roster, i);
        }
      }
    }
  }

  /** A cached match yields an operation exactly when its players list is an array with at
      least two roster members; the operation carries the match's id, map, mode and start
      time, the first squad member's team, and one published member per squad member, in
      upstream order. */
  lemma OperationOfSpec(id: string, m: Match, roster: set<string>)
    ensures OperationOf(id, m, roster).Some? <==>
      m.players.Some? && exists i, j :: PairAt(m.players.value, roster, i, j)
    ensures OperationOf(id, m, roster).Some? ==>
      var op := OperationOf(id, m, roster).value;
      var squad := Squad(m.players.value, roster);
      op.id == id && op.mapName == m.mapName && op.mode == m.mode && op.startedAt == m.gameStart &&
      op.teamColor == squad[0].team && |op.squad| == |squad| >= 2 &&
      forall k :: 0 <= k < |squad| ==> op.squad[k] == MemberOf(squad[k])
  {
    if m.players.Some? {
      SquadPairIff(m.players.value, roster);
    }
  }

  /** Outcome and score: without team data the result is a defeat and the score `N/A`;
      otherwise the score is the blue and red round counts and the result is a victory
      exactly when the first squad member's side (by lower-cased team id) has won. */
  lemma ResultAndScore(id: string, m: Match, roster: set<string>)
    requires OperationOf(id, m, roster).Some?
    ensures var op := OperationOf(id, m, roster).value;
      (op.score == NoScore <==> m.teams.None?) &&
      (m.teams.None? ==> op.result == Defeat) &&
      (m.teams.Some? ==> op.score == NatToString(m.teams.value.blue.roundsWon) + "-" +
                                     NatToString(m.teams.value.red.roundsWon))
    ensures var op := OperationOf(id, m, roster).value;
      var side := Lower(op.teamColor);
      op.result == Victory <==>
        m.teams.Some? &&
        ((side == "blue" && m.teams.value.blue.hasWon) ||
         (side == "red" && m.teams.value.red.hasWon))
    ensures OperationOf(id, m, roster).value.result in {Victory, Defeat}
  {
    ScoreNaIff(m.teams);
  }

  /** Every emitted operation comes from a cached id whose match qualifies, and every
      qualifying cached match yields one. */
  lemma EmittedMembers(order: seq<string>, byId: map<string, Match>, roster: set<string>, op: Operation)
    requires forall id :: id in order ==> id in byId
    ensures op in Emitted(order, byId, roster) <==>
      exists k :: 0 <= k < |order| && OperationOf(order[k], byId[order[k]], roster) == Some(op)
  {
    var es, f := Entries(order, byId), EntryOperation(roster);
    CollectMembers(es, f, op);
    forall k | 0 <= k < |order| ensures f(es[k]) == OperationOf(order[k], byId[order[k]], roster) { }
  }
}
