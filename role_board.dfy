/**
  The dashboard's role board. Five tactical roles, each with two seats and a waiting list
  of at most four, are filled from the published player records in order: a record goes
  to the first role, in table order, one of whose search terms occurs in the record's
  lower-cased declared role; it takes a seat if one is free, else a waiting place if one is
  free, else it is not shown. `Controlador` is also found by the term `smoker`.
*/
module RoleBoard {
  import opened Wrappers
  import opened Text
  import opened PlayerSync
  import opened Synergy

  /** Every role's `max`. */
  const Seats := 2
  /** The waiting list's bound. */
  const WaitlistCap := 4

  /** The keys of the roles table, in declaration order. */
  const RoleNames: seq<string> := ["Sentinela", "Iniciador", "Flex", "Duelista", "Controlador"]

  // ---------------------------------------------------------------------------
  // Which role a record asks for

  /** The terms looked for in a declared role to pick the named role. */
  function SearchTerms(name: string): seq<string>
  {
    if name == "Controlador" then ["controlador", "smoker"] else [Lower(name)]
  }

  /** `searchTerms.some(term => roleRaw.includes(term))`. */
  predicate Matches(name: string, roleRaw: string)
  {
    var terms := SearchTerms(name);
    exists i :: 0 <= i < |terms| && Contains(roleRaw, terms[i])
  }

  /** The position of the first role, in table order, that the lower-cased declared role
      matches, if any. */
  function Target(names: seq<string>, roleRaw: string): (r: Option<nat>)
    ensures r.Some? <==> exists k :: 0 <= k < |names| && Matches(names[k], roleRaw)
    ensures r.Some? ==> r.value < |names| && Matches(names[r.value], roleRaw)
    ensures r.Some? ==> forall j :: 0 <= j < r.value ==> !Matches(names[j], roleRaw)
  {
    FindFirst(names, n => Matches(n, roleRaw))
  }

  /** The role a record is routed to on the standard table. */
  function RoleOf(p: PlayerData): Option<nat>
  {
    Target(RoleNames, Lower(p.roleRaw))
  }

  // ---------------------------------------------------------------------------
  // The board as a value

  /** One role's entry of the table, without its description text. */
  datatype Slot = Slot(name: string, max: int, current: int, players: seq<PlayerData>, waitlist: seq<PlayerData>)

  /** The counter counts the seated players, seats are never overfilled, the waiting list
      is bounded and only used once every seat is taken. */
  predicate SlotValid(s: Slot)
  {
    0 <= s.current == |s.players| <= s.max &&
    |s.waitlist| <= WaitlistCap &&
    (|s.waitlist| > 0 ==> s.current == s.max)
  }

  /** The table's role names, in order. */
  function Names(b: seq<Slot>): (names: seq<string>)
    ensures |names| == |b|
  {
    seq(|b|, k requires 0 <= k < |b| => b[k].name)
  }

  /** Five roles in table order, two seats each, every entry consistent. */
  predicate BoardValid(b: seq<Slot>)
  {
    |b| == |RoleNames| &&
    forall k :: 0 <= k < |b| ==> b[k].name == RoleNames[k] && b[k].max == Seats && SlotValid(b[k])
  }

  /** The table as declared: no one seated, no one waiting. */
  function InitialBoard(): (b: seq<Slot>)
    ensures BoardValid(b)
    ensures forall k :: 0 <= k < |b| ==> b[k].current == 0 && b[k].players == [] && b[k].waitlist == []
  {
    seq(|RoleNames|, k requires 0 <= k < |RoleNames| => Slot(RoleNames[k], Seats, 0, [], []))
  }

  /** One role receiving a record: a seat if free, else a waiting place if free, else
      nothing. */
  function Admitted(s: Slot, p: PlayerData): (r: Slot)
    ensures SlotValid(s) ==> SlotValid(r)
  {
    if s.current < s.max then s.(current := s.current + 1, players := s.players + [p])
    else if |s.waitlist| < WaitlistCap then s.(waitlist := s.waitlist + [p])
    else s
  }

  /** One record through the allocation loop. */
  function Place(b: seq<Slot>, p: PlayerData): seq<Slot>
  {
    match Target(Names(b), Lower(p.roleRaw))
    case None => b
    case Some(k) => b[k := Admitted(b[k], p)]
  }

  /** The records, in order, through the allocation loop. */
  function PlaceAll(b: seq<Slot>, ps: seq<PlayerData>): seq<Slot>
  {
    if ps == [] then b else Place(PlaceAll(b, ps[..|ps| - 1]), ps[|ps| - 1])
  }

  /** The records routed to role `k`, in arrival order. */
  function Routed(ps: seq<PlayerData>, k: nat): (r: seq<PlayerData>)
    ensures |r| <= |ps|
  {
    if ps == [] then []
    else Routed(ps[..|ps| - 1], k) + (if RoleOf(ps[|ps| - 1]) == Some(k) then [ps[|ps| - 1]] else [])
  }

  /** What role `k` holds once `r` has been routed to it from an empty start: the first two
      seated, the next four waiting, the rest dropped. */
  function Filled(k: nat, r: seq<PlayerData>): Slot
    requires k < |RoleNames|
  {
    var seated := if |r| < Seats then |r| else Seats;
    var waiting := if |r| < Seats + WaitlistCap then |r| else Seats + WaitlistCap;
    Slot(RoleNames[k], Seats, seated, r[..seated], r[seated..waiting])
  }

  // ---------------------------------------------------------------------------
  // The page's data source

  /** The two shapes `data.json` has had: a bare array of player records, and the current
      document with players and operations. */
  datatype Payload = Legacy(list: seq<PlayerData>) | Current(players: seq<PlayerData>, operations: seq<Operation>)

  /** The players and operations a payload provides; the legacy shape has no operations. */
  function Select(d: Payload): (r: (seq<PlayerData>, seq<Operation>))
    ensures d.Legacy? ==> r.0 == d.list && r.1 == []
    ensures d.Current? ==> r.0 == d.players && r.1 == d.operations
  {
    match d
    case Legacy(list) => (list, [])
    case Current(players, operations) => (players, operations)
  }

  // ---------------------------------------------------------------------------
  // The table in place

  /** One entry of `rolesConfig`. */
  class Role {
    const name: string
    const max: int
    var current: int
    var players: seq<PlayerData>
    var waitlist: seq<PlayerData>

    constructor(name: string, max: int)
      ensures this.name == name && this.max == max
      ensures current == 0 && players == [] && waitlist == []
    {
      this.name := name;
      this.max := max;
      current := 0;
      players := [];
      waitlist := [];
    }

    /** The entry's present value. */
    function Snapshot(): Slot
      reads this
    {
      Slot(name, max, current, players, waitlist)
    }

    /** The body of the matching branch of the loop. */
    method Admit(p: PlayerData)
      modifies this
      ensures Snapshot() == Admitted(old(Snapshot()), p)
    {
      if current < max {
        current := current + 1;
        players := players + [p];
      } else if |waitlist| < WaitlistCap {
        waitlist := waitlist + [p];
      }
    }
  }

  /** The `rolesConfig` object: one `Role` per table entry. */
  class RolesConfig {
    const roles: seq<Role>

    /** The table's present value. */
    function Board(): (b: seq<Slot>)
      reads this, roles
      ensures |b| == |roles|
    {
      seq(|roles|, k requires 0 <= k < |roles| reads roles => roles[k].Snapshot())
    }

    /** Distinct entries whose values form a consistent board. */
    ghost predicate Valid()
      reads this, roles
    {
      (forall i, j :: 0 <= i < j < |roles| ==> roles[i] != roles[j]) &&
      BoardValid(Board())
    }

    constructor()
      ensures Valid() && fresh(roles)
      ensures Board() == InitialBoard()
    {
      var sentinela := new Role("Sentinela", Seats);
      var iniciador := new Role("Iniciador", Seats);
      var flex := new Role("Flex", Seats);
      var duelista := new Role("Duelista", Seats);
      var controlador := new Role("Controlador", Seats);
      roles := [sentinela, iniciador, flex, duelista, controlador];
      new;
      assert Board() == InitialBoard();
    }

    /** One record through the loop over the table: the first matching role receives it,
        and `break` ends the search. */
    method PlaceOne(p: PlayerData)
      requires Valid()
      modifies roles
      ensures Valid()
      ensures Board() == Place(old(Board()), p)
    {
      ghost var before := Board();
      ghost var names := Names(before);
      assert names == RoleNames;
      var roleRaw := Lower(p.roleRaw);
      var i := 0;
      while i < |roles|
        invariant 0 <= i <= |roles|
        invariant Board() == before
        invariant forall j :: 0 <= j < i ==> !Matches(names[j], roleRaw)
      {
        if Matches(roles[i].name, roleRaw) {
          TargetAt(names, roleRaw, i);
          PlaceValid(before, p);
          AdmitAt(i, p);
          break;
        }
        i := i + 1;
      }
      if i == |roles| {
        TargetNone(names, roleRaw);
      }
    }

    /** Role `i` receives the record; every other role is untouched. */
    method AdmitAt(i: nat, p: PlayerData)
      requires Valid() && i < |roles|
      modifies roles[i]
      ensures Board() == old(Board())[i := Admitted(old(Board())[i], p)]
    {
      roles[i].Admit(p);
      forall k | 0 <= k < |roles| && k != i ensures roles[k].Snapshot() == old(roles[k].Snapshot()) {
        assert roles[k] != roles[i];
      }
    }

    /** `playersData.forEach(...)`. */
    method PlaceEach(ps: seq<PlayerData>)
      requires Valid()
      modifies roles
      ensures Valid()
      ensures Board() == PlaceAll(old(Board()), ps)
    {
      for i := 0 to |ps|
        invariant Valid()
        invariant Board() == PlaceAll(old(Board()), ps[..i])
      {
        assert ps[..i + 1][..i] == ps[..i];
        PlaceOne(ps[i]);
      }
      assert ps[..|ps|] == ps;
    }
  }

  /** The data part of `fetchCachedData` once `data.json` has been read: pick the players
      and operations from either shape and fill a fresh table with the players. */
  method Load(d: Payload) returns (config: RolesConfig, operations: seq<Operation>)
    ensures fresh(config) && config.Valid()
    ensures config.Board() == PlaceAll(InitialBoard(), Select(d).0)
    ensures operations == Select(d).1
  {
    config := new RolesConfig();
    var playersData := Select(d).0;
    operations := Select(d).1;
    config.PlaceEach(playersData);
  }

  // ---------------------------------------------------------------------------
  // Properties

  /** The loop stops at the first matching role. */
  lemma TargetAt(names: seq<string>, roleRaw: string, i: nat)
    requires i < |names| && Matches(names[i], roleRaw)
    requires forall j :: 0 <= j < i ==> !Matches(names[j], roleRaw)
    ensures Target(names, roleRaw) == Some(i)
  {
    assert Target(names, roleRaw).Some?;
  }

  /** A record matching no role leaves the table alone. */
  lemma TargetNone(names: seq<string>, roleRaw: string)
    requires forall j :: 0 <= j < |names| ==> !Matches(names[j], roleRaw)
    ensures Target(names, roleRaw) == None
  {
  }

  /** A role is picked by its lower-cased name, and `Controlador` also by `smoker`. */
  lemma MatchesIff(name: string, roleRaw: string)
    ensures Matches(name, roleRaw) <==>
      Contains(roleRaw, Lower(name)) || (name == "Controlador" && Contains(roleRaw, "smoker"))
  {
    var terms := SearchTerms(name);
    if name == "Controlador" {
      assert Lower(name) == "controlador";
      assert terms == ["controlador", "smoker"];
      if Contains(roleRaw, "smoker") {
        assert Contains(roleRaw, terms[1]);
      }
      if Contains(roleRaw, "controlador") {
        assert Contains(roleRaw, terms[0]);
      }
    } else {
      assert terms == [Lower(name)];
      if Contains(roleRaw, Lower(name)) {
        assert Contains(roleRaw, terms[0]);
      }
    }
  }

  /** Placing a record keeps a board consistent, changes only the role it is routed to,
      and changes nothing when it matches no role. */
  lemma PlaceValid(b: seq<Slot>, p: PlayerData)
    requires BoardValid(b)
    ensures BoardValid(Place(b, p))
    ensures Names(b) == RoleNames
    ensures RoleOf(p).None? ==> Place(b, p) == b
    ensures RoleOf(p).Some? ==>
      var k := RoleOf(p).value;
      Place(b, p) == b[k := Admitted(b[k], p)]
  {
    assert Names(b) == RoleNames;
  }

  /** A record goes to a seat exactly when its role has a free seat, to the waiting list
      exactly when every seat is taken and a waiting place is free, and is otherwise not
      shown; arrival order is kept in both lists. */
  lemma PlaceOutcome(b: seq<Slot>, p: PlayerData)
    requires BoardValid(b) && RoleOf(p).Some?
    ensures var k := RoleOf(p).value;
      var s, r := b[k], Place(b, p)[k];
      (s.current < Seats ==> r.players == s.players + [p] && r.waitlist == s.waitlist) &&
      (s.current == Seats && |s.waitlist| < WaitlistCap ==> r.players == s.players && r.waitlist == s.waitlist + [p]) &&
      (s.current == Seats && |s.waitlist| == WaitlistCap ==> r == s)
  {
    PlaceValid(b, p);
  }

  /** Role `k` after one more record: the record is routed to `k` or not. */
  lemma {:induction false} RoutedLast(ps: seq<PlayerData>, p: PlayerData, k: nat)
    ensures Routed(ps + [p], k) == Routed(ps, k) + (if RoleOf(p) == Some(k) then [p] else [])
  {
    assert (ps + [p])[..|ps|] == ps;
  }

  /** Admitting a record to a role filled from `r` fills it from `r + [p]`. */
  lemma AdmittedFilled(k: nat, r: seq<PlayerData>, p: PlayerData)
    requires k < |RoleNames|
    ensures Admitted(Filled(k, r), p) == Filled(k, r + [p])
  {
    var r' := r + [p];
    assert r'[..|r|] == r;
    if |r| < Seats {
      assert r'[..|r| + 1] == r';
      assert r'[|r| + 1..|r| + 1] == [];
    } else if |r| < Seats + WaitlistCap {
      assert r'[..Seats] == r[..Seats];
      assert r'[Seats..|r| + 1] == r[Seats..] + [p];
    } else {
      assert r'[..Seats] == r[..Seats];
      assert r'[Seats..Seats + WaitlistCap] == r[Seats..Seats + WaitlistCap];
    }
  }

  /** One more record keeps every role filled from the records routed to it. */
  lemma PlaceFilled(b: seq<Slot>, ps: seq<PlayerData>, p: PlayerData)
    requires |b| == |RoleNames|
    requires forall k :: 0 <= k < |RoleNames| ==> b[k] == Filled(k, Routed(ps, k))
    ensures |Place(b, p)| == |RoleNames|
    ensures forall k :: 0 <= k < |RoleNames| ==> Place(b, p)[k] == Filled(k, Routed(ps + [p], k))
  {
    assert BoardValid(b) by {
      forall k | 0 <= k < |b| ensures b[k].name == RoleNames[k] && b[k].max == Seats && SlotValid(b[k]) {
        assert b[k] == Filled(k, Routed(ps, k));
      }
    }
    PlaceValid(b, p);
    forall k | 0 <= k < |RoleNames| ensures Place(b, p)[k] == Filled(k, Routed(ps + [p], k)) {
      PlaceFilledAt(b, ps, p, k);
    }
  }

  /** The same, for one role. */
  lemma PlaceFilledAt(b: seq<Slot>, ps: seq<PlayerData>, p: PlayerData, k: nat)
    requires BoardValid(b) && k < |RoleNames|
    requires b[k] == Filled(k, Routed(ps, k))
    ensures Place(b, p)[k] == Filled(k, Routed(ps + [p], k))
  {
    PlaceValid(b, p);
    RoutedLast(ps, p, k);
    var r, r' := Routed(ps, k), Routed(ps + [p], k);
    if RoleOf(p) == Some(k) {
      assert r' == r + [p];
      AdmittedFilled(k, r, p);
      assert Place(b, p)[k] == Admitted(b[k], p);
    } else {
      assert r' == r;
      assert Place(b, p)[k] == b[k];
    }
  }

  /** Filling the table from scratch: each role seats the first two records routed to it,
      keeps the next four waiting, in arrival order, and drops the rest. */
  lemma {:induction false} PlaceAllFilled(ps: seq<PlayerData>)
    ensures |PlaceAll(InitialBoard(), ps)| == |RoleNames|
    ensures forall k :: 0 <= k < |RoleNames| ==> PlaceAll(InitialBoard(), ps)[k] == Filled(k, Routed(ps, k))
  {
    var b0 := InitialBoard();
    if ps == [] {
      forall k | 0 <= k < |RoleNames| ensures b0[k] == Filled(k, []) { }
    } else {
      var init, p := ps[..|ps| - 1], ps[|ps| - 1];
      assert ps == init + [p];
      PlaceAllFilled(init);
      PlaceFilled(PlaceAll(b0, init), init, p);
    }
  }
}
