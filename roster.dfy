/**
  Parsing the roster sheet, exported as CSV, into the players to look up and the set of
  normalised Riot IDs used later to recognise squad members.
*/
module Roster {
  import opened Wrappers
  import opened Text

  datatype RosterEntry = RosterEntry(role: string, riotId: string)

  /** The membership key of a Riot ID: lower-cased, every whitespace character removed. */
  function Normalise(riotId: string): (key: string)
    ensures forall i :: 0 <= i < |key| ==> !IsJsSpace(key[i]) && !IsUpper(key[i])
  {
    StripSpaceFrom(Lower(riotId));
    StripSpace(Lower(riotId))
  }

  /** Normalising keeps every character that is neither an upper-case letter nor a space. */
  lemma NormaliseKeeps(riotId: string, c: char)
    requires c in riotId && !IsUpper(c) && !IsJsSpace(c)
    ensures c in Normalise(riotId)
  {
    var lower := Lower(riotId);
    var i :| 0 <= i < |riotId| && riotId[i] == c;
    assert lower[i] == c;
    StripSpaceKeeps(lower, c);
  }

  /** Normalising works character by character, keeping order: whitespace is dropped and
      every other character is replaced by its lower-case form. */
  lemma NormaliseConcat(a: string, b: string)
    ensures Normalise(a + b) == Normalise(a) + Normalise(b)
    ensures |a| == 1 ==> Normalise(a) == if IsJsSpace(a[0]) then [] else [LowerChar(a[0])]
  {
    LowerConcat(a, b);
    StripSpaceConcat(Lower(a), Lower(b));
    if |a| == 1 {
      assert Lower(a) == [LowerChar(a[0])];
      StripSpaceSingle(LowerChar(a[0]));
    }
  }

  /** Whether a header names the column: its lower-cased text contains the fragment. */
  predicate HeaderMatches(header: string, fragment: string)
  {
    Contains(Lower(header), fragment)
  }

  /** The column index left by the header scan: the LAST header matching the fragment,
      or -1 when none does. */
  function LastMatching(headers: seq<string>, fragment: string): (col: int)
    ensures -1 <= col < |headers|
    ensures col >= 0 ==> HeaderMatches(headers[col], fragment)
    ensures forall j :: col < j < |headers| ==> !HeaderMatches(headers[j], fragment)
  {
    if headers == [] then -1
    else if HeaderMatches(headers[|headers| - 1], fragment) then |headers| - 1
    else LastMatching(headers[..|headers| - 1], fragment)
  }

  /** The `forEach` over the header row that updates `roleCol` and `riotIdCol`. */
  method FindColumns(headers: seq<string>) returns (roleCol: int, riotIdCol: int)
    ensures roleCol == LastMatching(headers, "fun")
    ensures riotIdCol == LastMatching(headers, "riot")
  {
    roleCol, riotIdCol := -1, -1;
    for i := 0 to |headers|
      invariant roleCol == LastMatching(headers[..i], "fun")
      invariant riotIdCol == LastMatching(headers[..i], "riot")
    {
      assert headers[..i + 1][..i] == headers[..i];
      if HeaderMatches(headers[i], "fun") {
        roleCol := i;
      }
      if HeaderMatches(headers[i], "riot") {
        riotIdCol := i;
      }
    }
    assert headers[..|headers|] == headers;
  }

  /** `cols[col] ? cols[col].replace(/"/g, '').trim() : ''`: an index outside the row
      (including -1) reads as empty. An empty cell also gives the empty string. */
  function Field(cols: seq<string>, col: int): (f: string)
    ensures '"' !in f
    ensures f == [] || (!IsJsSpace(f[0]) && !IsJsSpace(f[|f| - 1]))
    ensures !(0 <= col < |cols|) ==> f == ""
    ensures 0 <= col < |cols| ==> f == Trim(RemoveChar(cols[col], '"'))
  {
    if 0 <= col < |cols| then
      TrimKeepsOut(RemoveChar(cols[col], '"'), '"');
      Trim(RemoveChar(cols[col], '"'))
    else ""
  }

  /** An entry the loop may push: both fields non-empty, quote-free and trimmed, and the
      Riot ID holds the `#` between name and tag. */
  predicate WellFormed(e: RosterEntry)
  {
    e.role != "" && e.riotId != "" && '#' in e.riotId &&
    '"' !in e.role && '"' !in e.riotId &&
    !IsJsSpace(e.role[0]) && !IsJsSpace(e.role[|e.role| - 1]) &&
    !IsJsSpace(e.riotId[0]) && !IsJsSpace(e.riotId[|e.riotId| - 1])
  }

  /** The roster entry a data row yields, if any: the row has at least two comma-separated
      cells, both fields are non-empty, and the Riot ID contains `#`. */
  function RowEntry(row: string, roleCol: int, riotIdCol: int): (r: Option<RosterEntry>)
    ensures r.Some? ==> WellFormed(r.value)
  {
    var cols := Split(row, ',');
    if |cols| < 2 then None
    else
      var role := Field(cols, roleCol);
      var riotId := Field(cols, riotIdCol);
      if role != "" && riotId != "" && '#' in riotId then Some(RosterEntry(role, riotId))
      else None
  }

  /** `RowEntry` for fixed columns. */
  function RowParser(roleCol: int, riotIdCol: int): string -> Option<RosterEntry>
  {
    row => RowEntry(row, roleCol, riotIdCol)
  }

  /** The entries the data rows yield, in row order. */
  function Accepted(rows: seq<string>, roleCol: int, riotIdCol: int): (entries: seq<RosterEntry>)
    ensures |entries| <= |rows|
  {
    Collect(rows, RowParser(roleCol, riotIdCol))
  }

  /** The set of membership keys of the entries. */
  function RosterKeys(entries: seq<RosterEntry>): (keys: set<string>)
  {
    if entries == [] then {}
    else RosterKeys(entries[..|entries| - 1]) + {Normalise(entries[|entries| - 1].riotId)}
  }

  /** The roster read from the whole CSV text: nothing unless there is at least one line
      after the header line. */
  function RosterOf(csv: string): seq<RosterEntry>
  {
    var rows := Split(csv, '\n');
    if |rows| > 1 then
      var headers := Split(rows[0], ',');
      Accepted(rows[1..], LastMatching(headers, "fun"), LastMatching(headers, "riot"))
    else []
  }

  /** Lines 18-45 of the job: split into lines, locate the columns, then read the data
      rows. */
  method ParseRoster(csv: string) returns (entries: seq<RosterEntry>, roster: set<string>)
    ensures entries == RosterOf(csv)
    ensures roster == RosterKeys(entries)
  {
    var rows := Split(csv, '\n');
    entries, roster := [], {};
    if |rows| > 1 {
      var roleCol, riotIdCol := FindColumns(Split(rows[0], ','));
      entries, roster := ParseRows(rows[1..], roleCol, riotIdCol);
    }
  }

  /** Lines 32-44 of the job: push each accepted data row and add its key to the roster
      set. */
  method ParseRows(rows: seq<string>, roleCol: int, riotIdCol: int)
      returns (entries: seq<RosterEntry>, roster: set<string>)
    ensures entries == Accepted(rows, roleCol, riotIdCol)
    ensures roster == RosterKeys(entries)
  {
    entries, roster := [], {};
    var i := 0;
    while i < |rows|
      invariant 0 <= i <= |rows|
      invariant entries == Accepted(rows[..i], roleCol, riotIdCol)
      invariant roster == RosterKeys(entries)
    {
      AcceptedNext(rows, i, roleCol, riotIdCol);
      var row := RowEntry(rows[i], roleCol, riotIdCol);
      if row.Some? {
        RosterKeysNext(entries, row.value);
        entries := entries + [row.value];
        roster := roster + {Normalise(row.value.riotId)};
      }
      i := i + 1;
    }
    assert rows[..i] == rows;
  }

  /** One more data row extends the accepted prefix by that row's entry, if any. */
  lemma AcceptedNext(rows: seq<string>, i: int, roleCol: int, riotIdCol: int)
    requires 0 <= i < |rows|
    ensures var row := RowEntry(rows[i], roleCol, riotIdCol);
      Accepted(rows[..i + 1], roleCol, riotIdCol) ==
        Accepted(rows[..i], roleCol, riotIdCol) + (if row.Some? then [row.value] else [])
  {
    assert rows[..i + 1] == rows[..i] + [rows[i]];
    CollectNext(rows[..i], rows[i], RowParser(roleCol, riotIdCol));
  }

  /** Pushing an entry adds its key to the roster set. */
  lemma RosterKeysNext(entries: seq<RosterEntry>, e: RosterEntry)
    ensures RosterKeys(entries + [e]) == RosterKeys(entries) + {Normalise(e.riotId)}
  {
    assert (entries + [e])[..|entries|] == entries;
  }

  // ---------------------------------------------------------------------------
  // Properties of the roster parse

  /** With no matching role column (or no matching Riot-ID column) every field reads as
      empty and no row is accepted. */
  lemma {:induction false} NoColumnNoEntries(rows: seq<string>, roleCol: int, riotIdCol: int)
    requires roleCol == -1 || riotIdCol == -1
    ensures Accepted(rows, roleCol, riotIdCol) == []
  {
    if rows != [] {
      NoColumnNoEntries(rows[..|rows| - 1], roleCol, riotIdCol);
    }
  }

  /** Some header names the column. */
  predicate HasColumn(headers: seq<string>, fragment: string)
  {
    exists j :: 0 <= j < |headers| && HeaderMatches(headers[j], fragment)
  }

  /** The header scan leaves -1 exactly when no header matches. */
  lemma NoColumnIff(headers: seq<string>, fragment: string)
    ensures LastMatching(headers, fragment) == -1 <==> !HasColumn(headers, fragment)
  {
    var col := LastMatching(headers, fragment);
    if col >= 0 {
      assert HeaderMatches(headers[col], fragment);
    }
  }

  /** The header cells of a CSV text: the first line split on commas. */
  function HeaderRow(csv: string): seq<string>
  {
    Split(Split(csv, '\n')[0], ',')
  }

  /** A sheet whose header row has no `fun` column, or no `riot` column, yields no roster. */
  lemma MissingHeaderEmptyRoster(csv: string)
    requires !HasColumn(HeaderRow(csv), "fun") || !HasColumn(HeaderRow(csv), "riot")
    ensures RosterOf(csv) == []
  {
    var rows := Split(csv, '\n');
    if |rows| > 1 {
      var headers := HeaderRow(csv);
      NoColumnIff(headers, "fun");
      NoColumnIff(headers, "riot");
      NoColumnNoEntries(rows[1..], LastMatching(headers, "fun"), LastMatching(headers, "riot"));
    }
  }

  /** Entries keep row order: the rows of a concatenation yield the concatenation of what
      each part yields. */
  lemma AcceptedAppend(a: seq<string>, b: seq<string>, roleCol: int, riotIdCol: int)
    ensures Accepted(a + b, roleCol, riotIdCol) == Accepted(a, roleCol, riotIdCol) + Accepted(b, roleCol, riotIdCol)
  {
    CollectAppend(a, b, RowParser(roleCol, riotIdCol));
  }

  /** Every entry the parse produces comes from one of the rows and is well formed. */
  lemma AcceptedWellFormed(rows: seq<string>, roleCol: int, riotIdCol: int)
    ensures forall e :: e in Accepted(rows, roleCol, riotIdCol) ==>
      (exists k :: 0 <= k < |rows| && RowEntry(rows[k], roleCol, riotIdCol) == Some(e)) && WellFormed(e)
  {
    forall e | e in Accepted(rows, roleCol, riotIdCol)
      ensures (exists k :: 0 <= k < |rows| && RowEntry(rows[k], roleCol, riotIdCol) == Some(e)) && WellFormed(e)
    {
      CollectMembers(rows, RowParser(roleCol, riotIdCol), e);
    }
  }

  /** A single row is an entry exactly when it has two or more cells, both fields are
      non-empty and the Riot ID contains `#`; the entry holds those two fields. */
  lemma AcceptedOne(row: string, roleCol: int, riotIdCol: int)
    ensures var cols := Split(row, ',');
      var role := Field(cols, roleCol);
      var riotId := Field(cols, riotIdCol);
      Accepted([row], roleCol, riotIdCol) ==
        if |cols| >= 2 && role != "" && riotId != "" && '#' in riotId
        then [RosterEntry(role, riotId)] else []
  {
    assert [row][..0] == [];
  }

  /** Every membership key comes from some entry, and every entry's key is a member. */
  lemma {:induction false} RosterKeysMembers(entries: seq<RosterEntry>, key: string)
    ensures key in RosterKeys(entries) <==>
      exists k :: 0 <= k < |entries| && Normalise(entries[k].riotId) == key
  {
    if entries != [] {
      var init := entries[..|entries| - 1];
      RosterKeysMembers(init, key);
      if key in RosterKeys(init) {
        var k :| 0 <= k < |init| && Normalise(init[k].riotId) == key;
        assert entries[k] == init[k];
      }
      if exists k :: 0 <= k < |entries| && Normalise(entries[k].riotId) == key {
        var k :| 0 <= k < |entries| && Normalise(entries[k].riotId) == key;
        if k < |init| {
          assert init[k] == entries[k];
        }
      }
    }
  }

  /** The roster set never holds more keys than there are entries (fewer when two Riot IDs
      differ only in case or spacing). */
  lemma {:induction false} RosterKeysBound(entries: seq<RosterEntry>)
    ensures |RosterKeys(entries)| <= |entries|
  {
    if entries != [] {
      RosterKeysBound(entries[..|entries| - 1]);
    }
  }

  /** Keys of well-formed entries are lower-case, space-free and keep the `#`. */
  lemma {:induction false} RosterKeysShape(entries: seq<RosterEntry>, key: string)
    requires forall k :: 0 <= k < |entries| ==> WellFormed(entries[k])
    requires key in RosterKeys(entries)
    ensures '#' in key
    ensures forall i :: 0 <= i < |key| ==> !IsJsSpace(key[i]) && !IsUpper(key[i])
  {
    var init := entries[..|entries| - 1];
    if key in RosterKeys(init) {
      RosterKeysShape(init, key);
    } else {
      assert WellFormed(entries[|entries| - 1]);
      NormaliseKeeps(entries[|entries| - 1].riotId, '#');
    }
  }
}
