/**
  The per-player part of the job's main loop: build the player record from the roster
  entry, then apply the account, MMR and match-history replies in that order. A reply that
  throws ends the sequence for that player and sets the error flag; what earlier replies
  set is kept. A reply that throws part-way through being applied is modelled as throwing
  before it sets anything.
*/
module PlayerSync {
  import opened Wrappers
  import opened Text
  import opened Upstream
  import opened Roster

  /** A rank icon: none (the empty string), an image URL given by the MMR endpoint, or the
      competitive-tier icon URL built from a tier number. */
  datatype Icon = NoIcon | Image(url: string) | TierIcon(tier: int)

  /** The published player record. `level` is `None` for the placeholder `'--'`. */
  datatype PlayerData = PlayerData(
    riotId: string, roleRaw: string,
    level: Option<int>, card: string,
    currentRank: string, peakRank: string,
    currentRankIcon: Icon, peakRankIcon: Icon,
    apiError: bool)

  const DefaultCard := "https://media.valorant-api.com/playercards/9fb348bc-41a0-91ad-8a3e-818035c4e561/smallart.png"
  const NoRank := "Sem Rank"
  const Unranked := "Unranked"
  const DefaultRegion := "br"

  /** The record every player starts from. */
  function Initial(e: RosterEntry): PlayerData
  {
    PlayerData(e.riotId, e.role, None, DefaultCard, NoRank, NoRank, NoIcon, NoIcon, false)
  }

  /** `riotId.split('#')`: the name is the text before the first `#`, the tag the text
      between the first and the second `#`; both are trimmed before use. */
  function NameOf(riotId: string): (name: string)
    requires '#' in riotId
    ensures '#' !in name
  {
    Trim(Split(riotId, '#')[0])
  }

  function TagOf(riotId: string): (tag: string)
    requires '#' in riotId
    ensures '#' !in tag
  {
    Trim(Split(riotId, '#')[1])
  }

  /** Accounts reported in `na` or `latam` are looked up on the `br` shard. */
  function RegionOverride(region: string): (r: string)
    ensures r != "na" && r != "latam"
    ensures region != "na" && region != "latam" ==> r == region
    ensures region == "na" || region == "latam" ==> r == DefaultRegion
  {
    if region == "na" || region == "latam" then DefaultRegion else region
  }

  /** Account reply with status 200: level and card taken from it. */
  function ApplyAccount(p: PlayerData, acc: Account): PlayerData
  {
    p.(level := Some(acc.level), card := acc.cardSmall)
  }

  /** MMR reply with status 200: the current rank and its image when a patched current
      tier is present; the peak rank when a patched peak tier is present, with a tier icon
      only when that tier is above 2. */
  function ApplyMmr(p: PlayerData, m: Mmr): PlayerData
  {
    var p1 :=
      if m.current.Some? && m.current.value.tierPatched != "" then
        p.(currentRank := m.current.value.tierPatched,
           currentRankIcon := Image(m.current.value.smallImage))
      else p;
    if m.highest.Some? && m.highest.value.patchedTier != "" then
      p1.(peakRank := m.highest.value.patchedTier,
          peakRankIcon := if m.highest.value.tier > 2 then TierIcon(m.highest.value.tier) else p1.peakRankIcon)
    else p1
  }

  /** The account reply sets the level and the player card, and nothing else. */
  lemma ApplyAccountRule(p: PlayerData, acc: Account)
    ensures var r := ApplyAccount(p, acc);
      r.level == Some(acc.level) && r.card == acc.cardSmall
    ensures var r := ApplyAccount(p, acc);
      r == p.(level := r.level, card := r.card)
  {
  }

  /** A patched current tier is present in the MMR reply. */
  predicate CurrentPatched(m: Mmr)
  {
    m.current.Some? && m.current.value.tierPatched != ""
  }

  /** A patched peak tier is present in the MMR reply. */
  predicate PeakPatched(m: Mmr)
  {
    m.highest.Some? && m.highest.value.patchedTier != ""
  }

  /** The MMR reply: a patched current tier becomes the current rank, with its image as
      the icon, and otherwise both stay; a patched peak tier becomes the peak rank at any
      tier, and otherwise it stays; the peak icon changes only to the tier icon of a
      patched peak tier above 2, and always does then. Nothing but the rank fields
      changes. */
  lemma ApplyMmrRule(p: PlayerData, m: Mmr)
    ensures var r := ApplyMmr(p, m);
      CurrentPatched(m) ==>
        r.currentRank == m.current.value.tierPatched &&
        r.currentRankIcon == Image(m.current.value.smallImage)
    ensures var r := ApplyMmr(p, m);
      !CurrentPatched(m) ==> r.currentRank == p.currentRank && r.currentRankIcon == p.currentRankIcon
    ensures var r := ApplyMmr(p, m);
      PeakPatched(m) ==> r.peakRank == m.highest.value.patchedTier
    ensures var r := ApplyMmr(p, m);
      !PeakPatched(m) ==> r.peakRank == p.peakRank
    ensures var r := ApplyMmr(p, m);
      PeakPatched(m) && m.highest.value.tier > 2 ==>
        r.peakRankIcon == TierIcon(m.highest.value.tier)
    ensures var r := ApplyMmr(p, m);
      !(PeakPatched(m) && m.highest.value.tier > 2) ==> r.peakRankIcon == p.peakRankIcon
    ensures var r := ApplyMmr(p, m);
      r == p.(currentRank := r.currentRank, currentRankIcon := r.currentRankIcon,
              peakRank := r.peakRank, peakRankIcon := r.peakRankIcon)
  {
  }

  /** `Array.prototype.find` by index: the first position whose element satisfies `f`. */
  function FindFirst<T>(s: seq<T>, f: T -> bool): (r: Option<nat>)
    ensures r.Some? ==> r.value < |s| && f(s[r.value])
    ensures r.Some? ==> forall j :: 0 <= j < r.value ==> !f(s[j])
    ensures r.None? ==> forall j :: 0 <= j < |s| ==> !f(s[j])
  {
    if s == [] then None
    else if f(s[0]) then Some(0)
    else match FindFirst(s[1..], f)
      case None => None
      case Some(k) => Some(k + 1)
  }

  /** A match usable for the rank fallback: its `players` is a non-empty array. */
  predicate HasParticipants(m: Match)
  {
    m.players.Some? && |m.players.value| > 0
  }

  /** The first valid match of the history, if any. */
  function FirstValidMatch(ms: seq<Match>): (r: Option<Match>)
    ensures r.Some? ==> HasParticipants(r.value) && r.value in ms
    ensures r.Some? ==>
      exists k :: 0 <= k < |ms| && ms[k] == r.value &&
                  forall j :: 0 <= j < k ==> !HasParticipants(ms[j])
    ensures r.None? ==> forall j :: 0 <= j < |ms| ==> !HasParticipants(ms[j])
  {
    match FindFirst(ms, HasParticipants)
    case None => None
    case Some(k) => Some(ms[k])
  }

  /** The player's own entry in a match: name and tag equal up to case. */
  predicate IsPlayer(pl: Participant, name: string, tag: string)
  {
    Lower(pl.name) == Lower(name) && Lower(pl.tag) == Lower(tag)
  }

  /** Position `k` holds the player's first entry in the list. */
  predicate FirstEntryAt(players: seq<Participant>, k: int, name: string, tag: string)
  {
    0 <= k < |players| && IsPlayer(players[k], name, tag) &&
    forall j :: 0 <= j < k ==> !IsPlayer(players[j], name, tag)
  }

  /** Rank fallback from the first valid match: only while the current rank is still
      `Sem Rank` or `Unranked`, and only when the player is found in that match with a
      patched tier; the tier icon is set only for a tier above 2. */
  function RankFallback(p: PlayerData, valid: Option<Match>, name: string, tag: string): PlayerData
    requires valid.Some? ==> HasParticipants(valid.value)
  {
    if (p.currentRank == NoRank || p.currentRank == Unranked) && valid.Some? then
      var players := valid.value.players.value;
      match FindFirst(players, pl => IsPlayer(pl, name, tag))
      case None => p
      case Some(k) =>
        if players[k].currentTierPatched != "" then
          p.(currentRank := players[k].currentTierPatched,
             currentRankIcon := if players[k].currentTier > 2 then TierIcon(players[k].currentTier)
                                else p.currentRankIcon)
        else p
    else p
  }

  /** What the rank fallback may change: only the current rank and its icon; the rank only
      when it was a placeholder and the player's first entry in the valid match carries a
      patched tier, which then becomes the rank; the icon only to that tier's icon, when the
      tier is above 2. */
  lemma RankFallbackRule(p: PlayerData, valid: Option<Match>, name: string, tag: string)
    requires valid.Some? ==> HasParticipants(valid.value)
    ensures var r := RankFallback(p, valid, name, tag);
      r == p.(currentRank := r.currentRank, currentRankIcon := r.currentRankIcon)
    ensures var r := RankFallback(p, valid, name, tag);
      (r.currentRank != p.currentRank || r.currentRankIcon != p.currentRankIcon) ==>
        (p.currentRank == NoRank || p.currentRank == Unranked) && valid.Some? &&
        exists k :: 0 <= k < |valid.value.players.value| &&
          var pl := valid.value.players.value[k];
          IsPlayer(pl, name, tag) &&
          (forall j :: 0 <= j < k ==> !IsPlayer(valid.value.players.value[j], name, tag)) &&
          pl.currentTierPatched != "" && r.currentRank == pl.currentTierPatched &&
          (r.currentRankIcon != p.currentRankIcon ==>
             pl.currentTier > 2 && r.currentRankIcon == TierIcon(pl.currentTier))
    ensures p.currentRank != NoRank && p.currentRank != Unranked ==>
      RankFallback(p, valid, name, tag) == p
    ensures var r := RankFallback(p, valid, name, tag);
      (p.currentRank == NoRank || p.currentRank == Unranked) && valid.Some? ==>
        forall k :: FirstEntryAt(valid.value.players.value, k, name, tag) ==>
          var pl := valid.value.players.value[k];
          pl.currentTierPatched != "" ==>
            r.currentRank == pl.currentTierPatched &&
            (pl.currentTier > 2 ==> r.currentRankIcon == TierIcon(pl.currentTier))
  {
    var r := RankFallback(p, valid, name, tag);
    if (p.currentRank == NoRank || p.currentRank == Unranked) && valid.Some? {
      var players := valid.value.players.value;
      var found := FindFirst(players, pl => IsPlayer(pl, name, tag));
      if found.Some? && players[found.value].currentTierPatched != "" {
        var k := found.value;
        assert IsPlayer(players[k], name, tag);
      }
    }
  }

  /** The player record and the fetched match list (to be offered to the match cache). */
  datatype SyncResult = SyncResult(player: PlayerData, fetched: seq<Match>)

  /** The region used for the MMR and history requests. */
  function RegionUsed(e: RosterEntry, api: Api): string
    requires '#' in e.riotId
  {
    var acc := api.account(NameOf(e.riotId), TagOf(e.riotId));
    if acc.Ok? then RegionOverride(acc.data.region) else DefaultRegion
  }

  /** The record once the account reply has been applied (a reply other than 200 leaves
      it as it was). */
  function WithAccount(e: RosterEntry, api: Api): (r: PlayerData)
    requires '#' in e.riotId
    ensures r.riotId == e.riotId && r.roleRaw == e.role && !r.apiError
  {
    var acc := api.account(NameOf(e.riotId), TagOf(e.riotId));
    if acc.Ok? then ApplyAccount(Initial(e), acc.data) else Initial(e)
  }

  /** The record once the account and MMR replies have been applied. */
  function Rated(e: RosterEntry, api: Api): PlayerData
    requires '#' in e.riotId
  {
    var mmr := api.mmr(RegionUsed(e, api), NameOf(e.riotId), TagOf(e.riotId));
    if mmr.Ok? then ApplyMmr(WithAccount(e, api), mmr.data) else WithAccount(e, api)
  }

  /** One pass of the main loop for one roster entry, against the given API replies. */
  function SyncPlayer(e: RosterEntry, api: Api): SyncResult
    requires '#' in e.riotId
  {
    var name, tag, region := NameOf(e.riotId), TagOf(e.riotId), RegionUsed(e, api);
    if api.account(name, tag).Threw? then SyncResult(Initial(e).(apiError := true), [])
    else if api.mmr(region, name, tag).Threw? then SyncResult(WithAccount(e, api).(apiError := true), [])
    else
      var history := api.matches(region, name, tag);
      if history.Threw? then SyncResult(Rated(e, api).(apiError := true), [])
      else if history.NotOk? || |history.data| == 0 then SyncResult(Rated(e, api), [])
      else SyncResult(RankFallback(Rated(e, api), FirstValidMatch(history.data), name, tag), history.data)
  }

  /** The record keeps the roster's Riot ID and role; the error flag is set exactly when
      one of the replies reached threw; matches are handed on only from a successful
      history reply, and a successful history reply that no earlier reply cut short is
      handed on whole; the region asked is never `na` or `latam`. */
  lemma SyncPlayerSpec(e: RosterEntry, api: Api)
    requires '#' in e.riotId
    ensures var r := SyncPlayer(e, api);
      r.player.riotId == e.riotId && r.player.roleRaw == e.role
    ensures var r := SyncPlayer(e, api);
      var name, tag, region := NameOf(e.riotId), TagOf(e.riotId), RegionUsed(e, api);
      r.player.apiError <==>
        api.account(name, tag).Threw? || api.mmr(region, name, tag).Threw? ||
        api.matches(region, name, tag).Threw?
    ensures var r := SyncPlayer(e, api);
      var name, tag, region := NameOf(e.riotId), TagOf(e.riotId), RegionUsed(e, api);
      r.fetched != [] ==> !r.player.apiError && api.matches(region, name, tag) == Ok(r.fetched)
    ensures var r := SyncPlayer(e, api);
      var name, tag, region := NameOf(e.riotId), TagOf(e.riotId), RegionUsed(e, api);
      (!api.account(name, tag).Threw? && !api.mmr(region, name, tag).Threw? &&
       api.matches(region, name, tag).Ok?) ==>
        r.fetched == api.matches(region, name, tag).data
    ensures RegionUsed(e, api) != "na" && RegionUsed(e, api) != "latam"
  {
    var name, tag := NameOf(e.riotId), TagOf(e.riotId);
    var acc := api.account(name, tag);
    SyncPlayerShape(e, api);
    if !acc.Threw? {
      var region := RegionUsed(e, api);
      var history := api.matches(region, name, tag);
      RatedFields(e, api);
      if !api.mmr(region, name, tag).Threw? && history.Ok? && |history.data| > 0 {
        RankFallbackRule(Rated(e, api), FirstValidMatch(history.data), name, tag);
      }
    }
  }


  /** The current rank the MMR reply leaves on a fresh record: its patched current tier,
      or `Sem Rank`. */
  function RankAfterMmr(mmr: Reply<Mmr>): string
  {
    if mmr.Ok? && CurrentPatched(mmr.data) then mmr.data.current.value.tierPatched else NoRank
  }

  /** The published record against the replies. A thrown account reply leaves the initial
      record with the error flag. Otherwise the level and card come from a successful
      account reply (else `'--'` and the default card), and, once the MMR reply has not
      thrown, the peak rank and its icon come from a successful MMR reply as the MMR rule
      says (else they stay `Sem Rank` without icon); a current rank from the MMR reply
      that is not a placeholder is kept. */
  lemma SyncPlayerProfile(e: RosterEntry, api: Api)
    requires '#' in e.riotId
    ensures var r, acc := SyncPlayer(e, api).player, api.account(NameOf(e.riotId), TagOf(e.riotId));
      acc.Threw? ==> r == Initial(e).(apiError := true)
    ensures var r, acc := SyncPlayer(e, api).player, api.account(NameOf(e.riotId), TagOf(e.riotId));
      !acc.Threw? ==>
        r.level == (if acc.Ok? then Some(acc.data.level) else None) &&
        r.card == (if acc.Ok? then acc.data.cardSmall else DefaultCard)
    ensures var r, name, tag := SyncPlayer(e, api).player, NameOf(e.riotId), TagOf(e.riotId);
      var acc, mmr := api.account(name, tag), api.mmr(RegionUsed(e, api), name, tag);
      !acc.Threw? && mmr.Ok? && PeakPatched(mmr.data) ==>
        r.peakRank == mmr.data.highest.value.patchedTier &&
        (mmr.data.highest.value.tier > 2 ==> r.peakRankIcon == TierIcon(mmr.data.highest.value.tier))
    ensures var r, name, tag := SyncPlayer(e, api).player, NameOf(e.riotId), TagOf(e.riotId);
      var acc, mmr := api.account(name, tag), api.mmr(RegionUsed(e, api), name, tag);
      !acc.Threw? && !(mmr.Ok? && PeakPatched(mmr.data) && mmr.data.highest.value.tier > 2) ==>
        r.peakRankIcon == NoIcon &&
        (!(mmr.Ok? && PeakPatched(mmr.data)) ==> r.peakRank == NoRank)
    ensures var r, name, tag := SyncPlayer(e, api).player, NameOf(e.riotId), TagOf(e.riotId);
      var acc, mmr := api.account(name, tag), api.mmr(RegionUsed(e, api), name, tag);
      !acc.Threw? && RankAfterMmr(mmr) != NoRank && RankAfterMmr(mmr) != Unranked ==>
        r.currentRank == RankAfterMmr(mmr) &&
        r.currentRankIcon == Image(mmr.data.current.value.smallImage)
  {
    var name, tag := NameOf(e.riotId), TagOf(e.riotId);
    var region := RegionUsed(e, api);
    var h := api.matches(region, name, tag);
    SyncPlayerShape(e, api);
    if !api.account(name, tag).Threw? {
      RatedFields(e, api);
      if !api.mmr(region, name, tag).Threw? && h.Ok? && |h.data| > 0 {
        RankFallbackRule(Rated(e, api), FirstValidMatch(h.data), name, tag);
      }
    }
  }

  /** The published record case by case: the initial record, the record after the
      account reply, or the record after both replies, with the error flag when the next
      reply threw, and the rank fallback applied after a non-empty successful history. */
  lemma SyncPlayerShape(e: RosterEntry, api: Api)
    requires '#' in e.riotId
    ensures var r, name, tag := SyncPlayer(e, api).player, NameOf(e.riotId), TagOf(e.riotId);
      var region := RegionUsed(e, api);
      var mmr, h := api.mmr(region, name, tag), api.matches(region, name, tag);
      if api.account(name, tag).Threw? then r == Initial(e).(apiError := true)
      else if mmr.Threw? then r == WithAccount(e, api).(apiError := true)
      else if h.Threw? then r == Rated(e, api).(apiError := true)
      else if h.NotOk? || |h.data| == 0 then r == Rated(e, api)
      else r == RankFallback(Rated(e, api), FirstValidMatch(h.data), name, tag)
  {
  }

  /** What the account and MMR replies leave on the record, in terms of the replies. */
  lemma RatedFields(e: RosterEntry, api: Api)
    requires '#' in e.riotId
    ensures var acc := api.account(NameOf(e.riotId), TagOf(e.riotId));
      var w := WithAccount(e, api);
      w == Initial(e).(level := w.level, card := w.card) &&
      w.level == (if acc.Ok? then Some(acc.data.level) else None) &&
      w.card == (if acc.Ok? then acc.data.cardSmall else DefaultCard)
    ensures var mmr, r := api.mmr(RegionUsed(e, api), NameOf(e.riotId), TagOf(e.riotId)), Rated(e, api);
      r.level == WithAccount(e, api).level && r.card == WithAccount(e, api).card &&
      r.riotId == e.riotId && r.roleRaw == e.role && !r.apiError &&
      r.currentRank == RankAfterMmr(mmr) &&
      (mmr.Ok? && PeakPatched(mmr.data) ==>
        r.peakRank == mmr.data.highest.value.patchedTier &&
        (mmr.data.highest.value.tier > 2 ==> r.peakRankIcon == TierIcon(mmr.data.highest.value.tier))) &&
      (!(mmr.Ok? && PeakPatched(mmr.data) && mmr.data.highest.value.tier > 2) ==>
        r.peakRankIcon == NoIcon && (!(mmr.Ok? && PeakPatched(mmr.data)) ==> r.peakRank == NoRank)) &&
      (RankAfterMmr(mmr) != NoRank ==> r.currentRankIcon == Image(mmr.data.current.value.smallImage))
  {
    var acc := api.account(NameOf(e.riotId), TagOf(e.riotId));
    if acc.Ok? {
      ApplyAccountRule(Initial(e), acc.data);
    }
    var mmr := api.mmr(RegionUsed(e, api), NameOf(e.riotId), TagOf(e.riotId));
    if mmr.Ok? {
      ApplyMmrRule(WithAccount(e, api), mmr.data);
    }
  }

  /** The rank fallback inside the pass, in both directions. When no reply threw, the
      history is a non-empty success, the MMR reply left a placeholder rank, and the
      player's first entry in the first valid match has a patched tier, that tier is the
      published rank. Conversely, a published rank other than the one the MMR reply left
      comes only from such an entry. */
  lemma SyncPlayerFallback(e: RosterEntry, api: Api)
    requires '#' in e.riotId
    ensures var r, name, tag := SyncPlayer(e, api).player, NameOf(e.riotId), TagOf(e.riotId);
      var region := RegionUsed(e, api);
      var acc, mmr, h := api.account(name, tag), api.mmr(region, name, tag), api.matches(region, name, tag);
      !acc.Threw? && !mmr.Threw? && h.Ok? && |h.data| > 0 &&
      (RankAfterMmr(mmr) == NoRank || RankAfterMmr(mmr) == Unranked) &&
      FirstValidMatch(h.data).Some? ==>
        forall k :: FirstEntryAt(FirstValidMatch(h.data).value.players.value, k, name, tag) ==>
          var pl := FirstValidMatch(h.data).value.players.value[k];
          pl.currentTierPatched != "" ==> r.currentRank == pl.currentTierPatched
    ensures var r, name, tag := SyncPlayer(e, api).player, NameOf(e.riotId), TagOf(e.riotId);
      var region := RegionUsed(e, api);
      var acc, mmr, h := api.account(name, tag), api.mmr(region, name, tag), api.matches(region, name, tag);
      !acc.Threw? && r.currentRank != RankAfterMmr(mmr) ==>
        !mmr.Threw? && h.Ok? && |h.data| > 0 &&
        (RankAfterMmr(mmr) == NoRank || RankAfterMmr(mmr) == Unranked) &&
        FirstValidMatch(h.data).Some? &&
        exists k :: FirstEntryAt(FirstValidMatch(h.data).value.players.value, k, name, tag) &&
          r.currentRank == FirstValidMatch(h.data).value.players.value[k].currentTierPatched
  {
    var name, tag := NameOf(e.riotId), TagOf(e.riotId);
    var region := RegionUsed(e, api);
    var h := api.matches(region, name, tag);
    SyncPlayerShape(e, api);
    if !api.account(name, tag).Threw? && !api.mmr(region, name, tag).Threw? {
      RatedFields(e, api);
      if h.Ok? && |h.data| > 0 {
        RankFallbackRule(Rated(e, api), FirstValidMatch(h.data), name, tag);
        FallbackStep(Rated(e, api), FirstValidMatch(h.data), name, tag);
      }
    }
  }

  /** `RankFallbackRule`'s two directions for the current rank alone, with the entry
      named by `FirstEntryAt`. */
  lemma FallbackStep(p: PlayerData, valid: Option<Match>, name: string, tag: string)
    requires valid.Some? ==> HasParticipants(valid.value)
    ensures var r := RankFallback(p, valid, name, tag);
      r.currentRank != p.currentRank ==>
        (p.currentRank == NoRank || p.currentRank == Unranked) && valid.Some? &&
        exists k :: FirstEntryAt(valid.value.players.value, k, name, tag) &&
          r.currentRank == valid.value.players.value[k].currentTierPatched
  {
    RankFallbackRule(p, valid, name, tag);
    var r := RankFallback(p, valid, name, tag);
    if r.currentRank != p.currentRank {
      var k :| 0 <= k < |valid.value.players.value| &&
        IsPlayer(valid.value.players.value[k], name, tag) &&
        (forall j :: 0 <= j < k ==> !IsPlayer(valid.value.players.value[j], name, tag)) &&
        r.currentRank == valid.value.players.value[k].currentTierPatched;
      assert FirstEntryAt(valid.value.players.value, k, name, tag);
    }
  }
}
