/** getBestDefensiveLineup, both overloads: resolve the target, derive the
    threat boost, rank the eligible skaters of the team by composite score
    and take two defencemen and one of each forward position. */
module Lineup {
  import opened Text
  import opened League
  import opened Lookup
  import opened Scoring
  import opened Ranking
  import opened QuotaPass

  /** Step 1: the selector's own nested search of the league (teams in order,
      rosters in order, leaving both loops at the first name equal ignoring
      case). Without a league there is no target. It finds the same player
      as findPlayerByName. */
  method ResolveTarget(name: string, allTeams: Option<seq<Team>>) returns (target: Option<Player>)
    ensures allTeams.None? ==> target.None?
    ensures allTeams.Some? ==> target == FindPlayerByName(name, allTeams.value)
    ensures target.Some? ==> NameMatches(target.value, name)
  {
    target := None;
    if allTeams.None? {
      return;
    }
    var teams := allTeams.value;
    var i := 0;
    while i < |teams| && target.None?
      invariant 0 <= i <= |teams|
      invariant target.None? ==> FindPlayerByName(name, teams) == FindPlayerByName(name, teams[i..])
      invariant target.Some? ==> target == FindPlayerByName(name, teams)
    {
      var roster := teams[i].roster;
      assert teams[i..][0] == teams[i] && teams[i..][1..] == teams[i + 1..];
      var j := 0;
      while j < |roster| && target.None?
        invariant 0 <= j <= |roster|
        invariant target.None? ==> FirstMatchIndex(roster, name) >= j
        invariant target.Some? ==> FirstMatchIndex(roster, name) < |roster|
                                   && target == Some(roster[FirstMatchIndex(roster, name)])
      {
        if EqualsIgnoreCase(roster[j].name, name) {
          target := Some(roster[j]);
        }
        j := j + 1;
      }
      i := i + 1;
    }
    if target.None? {
      assert teams[i..] == [];
    }
  }

  /** The target's offensive threat: high-danger expected goals plus goals. */
  function Threat(p: Player): real
  {
    p.highDangerXGoals + p.goals as real
  }

  function MinReal(a: real, b: real): real
  {
    if a <= b then a else b
  }

  /** Step 2: the threat boost, the threat over 5 capped at 1, and 0 without
      a target. */
  function ThreatBoost(target: Option<Player>): (b: real)
    ensures b <= 1.0
    ensures target.None? ==> b == 0.0
    ensures target.Some? ==> (b == 1.0 <==> Threat(target.value) >= 5.0)
    ensures target.Some? && Threat(target.value) < 5.0 ==> b * 5.0 == Threat(target.value)
  {
    match target
    case None => 0.0
    case Some(p) => MinReal(Threat(p) / 5.0, 1.0)
  }

  /** A more threatening target never gets a smaller boost, and a target with
      no threat gets none. */
  lemma ThreatBoostMonotone(p: Player, q: Player)
    requires Threat(p) <= Threat(q)
    ensures ThreatBoost(Some(p)) <= ThreatBoost(Some(q))
    ensures Threat(p) >= 0.0 ==> ThreatBoost(Some(p)) >= 0.0
  {
  }

  /** The ranking score the selector uses: the composite score with weights
      0.7 and 0.3 and the target's boost. */
  function LineupScore(target: Option<Player>): (r: Player -> real)
    ensures target.None? ==>
              forall p :: r(p) == DefensiveWeight * DefensiveScore(p) + OffensiveWeight * OffensiveScore(p)
  {
    p => CompositeScore(p, target, DefensiveWeight, OffensiveWeight, ThreatBoost(target))
  }

  /** The position key of the quota pass: upper-cased, then trimmed. */
  function PositionKey(p: Player): string
  {
    Trim(Upper(p.position))
  }

  /** A raw position equal to L, C or R ignoring case has exactly that key, so
      the fallback's test never accepts anyone the quota pass would reject. */
  lemma PositionKeyFoldsForwards()
    ensures FoldsForwards(PositionKey)
  {
    forall p: Player, pos: string | IsForward(pos) && EqualsIgnoreCase(p.position, pos)
      ensures PositionKey(p) == pos
    {
      assert Upper(pos) == pos;
      TrimUnpadded(pos);
    }
  }

  /** Steps 3 to 5 for a given score: rank the eligible skaters, run the quota
      pass and the fallback. The result is at most five eligible players of
      the roster, best first, no roster slot twice, and for each position
      exactly the best-ranked entries of that position up to its quota. */
  function SelectLineup(roster: seq<Player>, score: Player -> real): (r: seq<Entry>)
    ensures r == ReferenceLineup(RankedEligible(roster, score), PositionKey)
    ensures |r| <= MaxLineup
    ensures forall e :: e in r ==> RefersTo(e, roster) && Eligible(e.player) && Quota(PositionKey(e.player)) > 0
    ensures Ranked(r, score)
    ensures forall i, j :: 0 <= i < j < |r| ==> r[i].slot != r[j].slot
    ensures forall k :: WithKey(r, k, PositionKey)
                        == Prefix(WithKey(RankedEligible(roster, score), k, PositionKey), Quota(k))
  {
    var ranked := RankedEligible(roster, score);
    PositionKeyFoldsForwards();
    FallbackIsDead(ranked, PositionKey);
    ReferenceLineupShape(ranked, PositionKey);
    ReferenceLineupSize(ranked, PositionKey);
    var r := QuotaLineup(ranked, PositionKey);
    SubseqMembers(r, ranked);
    SubseqRanked(r, ranked, score);
    RankedHasDistinctSlots(r, roster, score);
    r
  }

  /** The players of a list of entries, in order. */
  function Players(s: seq<Entry>): (r: seq<Player>)
    ensures |r| == |s|
    ensures forall i :: 0 <= i < |s| ==> r[i] == s[i].player
  {
    seq(|s|, i requires 0 <= i < |s| => s[i].player)
  }

  /** getBestDefensiveLineup(team, name, allTeams). */
  method BestDefensiveLineup(team: Team, targetName: string, allTeams: Option<seq<Team>>)
    returns (lineup: seq<Player>)
    ensures |lineup| <= MaxLineup
    ensures forall p :: p in lineup ==> p in team.roster && !IsGoalie(p) && p.gamesPlayed >= MinGamesPlayed
    ensures var target := if allTeams.Some? then FindPlayerByName(targetName, allTeams.value) else None;
            lineup == Players(SelectLineup(team.roster, LineupScore(target)))
  {
    var target := ResolveTarget(targetName, allTeams);
    var chosen := SelectLineup(team.roster, LineupScore(target));
    lineup := Players(chosen);
    forall p | p in lineup
      ensures p in team.roster && !IsGoalie(p) && p.gamesPlayed >= MinGamesPlayed
    {
      var i :| 0 <= i < |lineup| && lineup[i] == p;
      assert chosen[i] in chosen;
    }
  }

  /** getBestDefensiveLineup(team, name): the same selection with no league,
      hence no target and no boost, whatever the name. */
  method BestDefensiveLineupWithoutLeague(team: Team, targetName: string) returns (lineup: seq<Player>)
    ensures |lineup| <= MaxLineup
    ensures lineup == Players(SelectLineup(team.roster, LineupScore(None)))
  {
    lineup := BestDefensiveLineup(team, targetName, None);
  }

  // ---------------------------------------------------------------------------
  // How many players are chosen

  /** How many eligible skaters of the roster have position key `k`. */
  function Available(roster: seq<Player>, k: string): nat
  {
    |WithKey(FilterEligible(Tag(roster)), k, PositionKey)|
  }

  /** The lineup takes, per position, its quota or every eligible skater of
      that position, whichever is fewer; and no one else. */
  lemma LineupSize(roster: seq<Player>, score: Player -> real)
    ensures |SelectLineup(roster, score)|
            == Min(2, Available(roster, "D")) + Min(1, Available(roster, "L"))
               + Min(1, Available(roster, "C")) + Min(1, Available(roster, "R"))
  {
    var ranked := RankedEligible(roster, score);
    var eligible := FilterEligible(Tag(roster));
    ReferenceLineupCount(ranked, PositionKey);
    WithKeyLengthPermutation(ranked, eligible, "D", PositionKey);
    WithKeyLengthPermutation(ranked, eligible, "L", PositionKey);
    WithKeyLengthPermutation(ranked, eligible, "C", PositionKey);
    WithKeyLengthPermutation(ranked, eligible, "R", PositionKey);
  }

  /** Roster slot `i` holds an eligible skater whose position key is `k`. */
  predicate EligibleAt(roster: seq<Player>, i: int, k: string)
  {
    0 <= i < |roster| && Eligible(roster[i]) && PositionKey(roster[i]) == k
  }

  /** Each eligible skater of position `k` adds one to its availability. */
  lemma AvailableCounts(roster: seq<Player>, i: int, j: int, k: string)
    requires EligibleAt(roster, i, k) && EligibleAt(roster, j, k)
    ensures Available(roster, k) >= 1
    ensures i != j ==> Available(roster, k) >= 2
  {
    var tagged := Tag(roster);
    assert tagged[i] in tagged && tagged[j] in tagged;
    WithKeyHasMembers(FilterEligible(tagged), tagged[i], tagged[j], k, PositionKey);
  }

  /** With two eligible defencemen and an eligible skater at each forward
      position, the lineup is full: five players, whatever the scores. */
  lemma FullStrengthLineup(roster: seq<Player>, score: Player -> real, d1: int, d2: int, l: int, c: int, rw: int)
    requires d1 != d2 && EligibleAt(roster, d1, "D") && EligibleAt(roster, d2, "D")
    requires EligibleAt(roster, l, "L") && EligibleAt(roster, c, "C") && EligibleAt(roster, rw, "R")
    ensures |SelectLineup(roster, score)| == MaxLineup
  {
    AvailableCounts(roster, d1, d2, "D");
    AvailableCounts(roster, l, l, "L");
    AvailableCounts(roster, c, c, "C");
    AvailableCounts(roster, rw, rw, "R");
    LineupSize(roster, score);
  }

  /** A roster with no eligible skater (all goalies, or all under 50 games)
      yields an empty lineup. */
  lemma NoEligibleNoLineup(roster: seq<Player>, score: Player -> real)
    requires forall p :: p in roster ==> !Eligible(p)
    ensures SelectLineup(roster, score) == []
  {
  }

  /** Position lists of a three-entry list holding a centre and two
      defencemen, under any position reading. */
  lemma ThreePositions(e0: Entry, e1: Entry, e2: Entry, key: KeyReader)
    requires key(e0.player) == "C" && key(e1.player) == "D" && key(e2.player) == "D"
    ensures WithKey([e0, e1, e2], "C", key) == [e0] && WithKey([e0, e1, e2], "D", key) == [e1, e2]
    ensures WithKey([e0, e1, e2], "L", key) == [] && WithKey([e0, e1, e2], "R", key) == []
  {
    var s := [e0, e1, e2];
    assert s[1..] == [e1, e2] && s[1..][1..] == [e2] && s[1..][1..][1..] == [];
    assert "C" != "D" && "C" != "L" && "D" != "L" && "C" != "R" && "D" != "R" by {
      assert "C"[0] != "D"[0] && "C"[0] != "L"[0] && "D"[0] != "L"[0] && "C"[0] != "R"[0] && "D"[0] != "R"[0];
    }
    assert WithKey([e2], "C", key) == [] && WithKey([e1, e2], "C", key) == [];
    assert WithKey([e2], "D", key) == [e2] && WithKey([e1, e2], "D", key) == [e1, e2];
    assert WithKey([e2], "L", key) == [] && WithKey([e1, e2], "L", key) == [];
    assert WithKey([e2], "R", key) == [] && WithKey([e1, e2], "R", key) == [];
  }

  /** A position written as a bare upper-case C or D is its own key ... */
  lemma PlainKey(p: Player)
    requires p.position == "C" || p.position == "D"
    ensures PositionKey(p) == p.position
  {
    assert Upper(p.position) == p.position;
    TrimUnpadded(p.position);
  }

  /** ... and is not a goalie's. */
  lemma PlainSkater(p: Player)
    requires p.position == "C" || p.position == "D"
    ensures !IsGoalie(p)
  {
    assert Upper(p.position)[0] == p.position[0];
    assert Upper("G")[0] == 'G';
  }

  /** Slot by slot, the eligible entries of a roster of one centre and two
      defencemen, and their positions. */
  lemma PartialRosterAvailability(c: Player, d1: Player, d2: Player)
    requires c.position == "C" && d1.position == "D" && d2.position == "D"
    requires c.gamesPlayed >= MinGamesPlayed && d1.gamesPlayed >= MinGamesPlayed
             && d2.gamesPlayed >= MinGamesPlayed
    ensures Available([c, d1, d2], "C") == 1 && Available([c, d1, d2], "D") == 2
    ensures Available([c, d1, d2], "L") == 0 && Available([c, d1, d2], "R") == 0
  {
    var tagged := Tag([c, d1, d2]);
    var e0, e1, e2 := Entry(0, c), Entry(1, d1), Entry(2, d2);
    PlainKey(c);
    PlainSkater(c);
    PlainKey(d1);
    PlainSkater(d1);
    PlainKey(d2);
    PlainSkater(d2);
    assert tagged == [e0, e1, e2];
    assert tagged[1..] == [e1, e2] && tagged[2..] == [e2];
    assert FilterEligible(tagged) == tagged;
    ThreePositions(e0, e1, e2, PositionKey);
  }

  /** One centre and two defencemen, all eligible: the fallback finds no
      wingers, so the lineup is those three, the centre among them. */
  lemma PartialRosterLineup(c: Player, d1: Player, d2: Player, score: Player -> real)
    requires c.position == "C" && d1.position == "D" && d2.position == "D"
    requires c.gamesPlayed >= MinGamesPlayed && d1.gamesPlayed >= MinGamesPlayed
             && d2.gamesPlayed >= MinGamesPlayed
    ensures |SelectLineup([c, d1, d2], score)| == 3
    ensures Entry(0, c) in SelectLineup([c, d1, d2], score)
  {
    var roster := [c, d1, d2];
    PartialRosterAvailability(c, d1, d2);
    LineupSize(roster, score);
    var ranked := RankedEligible(roster, score);
    WithKeyLengthPermutation(ranked, FilterEligible(Tag(roster)), "C", PositionKey);
    PlainKey(c);
    PlainSkater(c);
    assert RefersTo(Entry(0, c), roster) && Eligible(c);
    FewCandidatesAllTaken(ranked, Entry(0, c), PositionKey);
  }
}
