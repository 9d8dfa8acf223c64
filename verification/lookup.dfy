/** The league lookups of the data loader: find a player by name, find the
    team of that player, list every player's name. All three scan teams in
    list order and each roster in roster order, comparing names ignoring case. */
module Lookup {
  import opened Text
  import opened League

  /** Position of the first player in `s` whose name matches, or |s| when
      none does. */
  function FirstMatchIndex(s: seq<Player>, name: string): (k: nat)
    ensures k <= |s|
    ensures forall j :: 0 <= j < k ==> !NameMatches(s[j], name)
    ensures k < |s| ==> NameMatches(s[k], name)
  {
    if s == [] then 0
    else if NameMatches(s[0], name) then 0
    else 1 + FirstMatchIndex(s[1..], name)
  }

  /** Some player of the roster matches the name. */
  predicate HasMatch(roster: seq<Player>, name: string)
  {
    exists p :: p in roster && NameMatches(p, name)
  }

  lemma HasMatchIffFound(roster: seq<Player>, name: string)
    ensures HasMatch(roster, name) <==> FirstMatchIndex(roster, name) < |roster|
  {
    var k := FirstMatchIndex(roster, name);
    if k < |roster| {
      assert roster[k] in roster;
    }
  }

  /** The first match of a concatenation is the first match of the front
      part if it has one, and otherwise the first match of the back part. */
  lemma {:induction false} FirstMatchAppend(a: seq<Player>, b: seq<Player>, name: string)
    ensures FirstMatchIndex(a + b, name)
            == if FirstMatchIndex(a, name) < |a| then FirstMatchIndex(a, name)
               else |a| + FirstMatchIndex(b, name)
  {
    if a == [] {
      assert a + b == b;
    } else {
      assert (a + b)[1..] == a[1..] + b;
      FirstMatchAppend(a[1..], b, name);
    }
  }

  /** findPlayerByName: the first player, in team order then roster order,
      whose name equals `name` ignoring case; None (Java null) when none does. */
  function FindPlayerByName(name: string, teams: seq<Team>): (r: Option<Player>)
    ensures var all := AllPlayers(teams);
            var k := FirstMatchIndex(all, name);
            r == if k < |all| then Some(all[k]) else None
  {
    if teams == [] then None
    else
      var roster := teams[0].roster;
      var k := FirstMatchIndex(roster, name);
      FirstMatchAppend(roster, AllPlayers(teams[1..]), name);
      if k < |roster| then Some(roster[k]) else FindPlayerByName(name, teams[1..])
  }

  /** No player of the league matches exactly when no roster has a match. */
  lemma NotFoundIffNoTeamMatches(name: string, teams: seq<Team>)
    ensures FindPlayerByName(name, teams).None?
            <==> forall t :: 0 <= t < |teams| ==> !HasMatch(teams[t].roster, name)
  {
    var all := AllPlayers(teams);
    var k := FirstMatchIndex(all, name);
    if k < |all| {
      AllPlayersMembership(teams, all[k]);
      assert all[k] in all;
    } else {
      forall t | 0 <= t < |teams|
        ensures !HasMatch(teams[t].roster, name)
      {
        forall p | p in teams[t].roster
          ensures !NameMatches(p, name)
        {
          AllPlayersMembership(teams, p);
        }
      }
    }
  }

  /** The name getTeamNameForPlayer reports when nobody matches. */
  const UnknownTeam: string := "Unknown Team"

  /** Position of the first team whose roster has a match, or |teams| when
      none does. */
  function FirstTeamIndex(teams: seq<Team>, name: string): (t: nat)
    ensures t <= |teams|
    ensures forall u :: 0 <= u < t ==> !HasMatch(teams[u].roster, name)
    ensures t < |teams| ==> HasMatch(teams[t].roster, name)
  {
    if teams == [] then 0
    else
      HasMatchIffFound(teams[0].roster, name);
      if FirstMatchIndex(teams[0].roster, name) < |teams[0].roster| then 0
      else 1 + FirstTeamIndex(teams[1..], name)
  }

  /** getTeamNameForPlayer: the name of the first team whose roster holds a
      player matching `name` ignoring case, or "Unknown Team". */
  function GetTeamNameForPlayer(name: string, teams: seq<Team>): (r: string)
    ensures var t := FirstTeamIndex(teams, name);
            r == if t < |teams| then teams[t].name else UnknownTeam
  {
    if teams == [] then UnknownTeam
    else if FirstMatchIndex(teams[0].roster, name) < |teams[0].roster| then teams[0].name
    else GetTeamNameForPlayer(name, teams[1..])
  }

  /** The team name reported is the name of a team whose roster holds the very
      player findPlayerByName returns. */
  lemma {:induction false} TeamNameHoldsFoundPlayer(name: string, teams: seq<Team>)
    requires FindPlayerByName(name, teams).Some?
    ensures exists t :: 0 <= t < |teams|
                        && GetTeamNameForPlayer(name, teams) == teams[t].name
                        && FindPlayerByName(name, teams).value in teams[t].roster
  {
    var roster := teams[0].roster;
    var k := FirstMatchIndex(roster, name);
    HasMatchIffFound(roster, name);
    if k < |roster| {
      assert FindPlayerByName(name, teams).value == roster[k];
      assert GetTeamNameForPlayer(name, teams) == teams[0].name;
    } else {
      TeamNameHoldsFoundPlayer(name, teams[1..]);
      var t :| 0 <= t < |teams[1..]|
               && GetTeamNameForPlayer(name, teams[1..]) == teams[1..][t].name
               && FindPlayerByName(name, teams[1..]).value in teams[1..][t].roster;
      assert teams[1..][t] == teams[t + 1];
    }
  }

  /** "Unknown Team" is reported exactly when findPlayerByName returns null,
      provided no team is itself called "Unknown Team". */
  lemma UnknownTeamIffNotFound(name: string, teams: seq<Team>)
    requires forall t :: 0 <= t < |teams| ==> teams[t].name != UnknownTeam
    ensures GetTeamNameForPlayer(name, teams) == UnknownTeam <==> FindPlayerByName(name, teams).None?
  {
    NotFoundIffNoTeamMatches(name, teams);
    if FindPlayerByName(name, teams).Some? {
      TeamNameHoldsFoundPlayer(name, teams);
    }
  }

  /** Without that proviso the equivalence fails: a team named "Unknown Team"
      makes a found player indistinguishable from a missing one. */
  lemma UnknownTeamNameIsAmbiguous()
    ensures var p := Player("X", "C", 0.0, 0.0, 0, 0, 0, 0, 0, 0, 0.0, 0.0, 0, 0, 0.0);
            var teams := [Team(UnknownTeam, [p])];
            && GetTeamNameForPlayer("X", teams) == UnknownTeam
            && FindPlayerByName("X", teams) == Some(p)
  {
    var p := Player("X", "C", 0.0, 0.0, 0, 0, 0, 0, 0, 0, 0.0, 0.0, 0, 0, 0.0);
    assert NameMatches(p, "X");
  }

  /** The names of one roster, in roster order. */
  function RosterNames(roster: seq<Player>): (r: seq<string>)
    ensures |r| == |roster|
    ensures forall i :: 0 <= i < |roster| ==> r[i] == roster[i].name
  {
    seq(|roster|, i requires 0 <= i < |roster| => roster[i].name)
  }

  /** getAllPlayerNames: every roster's names, team after team. */
  function GetAllPlayerNames(teams: seq<Team>): (r: seq<string>)
    ensures |r| == RosterSizes(teams)
    ensures forall i :: 0 <= i < |r| ==> r[i] == AllPlayers(teams)[i].name
  {
    if teams == [] then []
    else RosterNames(teams[0].roster) + GetAllPlayerNames(teams[1..])
  }
}
