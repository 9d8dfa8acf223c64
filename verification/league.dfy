/** The entities the lineup selector and the loader share: a player's season
    line and a team with its ordered roster. */
module League {
  import opened Text

  /** A Java reference that may be null. */
  datatype Option<T> = None | Some(value: T)

  /** Math.min and Math.max on Java ints. */
  function Min(a: int, b: int): int
  {
    if a <= b then a else b
  }

  function Max(a: int, b: int): int
  {
    if a >= b then a else b
  }

  /** One player's 5-on-5 season line. The Java class takes 22 constructor
      arguments; the fields kept here are the ones the selector, the scorer
      and the loader read. Counts are Java ints, times and rates Java doubles,
      read here as exact reals. `takeawayEfficiency` is the score the loader
      attaches after normalising takeaways and giveaways. */
  datatype Player = Player(
    name: string,
    position: string,
    expectedGoalsAgainst: real,
    onIceXGoalsAgainstRate: real,
    hits: int,
    takeaways: int,
    goals: int,
    points: int,
    blockedShots: int,
    giveaways: int,
    iceTime: real,
    highDangerXGoals: real,
    reboundGoals: int,
    gamesPlayed: int,
    takeawayEfficiency: real)

  /** A team name and its roster in insertion order; rosters may be empty and
      may repeat names. */
  datatype Team = Team(name: string, roster: seq<Player>)

  /** The number of players over all rosters. */
  function RosterSizes(teams: seq<Team>): nat
  {
    if teams == [] then 0 else |teams[0].roster| + RosterSizes(teams[1..])
  }

  /** Every player of the league, team by team and, within a team, in roster
      order: the order in which the lookups scan. */
  function AllPlayers(teams: seq<Team>): (r: seq<Player>)
    ensures |r| == RosterSizes(teams)
  {
    if teams == [] then [] else teams[0].roster + AllPlayers(teams[1..])
  }

  /** A player is on the flattened list exactly when some roster holds them. */
  lemma {:induction false} AllPlayersMembership(teams: seq<Team>, p: Player)
    ensures p in AllPlayers(teams) <==> exists t :: 0 <= t < |teams| && p in teams[t].roster
  {
    if teams != [] {
      AllPlayersMembership(teams[1..], p);
      if p in AllPlayers(teams[1..]) {
        var t :| 0 <= t < |teams[1..]| && p in teams[1..][t].roster;
        assert p in teams[t + 1].roster;
      }
      if exists t :: 0 <= t < |teams| && p in teams[t].roster {
        var t :| 0 <= t < |teams| && p in teams[t].roster;
        if t > 0 {
          assert p in teams[1..][t - 1].roster;
        }
      }
    }
  }

  /** Name comparison used by every lookup: equalsIgnoreCase. */
  predicate NameMatches(p: Player, name: string)
  {
    EqualsIgnoreCase(p.name, name)
  }
}
