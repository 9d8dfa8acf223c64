/** loadTeamsFromCSV over rows already split at commas: the acceptance gate,
    the first-occurrence de-duplication by team and name, the construction of
    a player from the row's fields, and the grouping into per-team rosters that
    finalizeTeams then turns into teams. The text-to-number parser is a
    parameter `num`; reading the file and splitting lines are not modelled. */
module Loader {
  import opened Text
  import opened League
  import opened Normalise

  /** One CSV line split at every comma, trailing empty fields kept. */
  type Row = seq<string>

  /** Rows with fewer fields are skipped. */
  const MinFields: nat := 138

  /** The situation a row must describe, compared after trimming. */
  const EvenStrength: string := "5on5"

  /** The `num` parameter reads a field as a double; it stands for
      parseSafeDouble (trim, then parse, 0.0 on failure). */
  type NumReader = string -> real

  /** A row is read at all: enough fields, and the even-strength situation. */
  predicate RowAccepted(row: Row)
  {
    |row| >= MinFields && Trim(row[5]) == EvenStrength
  }

  function RowName(row: Row): string
    requires |row| >= MinFields
  {
    Trim(row[2])
  }

  function RowTeam(row: Row): string
    requires |row| >= MinFields
  {
    Trim(row[3])
  }

  function RowPosition(row: Row): string
    requires |row| >= MinFields
  {
    Trim(row[4])
  }

  /** The de-duplication key: team name, a dash, player name. */
  function PlayerKey(team: string, name: string): string
  {
    team + "-" + name
  }

  /** The key reads back as team, dash, name. */
  lemma PlayerKeyParts(team: string, name: string)
    ensures var k := PlayerKey(team, name);
      |k| == |team| + 1 + |name| && k[..|team|] == team && k[|team|] == '-' && k[|team| + 1..] == name
  {
  }

  function RowKey(row: Row): string
    requires |row| >= MinFields
  {
    PlayerKey(RowTeam(row), RowName(row))
  }

  /** Java's (int) cast of a double: truncation toward zero, saturating at
      the int bounds (section 5.1.3 of the Java Language Specification).
      Reals have no NaN, so the NaN case is absent. */
  function JavaIntCast(x: real): (r: int)
    ensures IsInt32(r)
    ensures x >= 0.0 ==> 0 <= r && r as real <= x && (r == MaxInt32 || x < r as real + 1.0)
    ensures x < 0.0 ==> r <= 0 && x <= r as real && (r == MinInt32 || r as real - 1.0 < x)
  {
    var t := if x >= 0.0 then x.Floor else -((-x).Floor);
    if t > MaxInt32 then MaxInt32 else if t < MinInt32 then MinInt32 else t
  }

  /** A count field read through the cast. */
  function FieldCount(row: Row, num: NumReader, i: nat): int
    requires i < |row|
  {
    JavaIntCast(num(row[i]))
  }

  /** Ice time in minutes: field 7 holds seconds. */
  function IceTimeMinutes(row: Row, num: NumReader): real
    requires |row| >= MinFields
  {
    num(row[7]) / 60.0
  }

  /** On-ice expected goals against per minute of ice time, 0 without
      positive ice time. */
  function OnIceRate(row: Row, num: NumReader): (r: real)
    requires |row| >= MinFields
    ensures IceTimeMinutes(row, num) > 0.0 ==> r * IceTimeMinutes(row, num) == num(row[106])
    ensures IceTimeMinutes(row, num) <= 0.0 ==> r == 0.0
  {
    var ice := IceTimeMinutes(row, num);
    if ice > 0.0 then num(row[106]) / ice else 0.0
  }

  /** The player a row describes: the constructor call of
      DataLoader.java:46-69 restricted to the fields the model keeps. The
      efficiency score starts at 0 until finalizeTeams sets it. */
  function BuildPlayer(row: Row, num: NumReader): (p: Player)
    requires |row| >= MinFields
    ensures p.name == RowName(row) && p.position == RowPosition(row)
    ensures IsInt32(p.hits) && IsInt32(p.takeaways) && IsInt32(p.goals) && IsInt32(p.points)
    ensures IsInt32(p.blockedShots) && IsInt32(p.giveaways) && IsInt32(p.reboundGoals) && IsInt32(p.gamesPlayed)
    ensures p.takeawayEfficiency == 0.0
  {
    Player(
      RowName(row),
      RowPosition(row),
      num(row[134]),
      OnIceRate(row, num),
      FieldCount(row, num, 46),
      FieldCount(row, num, 47),
      FieldCount(row, num, 34),
      FieldCount(row, num, 33),
      FieldCount(row, num, 83),
      FieldCount(row, num, 48),
      IceTimeMinutes(row, num),
      num(row[54]),
      FieldCount(row, num, 36),
      FieldCount(row, num, 6),
      0.0)
  }

  /** What the loop takes from an accepted row: team, name and player. */
  datatype Parsed = Parsed(team: string, name: string, player: Player)

  function Key(x: Parsed): string
  {
    PlayerKey(x.team, x.name)
  }

  /** The gate and the field reads of one row; None for a skipped row. */
  function ReadRow(row: Row, num: NumReader): (r: Option<Parsed>)
    ensures r.Some? <==> RowAccepted(row)
    ensures r.Some? ==> && r.value.team == RowTeam(row) && r.value.name == RowName(row)
                        && Key(r.value) == RowKey(row) && r.value.player == BuildPlayer(row, num)
  {
    if RowAccepted(row) then Some(Parsed(RowTeam(row), RowName(row), BuildPlayer(row, num))) else None
  }

  function ReadRows(rows: seq<Row>, num: NumReader): (r: seq<Option<Parsed>>)
    ensures |r| == |rows| && forall i :: 0 <= i < |rows| ==> r[i] == ReadRow(rows[i], num)
  {
    seq(|rows|, i requires 0 <= i < |rows| => ReadRow(rows[i], num))
  }

  /** The loop's state: the team map and the set of keys already added. */
  datatype LoadState = LoadState(teams: map<string, seq<Player>>, added: set<string>)

  const Empty: LoadState := LoadState(map[], {})

  /** One iteration of the read loop on a read row. */
  function LoadStep(st: LoadState, x: Option<Parsed>): (r: LoadState)
    ensures x.None? ==> r == st
    ensures x.Some? && Key(x.value) in st.added ==> r == st
    ensures x.Some? && Key(x.value) !in st.added ==>
              && r.added == st.added + {Key(x.value)}
              && r.teams.Keys == st.teams.Keys + {x.value.team}
              && r.teams[x.value.team]
                 == (if x.value.team in st.teams then st.teams[x.value.team] else []) + [x.value.player]
              && (forall t :: t in st.teams && t != x.value.team ==> r.teams[t] == st.teams[t])
  {
    match x
    case None => st
    case Some(v) =>
      if Key(v) in st.added then st
      else
        var roster := if v.team in st.teams then st.teams[v.team] else [];
        LoadState(st.teams[v.team := roster + [v.player]], st.added + {Key(v)})
  }

  /** The read loop over read rows. */
  function Load(xs: seq<Option<Parsed>>): (r: LoadState)
    ensures forall t :: t in r.teams ==> r.teams[t] != []
  {
    if xs == [] then Empty
    else LoadStep(Load(xs[..|xs| - 1]), xs[|xs| - 1])
  }

  /** The read loop over the rows after the header. */
  function LoadRows(rows: seq<Row>, num: NumReader): LoadState
  {
    Load(ReadRows(rows, num))
  }

  // ----- Reference definition: which rows survive, stated over row positions -----

  /** The keys of all accepted rows. */
  function SeenKeys(xs: seq<Option<Parsed>>): set<string>
  {
    if xs == [] then {}
    else
      var last := xs[|xs| - 1];
      SeenKeys(xs[..|xs| - 1]) + (if last.Some? then {Key(last.value)} else {})
  }

  lemma {:induction false} SeenKeysMembers(xs: seq<Option<Parsed>>, k: string)
    ensures k in SeenKeys(xs) <==> exists i :: 0 <= i < |xs| && xs[i].Some? && Key(xs[i].value) == k
  {
    if xs != [] {
      var init := xs[..|xs| - 1];
      SeenKeysMembers(init, k);
      if exists i :: 0 <= i < |init| && init[i].Some? && Key(init[i].value) == k {
        var i :| 0 <= i < |init| && init[i].Some? && Key(init[i].value) == k;
        assert xs[i] == init[i];
      }
      if exists i :: 0 <= i < |xs| && xs[i].Some? && Key(xs[i].value) == k {
        var i :| 0 <= i < |xs| && xs[i].Some? && Key(xs[i].value) == k;
        if i < |init| {
          assert init[i] == xs[i];
        }
      }
    }
  }

  /** Row `i` contributes a player: it is accepted and no earlier accepted
      row has its key. */
  predicate Kept(xs: seq<Option<Parsed>>, i: nat)
    requires i < |xs|
  {
    xs[i].Some? && Key(xs[i].value) !in SeenKeys(xs[..i])
  }

  /** Whether a row is kept depends only on the rows up to it. */
  lemma KeptPrefix(xs: seq<Option<Parsed>>, n: nat, i: nat)
    requires i < n <= |xs|
    ensures Kept(xs[..n], i) == Kept(xs, i)
  {
    assert xs[..n][..i] == xs[..i];
  }

  /** The players of the kept rows of team `t`, in row order. */
  function RosterFrom(xs: seq<Option<Parsed>>, t: string): seq<Player>
  {
    if xs == [] then []
    else
      var i := |xs| - 1;
      RosterFrom(xs[..i], t) + (if Kept(xs, i) && xs[i].value.team == t then [xs[i].value.player] else [])
  }

  /** The read loop builds exactly the reference: the keys it records are
      those of the accepted rows, a team is present exactly when it has a kept
      row, and its roster is the players of its kept rows in row order. */
  lemma {:induction false} LoadMatchesReference(xs: seq<Option<Parsed>>)
    ensures Load(xs).added == SeenKeys(xs)
    ensures forall t :: t in Load(xs).teams <==> RosterFrom(xs, t) != []
    ensures forall t :: t in Load(xs).teams ==> Load(xs).teams[t] == RosterFrom(xs, t)
  {
    if xs != [] {
      var i := |xs| - 1;
      LoadMatchesReference(xs[..i]);
    }
  }

  /** Row `i` is kept and puts player `p` on team `t`. */
  predicate Carries(xs: seq<Option<Parsed>>, i: nat, t: string, p: Player)
    requires i < |xs|
  {
    Kept(xs, i) && xs[i].value.team == t && xs[i].value.player == p
  }

  /** A player is on the reference roster of `t` exactly when some kept row
      of team `t` carries them. */
  lemma {:induction false} RosterFromMembers(xs: seq<Option<Parsed>>, t: string, p: Player)
    ensures p in RosterFrom(xs, t) <==> exists i :: 0 <= i < |xs| && Carries(xs, i, t, p)
  {
    if xs != [] {
      var n := |xs| - 1;
      var init := xs[..n];
      RosterFromMembers(init, t, p);
      if p in RosterFrom(xs, t) {
        if p in RosterFrom(init, t) {
          var i :| 0 <= i < |init| && Carries(init, i, t, p);
          KeptPrefix(xs, n, i);
          assert Carries(xs, i, t, p);
        } else {
          assert Carries(xs, n, t, p);
        }
      }
      if exists i :: 0 <= i < |xs| && Carries(xs, i, t, p) {
        var i :| 0 <= i < |xs| && Carries(xs, i, t, p);
        if i < n {
          KeptPrefix(xs, n, i);
          assert Carries(init, i, t, p);
        }
      }
    }
  }

  /** Every accepted row's key is kept: its first accepted occurrence is. */
  lemma FirstOccurrenceKept(xs: seq<Option<Parsed>>, i: nat)
    requires i < |xs| && xs[i].Some?
    ensures exists j :: 0 <= j <= i && Kept(xs, j) && Key(xs[j].value) == Key(xs[i].value)
  {
    var k := Key(xs[i].value);
    var j := 0;
    while !(xs[j].Some? && Key(xs[j].value) == k)
      invariant 0 <= j <= i
      invariant forall h :: 0 <= h < j ==> !(xs[h].Some? && Key(xs[h].value) == k)
      decreases i - j
    {
      j := j + 1;
    }
    SeenKeysMembers(xs[..j], k);
    assert Kept(xs, j);
  }

  /** Two kept rows never share a key. */
  lemma KeptKeysDistinct(xs: seq<Option<Parsed>>, i: nat, j: nat)
    requires i < j < |xs| && Kept(xs, i) && Kept(xs, j)
    ensures Key(xs[i].value) != Key(xs[j].value)
  {
    SeenKeysMembers(xs[..j], Key(xs[i].value));
    assert xs[..j][i] == xs[i];
  }

  /** With no accepted row the loop builds no team. */
  lemma {:induction false} NoAcceptedRowsNoTeams(xs: seq<Option<Parsed>>)
    requires forall i :: 0 <= i < |xs| ==> xs[i].None?
    ensures Load(xs) == Empty
  {
    if xs != [] {
      var init := xs[..|xs| - 1];
      assert forall i :: 0 <= i < |init| ==> init[i] == xs[i];
      NoAcceptedRowsNoTeams(init);
    }
  }

  /** Java's cast truncates toward zero and saturates. */
  lemma CastExamples()
    ensures JavaIntCast(2.9) == 2 && JavaIntCast(-2.9) == -2
    ensures JavaIntCast(10000000000.0) == MaxInt32 && JavaIntCast(-10000000000.0) == MinInt32
  {
  }

  /** The key separates team from name as long as team names carry no dash,
      so de-duplication is then by (team, name) pair. */
  lemma PlayerKeyInjective(t1: string, n1: string, t2: string, n2: string)
    requires '-' !in t1 && '-' !in t2
    requires PlayerKey(t1, n1) == PlayerKey(t2, n2)
    ensures t1 == t2 && n1 == n2
  {
    PlayerKeyParts(t1, n1);
    PlayerKeyParts(t2, n2);
  }

  /** With no dash in any team name, a row is kept exactly when it is
      accepted and no earlier accepted row has the same team and name. */
  lemma KeptIffFirstOfPair(xs: seq<Option<Parsed>>, i: nat)
    requires forall h :: 0 <= h < |xs| && xs[h].Some? ==> '-' !in xs[h].value.team
    requires i < |xs|
    ensures Kept(xs, i) <==>
              && xs[i].Some?
              && forall j :: 0 <= j < i && xs[j].Some? ==>
                   !(xs[j].value.team == xs[i].value.team && xs[j].value.name == xs[i].value.name)
  {
    if xs[i].Some? {
      var k := Key(xs[i].value);
      SeenKeysMembers(xs[..i], k);
      if k in SeenKeys(xs[..i]) {
        var j :| 0 <= j < i && xs[..i][j].Some? && Key(xs[..i][j].value) == k;
        assert xs[..i][j] == xs[j];
        PlayerKeyInjective(xs[j].value.team, xs[j].value.name, xs[i].value.team, xs[i].value.name);
      }
    }
  }

  /** With dashes in names the key is ambiguous: a player "C" of team "A-B"
      and a player "B-C" of team "A" share the key "A-B-C", so the second row
      is dropped and team "A" never appears. */
  lemma KeyCollisionDropsTeam(p: Player, q: Player)
    ensures var st := Load([Some(Parsed("A-B", "C", p)), Some(Parsed("A", "B-C", q))]);
      st.teams == map["A-B" := [p]] && "A" !in st.teams
  {
    var x, y := Parsed("A-B", "C", p), Parsed("A", "B-C", q);
    assert Key(x) == Key(y);
    var both := [Some(x), Some(y)];
    assert both[..1] == [Some(x)] && [Some(x)][..0] == [];
    var one := [Some(x)];
    assert one[..|one| - 1] == [] && one[|one| - 1] == Some(x);
    var first := Load(one);
    assert first == LoadStep(Load([]), Some(x));
    assert Load([]) == Empty;
    assert [] + [p] == [p];
    assert first.teams == map[]["A-B" := [p]];
    assert first == LoadState(map["A-B" := [p]], {Key(x)});
    assert Load(both) == LoadStep(first, Some(y)) == first;
  }

  /** A row whose key was already added contributes nothing, whatever its
      team, name or statistics. */
  lemma CollidingRowDropped(xs: seq<Option<Parsed>>, x: Parsed)
    requires exists i :: 0 <= i < |xs| && xs[i].Some? && Key(xs[i].value) == Key(x)
    ensures Load(xs + [Some(x)]) == Load(xs)
  {
    LoadMatchesReference(xs);
    SeenKeysMembers(xs, Key(x));
    assert (xs + [Some(x)])[..|xs|] == xs;
  }

  /** The same accepted row twice yields one player. */
  lemma DuplicateRowSkipped(x: Parsed)
    ensures Load([Some(x), Some(x)]).teams == map[x.team := [x.player]]
  {
    var one := [Some(x)];
    assert one[..|one| - 1] == [] && one[|one| - 1] == Some(x);
    assert Load([]) == Empty;
    assert [] + [x.player] == [x.player];
    assert Load(one).teams == map[][x.team := [x.player]];
    CollidingRowDropped(one, x);
    assert one + [Some(x)] == [Some(x), Some(x)];
  }

  /** The team map that finalizeTeams receives: an empty file (no header line)
      leaves it empty; otherwise the header is skipped and the remaining rows
      are read. */
  function TeamMap(lines: seq<Row>, num: NumReader): map<string, seq<Player>>
  {
    if lines == [] then map[] else LoadRows(lines[1..], num).teams
  }

  /** The rows read after the header. */
  function DataRows(lines: seq<Row>): seq<Row>
  {
    if lines == [] then [] else lines[1..]
  }

  /** loadTeamsFromCSV, given the file's rows, the number parser and the
      iteration order of the resulting map. */
  function LoadTeamsFromCsv(lines: seq<Row>, num: NumReader, order: seq<string>): (r: seq<Team>)
    requires IsListing(order, TeamMap(lines, num))
    ensures lines == [] ==> r == []
    ensures forall t :: (exists i :: 0 <= i < |r| && r[i].name == t) <==> RosterFrom(ReadRows(DataRows(lines), num), t) != []
    ensures forall i, j :: 0 <= i < j < |r| ==> r[i].name != r[j].name
    ensures forall i :: 0 <= i < |r| ==>
              r[i].roster == Rescore(RosterFrom(ReadRows(DataRows(lines), num), r[i].name),
                                     StatBounds(Flatten(TeamMap(lines, num), order)))
    ensures SpreadsFit(StatBounds(Flatten(TeamMap(lines, num), order))) ==>
              forall i, q :: 0 <= i < |r| && q in r[i].roster ==> -0.5 <= q.takeawayEfficiency <= 2.0
  {
    LoadMatchesReference(ReadRows(DataRows(lines), num));
    Finalize(TeamMap(lines, num), order)
  }

  /** A file none of whose data rows passes the gate (too few fields, or
      another situation than 5on5) loads no team. */
  lemma NothingAcceptedNothingLoaded(lines: seq<Row>, num: NumReader, order: seq<string>)
    requires IsListing(order, TeamMap(lines, num))
    requires forall i :: 1 <= i < |lines| ==> !RowAccepted(lines[i])
    ensures LoadTeamsFromCsv(lines, num, order) == []
  {
    if lines != [] {
      var xs := ReadRows(DataRows(lines), num);
      assert forall i :: 0 <= i < |xs| ==> xs[i] == ReadRow(lines[i + 1], num);
      NoAcceptedRowsNoTeams(xs);
    }
  }
}
