/** finalizeTeams: the league-wide minimum and maximum of takeaways and
    giveaways, the min-max normalisation of both, the takeaway efficiency
    score attached to every player, and the map of rosters turned into a
    list of teams. The map's iteration order is unspecified in the source, so
    it is a parameter here: any duplicate-free listing of the map's keys. */
module Normalise {
  import opened League

  /** Bounds of a Java int. */
  const MaxInt32: int := 0x7fff_ffff
  const MinInt32: int := -0x8000_0000

  /** The running Math.max of a list, started from Integer.MIN_VALUE. */
  function Highest(xs: seq<int>): (r: int)
    ensures r >= MinInt32
    ensures forall i :: 0 <= i < |xs| ==> xs[i] <= r
    ensures r == MinInt32 || r in xs
    decreases |xs|
  {
    if xs == [] then MinInt32
    else
      var init := xs[..|xs| - 1];
      assert forall i :: 0 <= i < |init| ==> init[i] == xs[i];
      Max(Highest(init), xs[|xs| - 1])
  }

  /** The running Math.min of a list, started from Integer.MAX_VALUE. */
  function Lowest(xs: seq<int>): (r: int)
    ensures r <= MaxInt32
    ensures forall i :: 0 <= i < |xs| ==> r <= xs[i]
    ensures r == MaxInt32 || r in xs
    decreases |xs|
  {
    if xs == [] then MaxInt32
    else
      var init := xs[..|xs| - 1];
      assert forall i :: 0 <= i < |init| ==> init[i] == xs[i];
      Min(Lowest(init), xs[|xs| - 1])
  }

  /** The extremes depend only on which values occur, not on their order or
      repetition; so the team order of the map does not matter. */
  lemma ExtremesBySet(xs: seq<int>, ys: seq<int>)
    requires forall x :: x in xs <==> x in ys
    ensures Highest(xs) == Highest(ys) && Lowest(xs) == Lowest(ys)
  {
    var hx, hy := Highest(xs), Highest(ys);
    if hx != MinInt32 {
      var i :| 0 <= i < |ys| && ys[i] == hx;
    }
    if hy != MinInt32 {
      var i :| 0 <= i < |xs| && xs[i] == hy;
    }
    var lx, ly := Lowest(xs), Lowest(ys);
    if lx != MaxInt32 {
      var i :| 0 <= i < |ys| && ys[i] == lx;
    }
    if ly != MaxInt32 {
      var i :| 0 <= i < |xs| && xs[i] == ly;
    }
  }

  function Takeaways(ps: seq<Player>): (r: seq<int>)
    ensures |r| == |ps| && forall i :: 0 <= i < |ps| ==> r[i] == ps[i].takeaways
  {
    seq(|ps|, i requires 0 <= i < |ps| => ps[i].takeaways)
  }

  function Giveaways(ps: seq<Player>): (r: seq<int>)
    ensures |r| == |ps| && forall i :: 0 <= i < |ps| ==> r[i] == ps[i].giveaways
  {
    seq(|ps|, i requires 0 <= i < |ps| => ps[i].giveaways)
  }

  /** The four league-wide extremes of the first pass. */
  datatype Bounds = Bounds(minTake: int, maxTake: int, minGive: int, maxGive: int)

  function StatBounds(ps: seq<Player>): (b: Bounds)
    ensures ps == [] ==> b == Bounds(MaxInt32, MinInt32, MaxInt32, MinInt32)
    ensures ps != [] ==> b.minTake <= b.maxTake && b.minGive <= b.maxGive
  {
    Bounds(Lowest(Takeaways(ps)), Highest(Takeaways(ps)), Lowest(Giveaways(ps)), Highest(Giveaways(ps)))
  }

  /** The bounds enclose a player's takeaways and giveaways. */
  predicate Covers(b: Bounds, p: Player)
  {
    b.minTake <= p.takeaways <= b.maxTake && b.minGive <= p.giveaways <= b.maxGive
  }

  /** The computed extremes bound every player they were computed from. */
  lemma StatBoundsCover(ps: seq<Player>, p: Player)
    requires p in ps
    ensures Covers(StatBounds(ps), p)
  {
    var i :| 0 <= i < |ps| && ps[i] == p;
    assert Takeaways(ps)[i] == p.takeaways && Giveaways(ps)[i] == p.giveaways;
  }

  /** Min-max normalisation of `v` into [lo, hi], 0 when the range is a single
      value; integer differences taken exactly. */
  function Normalised(v: int, lo: int, hi: int): (r: real)
    ensures hi == lo ==> r == 0.0
    ensures hi != lo ==> r * (hi - lo) as real == (v - lo) as real
    ensures lo <= v <= hi ==> 0.0 <= r <= 1.0
  {
    if hi - lo == 0 then 0.0 else (v - lo) as real / (hi - lo) as real
  }

  /** The takeaway efficiency score: twice the normalised takeaways less half
      the normalised giveaways. */
  function Efficiency(p: Player, b: Bounds): (r: real)
    ensures Covers(b, p) ==> -0.5 <= r <= 2.0
  {
    2.0 * Normalised(p.takeaways, b.minTake, b.maxTake) - 0.5 * Normalised(p.giveaways, b.minGive, b.maxGive)
  }

  /** A player's takeaways at the league maximum and giveaways at the league
      minimum earn the top score 2; the reverse earns the bottom score -0.5. */
  lemma EfficiencyExtremes(p: Player, b: Bounds)
    requires b.minTake < b.maxTake && b.minGive < b.maxGive
    ensures p.takeaways == b.maxTake && p.giveaways == b.minGive ==> Efficiency(p, b) == 2.0
    ensures p.takeaways == b.minTake && p.giveaways == b.maxGive ==> Efficiency(p, b) == -0.5
  {
    assert Normalised(b.maxTake, b.minTake, b.maxTake) == 1.0;
    assert Normalised(b.minGive, b.minGive, b.maxGive) == 0.0;
    assert Normalised(b.minTake, b.minTake, b.maxTake) == 0.0;
    assert Normalised(b.maxGive, b.minGive, b.maxGive) == 1.0;
  }

  /** Every player of a roster with the efficiency score set, in order, by
      the source's int arithmetic. */
  function Rescore(roster: seq<Player>, b: Bounds): (r: seq<Player>)
    ensures |r| == |roster|
    ensures forall i :: 0 <= i < |r| ==> r[i] == roster[i].(takeawayEfficiency := EfficiencyAsWritten(roster[i], b))
    ensures SpreadsFit(b) ==> forall q :: q in r ==> Covers(b, q) ==> -0.5 <= q.takeawayEfficiency <= 2.0
  {
    var r := seq(|roster|, i requires 0 <= i < |roster| => roster[i].(takeawayEfficiency := EfficiencyAsWritten(roster[i], b)));
    forall q | q in r && SpreadsFit(b) && Covers(b, q)
      ensures -0.5 <= q.takeawayEfficiency <= 2.0
    {
      var i :| 0 <= i < |r| && r[i] == q;
      EfficiencyAsWrittenAgrees(roster[i], b);
    }
    r
  }

  /** `order` lists every key of `m` exactly once. */
  predicate IsListing(order: seq<string>, m: map<string, seq<Player>>)
  {
    && (forall i :: 0 <= i < |order| ==> order[i] in m)
    && (forall t :: t in m ==> t in order)
    && (forall i, j :: 0 <= i < j < |order| ==> order[i] != order[j])
  }

  /** All players of the map, team after team in the listed order. */
  function Flatten(m: map<string, seq<Player>>, order: seq<string>): (r: seq<Player>)
    requires forall i :: 0 <= i < |order| ==> order[i] in m
  {
    if order == [] then [] else m[order[0]] + Flatten(m, order[1..])
  }

  /** A player is on the flattened list exactly when a listed roster holds
      them. */
  lemma {:induction false} FlattenMembers(m: map<string, seq<Player>>, order: seq<string>, p: Player)
    requires forall i :: 0 <= i < |order| ==> order[i] in m
    ensures p in Flatten(m, order) <==> exists i :: 0 <= i < |order| && p in m[order[i]]
  {
    if order != [] {
      FlattenMembers(m, order[1..], p);
      if p in Flatten(m, order[1..]) {
        var i :| 0 <= i < |order[1..]| && p in m[order[1..][i]];
        assert order[1..][i] == order[i + 1];
      }
      if exists i :: 0 <= i < |order| && p in m[order[i]] {
        var i :| 0 <= i < |order| && p in m[order[i]];
        if i > 0 {
          assert order[1..][i - 1] == order[i];
        }
      }
    }
  }

  /** The extremes of the first pass do not depend on the iteration order. */
  lemma BoundsIgnoreOrder(m: map<string, seq<Player>>, o1: seq<string>, o2: seq<string>)
    requires IsListing(o1, m) && IsListing(o2, m)
    ensures StatBounds(Flatten(m, o1)) == StatBounds(Flatten(m, o2))
  {
    var f1, f2 := Flatten(m, o1), Flatten(m, o2);
    forall p
      ensures p in f1 <==> p in f2
    {
      FlattenMembers(m, o1, p);
      FlattenMembers(m, o2, p);
      if exists i :: 0 <= i < |o1| && p in m[o1[i]] {
        var i :| 0 <= i < |o1| && p in m[o1[i]];
        var j :| 0 <= j < |o2| && o2[j] == o1[i];
      }
      if exists j :: 0 <= j < |o2| && p in m[o2[j]] {
        var j :| 0 <= j < |o2| && p in m[o2[j]];
        var i :| 0 <= i < |o1| && o1[i] == o2[j];
      }
    }
    forall x
      ensures x in Takeaways(f1) <==> x in Takeaways(f2)
      ensures x in Giveaways(f1) <==> x in Giveaways(f2)
    {
      SameMembersSameStats(f1, f2, x);
      SameMembersSameStats(f2, f1, x);
    }
    ExtremesBySet(Takeaways(f1), Takeaways(f2));
    ExtremesBySet(Giveaways(f1), Giveaways(f2));
  }

  lemma SameMembersSameStats(a: seq<Player>, b: seq<Player>, x: int)
    requires forall p :: p in a ==> p in b
    ensures x in Takeaways(a) ==> x in Takeaways(b)
    ensures x in Giveaways(a) ==> x in Giveaways(b)
  {
    if x in Takeaways(a) {
      var i :| 0 <= i < |a| && Takeaways(a)[i] == x;
      assert a[i] in b;
      var j :| 0 <= j < |b| && b[j] == a[i];
      assert Takeaways(b)[j] == x;
    }
    if x in Giveaways(a) {
      var i :| 0 <= i < |a| && Giveaways(a)[i] == x;
      assert a[i] in b;
      var j :| 0 <= j < |b| && b[j] == a[i];
      assert Giveaways(b)[j] == x;
    }
  }

  /** A duplicate-free list has as many elements as its set. */
  lemma {:induction false} DistinctCard(s: seq<string>)
    requires forall i, j :: 0 <= i < j < |s| ==> s[i] != s[j]
    ensures |set x | x in s| == |s|
  {
    if s != [] {
      var tail := s[1..];
      DistinctCard(tail);
      assert (set x | x in s) == {s[0]} + (set x | x in tail);
      assert s[0] !in tail;
    }
  }

  /** A listing of the keys is as long as the map is large. */
  lemma ListingLength(order: seq<string>, m: map<string, seq<Player>>)
    requires IsListing(order, m)
    ensures |order| == |m|
  {
    DistinctCard(order);
    assert m.Keys == set x | x in order;
  }

  /** While both league-wide spreads fit in an int, every rescored player of
      a listed team gets a score in [-0.5, 2]. */
  lemma RescoredInRange(m: map<string, seq<Player>>, order: seq<string>, t: string, q: Player)
    requires IsListing(order, m) && t in m
    requires SpreadsFit(StatBounds(Flatten(m, order)))
    requires q in Rescore(m[t], StatBounds(Flatten(m, order)))
    ensures -0.5 <= q.takeawayEfficiency <= 2.0
  {
    var b := StatBounds(Flatten(m, order));
    var roster := m[t];
    var rescored := Rescore(roster, b);
    var k :| 0 <= k < |rescored| && rescored[k] == q;
    var i :| 0 <= i < |order| && order[i] == t;
    FlattenMembers(m, order, roster[k]);
    StatBoundsCover(Flatten(m, order), roster[k]);
    EfficiencyAsWrittenAgrees(roster[k], b);
  }

  /** One team per listed key, each holding its rescored roster. */
  function ListedTeams(m: map<string, seq<Player>>, order: seq<string>, b: Bounds): (r: seq<Team>)
    requires forall i :: 0 <= i < |order| ==> order[i] in m
    ensures |r| == |order|
    ensures forall i :: 0 <= i < |r| ==> r[i] == Team(order[i], Rescore(m[order[i]], b))
  {
    seq(|order|, i requires 0 <= i < |order| => Team(order[i], Rescore(m[order[i]], b)))
  }

  /** The listed teams name every key once, and carry in-range scores while
      both spreads fit in an int. */
  lemma ListedTeamsShape(m: map<string, seq<Player>>, order: seq<string>)
    requires IsListing(order, m)
    ensures var r := ListedTeams(m, order, StatBounds(Flatten(m, order)));
      && |r| == |m|
      && (forall t :: t in m <==> exists i :: 0 <= i < |r| && r[i].name == t)
      && (SpreadsFit(StatBounds(Flatten(m, order))) ==>
            forall i, q :: 0 <= i < |r| && q in r[i].roster ==> -0.5 <= q.takeawayEfficiency <= 2.0)
  {
    var r := ListedTeams(m, order, StatBounds(Flatten(m, order)));
    ListingLength(order, m);
    forall i, q | 0 <= i < |r| && q in r[i].roster && SpreadsFit(StatBounds(Flatten(m, order)))
      ensures -0.5 <= q.takeawayEfficiency <= 2.0
    {
      RescoredInRange(m, order, order[i], q);
    }
    forall t | t in m
      ensures exists i :: 0 <= i < |r| && r[i].name == t
    {
      var i :| 0 <= i < |order| && order[i] == t;
      assert r[i].name == t;
    }
  }

  /** finalizeTeams: one team per key of the map, in the listed order, each
      holding its roster with every player's efficiency score set from the
      league-wide bounds by the source's int arithmetic. The scores stay in
      [-0.5, 2] while both spreads fit in an int; FinalizeCanLeaveRange shows
      a league where they do not. */
  function Finalize(m: map<string, seq<Player>>, order: seq<string>): (r: seq<Team>)
    requires IsListing(order, m)
    ensures |r| == |m|
    ensures forall t :: t in m <==> exists i :: 0 <= i < |r| && r[i].name == t
    ensures forall i, j :: 0 <= i < j < |r| ==> r[i].name != r[j].name
    ensures forall i :: 0 <= i < |r| ==> r[i].roster == Rescore(m[r[i].name], StatBounds(Flatten(m, order)))
    ensures SpreadsFit(StatBounds(Flatten(m, order))) ==>
              forall i, q :: 0 <= i < |r| && q in r[i].roster ==> -0.5 <= q.takeawayEfficiency <= 2.0
  {
    ListedTeamsShape(m, order);
    ListedTeams(m, order, StatBounds(Flatten(m, order)))
  }

  /** Java int subtraction wraps modulo 2^32 into the int range. */
  function Wrap32(x: int): (r: int)
    ensures MinInt32 <= r <= MaxInt32
    ensures (x - r) % 0x1_0000_0000 == 0
    ensures MinInt32 <= x <= MaxInt32 ==> r == x
  {
    (x - MinInt32) % 0x1_0000_0000 + MinInt32
  }

  predicate IsInt32(x: int)
  {
    MinInt32 <= x <= MaxInt32
  }

  /** The normalisation as DataLoader.java:109-112 computes it: both
      differences are int subtractions, so they wrap before the conversion to
      double. */
  function NormalisedAsWritten(v: int, lo: int, hi: int): real
  {
    if Wrap32(hi - lo) == 0 then 0.0 else Wrap32(v - lo) as real / Wrap32(hi - lo) as real
  }

  function EfficiencyAsWritten(p: Player, b: Bounds): real
  {
    2.0 * NormalisedAsWritten(p.takeaways, b.minTake, b.maxTake)
    - 0.5 * NormalisedAsWritten(p.giveaways, b.minGive, b.maxGive)
  }

  /** While the spread of a statistic fits in an int, the wrapping arithmetic
      agrees with the exact normalisation; in particular its zero test fires
      exactly when the range is a single value. */
  lemma NormalisedAsWrittenAgrees(v: int, lo: int, hi: int)
    requires lo <= v <= hi && hi - lo <= MaxInt32
    ensures (Wrap32(hi - lo) == 0) <==> (hi == lo)
    ensures NormalisedAsWritten(v, lo, hi) == Normalised(v, lo, hi)
  {
  }

  /** Both spreads of the bounds fit in an int, so neither subtraction of
      DataLoader.java:109-112 wraps for a player within the bounds. */
  predicate SpreadsFit(b: Bounds)
  {
    b.maxTake - b.minTake <= MaxInt32 && b.maxGive - b.minGive <= MaxInt32
  }

  /** Within bounds whose spreads fit, the source's efficiency is the exact
      one, and so lies in [-0.5, 2]. */
  lemma EfficiencyAsWrittenAgrees(p: Player, b: Bounds)
    requires Covers(b, p) && SpreadsFit(b)
    ensures EfficiencyAsWritten(p, b) == Efficiency(p, b)
    ensures -0.5 <= EfficiencyAsWritten(p, b) <= 2.0
  {
    NormalisedAsWrittenAgrees(p.takeaways, b.minTake, b.maxTake);
    NormalisedAsWrittenAgrees(p.giveaways, b.minGive, b.maxGive);
  }

  /** Non-negative int counts, as real season data has, never make a spread
      overflow. */
  lemma NonNegativeCountsFit(ps: seq<Player>)
    requires forall p :: p in ps ==> 0 <= p.takeaways <= MaxInt32 && 0 <= p.giveaways <= MaxInt32
    ensures SpreadsFit(StatBounds(ps))
  {
    var t, g := Takeaways(ps), Giveaways(ps);
    if Lowest(t) != MaxInt32 {
      var i :| 0 <= i < |t| && t[i] == Lowest(t);
      assert ps[i] in ps;
    }
    if Lowest(g) != MaxInt32 {
      var i :| 0 <= i < |g| && g[i] == Lowest(g);
      assert ps[i] in ps;
    }
    if Highest(t) != MinInt32 {
      var i :| 0 <= i < |t| && t[i] == Highest(t);
      assert ps[i] in ps;
    }
    if Highest(g) != MinInt32 {
      var i :| 0 <= i < |g| && g[i] == Highest(g);
      assert ps[i] in ps;
    }
  }

  /** Three players whose takeaways are the int extremes and -1 (values a
      saturating (int) cast produces from fields such as "-1e10", "1e10" and
      "-1"), and whose giveaways are all 0. */
  function OverflowLeague(): seq<Player>
  {
    var base := Player("", "", 0.0, 0.0, 0, 0, 0, 0, 0, 0, 0.0, 0.0, 0, 0, 0.0);
    [base.(takeaways := MinInt32), base.(takeaways := MaxInt32), base.(takeaways := -1)]
  }

  /** The league-wide bounds of that league. */
  lemma OverflowLeagueBounds()
    ensures StatBounds(OverflowLeague()) == Bounds(MinInt32, MaxInt32, 0, 0)
  {
    var ps := OverflowLeague();
    assert Takeaways(ps) == [MinInt32, MaxInt32, -1];
    assert Giveaways(ps) == [0, 0, 0];
    var t, g := [MinInt32, MaxInt32, -1], [0, 0, 0];
    assert t[..2] == [MinInt32, MaxInt32] && t[..2][..1] == [MinInt32] && [MinInt32][..0] == [];
    assert g[..2] == [0, 0] && g[..2][..1] == [0] && [0][..0] == [];
    assert Highest([MinInt32]) == MinInt32 && Lowest([MinInt32]) == MinInt32;
    assert Highest(t[..2]) == MaxInt32 && Lowest(t[..2]) == MinInt32;
    assert Highest(g[..2]) == 0 && Lowest(g[..2]) == 0;
  }

  /** On that league the takeaway spread 2^32 - 1 wraps to -1 and the
      numerator 2^31 - 1 stays positive, so the wrapping computation gives
      the third player an efficiency far below the documented floor -0.5,
      while the exact normalisation keeps it inside [-0.5, 2]. */
  lemma OverflowBreaksEfficiencyRange()
    ensures StatBounds(OverflowLeague()) == Bounds(MinInt32, MaxInt32, 0, 0)
    ensures Covers(StatBounds(OverflowLeague()), OverflowLeague()[2])
    ensures EfficiencyAsWritten(OverflowLeague()[2], StatBounds(OverflowLeague())) < -0.5
    ensures -0.5 <= Efficiency(OverflowLeague()[2], StatBounds(OverflowLeague())) <= 2.0
  {
    OverflowLeagueBounds();
    assert Wrap32(MaxInt32 - MinInt32) == -1;
    assert Wrap32(-1 - MinInt32) == MaxInt32;
    assert NormalisedAsWritten(-1, MinInt32, MaxInt32) == -(MaxInt32 as real);
  }

  /** finalizeTeams itself, run on a one-team map holding that league, gives
      its third player a score below -0.5. */
  lemma FinalizeCanLeaveRange()
    ensures var m := map["T" := OverflowLeague()];
      && IsListing(["T"], m)
      && !SpreadsFit(StatBounds(Flatten(m, ["T"])))
      && Finalize(m, ["T"])[0].roster[2].takeawayEfficiency < -0.5
  {
    var m := map["T" := OverflowLeague()];
    assert Flatten(m, ["T"]) == OverflowLeague() + Flatten(m, []);
    assert Flatten(m, ["T"]) == OverflowLeague();
    OverflowBreaksEfficiencyRange();
  }
}
