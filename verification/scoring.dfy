/** The composite score that ranks candidates: a defensive term, scaled by
    the matchup multiplier, blended with an offensive term. Java doubles are
    read as exact reals. */
module Scoring {
  import opened League

  /** Weights the selector passes for the defensive and offensive terms. */
  const DefensiveWeight: real := 0.7
  const OffensiveWeight: real := 0.3

  /** Minutes used as the divisor of the expected-goals-against rate: the ice
      time, or 1 when the player has no positive ice time. */
  function EffectiveMinutes(p: Player): (m: real)
    ensures m > 0.0
  {
    if p.iceTime > 0.0 then p.iceTime else 1.0
  }

  /** Expected goals against per 60 minutes. */
  function XgaPer60(p: Player): real
  {
    (p.expectedGoalsAgainst / EffectiveMinutes(p)) * 60.0
  }

  function BaseDefensiveScore(p: Player): real
  {
    -1.5 * XgaPer60(p) + 0.04 * p.hits as real + 0.05 * p.blockedShots as real
  }

  function PossessionScore(p: Player): real
  {
    2.0 * (p.takeaways as real - 0.5 * p.giveaways as real)
  }

  function DefensiveScore(p: Player): real
  {
    BaseDefensiveScore(p) + PossessionScore(p)
  }

  function MatchupMultiplier(threatBoost: real): real
  {
    1.0 + 0.25 * threatBoost
  }

  function OffensiveScore(p: Player): real
  {
    0.15 * p.goals as real + 0.10 * p.points as real
    + 0.08 * p.highDangerXGoals + 0.10 * p.reboundGoals as real
  }

  /** getPlayerCompositeScore. The `target` argument is accepted and never
      read: the threat is already folded into `threatBoost`. */
  function CompositeScore(p: Player, target: Option<Player>, defWeight: real, offWeight: real,
                          threatBoost: real): (r: real)
    ensures threatBoost == 0.0 ==> r == defWeight * DefensiveScore(p) + offWeight * OffensiveScore(p)
  {
    defWeight * (DefensiveScore(p) * MatchupMultiplier(threatBoost)) + offWeight * OffensiveScore(p)
  }

  /** The per-60 rate really is a rate over the ice time when there is ice
      time, and with no positive ice time the divisor is 1 minute, so the score
      stays defined. */
  lemma XgaPer60Rate(p: Player)
    ensures p.iceTime > 0.0 ==> XgaPer60(p) * p.iceTime == 60.0 * p.expectedGoalsAgainst
    ensures p.iceTime <= 0.0 ==> XgaPer60(p) == 60.0 * p.expectedGoalsAgainst
  {
    if p.iceTime > 0.0 {
      var q := p.expectedGoalsAgainst / p.iceTime;
      assert q * p.iceTime == p.expectedGoalsAgainst;
      calc {
        XgaPer60(p) * p.iceTime;
        (q * 60.0) * p.iceTime;
        60.0 * (q * p.iceTime);
      }
    }
  }

  /** The score does not depend on which target is passed. */
  lemma CompositeIgnoresTarget(p: Player, t1: Option<Player>, t2: Option<Player>, defWeight: real,
                               offWeight: real, threatBoost: real)
    ensures CompositeScore(p, t1, defWeight, offWeight, threatBoost)
            == CompositeScore(p, t2, defWeight, offWeight, threatBoost)
  {
  }

  /** The threat boost enters linearly, through the defensive term only. */
  lemma CompositeAffineInBoost(p: Player, target: Option<Player>, defWeight: real, offWeight: real,
                               threatBoost: real)
    ensures CompositeScore(p, target, defWeight, offWeight, threatBoost)
            == CompositeScore(p, target, defWeight, offWeight, 0.0)
               + 0.25 * threatBoost * (defWeight * DefensiveScore(p))
  {
    var d := DefensiveScore(p);
    calc {
      CompositeScore(p, target, defWeight, offWeight, threatBoost);
      defWeight * (d * (1.0 + 0.25 * threatBoost)) + offWeight * OffensiveScore(p);
      { assert d * (1.0 + 0.25 * threatBoost) == d + 0.25 * threatBoost * d; }
      defWeight * (d + 0.25 * threatBoost * d) + offWeight * OffensiveScore(p);
      defWeight * d + defWeight * (0.25 * threatBoost * d) + offWeight * OffensiveScore(p);
      { assert defWeight * (0.25 * threatBoost * d) == 0.25 * threatBoost * (defWeight * d); }
      CompositeScore(p, target, defWeight, offWeight, 0.0) + 0.25 * threatBoost * (defWeight * d);
    }
  }

  /** With a positive defensive weight, a larger threat boost strictly raises
      the score of a player whose defensive score is positive, strictly lowers
      it when that score is negative, and leaves it alone when it is zero. */
  lemma CompositeMonotoneInBoost(p: Player, target: Option<Player>, defWeight: real, offWeight: real,
                                 b1: real, b2: real)
    requires defWeight > 0.0 && b1 < b2
    ensures DefensiveScore(p) > 0.0 ==> CompositeScore(p, target, defWeight, offWeight, b1)
                                        < CompositeScore(p, target, defWeight, offWeight, b2)
    ensures DefensiveScore(p) < 0.0 ==> CompositeScore(p, target, defWeight, offWeight, b1)
                                        > CompositeScore(p, target, defWeight, offWeight, b2)
    ensures DefensiveScore(p) == 0.0 ==> CompositeScore(p, target, defWeight, offWeight, b1)
                                         == CompositeScore(p, target, defWeight, offWeight, b2)
  {
    CompositeAffineInBoost(p, target, defWeight, offWeight, b1);
    CompositeAffineInBoost(p, target, defWeight, offWeight, b2);
    var w := defWeight * DefensiveScore(p);
    var gap := 0.25 * b2 * w - 0.25 * b1 * w;
    assert gap == 0.25 * (b2 - b1) * w;
    if DefensiveScore(p) > 0.0 {
      assert w > 0.0;
      assert gap > 0.0;
    } else if DefensiveScore(p) < 0.0 {
      assert w < 0.0;
      assert gap < 0.0;
    }
  }

  /** A player with 1 expected goal against in 60 minutes, 5 hits, 4
      takeaways, 2 giveaways, 3 blocks, 2 goals, 5 points, 1.0 high-danger
      expected goals and 1 rebound goal scores 3.689 with no threat boost,
      and strictly more with a boost of 1. */
  lemma CompositeScoreExample(target: Option<Player>)
    ensures var p := Player("Comp", "C", 1.0, 0.0, 5, 4, 2, 5, 3, 2, 60.0, 1.0, 1, 82, 0.0);
      && CompositeScore(p, target, DefensiveWeight, OffensiveWeight, 0.0) == 3.689
      && CompositeScore(p, target, DefensiveWeight, OffensiveWeight, 1.0) > 3.689
  {
    var p := Player("Comp", "C", 1.0, 0.0, 5, 4, 2, 5, 3, 2, 60.0, 1.0, 1, 82, 0.0);
    assert XgaPer60(p) == 1.0;
    assert DefensiveScore(p) == 4.85;
    assert OffensiveScore(p) == 0.98;
    CompositeMonotoneInBoost(p, target, DefensiveWeight, OffensiveWeight, 0.0, 1.0);
  }
}
