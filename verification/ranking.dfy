/** Steps 1 to 3 of the selector: take a copy of the roster, drop goalies and
    short-season players, and sort the rest by descending score with a stable
    sort. The sort is modelled generically over the score function. */
module Ranking {
  import opened Text
  import opened League

  /** A reference to one roster position. Java compares lineup members by
      object identity; the model uses the player's index in the roster. */
  datatype Entry = Entry(slot: nat, player: Player)

  /** The roster copy, each player paired with its roster position. */
  function Tag(roster: seq<Player>): (r: seq<Entry>)
    ensures |r| == |roster|
    ensures forall i :: 0 <= i < |r| ==> r[i] == Entry(i, roster[i])
  {
    seq(|roster|, i requires 0 <= i < |roster| => Entry(i, roster[i]))
  }

  /** The entry stands for the roster player at its slot. */
  predicate RefersTo(e: Entry, roster: seq<Player>)
  {
    e.slot < |roster| && roster[e.slot] == e.player
  }

  predicate SlotsIncreasing(s: seq<Entry>)
  {
    forall i, j :: 0 <= i < j < |s| ==> s[i].slot < s[j].slot
  }

  /** Fewest games a player needs to be considered. */
  const MinGamesPlayed: int := 50

  /** The goalie test of the filter: equalsIgnoreCase("G"), without trimming. */
  predicate IsGoalie(p: Player)
  {
    EqualsIgnoreCase(p.position, "G")
  }

  predicate Eligible(p: Player)
  {
    !IsGoalie(p) && p.gamesPlayed >= MinGamesPlayed
  }

  /** removeIf on the copy: keeps exactly the eligible entries, in order. */
  function FilterEligible(s: seq<Entry>): (r: seq<Entry>)
    ensures forall e :: e in r <==> e in s && Eligible(e.player)
    ensures |r| <= |s|
  {
    if s == [] then []
    else if Eligible(s[0].player) then [s[0]] + FilterEligible(s[1..])
    else FilterEligible(s[1..])
  }

  /** The filter only leaves entries out. */
  lemma {:induction false} FilterIsSubseq(s: seq<Entry>)
    ensures SubseqOf(FilterEligible(s), s)
  {
    if s != [] {
      FilterIsSubseq(s[1..]);
    }
  }

  /** The ranking order: the higher score first and, on equal scores, the
      earlier roster position first. This is the order a stable sort of the
      roster-ordered list by descending score produces. */
  predicate Before(a: Entry, b: Entry, score: Player -> real)
  {
    score(a.player) > score(b.player) || (score(a.player) == score(b.player) && a.slot < b.slot)
  }

  predicate Ranked(s: seq<Entry>, score: Player -> real)
  {
    forall i, j :: 0 <= i < j < |s| ==> Before(s[i], s[j], score)
  }

  /** No entry is before itself, and the order is asymmetric. */
  lemma BeforeAsymmetric(a: Entry, b: Entry, score: Player -> real)
    ensures !(Before(a, b, score) && Before(b, a, score))
    ensures !Before(a, a, score)
  {
  }

  /** One insertion step of a stable sort: `x` goes in front of the first
      entry that does not score strictly higher. */
  function Insert(x: Entry, s: seq<Entry>, score: Player -> real): (r: seq<Entry>)
    ensures multiset(r) == multiset(s) + multiset{x}
    ensures |r| == |s| + 1
  {
    if s == [] || score(s[0].player) <= score(x.player) then [x] + s
    else
      assert s == [s[0]] + s[1..];
      [s[0]] + Insert(x, s[1..], score)
  }

  /** A list sorted descending by score; a stable sort of `s`. */
  function RankByScore(s: seq<Entry>, score: Player -> real): (r: seq<Entry>)
    ensures multiset(r) == multiset(s)
    ensures |r| == |s|
  {
    if s == [] then []
    else
      assert s == [s[0]] + s[1..];
      Insert(s[0], RankByScore(s[1..], score), score)
  }

  lemma RankedCons(x: Entry, s: seq<Entry>, score: Player -> real)
    requires Ranked(s, score)
    requires forall e :: e in s ==> Before(x, e, score)
    ensures Ranked([x] + s, score)
  {
    var r := [x] + s;
    forall i, j | 0 <= i < j < |r|
      ensures Before(r[i], r[j], score)
    {
      if i == 0 {
        assert r[j] == s[j - 1];
      } else {
        assert r[i] == s[i - 1] && r[j] == s[j - 1];
      }
    }
  }

  /** Inserting an entry whose slot is below every slot of a ranked list
      keeps it ranked. */
  lemma {:induction false} InsertRanked(x: Entry, s: seq<Entry>, score: Player -> real)
    requires Ranked(s, score)
    requires forall e :: e in s ==> x.slot < e.slot
    ensures Ranked(Insert(x, s, score), score)
  {
    if s == [] || score(s[0].player) <= score(x.player) {
      forall e | e in s
        ensures Before(x, e, score)
      {
        var k :| 0 <= k < |s| && s[k] == e;
        if k > 0 {
          assert Before(s[0], s[k], score);
        }
      }
      RankedCons(x, s, score);
    } else {
      var tail := s[1..];
      assert Ranked(tail, score) by {
        forall i, j | 0 <= i < j < |tail|
          ensures Before(tail[i], tail[j], score)
        {
          assert tail[i] == s[i + 1] && tail[j] == s[j + 1];
        }
      }
      InsertRanked(x, tail, score);
      var ins := Insert(x, tail, score);
      forall e | e in ins
        ensures Before(s[0], e, score)
      {
        assert e in multiset(ins);
        if e != x {
          assert e in tail;
          var k :| 0 <= k < |tail| && tail[k] == e;
          assert s[k + 1] == e;
        }
      }
      RankedCons(s[0], ins, score);
    }
  }

  /** Sorting a slot-ordered list yields the ranking order. */
  lemma {:induction false} RankByScoreRanked(s: seq<Entry>, score: Player -> real)
    requires SlotsIncreasing(s)
    ensures Ranked(RankByScore(s, score), score)
  {
    if s != [] {
      RankByScoreRanked(s[1..], score);
      var r := RankByScore(s[1..], score);
      forall e | e in r
        ensures s[0].slot < e.slot
      {
        assert e in multiset(s[1..]);
        var k :| 0 <= k < |s[1..]| && s[1..][k] == e;
        assert s[k + 1] == e;
      }
      InsertRanked(s[0], r, score);
    }
  }

  /** The ranking order determines the list: two arrangements of the same
      entries that are both ranked are equal. So the sort's output is THE
      arrangement by descending score, ties in roster order. */
  lemma {:induction false} RankedUnique(a: seq<Entry>, b: seq<Entry>, score: Player -> real)
    requires multiset(a) == multiset(b)
    requires Ranked(a, score) && Ranked(b, score)
    ensures a == b
  {
    if a != [] {
      assert |multiset(a)| == |a| && |multiset(b)| == |b|;
      assert a[0] in multiset(b);
      assert b[0] in multiset(a);
      if a[0] != b[0] {
        assert false;
      }
      assert a == [a[0]] + a[1..];
      assert b == [b[0]] + b[1..];
      assert multiset(a) == multiset{a[0]} + multiset(a[1..]);
      assert multiset(b) == multiset{a[0]} + multiset(b[1..]);
      assert multiset(a[1..]) == multiset(a) - multiset{a[0]};
      assert multiset(b[1..]) == multiset(b) - multiset{a[0]};
      assert Ranked(a[1..], score) by {
        forall i, j | 0 <= i < j < |a[1..]|
          ensures Before(a[1..][i], a[1..][j], score)
        {
          assert a[1..][i] == a[i + 1] && a[1..][j] == a[j + 1];
        }
      }
      assert Ranked(b[1..], score) by {
        forall i, j | 0 <= i < j < |b[1..]|
          ensures Before(b[1..][i], b[1..][j], score)
        {
          assert b[1..][i] == b[i + 1] && b[1..][j] == b[j + 1];
        }
      }
      RankedUnique(a[1..], b[1..], score);
    }
  }

  /** The eligible entries of the tagged roster are exactly the eligible
      players at their own roster slots. */
  lemma EligibleEntries(roster: seq<Player>, e: Entry)
    ensures e in FilterEligible(Tag(roster)) <==> RefersTo(e, roster) && Eligible(e.player)
  {
    if RefersTo(e, roster) {
      assert Tag(roster)[e.slot] == e;
    }
  }

  /** The eligible players of a roster, ranked: a permutation of them, in
      ranking order. */
  function RankedEligible(roster: seq<Player>, score: Player -> real): (r: seq<Entry>)
    ensures multiset(r) == multiset(FilterEligible(Tag(roster)))
    ensures forall e :: e in r <==> RefersTo(e, roster) && Eligible(e.player)
    ensures Ranked(r, score)
  {
    var tagged := Tag(roster);
    var eligible := FilterEligible(tagged);
    FilterIsSubseq(tagged);
    SubseqSlotsIncreasing(eligible, tagged);
    RankByScoreRanked(eligible, score);
    var r := RankByScore(eligible, score);
    forall e
      ensures e in r <==> RefersTo(e, roster) && Eligible(e.player)
    {
      assert e in r <==> e in multiset(eligible);
      EligibleEntries(roster, e);
    }
    r
  }

  /** `a` is `b` with some entries left out, order kept. */
  predicate SubseqOf(a: seq<Entry>, b: seq<Entry>)
    decreases |b|
  {
    a == [] || (b != [] && ((a[0] == b[0] && SubseqOf(a[1..], b[1..])) || SubseqOf(a, b[1..])))
  }

  lemma {:induction false} SubseqMembers(a: seq<Entry>, b: seq<Entry>)
    requires SubseqOf(a, b)
    ensures forall e :: e in a ==> e in b
    decreases |b|
  {
    if a != [] {
      if a[0] == b[0] && SubseqOf(a[1..], b[1..]) {
        SubseqMembers(a[1..], b[1..]);
        assert forall e :: e in a ==> e == a[0] || e in a[1..];
      } else {
        SubseqMembers(a, b[1..]);
      }
    }
  }

  /** Leaving entries out of a ranked list keeps it ranked. */
  lemma {:induction false} SubseqRanked(a: seq<Entry>, b: seq<Entry>, score: Player -> real)
    requires SubseqOf(a, b) && Ranked(b, score)
    ensures Ranked(a, score)
    decreases |b|
  {
    if a != [] {
      var tail := b[1..];
      assert Ranked(tail, score) by {
        forall i, j | 0 <= i < j < |tail|
          ensures Before(tail[i], tail[j], score)
        {
          assert tail[i] == b[i + 1] && tail[j] == b[j + 1];
        }
      }
      if a[0] == b[0] && SubseqOf(a[1..], tail) {
        SubseqRanked(a[1..], tail, score);
        SubseqMembers(a[1..], tail);
        forall e | e in a[1..]
          ensures Before(b[0], e, score)
        {
          var k :| 0 <= k < |tail| && tail[k] == e;
          assert b[k + 1] == e;
        }
        assert a == [a[0]] + a[1..];
        RankedCons(a[0], a[1..], score);
      } else {
        SubseqRanked(a, tail, score);
      }
    }
  }

  /** Leaving entries out of a slot-ordered list keeps it slot-ordered. */
  lemma {:induction false} SubseqSlotsIncreasing(a: seq<Entry>, b: seq<Entry>)
    requires SubseqOf(a, b) && SlotsIncreasing(b)
    ensures SlotsIncreasing(a)
    decreases |b|
  {
    if a != [] {
      var tail := b[1..];
      assert SlotsIncreasing(tail) by {
        forall i, j | 0 <= i < j < |tail|
          ensures tail[i].slot < tail[j].slot
        {
          assert tail[i] == b[i + 1] && tail[j] == b[j + 1];
        }
      }
      if a[0] == b[0] && SubseqOf(a[1..], tail) {
        SubseqSlotsIncreasing(a[1..], tail);
        SubseqMembers(a[1..], tail);
        forall i, j | 0 <= i < j < |a|
          ensures a[i].slot < a[j].slot
        {
          if i == 0 {
            assert a[j] in a[1..];
            var k :| 0 <= k < |tail| && tail[k] == a[j];
            assert b[k + 1] == a[j];
          } else {
            assert a[i] == a[1..][i - 1] && a[j] == a[1..][j - 1];
          }
        }
      } else {
        SubseqSlotsIncreasing(a, tail);
      }
    }
  }

  /** In a ranked list of entries that refer to one roster, no roster
      position occurs twice. */
  lemma RankedHasDistinctSlots(s: seq<Entry>, roster: seq<Player>, score: Player -> real)
    requires Ranked(s, score)
    requires forall e :: e in s ==> RefersTo(e, roster)
    ensures forall i, j :: 0 <= i < j < |s| ==> s[i].slot != s[j].slot
  {
    forall i, j | 0 <= i < j < |s|
      ensures s[i].slot != s[j].slot
    {
      assert Before(s[i], s[j], score);
      assert RefersTo(s[i], roster) && RefersTo(s[j], roster);
    }
  }
}
