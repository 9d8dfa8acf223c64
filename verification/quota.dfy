/** Steps 4 and 5 of the selector: the greedy quota pass over the ranked
    list (two defencemen, one each of left wing, centre and right wing) and
    the fallback rescan for forward positions still open. Both are proved to
    produce a declarative reference lineup, which shows that the fallback
    never adds anyone. */
module QuotaPass {
  import opened Text
  import opened League
  import opened Ranking

  /** How the quota pass reads a position: `key(p)` is the position of `p`
      normalised for comparison (upper-cased and trimmed in the source; the
      pass is modelled generically in this reading). */
  type KeyReader = Player -> string

  predicate IsForward(k: string)
  {
    k == "L" || k == "C" || k == "R"
  }

  /** How many players of a position the lineup takes. */
  function Quota(k: string): nat
  {
    if k == "D" then 2 else if IsForward(k) then 1 else 0
  }

  /** Largest lineup the quotas allow, and the bound the fallback tests. */
  const MaxLineup: nat := 5

  /** The entries of `s` whose position key is `k`, in order. */
  function WithKey(s: seq<Entry>, k: string, key: KeyReader): (r: seq<Entry>)
    ensures |r| <= |s|
  {
    if s == [] then []
    else if key(s[0].player) == k then [s[0]] + WithKey(s[1..], k, key)
    else WithKey(s[1..], k, key)
  }

  lemma {:induction false} WithKeyMembers(s: seq<Entry>, k: string, key: KeyReader)
    ensures forall e :: e in WithKey(s, k, key) <==> e in s && key(e.player) == k
  {
    if s != [] {
      WithKeyMembers(s[1..], k, key);
    }
  }

  lemma {:induction false} WithKeyAppend(a: seq<Entry>, b: seq<Entry>, k: string, key: KeyReader)
    ensures WithKey(a + b, k, key) == WithKey(a, k, key) + WithKey(b, k, key)
  {
    if a == [] {
      assert a + b == b;
    } else {
      var x := a[0];
      assert (a + b)[0] == x;
      assert (a + b)[1..] == a[1..] + b;
      WithKeyAppend(a[1..], b, k, key);
      if key(x.player) == k {
        assert [x] + (WithKey(a[1..], k, key) + WithKey(b, k, key))
            == ([x] + WithKey(a[1..], k, key)) + WithKey(b, k, key);
      }
    }
  }

  /** How many entries of `s` have position key `k`. Counted from the back,
      the way the quota loop sees its input grow. */
  function Count(s: seq<Entry>, k: string, key: KeyReader): nat
    decreases |s|
  {
    if s == [] then 0
    else Count(s[..|s| - 1], k, key) + (if key(s[|s| - 1].player) == k then 1 else 0)
  }

  lemma CountSnoc(s: seq<Entry>, e: Entry, k: string, key: KeyReader)
    ensures Count(s + [e], k, key) == Count(s, k, key) + (if key(e.player) == k then 1 else 0)
  {
    assert (s + [e])[..|s|] == s;
  }

  lemma {:induction false} CountMonotone(a: seq<Entry>, b: seq<Entry>, k: string, key: KeyReader)
    ensures Count(a + b, k, key) >= Count(a, k, key)
    decreases |b|
  {
    if b == [] {
      assert a + b == a;
    } else {
      var c := b[..|b| - 1];
      assert b == c + [b[|b| - 1]];
      assert a + b == (a + c) + [b[|b| - 1]];
      CountSnoc(a + c, b[|b| - 1], k, key);
      CountMonotone(a, c, k, key);
    }
  }

  /** A count of zero means no entry has that key. */
  lemma {:induction false} CountZero(s: seq<Entry>, k: string, key: KeyReader)
    requires Count(s, k, key) == 0
    ensures forall e :: e in s ==> key(e.player) != k
    decreases |s|
  {
    if s != [] {
      var init := s[..|s| - 1];
      CountZero(init, k, key);
      assert s == init + [s[|s| - 1]];
    }
  }

  /** The loop's running count and the per-position selection agree: both
      count the entries of `s` with key `k`. */
  lemma {:induction false} CountIsWithKeyLength(s: seq<Entry>, k: string, key: KeyReader)
    ensures Count(s, k, key) == |WithKey(s, k, key)|
    decreases |s|
  {
    if s != [] {
      var init, last := s[..|s| - 1], s[|s| - 1];
      assert s == init + [last];
      CountIsWithKeyLength(init, k, key);
      WithKeyAppend(init, [last], k, key);
      assert [last][1..] == [];
    }
  }

  /** Reordering a list does not change how many entries of a position it
      holds. */
  lemma {:induction false} WithKeyLengthPermutation(a: seq<Entry>, b: seq<Entry>, k: string, key: KeyReader)
    requires multiset(a) == multiset(b)
    ensures |WithKey(a, k, key)| == |WithKey(b, k, key)|
    decreases |a|
  {
    if a == [] {
      assert |b| == |multiset(b)| == 0;
    } else {
      var x := a[0];
      assert x in multiset(b);
      var i :| 0 <= i < |b| && b[i] == x;
      var rest := b[..i] + b[i + 1..];
      assert b == b[..i] + ([x] + b[i + 1..]);
      assert multiset(rest) == multiset(b) - multiset{x};
      assert a == [x] + a[1..];
      assert multiset(a[1..]) == multiset(a) - multiset{x};
      WithKeyLengthPermutation(a[1..], rest, k, key);
      WithKeyAppend(b[..i], [x] + b[i + 1..], k, key);
      WithKeyAppend([x], b[i + 1..], k, key);
      WithKeyAppend(b[..i], b[i + 1..], k, key);
      WithKeyAppend([x], a[1..], k, key);
    }
  }

  /** The first `n` entries of `s`, or all of them when there are fewer. */
  function Prefix(s: seq<Entry>, n: nat): (r: seq<Entry>)
    ensures |r| == Min(n, |s|) && r <= s
  {
    s[..Min(n, |s|)]
  }

  // ---------------------------------------------------------------------------
  // The reference lineup

  /** An entry is picked when fewer entries of its position than the quota
      are ranked above it. */
  predicate Picked(above: seq<Entry>, e: Entry, key: KeyReader)
  {
    Count(above, key(e.player), key) < Quota(key(e.player))
  }

  /** The entries of `rest` that are picked, given that `above` is ranked
      above all of them. */
  function PickFrom(above: seq<Entry>, rest: seq<Entry>, key: KeyReader): seq<Entry>
    decreases |rest|
  {
    if rest == [] then []
    else (if Picked(above, rest[0], key) then [rest[0]] else []) + PickFrom(above + [rest[0]], rest[1..], key)
  }

  /** The lineup the quotas call for: every ranked entry that has fewer than
      its position's quota of same-position entries ranked above it. */
  function ReferenceLineup(ranked: seq<Entry>, key: KeyReader): seq<Entry>
  {
    PickFrom([], ranked, key)
  }

  /** Places left for position `k` once `above` has been ranked. */
  function Room(above: seq<Entry>, k: string, key: KeyReader): nat
  {
    if Count(above, k, key) < Quota(k) then Quota(k) - Count(above, k, key) else 0
  }

  lemma PrefixCons(e: Entry, s: seq<Entry>, n: nat)
    requires n > 0
    ensures Prefix([e] + s, n) == [e] + Prefix(s, n - 1)
  {
    assert ([e] + s)[..Min(n, |s| + 1)] == [e] + s[..Min(n - 1, |s|)];
  }

  /** Position by position, the picks are the first entries of that position
      in ranked order, as many as there is room for. */
  lemma {:induction false} PickFromByPosition(above: seq<Entry>, rest: seq<Entry>, k: string, key: KeyReader)
    ensures WithKey(PickFrom(above, rest, key), k, key) == Prefix(WithKey(rest, k, key), Room(above, k, key))
    decreases |rest|
  {
    if rest != [] {
      var e := rest[0];
      var t := rest[1..];
      var later := PickFrom(above + [e], t, key);
      PickFromByPosition(above + [e], t, k, key);
      CountSnoc(above, e, k, key);
      if key(e.player) == k {
        assert WithKey(rest, k, key) == [e] + WithKey(t, k, key);
        if Room(above, k, key) > 0 {
          assert PickFrom(above, rest, key) == [e] + later;
          assert WithKey([e] + later, k, key) == [e] + WithKey(later, k, key) by {
            assert ([e] + later)[1..] == later;
          }
          PrefixCons(e, WithKey(t, k, key), Room(above, k, key));
        } else {
          assert PickFrom(above, rest, key) == later;
        }
      } else {
        assert WithKey(rest, k, key) == WithKey(t, k, key);
        var p := if Picked(above, e, key) then [e] else [];
        assert PickFrom(above, rest, key) == p + later;
        WithKeyAppend(p, later, k, key);
        assert WithKey(p, k, key) == [];
      }
    }
  }

  /** Only entries of a position with a quota are picked, and the picks keep
      their ranked order. */
  lemma {:induction false} PickFromShape(above: seq<Entry>, rest: seq<Entry>, key: KeyReader)
    ensures forall e :: e in PickFrom(above, rest, key) ==> Quota(key(e.player)) > 0
    ensures SubseqOf(PickFrom(above, rest, key), rest)
    decreases |rest|
  {
    if rest != [] {
      var e := rest[0];
      var later := PickFrom(above + [e], rest[1..], key);
      PickFromShape(above + [e], rest[1..], key);
      if Picked(above, e, key) {
        assert PickFrom(above, rest, key) == [e] + later;
        assert ([e] + later)[0] == rest[0] && ([e] + later)[1..] == later;
      } else {
        assert PickFrom(above, rest, key) == later;
        assert later == [] || SubseqOf(later, rest[1..]);
      }
    }
  }

  /** When every entry has a quota position, the four positions partition it. */
  lemma {:induction false} KeyPartition(s: seq<Entry>, key: KeyReader)
    requires forall e :: e in s ==> Quota(key(e.player)) > 0
    ensures |s| == |WithKey(s, "D", key)| + |WithKey(s, "L", key)| + |WithKey(s, "C", key)| + |WithKey(s, "R", key)|
  {
    if s != [] {
      KeyPartition(s[1..], key);
      assert Quota(key(s[0].player)) > 0;
    }
  }

  /** The reference lineup: a sub-list of the ranking that holds, for each
      position, its first Quota entries in ranked order, and nothing else. */
  lemma ReferenceLineupShape(ranked: seq<Entry>, key: KeyReader)
    ensures SubseqOf(ReferenceLineup(ranked, key), ranked)
    ensures forall k :: WithKey(ReferenceLineup(ranked, key), k, key) == Prefix(WithKey(ranked, k, key), Quota(k))
    ensures forall e :: e in ReferenceLineup(ranked, key) ==> Quota(key(e.player)) > 0
  {
    PickFromShape([], ranked, key);
    forall k
      ensures WithKey(ReferenceLineup(ranked, key), k, key) == Prefix(WithKey(ranked, k, key), Quota(k))
    {
      PickFromByPosition([], ranked, k, key);
    }
  }

  /** So the reference lineup has at most five players. */
  lemma ReferenceLineupSize(ranked: seq<Entry>, key: KeyReader)
    ensures |ReferenceLineup(ranked, key)| <= MaxLineup
  {
    var l := ReferenceLineup(ranked, key);
    PickFromShape([], ranked, key);
    KeyPartition(l, key);
    PickFromByPosition([], ranked, "D", key);
    PickFromByPosition([], ranked, "L", key);
    PickFromByPosition([], ranked, "C", key);
    PickFromByPosition([], ranked, "R", key);
  }

  /** So the reference lineup takes, per position, its quota or every entry of
      that position, whichever is fewer. */
  lemma ReferenceLineupCount(ranked: seq<Entry>, key: KeyReader)
    ensures |ReferenceLineup(ranked, key)|
            == Min(2, |WithKey(ranked, "D", key)|) + Min(1, |WithKey(ranked, "L", key)|)
               + Min(1, |WithKey(ranked, "C", key)|) + Min(1, |WithKey(ranked, "R", key)|)
  {
    var l := ReferenceLineup(ranked, key);
    PickFromShape([], ranked, key);
    KeyPartition(l, key);
    PickFromByPosition([], ranked, "D", key);
    PickFromByPosition([], ranked, "L", key);
    PickFromByPosition([], ranked, "C", key);
    PickFromByPosition([], ranked, "R", key);
  }

  /** Entries of position `k` found in `s` are counted in its list of that
      position. */
  lemma WithKeyHasMembers(s: seq<Entry>, a: Entry, b: Entry, k: string, key: KeyReader)
    requires a in s && b in s && key(a.player) == k && key(b.player) == k
    ensures |WithKey(s, k, key)| >= 1
    ensures a != b ==> |WithKey(s, k, key)| >= 2
  {
    WithKeyMembers(s, k, key);
  }

  /** A position with no more candidates than its quota is taken whole. */
  lemma FewCandidatesAllTaken(ranked: seq<Entry>, e: Entry, key: KeyReader)
    requires e in ranked
    requires |WithKey(ranked, key(e.player), key)| <= Quota(key(e.player))
    ensures e in ReferenceLineup(ranked, key)
  {
    var k := key(e.player);
    var l := ReferenceLineup(ranked, key);
    PickFromByPosition([], ranked, k, key);
    WithKeyMembers(ranked, k, key);
    WithKeyMembers(l, k, key);
    assert WithKey(l, k, key) == WithKey(ranked, k, key);
  }

  // ---------------------------------------------------------------------------
  // The quota pass

  /** The lineup so far, the count of defencemen taken, and the forward
      positions filled (a HashSet in the source). */
  datatype FillState = FillState(lineup: seq<Entry>, defence: nat, forwards: set<string>)

  const Start: FillState := FillState([], 0, {})

  /** One iteration of the quota loop, before its early-exit test. */
  function Step(st: FillState, e: Entry, key: KeyReader): FillState
  {
    var k := key(e.player);
    if k == "D" && st.defence < 2 then FillState(st.lineup + [e], st.defence + 1, st.forwards)
    else if IsForward(k) && k !in st.forwards then FillState(st.lineup + [e], st.defence, st.forwards + {k})
    else st
  }

  /** The early-exit test: two defencemen and three forward positions. */
  predicate Full(st: FillState)
  {
    st.defence == 2 && |st.forwards| == 3
  }

  /** The quota loop over the ranked list, leaving as soon as it is full. */
  function Fill(ranked: seq<Entry>, st: FillState, key: KeyReader): FillState
  {
    if ranked == [] then st
    else
      var next := Step(st, ranked[0], key);
      if Full(next) then next else Fill(ranked[1..], next, key)
  }

  /** The loop only appends to the lineup it starts from, and only entries
      of the list it walks. */
  lemma {:induction false} FillAppendsRanked(ranked: seq<Entry>, st: FillState, key: KeyReader)
    ensures st.lineup <= Fill(ranked, st, key).lineup
    ensures forall e :: e in Fill(ranked, st, key).lineup ==> e in st.lineup || e in ranked
    decreases |ranked|
  {
    if ranked != [] {
      var next := Step(st, ranked[0], key);
      if !Full(next) {
        FillAppendsRanked(ranked[1..], next, key);
      }
    }
  }

  /** What the loop's counters record after it has scanned `seen`. */
  predicate Tracks(seen: seq<Entry>, st: FillState, key: KeyReader)
  {
    && st.defence == Min(2, Count(seen, "D", key))
    && st.forwards <= {"L", "C", "R"}
    && ("L" in st.forwards <==> Count(seen, "L", key) > 0)
    && ("C" in st.forwards <==> Count(seen, "C", key) > 0)
    && ("R" in st.forwards <==> Count(seen, "R", key) > 0)
    && |st.lineup| == st.defence + |st.forwards|
  }

  /** Every quota is met by the entries of `seen`. */
  predicate Saturated(seen: seq<Entry>, key: KeyReader)
  {
    && Count(seen, "D", key) >= 2
    && Count(seen, "L", key) >= 1 && Count(seen, "C", key) >= 1 && Count(seen, "R", key) >= 1
  }

  /** A loop iteration picks exactly what the reference picks. */
  lemma StepTracks(seen: seq<Entry>, st: FillState, e: Entry, key: KeyReader)
    requires Tracks(seen, st, key)
    ensures Tracks(seen + [e], Step(st, e, key), key)
    ensures Step(st, e, key).lineup == st.lineup + (if Picked(seen, e, key) then [e] else [])
  {
    CountSnoc(seen, e, "D", key);
    CountSnoc(seen, e, "L", key);
    CountSnoc(seen, e, "C", key);
    CountSnoc(seen, e, "R", key);
    var k := key(e.player);
    CountSnoc(seen, e, k, key);
    if IsForward(k) && k !in st.forwards {
      assert |st.forwards + {k}| == |st.forwards| + 1;
    }
  }

  lemma SubsetCard(a: set<string>, b: set<string>)
    requires a <= b
    ensures |a| <= |b|
  {
    assert b == a + (b - a);
    assert a * (b - a) == {};
  }

  /** A full loop state has met every quota. */
  lemma FullSaturated(seen: seq<Entry>, st: FillState, key: KeyReader)
    requires Tracks(seen, st, key) && Full(st)
    ensures Saturated(seen, key)
  {
    if "L" !in st.forwards {
      SubsetCard(st.forwards, {"C", "R"});
    }
    if "C" !in st.forwards {
      SubsetCard(st.forwards, {"L", "R"});
    }
    if "R" !in st.forwards {
      SubsetCard(st.forwards, {"L", "C"});
    }
  }

  /** Once every quota is met nothing further is picked. */
  lemma {:induction false} PickFromSaturated(above: seq<Entry>, rest: seq<Entry>, key: KeyReader)
    requires Saturated(above, key)
    ensures PickFrom(above, rest, key) == []
    decreases |rest|
  {
    if rest != [] {
      var e := rest[0];
      CountSnoc(above, e, "D", key);
      CountSnoc(above, e, "L", key);
      CountSnoc(above, e, "C", key);
      CountSnoc(above, e, "R", key);
      assert !Picked(above, e, key);
      PickFromSaturated(above + [e], rest[1..], key);
    }
  }

  /** Once every quota is met the counters stay right whatever else is seen. */
  lemma SaturatedTracks(seen: seq<Entry>, more: seq<Entry>, st: FillState, key: KeyReader)
    requires Tracks(seen, st, key) && Saturated(seen, key)
    ensures Tracks(seen + more, st, key)
  {
    CountMonotone(seen, more, "D", key);
    CountMonotone(seen, more, "L", key);
    CountMonotone(seen, more, "C", key);
    CountMonotone(seen, more, "R", key);
  }

  /** The early exit: when an iteration fills the lineup, the reference picks
      nothing further, and the counters stay right for the rest of the list. */
  lemma FillExits(seen: seq<Entry>, e: Entry, more: seq<Entry>, st: FillState, key: KeyReader)
    requires Tracks(seen, st, key) && Full(Step(st, e, key))
    ensures Step(st, e, key).lineup == st.lineup + PickFrom(seen, [e] + more, key)
    ensures Tracks(seen + ([e] + more), Step(st, e, key), key)
  {
    var next := Step(st, e, key);
    FillingStepSaturates(seen, e, st, key);
    PickFromSaturated(seen + [e], more, key);
    SaturatedTracks(seen + [e], more, next, key);
    assert ([e] + more)[0] == e && ([e] + more)[1..] == more;
    assert seen + ([e] + more) == (seen + [e]) + more;
    var picked := if Picked(seen, e, key) then [e] else [];
    assert PickFrom(seen, [e] + more, key) == picked + [];
  }

  /** The iteration that fills the lineup picks as the reference does and
      leaves every quota met. */
  lemma FillingStepSaturates(seen: seq<Entry>, e: Entry, st: FillState, key: KeyReader)
    requires Tracks(seen, st, key) && Full(Step(st, e, key))
    ensures Tracks(seen + [e], Step(st, e, key), key) && Saturated(seen + [e], key)
    ensures Step(st, e, key).lineup == st.lineup + (if Picked(seen, e, key) then [e] else [])
  {
    StepTracks(seen, st, e, key);
    FullSaturated(seen + [e], Step(st, e, key), key);
  }

  /** The quota loop, early exit included, appends the reference picks of
      what it has left to scan. */
  lemma {:induction false} FillPicks(seen: seq<Entry>, rest: seq<Entry>, st: FillState, key: KeyReader)
    requires Tracks(seen, st, key)
    ensures Fill(rest, st, key).lineup == st.lineup + PickFrom(seen, rest, key)
    decreases |rest|
  {
    if rest != [] {
      var e := rest[0];
      var next := Step(st, e, key);
      assert rest == [e] + rest[1..];
      if Full(next) {
        assert Fill(rest, st, key) == next;
        FillExits(seen, e, rest[1..], st, key);
      } else {
        assert Fill(rest, st, key) == Fill(rest[1..], next, key);
        StepTracks(seen, st, e, key);
        FillPicks(seen + [e], rest[1..], next, key);
        var picked := if Picked(seen, e, key) then [e] else [];
        var later := PickFrom(seen + [e], rest[1..], key);
        assert PickFrom(seen, rest, key) == picked + later;
        assert (st.lineup + picked) + later == st.lineup + (picked + later);
      }
    }
  }

  /** The loop's counters end up describing the whole list. */
  lemma {:induction false} FillTracks(seen: seq<Entry>, rest: seq<Entry>, st: FillState, key: KeyReader)
    requires Tracks(seen, st, key)
    ensures Tracks(seen + rest, Fill(rest, st, key), key)
    decreases |rest|
  {
    if rest == [] {
      assert seen + rest == seen;
    } else {
      var e := rest[0];
      var next := Step(st, e, key);
      assert rest == [e] + rest[1..];
      if Full(next) {
        FillExits(seen, e, rest[1..], st, key);
      } else {
        StepTracks(seen, st, e, key);
        FillTracks(seen + [e], rest[1..], next, key);
        assert seen + rest == (seen + [e]) + rest[1..];
      }
    }
  }

  // ---------------------------------------------------------------------------
  // The fallback rescan

  /** The first ranked entry whose raw position equals `pos` ignoring case
      (no trimming) and that is not yet in the lineup. */
  function FallbackCandidate(ranked: seq<Entry>, lineup: seq<Entry>, pos: string): (r: Option<Entry>)
    ensures r.Some? ==> r.value in ranked && EqualsIgnoreCase(r.value.player.position, pos)
                        && r.value !in lineup
    ensures r.None? ==> forall e :: e in ranked && EqualsIgnoreCase(e.player.position, pos) ==> e in lineup
  {
    if ranked == [] then None
    else if EqualsIgnoreCase(ranked[0].player.position, pos) && ranked[0] !in lineup then Some(ranked[0])
    else FallbackCandidate(ranked[1..], lineup, pos)
  }

  /** The forward positions the fallback revisits, in this order. */
  const FallbackOrder: seq<string> := ["L", "C", "R"]

  /** The fallback loop: stop once the lineup has five players; otherwise,
      for each forward position not yet filled, append the first candidate. */
  function Fallback(ranked: seq<Entry>, st: FillState, todo: seq<string>): (r: FillState)
    ensures st.lineup <= r.lineup
    ensures |st.lineup| >= MaxLineup ==> r == st
    ensures |st.lineup| < MaxLineup ==> |r.lineup| <= MaxLineup
    ensures forall e :: e in r.lineup ==> e in st.lineup || e in ranked
    decreases |todo|
  {
    if todo == [] || |st.lineup| >= MaxLineup then st
    else if todo[0] in st.forwards then Fallback(ranked, st, todo[1..])
    else match FallbackCandidate(ranked, st.lineup, todo[0])
      case Some(e) =>
        Fallback(ranked, FillState(st.lineup + [e], st.defence, st.forwards + {todo[0]}), todo[1..])
      case None => Fallback(ranked, st, todo[1..])
  }

  /** The fallback's match test is at least as strict as the quota pass's:
      a position equal to a forward letter ignoring case has that letter as
      its key. */
  ghost predicate FoldsForwards(key: KeyReader)
  {
    forall p: Player, pos: string {:trigger EqualsIgnoreCase(p.position, pos)} ::
      IsForward(pos) && EqualsIgnoreCase(p.position, pos) ==> key(p) == pos
  }

  /** After the quota pass has scanned the whole list without filling a
      forward position, no entry can fill it in the rescan either. */
  lemma {:induction false} FallbackAddsNothing(ranked: seq<Entry>, st: FillState, todo: seq<string>, key: KeyReader)
    requires FoldsForwards(key)
    requires Tracks(ranked, st, key)
    requires forall i :: 0 <= i < |todo| ==> IsForward(todo[i])
    ensures Fallback(ranked, st, todo) == st
    decreases |todo|
  {
    if todo != [] && |st.lineup| < MaxLineup {
      var pos := todo[0];
      if pos !in st.forwards {
        CountZero(ranked, pos, key);
        assert FallbackCandidate(ranked, st.lineup, pos).None?;
      }
      FallbackAddsNothing(ranked, st, todo[1..], key);
    }
  }

  /** The quota pass followed by the fallback rescan. */
  function QuotaLineup(ranked: seq<Entry>, key: KeyReader): (r: seq<Entry>)
    ensures forall e :: e in r ==> e in ranked
  {
    FillAppendsRanked(ranked, Start, key);
    Fallback(ranked, Fill(ranked, Start, key), FallbackOrder).lineup
  }

  /** For a position reading that folds forwards, the fallback rescan is dead
      code: the quota pass alone already yields the reference lineup, and the
      rescan leaves it unchanged. */
  lemma FallbackIsDead(ranked: seq<Entry>, key: KeyReader)
    requires FoldsForwards(key)
    ensures Fallback(ranked, Fill(ranked, Start, key), FallbackOrder) == Fill(ranked, Start, key)
    ensures QuotaLineup(ranked, key) == ReferenceLineup(ranked, key)
  {
    assert Tracks([], Start, key);
    FillPicks([], ranked, Start, key);
    FillTracks([], ranked, Start, key);
    assert [] + ranked == ranked;
    FallbackAddsNothing(ranked, Fill(ranked, Start, key), FallbackOrder, key);
  }
}
