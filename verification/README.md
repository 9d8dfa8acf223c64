# NHL defensive lineup selector, in Dafny

This project models the core of a small Java application. The application
reads a season of per-player hockey statistics from a CSV file and groups the
players into teams. Given an opposing player, it picks the defensive lineup a
team should put on the ice against them.

The model has two halves.

- **Lineup selector** (`LineupGenerator`):
  - It looks up the target player by case-insensitive name and turns their
    goals plus high-danger expected goals into a threat boost in [0, 1].
  - It drops goalies and players with fewer than 50 games.
  - It sorts the rest by a composite score, stably and best first. The score
    is a defensive term scaled by the boost, blended 0.7/0.3 with an
    offensive term.
  - It then walks the ranking and takes two defencemen and one each of left
    wing, centre and right wing.
  - A second "fallback" pass tries to fill forward positions that are still
    missing. The model proves this pass can never add anyone: the first pass
    already took every forward the fallback could find.
  - The whole selection is proved equal to a declarative reference: the best
    two `D` entries and the best `L`, `C` and `R` entry, in ranking order.
- **Loader** (`DataLoader`):
  - It gates rows on at least 138 fields and the `5on5` situation.
  - It de-duplicates by the key `team + "-" + name`, keeping the first
    occurrence.
  - It builds each player from fixed field positions: Java `(int)` casts,
    seconds converted to minutes, and an on-ice expected-goals-against rate.
  - It groups players into per-team rosters.
  - In finalizeTeams it min-max normalises takeaways and giveaways over the
    whole league into a takeaway-efficiency score. The model computes this
    with the source's int subtractions, which wrap. The score is proved to lie
    in [-0.5, 2] whenever both league-wide spreads fit in an int, which holds
    for non-negative counts. A league where a spread overflows is shown to
    leave that range; see Findings.
  - The lookups `findPlayerByName`, `getTeamNameForPlayer` and
    `getAllPlayerNames` are modelled too.

Modelling choices:

- **Numbers.** Java doubles are exact reals and Java ints are unbounded
  integers. Where int width matters it is modelled explicitly:
  - the saturating `(int)` cast, in `Loader.JavaIntCast`;
  - the wrapping subtraction in finalizeTeams (`Normalise.Wrap32`), which
    `Normalise.Rescore` and `Normalise.Finalize` use as the source does; see
    Findings.
- **Identity.** A selected player's object identity is their position in the
  roster (`Ranking.Entry`). This is how `lineup.contains(p)` can tell apart
  two equal-valued players.
- **Text.** Strings are `seq<char>`. `toUpperCase`, `equalsIgnoreCase` and
  `trim` are modelled on ASCII; Java's `trim` strips every character up to
  U+0020.
- **Parameters.** Two things the source leaves to its runtime are
  parameters:
  - the number parser (`parseSafeDouble`), as a function `num` from field
    text to real;
  - the iteration order of the team `HashMap`, as any duplicate-free listing
    `order` of its keys. The league-wide bounds are proved independent of
    that order.

## Model

| member | source | states |
|---|---|---|
| Lineup.ResolveTarget | src/nhl/LineupGenerator.java:33-46 | with no league the target is absent; otherwise it is the first player, teams in order and rosters in order, whose name equals the requested one ignoring case, and absent when none does |
| Lineup.ThreatBoost | src/nhl/LineupGenerator.java:52-56 | the boost is 0 without a target, never exceeds 1, equals 1 exactly when goals plus high-danger expected goals reach 5, and is that sum over 5 below it |
| Lineup.ThreatBoostMonotone | src/nhl/LineupGenerator.java:54-55 | a larger threat never gives a smaller boost, and a non-negative threat gives a non-negative boost |
| Lineup.LineupScore | src/nhl/LineupGenerator.java:65-74 | without a target the ranking score is the plain 0.7/0.3 blend of the defensive and offensive scores |
| Lineup.PositionKeyFoldsForwards | src/nhl/LineupGenerator.java:81-99 | the first pass's upper-cased, trimmed position equals a forward code whenever the fallback's case-insensitive test matches that code |
| Lineup.SelectLineup | src/nhl/LineupGenerator.java:58-106 | the filtered, sorted, two-pass selection equals the reference lineup (the best two `D` and the best `L`, `C`, `R`); at most 5 entries, all eligible roster members in ranking order, no roster slot twice, and per position exactly the top of that position's ranking up to its quota |
| Lineup.BestDefensiveLineup | src/nhl/LineupGenerator.java:32-115 | at most 5 players, each from the team's roster, none a goalie, each with at least 50 games; the lineup is the selection under the score weighted by the resolved target's threat |
| Lineup.BestDefensiveLineupWithoutLeague | src/nhl/LineupGenerator.java:19-21 | the two-argument overload selects with no target, so with a zero threat boost |
| Lineup.LineupSize | src/nhl/LineupGenerator.java:76-106 | the lineup has min(2, eligible `D`) + min(1, eligible `L`) + min(1, eligible `C`) + min(1, eligible `R`) players |
| Lineup.AvailableCounts | src/nhl/LineupGenerator.java:61-62 | one eligible player of a position makes it available, two distinct ones make two available |
| Lineup.FullStrengthLineup | test/nhl/LineupGeneratorTest.java:33-49 | a roster with two eligible defencemen and an eligible player at each forward position yields a full lineup of 5 |
| Lineup.NoEligibleNoLineup | test/nhl/LineupGeneratorTest.java:17-31 | a roster of goalies and players under 50 games yields an empty lineup |
| Lineup.ThreePositions | src/nhl/LineupGenerator.java:81-86 | in a three-entry list keyed `C`, `D`, `D`, the `C` entry and both `D` entries are found and no `L` or `R` entry is |
| Lineup.PlainKey | src/nhl/LineupGenerator.java:81 | a position already upper-case and untrimmed (`C`, `D`) is its own key |
| Lineup.PlainSkater | src/nhl/LineupGenerator.java:62 | a `C` or `D` player is not a goalie |
| Lineup.PartialRosterAvailability | test/nhl/LineupGeneratorTest.java:51-59 | an eligible centre and two eligible defencemen make one `C`, two `D` and no wingers available |
| Lineup.PartialRosterLineup | test/nhl/LineupGeneratorTest.java:51-59 | for that roster, under any score, the lineup has exactly 3 players and includes the centre; the fallback finds no wingers |
| Scoring.EffectiveMinutes | src/nhl/LineupGenerator.java:129 | the divisor used for the per-60 rate is always positive |
| Scoring.CompositeScore | src/nhl/LineupGenerator.java:128-154 | with no boost the score is the defensive score and the offensive score blended by the two weights; the boost's effect is stated by CompositeAffineInBoost |
| Scoring.XgaPer60Rate | src/nhl/LineupGenerator.java:129-130 | with positive ice time the rate times the ice time is 60 times the expected goals against; without it the divisor is one minute |
| Scoring.CompositeIgnoresTarget | src/nhl/LineupGenerator.java:128-154 | the composite score does not depend on the target argument |
| Scoring.CompositeAffineInBoost | src/nhl/LineupGenerator.java:142-154 | the score is the unboosted score plus 0.25 × boost × weighted defensive score |
| Scoring.CompositeMonotoneInBoost | src/nhl/LineupGenerator.java:142-154 | with a positive defensive weight, a larger boost raises the score of a player with a positive defensive score, lowers it for a negative one, and leaves it unchanged at zero |
| Scoring.CompositeScoreExample | test/nhl/LineupGeneratorTest.java:61-75 | the test's player scores exactly 3.689 unboosted and more with a boost of 1 |
| Ranking.Tag | src/nhl/LineupGenerator.java:58 | the copied roster pairs each player with their roster position |
| Ranking.FilterEligible | src/nhl/LineupGenerator.java:61-62 | an entry survives exactly when it was in the list and is neither a goalie (case-insensitive `G`) nor under 50 games |
| Ranking.EligibleEntries | src/nhl/LineupGenerator.java:58-62 | the entries left after the filter are exactly the eligible players at their own roster positions |
| Ranking.FilterIsSubseq | src/nhl/LineupGenerator.java:62 | `removeIf` keeps survivors in their original order |
| Ranking.BeforeAsymmetric | src/nhl/LineupGenerator.java:70-74 | the ranking order is irreflexive and asymmetric |
| Ranking.Insert | src/nhl/LineupGenerator.java:70-74 | insertion adds exactly the new entry |
| Ranking.RankByScore | src/nhl/LineupGenerator.java:70-74 | sorting permutes its input |
| Ranking.InsertRanked | src/nhl/LineupGenerator.java:70-74 | inserting an entry that precedes every other in roster order into a ranked list keeps it ranked |
| Ranking.RankByScoreRanked | src/nhl/LineupGenerator.java:70-74 | the stable sort of a roster-ordered list is ranked: score descending, ties in roster order |
| Ranking.RankedUnique | src/nhl/LineupGenerator.java:70-74 | two ranked permutations of the same entries are equal, so the sort's result is determined |
| Ranking.RankedEligible | src/nhl/LineupGenerator.java:58-74 | the sorted list is a ranked permutation of the eligible roster entries |
| Ranking.SubseqRanked | src/nhl/LineupGenerator.java:80-92 | a selection made in walk order stays in ranking order |
| Ranking.RankedHasDistinctSlots | src/nhl/LineupGenerator.java:80-92 | a ranked list of roster entries never names one roster slot twice |
| QuotaPass.WithKeyMembers | src/nhl/LineupGenerator.java:81-83 | the entries of a given position are exactly the members with that key |
| QuotaPass.WithKeyAppend | src/nhl/LineupGenerator.java:80 | selecting one position distributes over concatenation |
| QuotaPass.WithKeyLengthPermutation | src/nhl/LineupGenerator.java:70-74 | reordering entries does not change how many hold a position |
| QuotaPass.CountZero | src/nhl/LineupGenerator.java:86-88 | a position counted zero times has no entry |
| QuotaPass.CountIsWithKeyLength | src/nhl/LineupGenerator.java:83-88 | the loop's running count of a position equals the number of entries with that key |
| QuotaPass.PickFromByPosition | src/nhl/LineupGenerator.java:83-88 | per position, the pass takes the next entries of that position up to the room its quota leaves |
| QuotaPass.ReferenceLineupShape | src/nhl/LineupGenerator.java:79-92 | the reference lineup is a subsequence of the ranking, holds per position the top entries up to the quota (2 for `D`, 1 for each forward), and nothing else |
| QuotaPass.ReferenceLineupSize | src/nhl/LineupGenerator.java:79-92 | the reference lineup has at most 5 entries |
| QuotaPass.ReferenceLineupCount | src/nhl/LineupGenerator.java:79-92 | its size is min(2, #D) + min(1, #L) + min(1, #C) + min(1, #R) |
| QuotaPass.FewCandidatesAllTaken | src/nhl/LineupGenerator.java:83-88 | an entry whose position has no more candidates than its quota is always selected |
| QuotaPass.StepTracks | src/nhl/LineupGenerator.java:83-89 | one step of the pass keeps the defenceman count and forward set equal to the counts of what it has taken, and appends the entry exactly when its position still has room |
| QuotaPass.FullSaturated | src/nhl/LineupGenerator.java:91 | once two defencemen and three forward positions are taken, every quota is used up |
| QuotaPass.FillingStepSaturates | src/nhl/LineupGenerator.java:83-91 | the iteration that fills the lineup picks what the reference picks and leaves every quota met |
| QuotaPass.PickFromSaturated | src/nhl/LineupGenerator.java:91 | with every quota used up nothing more would be taken, so the early `break` loses nothing |
| QuotaPass.FillPicks | src/nhl/LineupGenerator.java:80-92 | the loop with its early exit builds exactly the reference selection |
| QuotaPass.FillTracks | src/nhl/LineupGenerator.java:80-92 | after the loop, the counters describe what was taken from the whole ranking |
| QuotaPass.FillAppendsRanked | src/nhl/LineupGenerator.java:80-92 | the quota loop only appends to the lineup it starts from, and every entry it adds comes from the list it walks |
| QuotaPass.Fallback | src/nhl/LineupGenerator.java:94-106 | the rescan only appends ranked entries; with five or more players it changes nothing, and from fewer than five it never grows the lineup past five |
| QuotaPass.QuotaLineup | src/nhl/LineupGenerator.java:76-106 | both passes select only entries of the ranking; FallbackIsDead equates them with the reference lineup |
| QuotaPass.FallbackCandidate | src/nhl/LineupGenerator.java:98-104 | the fallback's search finds a ranked player of the position not yet in the lineup, or reports that none exists |
| QuotaPass.FallbackAddsNothing | src/nhl/LineupGenerator.java:94-106 | after the first pass every missing forward position has no candidate, so the fallback changes nothing |
| QuotaPass.FallbackIsDead | src/nhl/LineupGenerator.java:76-106 | both passes together produce exactly the reference lineup |
| Lookup.FirstMatchIndex | src/nhl/DataLoader.java:142-146 | the scan stops at the first player whose name equals the query ignoring case, past the end when none does |
| Lookup.HasMatchIffFound | src/nhl/DataLoader.java:142-146 | a roster has a matching name exactly when the scan stops inside it |
| Lookup.FirstMatchAppend | src/nhl/DataLoader.java:141-147 | scanning two rosters in turn is scanning the first, then the second only if the first had no match |
| Lookup.FindPlayerByName | src/nhl/DataLoader.java:140-149 | the result is the first match over all players, teams in order, or null |
| Lookup.NotFoundIffNoTeamMatches | src/nhl/DataLoader.java:140-149 | null is returned exactly when no team's roster has a matching name |
| Lookup.FirstTeamIndex | src/nhl/DataLoader.java:159-165 | the first team whose roster holds a match, no earlier team holding one |
| Lookup.GetTeamNameForPlayer | src/nhl/DataLoader.java:158-167 | the name of the first team holding a match, or "Unknown Team" |
| Lookup.TeamNameHoldsFoundPlayer | src/nhl/DataLoader.java:140-167 | when a player is found, the team name returned is that of a team whose roster holds the player found |
| Lookup.UnknownTeamIffNotFound | src/nhl/DataLoader.java:140-167 | when no team is itself called "Unknown Team", that answer means exactly that the player is not found |
| Lookup.UnknownTeamNameIsAmbiguous | src/nhl/DataLoader.java:166 | a team really called "Unknown Team" makes the sentinel ambiguous |
| Lookup.GetAllPlayerNames | src/nhl/DataLoader.java:175-183 | one name per player, teams in order and rosters in order |
| League.AllPlayersMembership | src/nhl/DataLoader.java:141-142 | a player is in the league-wide scan exactly when some roster holds them |
| Text.LeadingPadding | src/nhl/DataLoader.java:34-36 | the count of leading characters at or below U+0020, stopping at the first other character |
| Text.UnpaddedEnd | src/nhl/DataLoader.java:34-36 | the end of the text once trailing characters at or below U+0020 are dropped |
| Text.TrimShape | src/nhl/DataLoader.java:34-36 | `trim` cuts only padding from either end and leaves text that neither starts nor ends with padding |
| Text.TrimUnpadded | src/nhl/LineupGenerator.java:81 | text with no padding at either end is its own trim |
| Text.TrimIdempotent | src/nhl/DataLoader.java:34-36 | trimming twice is trimming once |
| Text.Trim | src/nhl/DataLoader.java:34-36 | the trimmed text is no longer than the original and neither starts nor ends with a character at or below U+0020 |
| Text.Upper | src/nhl/LineupGenerator.java:81 | upper-casing keeps the length and maps each character |
| Loader.JavaIntCast | src/nhl/DataLoader.java:51-68 | the `(int)` cast rounds toward zero, landing within 1 of the value, and saturates at the int bounds |
| Loader.CastExamples | src/nhl/DataLoader.java:51-68 | 2.9 and -2.9 cast to 2 and -2; ±1e10 cast to the int extremes |
| Loader.OnIceRate | src/nhl/DataLoader.java:42-44 | with positive ice time, the rate times the minutes is the on-ice expected goals against; otherwise 0 |
| Loader.BuildPlayer | src/nhl/DataLoader.java:34-69 | the player carries the trimmed name and position from fields 2 and 4; all eight counts (hits, takeaways, goals, points, blocked shots, giveaways, rebound goals, games played) are in the int range; the efficiency starts at 0 |
| Loader.ReadRow | src/nhl/DataLoader.java:29-44 | a row yields a player exactly when it has at least 138 fields and its trimmed field 5 is `5on5`; the player's team and name are trimmed fields 3 and 2 |
| Loader.LoadStep | src/nhl/DataLoader.java:37-71 | a skipped or already-keyed row changes nothing; otherwise the key is recorded and the player is appended to their team's roster, created if absent, leaving other teams alone |
| Loader.Load | src/nhl/DataLoader.java:28-76 | every team the read loop creates has a non-empty roster; LoadMatchesReference equates it with the kept-row reference |
| Loader.SeenKeysMembers | src/nhl/DataLoader.java:37-40 | the recorded keys are exactly those of the accepted rows |
| Loader.KeptPrefix | src/nhl/DataLoader.java:39-40 | whether a row is kept depends only on the rows before it |
| Loader.LoadMatchesReference | src/nhl/DataLoader.java:28-76 | the read loop records the keys of all accepted rows; a team exists exactly when it has a kept row, and its roster lists the players of its kept rows in file order |
| Loader.RosterFromMembers | src/nhl/DataLoader.java:39-71 | a player is on a team's roster exactly when a kept row of that team describes them |
| Loader.FirstOccurrenceKept | src/nhl/DataLoader.java:39-40 | the first accepted row of every key is kept |
| Loader.KeptKeysDistinct | src/nhl/DataLoader.java:39-40 | no two kept rows share a key |
| Loader.NoAcceptedRowsNoTeams | src/nhl/DataLoader.java:30-31 | with no accepted row no team is created |
| Loader.PlayerKeyParts | src/nhl/DataLoader.java:37 | the key is the team, a dash, then the name |
| Loader.PlayerKeyInjective | src/nhl/DataLoader.java:37 | if team names hold no dash, equal keys mean equal team and name |
| Loader.KeptIffFirstOfPair | src/nhl/DataLoader.java:37-40 | if team names hold no dash, a row is kept exactly when it is accepted and no earlier accepted row has the same team and name |
| Loader.KeyCollisionDropsTeam | src/nhl/DataLoader.java:37-40 | player "C" of team "A-B" and player "B-C" of team "A" share a key, so the second is dropped and team "A" never appears |
| Loader.CollidingRowDropped | src/nhl/DataLoader.java:39 | a row whose key was already recorded leaves the state unchanged |
| Loader.DuplicateRowSkipped | test/nhl/DataLoaderTest.java:62-71 | the same row twice yields a roster of one |
| Loader.LoadTeamsFromCsv | src/nhl/DataLoader.java:20-83 | no lines gives no teams; otherwise the header is skipped, one team per team name with a kept row, names distinct, rosters as the reference rescored with the league bounds, every efficiency in [-0.5, 2] when both league-wide spreads fit in an int |
| Loader.NothingAcceptedNothingLoaded | test/nhl/DataLoaderTest.java:43-59 | a file whose data rows all fail the gate loads no team |
| Normalise.Highest | src/nhl/DataLoader.java:93-104 | the running maximum from Integer.MIN_VALUE bounds every value and is one of them, or MIN_VALUE for no values |
| Normalise.Lowest | src/nhl/DataLoader.java:93-104 | the running minimum from Integer.MAX_VALUE, symmetrically |
| Normalise.ExtremesBySet | src/nhl/DataLoader.java:98-105 | the extremes depend only on which values occur |
| Normalise.StatBoundsCover | src/nhl/DataLoader.java:98-105 | every player scanned lies within the league bounds |
| Normalise.StatBounds | src/nhl/DataLoader.java:93-105 | with no players the bounds stay at the int extremes they start from (minimum MAX_VALUE, maximum MIN_VALUE); with players each minimum is at most its maximum |
| Normalise.FlattenMembers | src/nhl/DataLoader.java:98-99 | a player is scanned exactly when some listed roster holds them |
| Normalise.BoundsIgnoreOrder | src/nhl/DataLoader.java:98-105 | the league bounds are the same for every iteration order of the team map |
| Normalise.Normalised | src/nhl/DataLoader.java:109-112 | a single-valued range normalises to 0; otherwise the result times the range is the offset from the minimum, and a value within the bounds lands in [0, 1] |
| Normalise.Efficiency | src/nhl/DataLoader.java:114 | for a player within the bounds the efficiency lies in [-0.5, 2] |
| Normalise.EfficiencyExtremes | src/nhl/DataLoader.java:109-114 | most takeaways with fewest giveaways scores 2; the reverse scores -0.5 |
| Normalise.Rescore | src/nhl/DataLoader.java:107-117 | each player keeps their place and gets the efficiency computed by the source's wrapping int arithmetic; when both spreads fit in an int, every player within the bounds scores in [-0.5, 2] |
| Normalise.RescoredInRange | src/nhl/DataLoader.java:107-117 | when both league-wide spreads fit in an int, every rescored player of the map has an efficiency in [-0.5, 2] |
| Normalise.ListedTeams | src/nhl/DataLoader.java:126-129 | one team per listed key, in listed order, holding its rescored roster |
| Normalise.ListedTeamsShape | src/nhl/DataLoader.java:92-131 | the teams name every key of the map and nothing else; when both spreads fit in an int they carry only in-range scores |
| Normalise.Finalize | src/nhl/DataLoader.java:92-131 | as many teams as map keys, each key named exactly once, each roster rescored by the wrapping arithmetic with the league-wide bounds; every efficiency in [-0.5, 2] when both spreads fit in an int |
| Normalise.Wrap32 | src/nhl/DataLoader.java:109-112 | int subtraction wraps into the int range, agreeing with the exact difference modulo 2^32 |
| Normalise.NormalisedAsWrittenAgrees | src/nhl/DataLoader.java:109-112 | while the spread fits in an int, the wrapping normalisation equals the exact one and its zero test means a single-valued range |
| Normalise.OverflowLeagueBounds | src/nhl/DataLoader.java:93-105 | the bounds of the three-player overflow league are the int extremes for takeaways and 0 for giveaways |
| Normalise.OverflowBreaksEfficiencyRange | src/nhl/DataLoader.java:109-114 | on that league the source's wrapping arithmetic gives a player within the bounds an efficiency below -0.5, where the exact formula stays in [-0.5, 2] |
| Normalise.EfficiencyAsWrittenAgrees | src/nhl/DataLoader.java:109-114 | for a player within bounds whose spreads fit in an int, the source's efficiency equals the exact one and lies in [-0.5, 2] |
| Normalise.NonNegativeCountsFit | src/nhl/DataLoader.java:93-112 | when every takeaway and giveaway count is a non-negative int, neither league-wide spread overflows |
| Normalise.FinalizeCanLeaveRange | src/nhl/DataLoader.java:92-117 | finalizeTeams on a one-team map holding the overflow league has a spread that does not fit, and scores the third player below -0.5 |

## Left out

- Reading the file, splitting lines at commas, and every `System.out` and `System.err` message are left out. This includes the debug line of the score and the top-5 efficiency listing in finalizeTeams. The loader starts from the list of already-split rows. A missing or unreadable file behaves like an empty one, which the model covers as the empty list of rows.
- parseSafeDouble is the parameter `num`. Java's double parsing and IEEE rounding are not modelled, and neither are NaN and infinities. Scores, rates and normalised values are exact reals.
- Normalise.RescoredInRange: proves the [-0.5, 2] range only when both league-wide spreads fit in an int, because the source's int subtractions wrap otherwise (see Findings and Normalise.FinalizeCanLeaveRange).
- Normalise.ListedTeamsShape: its in-range clause holds only when both spreads fit in an int, for the same reason.
- Normalise.Finalize: computes the scores with the source's wrapping arithmetic, so its in-range clause is conditional on both spreads fitting in an int.
- Loader.LoadTeamsFromCsv: its in-range clause is conditional on both spreads fitting in an int, as for Normalise.Finalize.
- Loader.JavaIntCast: has no NaN case, because reals have none; Java casts NaN to 0.
- The `catch (Exception e)` around a row's parse is not modelled. With at least 138 fields no statement in it can throw: parseSafeDouble catches everything itself.
- Player fields that no modelled operation reads are not kept: constructor arguments 10, 11, 13, 14, 16, 17, 18 and 19 (CSV fields 122, 70, 69, 71, 8, 79, 43, 44). `src/nhl/Player.java` as shipped is an older seven-argument class that the rest of the code does not compile against; the model follows the 22-argument constructor that DataLoader and the tests call.
- Case mapping and `trim` are modelled for ASCII only: `toUpperCase` and `equalsIgnoreCase` map `a`..`z` to `A`..`Z` and leave every other character alone. Non-ASCII case mappings, including ones that change length, are left out.
- Null arguments are modelled only for the team list, as `Option`. A null query name is left out: `equalsIgnoreCase(null)` is false, so it behaves like a name that matches nobody (findPlayerByName returns null, getTeamNameForPlayer returns "Unknown Team", and the lineup gets no target). A null player name, which getAllPlayerNames would list, and null teams, rosters and positions, on which the code would throw, are left out too.
- The HashMap's iteration order is a parameter of Normalise.Finalize and Loader.LoadTeamsFromCsv: any duplicate-free listing of the keys.
- Main, RinkPanel, ShotDataLoader and ShotData are outside the core: the command-line driver, the Swing rink view and the shot data. Team is the datatype `League.Team`.
- The concurrency and mutation aspects are out of scope. In Java, finalizeTeams writes the score into shared Player objects; the model returns new rosters instead, which is the same value seen by every later reader.

## Findings

| source | as written | input that shows it | evidently intended | confidence | as-written member | corrected member |
|---|---|---|---|---|---|---|
| src/nhl/DataLoader.java:109-112 | `maxTakeaways - minTakeaways` and `p.getTakeaways() - minTakeaways` are int subtractions, so they wrap before the conversion to double (same for giveaways) | three accepted rows whose takeaway fields read -1e10, 1e10 and -1: the saturating cast makes them -2^31, 2^31-1 and -1, the spread wraps to -1, and the third player's normalised takeaways become -(2^31-1), an efficiency near -2^32 instead of a value in [-0.5, 2] | normalise with the exact differences, so a value within the bounds lands in [0, 1] and the efficiency in [-0.5, 2] | not executed; the wrap is certain for such inputs, but real season data has non-negative counts far below 2^31 | Normalise.OverflowBreaksEfficiencyRange | Normalise.Normalised |
