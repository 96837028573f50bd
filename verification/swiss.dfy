/**
 `swissPairings`: the choice between the first-round shuffle and the
 later-round order by wins, followed by the adjacent zip-pairing.

 The two orders are produced by the database (`ORDER BY random()` and
 `ORDER BY wins`); the model receives them as parameters, `shuffled` and
 `ranked`, and states only what those queries guarantee: the shuffle is some
 reordering of the standings, the ranking a reordering sorted ascending by
 wins. Only the order belonging to the branch actually taken is constrained.
 */
module Swiss {
  import opened Sequences
  import opened Tournament
  import opened ZipPairing

  /** `SELECT count(*) FROM v_standings WHERE matches <> 0`. */
  function CountPlayed(standings: seq<Standing>): (c: nat)
    ensures c <= |standings|
  {
    if |standings| == 0 then 0
    else (if standings[0].matches != 0 then 1 else 0) + CountPlayed(standings[1..])
  }

  /** The count query returns zero exactly when no player has played a match. */
  lemma {:induction false} CountPlayedZero(standings: seq<Standing>)
    ensures CountPlayed(standings) == 0 <==> forall i :: 0 <= i < |standings| ==> standings[i].matches == 0
    decreases |standings|
  {
    if |standings| > 0 {
      CountPlayedZero(standings[1..]);
      assert forall i :: 1 <= i < |standings| ==> standings[i] == standings[1..][i - 1];
    }
  }

  /** The branch at the count query: no player has a match on record yet. */
  predicate IsFirstRound(standings: seq<Standing>)
  {
    CountPlayed(standings) == 0
  }

  /** The other branch: some player already has a match on record. */
  predicate IsLaterRound(standings: seq<Standing>)
  {
    CountPlayed(standings) != 0
  }

  /** Ascending by wins, as `ORDER BY wins` returns rows. */
  predicate SortedByWins(rows: seq<Standing>)
  {
    forall i, j :: 0 <= i < j < |rows| ==> rows[i].wins <= rows[j].wins
  }

  /** What `ORDER BY random()` guarantees: the same rows, in some order. */
  predicate IsShuffleOf(shuffled: seq<Standing>, standings: seq<Standing>)
  {
    multiset(shuffled) == multiset(standings)
  }

  /** What `ORDER BY wins` guarantees: the same rows, ascending by wins. */
  predicate IsRankingOf(ranked: seq<Standing>, standings: seq<Standing>)
  {
    multiset(ranked) == multiset(standings) && SortedByWins(ranked)
  }

  /** What the caller's database must have delivered for the branch taken. */
  predicate QueriesAgree(standings: seq<Standing>, shuffled: seq<Standing>, ranked: seq<Standing>)
  {
    && (IsFirstRound(standings) ==> IsShuffleOf(shuffled, standings))
    && (IsLaterRound(standings) ==> IsRankingOf(ranked, standings))
  }

  /** What the standings view promises about a record: a player cannot have
      won more matches than they have played. */
  predicate WinsAtMostMatches(standings: seq<Standing>)
  {
    forall i :: 0 <= i < |standings| ==> standings[i].wins <= standings[i].matches
  }

  /** Before the first match nobody has won anything, so every reordering of
      the standings is already sorted by wins. */
  lemma UnplayedAreSorted(standings: seq<Standing>, order: seq<Standing>)
    requires multiset(order) == multiset(standings)
    requires IsFirstRound(standings)
    requires WinsAtMostMatches(standings)
    ensures SortedByWins(order)
  {
    CountPlayedZero(standings);
    forall j | 0 <= j < |order| ensures order[j].wins == 0 {
      assert order[j] in multiset(standings);
      var i :| 0 <= i < |standings| && standings[i] == order[j];
    }
  }

  /** The row order the pairing uses: the shuffle in the first round, the
      ranking by wins afterwards. Whichever branch is taken, it is a
      reordering of the standings; after the first round it is sorted by wins,
      and in the first round too when records are consistent. */
  function RoundOrder(standings: seq<Standing>, shuffled: seq<Standing>, ranked: seq<Standing>): (order: seq<Standing>)
    requires QueriesAgree(standings, shuffled, ranked)
    ensures IsFirstRound(standings) ==> order == shuffled
    ensures IsLaterRound(standings) ==> order == ranked
    ensures multiset(order) == multiset(standings)
    ensures |order| == |standings|
    ensures IsLaterRound(standings) ==> SortedByWins(order)
    ensures WinsAtMostMatches(standings) ==> SortedByWins(order)
  {
    var order := if CountPlayed(standings) == 0 then shuffled else ranked;
    assert |multiset(order)| == |multiset(standings)|;
    assert IsFirstRound(standings) && WinsAtMostMatches(standings) ==> SortedByWins(order) by {
      if IsFirstRound(standings) && WinsAtMostMatches(standings) {
        UnplayedAreSorted(standings, order);
      }
    }
    order
  }

  /** The player who sits out a round with an odd number of players: the
      last one in the order used. */
  function SitsOut(standings: seq<Standing>, shuffled: seq<Standing>, ranked: seq<Standing>): Row
    requires QueriesAgree(standings, shuffled, ranked)
    requires |standings| % 2 == 1
  {
    RowOf(RoundOrder(standings, shuffled, ranked)[|standings| - 1])
  }

  /** `swissPairings()`. It fails only when there are no players (the
      unpacking of an empty `zip`). Otherwise it pairs neighbours in the order
      of the branch taken: the shuffle in the first round, the ranking by wins
      afterwards. With an even number of players everyone is paired exactly
      once; with an odd number the last player of the order sits out; every
      slot holds a registered player's own `(id, name)`; and pairs follow the
      win counts after the first round, and in every round when no player has
      more wins than matches. */
  function SwissPairings(standings: seq<Standing>, shuffled: seq<Standing>, ranked: seq<Standing>): (r: Result<seq<Pairing>>)
    requires QueriesAgree(standings, shuffled, ranked)
    ensures r.Failure? <==> |standings| == 0
    ensures r.Success? ==> |r.value| == |standings| / 2
    ensures r.Success? && IsFirstRound(standings) ==> r.value == AdjacentPairs(Project(shuffled))
    ensures r.Success? && IsLaterRound(standings) ==> r.value == AdjacentPairs(Project(ranked))
    ensures r.Success? ==>
      forall p :: p in r.value ==> p.First() in Project(standings) && p.Second() in Project(standings)
    ensures r.Success? && |standings| % 2 == 0 ==>
      multiset(Slots(r.value)) == multiset(Project(standings))
    ensures r.Success? && |standings| % 2 == 0 && DistinctIds(standings) ==>
      forall id :: SlotCount(r.value, id) == if HasPlayer(standings, id) then 1 else 0
    ensures r.Success? && |standings| % 2 == 1 ==>
      multiset(Slots(r.value)) + multiset{SitsOut(standings, shuffled, ranked)} == multiset(Project(standings))
    ensures r.Success? && IsLaterRound(standings) && DistinctIds(standings) ==>
      PairedByWins(standings, r.value)
    ensures r.Success? && WinsAtMostMatches(standings) && DistinctIds(standings) ==>
      PairedByWins(standings, r.value)
  {
    var order := RoundOrder(standings, shuffled, ranked);
    AdjacentRoundFacts(standings, order);
    ZipPairs(Project(order))
  }

  /** The round-level facts of the adjacent pairing of any reordering of the
      standings, gathered for `SwissPairings`. */
  lemma AdjacentRoundFacts(standings: seq<Standing>, order: seq<Standing>)
    requires multiset(order) == multiset(standings)
    requires |order| == |standings|
    ensures var pairs := AdjacentPairs(Project(order));
      && (forall p :: p in pairs ==> p.First() in Project(standings) && p.Second() in Project(standings))
      && (|standings| % 2 == 0 ==> multiset(Slots(pairs)) == multiset(Project(standings)))
      && (|standings| % 2 == 0 && DistinctIds(standings) ==>
            forall id :: SlotCount(pairs, id) == if HasPlayer(standings, id) then 1 else 0)
      && (|standings| % 2 == 1 ==>
            multiset(Slots(pairs)) + multiset{RowOf(order[|order| - 1])} == multiset(Project(standings)))
      && (SortedByWins(order) && DistinctIds(standings) ==> PairedByWins(standings, pairs))
  {
    PairsArePlayers(standings, order);
    if |standings| % 2 == 0 {
      EvenRoundCoversEveryone(standings, order);
      if DistinctIds(standings) {
        EachPlayerExactlyOnce(standings, order);
      }
    } else {
      OddRoundLeavesLastOut(standings, order);
    }
    if SortedByWins(order) && DistinctIds(standings) {
      SortedPairsByWins(standings, order);
    }
  }

  /** Paired in any reordering of an even number of players, every player is
      in the round: the slots hold exactly the players' rows. */
  lemma EvenRoundCoversEveryone(standings: seq<Standing>, order: seq<Standing>)
    requires multiset(order) == multiset(standings)
    requires |standings| % 2 == 0
    ensures multiset(Slots(AdjacentPairs(Project(order)))) == multiset(Project(standings))
  {
    assert |multiset(order)| == |multiset(standings)|;
    var rows := Project(order);
    AdjacentSlots(rows);
    assert rows[..|rows| - |rows| % 2] == rows;
    MapMultiset(RowOf, order, standings);
  }

  /** Paired in a reordering of an odd number of players, the last player of
      the order sits out and everybody else is paired. */
  lemma OddRoundLeavesLastOut(standings: seq<Standing>, order: seq<Standing>)
    requires multiset(order) == multiset(standings)
    requires |order| % 2 == 1
    ensures multiset(Slots(AdjacentPairs(Project(order)))) + multiset{RowOf(order[|order| - 1])}
      == multiset(Project(standings))
  {
    var rows := Project(order);
    AdjacentSlots(rows);
    var n := |rows|;
    assert rows == rows[..n - 1] + [rows[n - 1]];
    MapMultiset(RowOf, order, standings);
  }

  /** Paired in any reordering of an even number of players with unique ids,
      every player's id fills exactly one slot of the round, and no other id
      appears at all. */
  lemma EachPlayerExactlyOnce(standings: seq<Standing>, order: seq<Standing>)
    requires multiset(order) == multiset(standings)
    requires DistinctIds(standings)
    requires |standings| % 2 == 0
    ensures forall id :: SlotCount(AdjacentPairs(Project(order)), id) == if HasPlayer(standings, id) then 1 else 0
  {
    var pairs := AdjacentPairs(Project(order));
    EvenRoundCoversEveryone(standings, order);
    forall id ensures SlotCount(pairs, id) == if HasPlayer(standings, id) then 1 else 0 {
      CoveringSlotCount(pairs, standings, id);
    }
  }

  /** Ids and names are never separated: in any reordering of the standings,
      every slot of the adjacent pairing holds a registered player's row. */
  lemma PairsArePlayers(standings: seq<Standing>, order: seq<Standing>)
    requires multiset(order) == multiset(standings)
    ensures forall p :: p in AdjacentPairs(Project(order)) ==>
      p.First() in Project(standings) && p.Second() in Project(standings)
  {
    PairsAreInputRows(Project(order));
    MapMultiset(RowOf, order, standings);
    forall x | x in Project(order) ensures x in Project(standings) {
      assert x in multiset(Project(order));
    }
  }

  /** Pairings follow the win counts of the standings: within a pair the
      first player has no more wins than the second, and every player of an
      earlier pair has no more wins than any player of a later pair. */
  predicate PairedByWins(standings: seq<Standing>, pairs: seq<Pairing>)
  {
    && (forall k :: 0 <= k < |pairs| ==>
          HasPlayer(standings, pairs[k].id1) && HasPlayer(standings, pairs[k].id2)
          && WinsOf(standings, pairs[k].id1) <= WinsOf(standings, pairs[k].id2))
    && (forall k, l :: 0 <= k < l < |pairs| ==>
          WinsOf(standings, pairs[k].id2) <= WinsOf(standings, pairs[l].id1))
  }

  /** The adjacent pairing of a reordering of standings with unique ids that
      is sorted by wins pairs players in order of their win counts. */
  lemma SortedPairsByWins(standings: seq<Standing>, order: seq<Standing>)
    requires DistinctIds(standings)
    requires multiset(order) == multiset(standings)
    requires SortedByWins(order)
    ensures PairedByWins(standings, AdjacentPairs(Project(order)))
  {
    var pairs := AdjacentPairs(Project(order));
    LookupInReordering(standings, order);
    forall k | 0 <= k < |pairs|
      ensures HasPlayer(standings, pairs[k].id1) && HasPlayer(standings, pairs[k].id2)
      ensures WinsOf(standings, pairs[k].id1) <= WinsOf(standings, pairs[k].id2)
    {
      assert pairs[k].id1 == order[2 * k].id;
      assert pairs[k].id2 == order[2 * k + 1].id;
    }
    forall k, l | 0 <= k < l < |pairs|
      ensures WinsOf(standings, pairs[k].id2) <= WinsOf(standings, pairs[l].id1)
    {
      assert pairs[k].id2 == order[2 * k + 1].id;
      assert pairs[l].id1 == order[2 * l].id;
    }
  }
}
