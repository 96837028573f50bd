# Swiss pairings: a Dafny model

This project models the pairing step of a Swiss-system tournament tracker,
the function `swissPairings` in `vagrant/tournament/tournament.py`. The
function works in two steps.

1. It asks the standings view how many players have played a match. If none
   have, this is the first round, and the `(player_id, name)` rows come back
   in random order. Otherwise they come back ordered ascending by wins.
2. It splits the rows into an id column and a name column with
   `ids, names = zip(*result)`. The round is then
   `zip(ids[::2], names[::2], ids[1::2], names[1::2])`, so rows 0 and 1 form
   the first pair, rows 2 and 3 the second, and so on.

The model has four modules, one file each:

- `Sequences` (`sequences.dfy`) holds generic helpers: element-wise `Map`,
  and the multiset and distinct-element facts that the pairing proofs use.
- `Tournament` (`tournament.dfy`) holds the data. `Standing` is one row of
  the standings view. `Row` is one `(player_id, name)` query row. `Pairing`
  is the 4-tuple `(id1, name1, id2, name2)`. `Result` carries the only
  error, `UnpackEmpty`. The module also defines the slot view of a round
  (`Slots`, `SlotCount`) and the lookup of a player's wins by id (`WinsOf`).
- `ZipPairing` (`zip_pairing.dfy`) models lines 129-130 as Python evaluates
  them: the transposition and its unpacking error, stride slices and the
  truncating `zip`. It proves the result equal to an independent reference
  definition, `AdjacentPairs`.
- `Swiss` (`swiss.dfy`) models the count query, the first-round/later-round
  branch and the whole function. The round-level properties are part of the
  contract of `SwissPairings`. Each one is proved by a lemma that holds for the
  adjacent pairing of any reordering of the standings.

The database returns two orderings, one from `ORDER BY random()` and one
from `ORDER BY wins`. The model takes them as parameters, `shuffled` and
`ranked`. `shuffled` holds the same rows as the standings, in any order.
`ranked` holds the same rows, sorted ascending by wins. Only the ordering
used by the branch that runs is constrained. This treats the count query and
the ordering query as reads of one and the same `v_standings` (see
"## Left out").

The source's documentation says three things that frame the model:
the standings list the player in first place first (lines 57-58), the
pairing assumes an even number of players (line 93), and each player is
paired with one of equal or nearly equal wins, an adjacent player in the
standings (lines 94-96). The code behaves as follows:

- The only pairing rule is adjacent pairing in the chosen order. Nothing
  avoids rematches.
- An odd number of players is not an error. `zip` truncates, so the last
  player in the order is left unpaired.
- Zero players is an error rather than an empty round. `zip(*[])` yields
  nothing, and unpacking it into `ids, names` raises. The model returns
  `Failure(UnpackEmpty)` in this case.
- Later rounds are ordered ascending by wins (`ORDER BY wins`), so the
  player in last place comes first, unlike the standings of lines 57-58.
- "Nearly equal wins" holds in the first round too, but only because of the
  records themselves: nobody has played, and a player cannot have won more
  matches than they have played (lines 64-65). The model states this as the
  hypothesis `WinsAtMostMatches`.

## Model

| member | source | states |
|---|---|---|
| `Tournament.Project` | vagrant/tournament/tournament.py:116-122 | `SELECT player_id, name` gives one row per player, in the same order, holding that player's id and name |
| `ZipPairing.Stride` | vagrant/tournament/tournament.py:130 | `s[start::2]` holds the elements at `start`, `start + 2`, ... in order, and every element of `s` at such a position is in it |
| `ZipPairing.Zip4` | vagrant/tournament/tournament.py:130 | the four-argument `zip` is as long as its shortest argument, and element `k` is the tuple of the arguments' `k`-th elements |
| `ZipPairing.StridesSplit` | vagrant/tournament/tournament.py:130 | `s[::2]` and `s[1::2]` have `(n + 1) / 2` and `n / 2` elements. Element `i` of `s` is at position `i / 2` of the first slice when `i` is even and of the second when `i` is odd, so each element lands in exactly one slice |
| `ZipPairing.Unzip` | vagrant/tournament/tournament.py:129 | `zip(*rows)` fails exactly when there are no rows. Otherwise it gives two columns as long as the rows, and zipping them back gives the rows again |
| `ZipPairing.AdjacentPairs` | vagrant/tournament/tournament.py:93-96 | the reference pairing has `n / 2` pairs, and pair `k` is rows `2k` and `2k+1` |
| `ZipPairing.ZipPairs` | vagrant/tournament/tournament.py:129-130 | the slice-and-zip computation fails only on an empty result. Otherwise it equals the adjacent pairing of the rows |
| `ZipPairing.AdjacentSlots` | vagrant/tournament/tournament.py:129-130 | reading the pairs' slots in order gives back the rows. With an odd count, the last row is missing |
| `ZipPairing.PairsAreInputRows` | vagrant/tournament/tournament.py:129-130 | an id is never separated from its name: both slots of every pair are rows of the input |
| `Swiss.CountPlayedZero` | vagrant/tournament/tournament.py:107-111 | the count query returns 0 exactly when every player has 0 matches, both directions |
| `Swiss.CountPlayed` | vagrant/tournament/tournament.py:107-108 | the count of players with matches on record never exceeds the number of players (its zero case is `CountPlayedZero`) |
| `Swiss.UnplayedAreSorted` | vagrant/tournament/tournament.py:64-65 | before any match, when no player has more wins than matches, every reordering of the standings is sorted by wins |
| `Swiss.RoundOrder` | vagrant/tournament/tournament.py:111-124 | the order used is the shuffle when no one has played and the ranking otherwise. Either way it is a reordering of the standings. It is sorted by wins after the first round, and in every round when no player has more wins than matches |
| `Swiss.SwissPairings` | vagrant/tournament/tournament.py:90-130 | fails exactly when there are no players. Otherwise there are `n / 2` pairs. In the first round the result is the adjacent pairing of the shuffle, and afterwards of the ranking. Every slot holds a player's own `(id, name)`. With an even count, the slots are exactly the players' rows, and with unique ids each player's id fills exactly one slot and no other id appears. With an odd count, the slots plus the player who sits out are exactly the players' rows. With unique ids, pairs follow the win counts (`PairedByWins`) after the first round, and in every round when no player has more wins than matches |
| `Swiss.EvenRoundCoversEveryone` | vagrant/tournament/tournament.py:93-94 | for any reordering of an even number of players, the slots of the adjacent pairing hold exactly the players' rows, as a multiset |
| `Swiss.OddRoundLeavesLastOut` | vagrant/tournament/tournament.py:129-130 | for any reordering of an odd number of players, the slots plus the last player in the order are exactly the players' rows |
| `Swiss.EachPlayerExactlyOnce` | vagrant/tournament/tournament.py:93-94 | for any reordering of an even number of players with unique ids, every player's id fills exactly one slot, and no other id appears |
| `Swiss.PairsArePlayers` | vagrant/tournament/tournament.py:98-103 | for any reordering, every `(id, name)` slot of the adjacent pairing is the row of a registered player |
| `Swiss.SortedPairsByWins` | vagrant/tournament/tournament.py:94-96 | for a reordering sorted ascending by wins, with unique ids, the first player of a pair has no more wins than the second. Every player in an earlier pair has no more wins than any player in a later pair |

## Left out

- `connect`, `deleteMatches`, `deletePlayers`, `countPlayers`, `registerPlayer`, `playerStandings` and `reportMatch` (vagrant/tournament/tournament.py:9-88) are not modelled. They are database plumbing, and the schema and the `v_standings` view that define their effect are not part of this model.
- The connections and cursors in `swissPairings` are not modelled. The results of its three queries are parameters instead: the standings for the count query, and `shuffled` and `ranked` for the two ordering queries.
- Swiss.RoundOrder: the count query and the ordering query run on separate connections with no transaction around them (lines 105-124). The model assumes both read the same `v_standings`, so a player registered or a match reported between the two queries is not modelled.
- Swiss.RoundOrder: the first-round order may be any reordering of the standings. The random seed (`random.uniform`, `setseed`) and the distribution of `ORDER BY random()` are not modelled.
- Swiss.RoundOrder: the later-round order is assumed sorted by wins rather than computed. How the database breaks ties between equal win counts is not modelled.
- Swiss.SwissPairings: the first-round by-wins clause needs `WinsAtMostMatches`. That fact comes from the `v_standings` view, which is not part of this model, so it is a hypothesis rather than a guarantee.
- Swiss.SwissPairings: the exactly-once and by-wins clauses are stated for standings with unique player ids. The database assigns the ids, and its schema is not part of this model.
- The claim that the standings are left unchanged needs no lemma. Every operation here is a pure function of immutable values.
- The Python 2 and Python 3 return types of `zip` (a list or an iterator) are not distinguished. The model returns the sequence of pairings.
