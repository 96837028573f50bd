/**
 The data the pairing step works on: rows of the standings view, the
 `(player_id, name)` rows the pairing queries select from it, and the
 `(id1, name1, id2, name2)` pairings handed back to the caller.
 */
module Tournament {
  import opened Sequences

  /** One row of the standings view: a registered player with their record. */
  datatype Standing = Standing(id: int, name: string, wins: nat, matches: nat)

  /** A `(player_id, name)` row as returned by the pairing queries. */
  datatype Row = Row(id: int, name: string)

  /** One pairing of the round, the 4-tuple `(id1, name1, id2, name2)`. */
  datatype Pairing = Pairing(id1: int, name1: string, id2: int, name2: string) {
    /** The first player's `(id, name)`. */
    function First(): Row { Row(id1, name1) }
    /** The second player's `(id, name)`. */
    function Second(): Row { Row(id2, name2) }
  }

  /** Why the pairing step can fail: unpacking `zip(*result)` into `ids, names`
      when the query returned no rows. */
  datatype PairingError = UnpackEmpty

  datatype Result<T> = Success(value: T) | Failure(error: PairingError)

  function RowOf(s: Standing): Row { Row(s.id, s.name) }
  function RowId(r: Row): int { r.id }
  function RowName(r: Row): string { r.name }

  /** `SELECT player_id, name`: the projection of standings rows onto rows,
      one row per player, in the same order. */
  function Project(standings: seq<Standing>): (r: seq<Row>)
    ensures |r| == |standings|
    ensures forall i :: 0 <= i < |r| ==> r[i].id == standings[i].id && r[i].name == standings[i].name
  {
    Map(RowOf, standings)
  }

  /** The pairing made of two rows, first row in the first slot. */
  function PairOf(a: Row, b: Row): Pairing
  {
    Pairing(a.id, a.name, b.id, b.name)
  }

  /** All occupied slots of a list of pairings, in order: pair 0's first and
      second player, then pair 1's, and so on. */
  function Slots(pairs: seq<Pairing>): (r: seq<Row>)
    ensures |r| == 2 * |pairs|
  {
    if |pairs| == 0 then [] else [pairs[0].First(), pairs[0].Second()] + Slots(pairs[1..])
  }

  /** How many slots of the pairings hold player `id`. */
  function SlotCount(pairs: seq<Pairing>, id: int): nat
  {
    if |pairs| == 0 then 0
    else (if pairs[0].id1 == id then 1 else 0) + (if pairs[0].id2 == id then 1 else 0) + SlotCount(pairs[1..], id)
  }

  /** Counting slots pair by pair agrees with counting `id` among the ids of
      all slots read in order. */
  lemma {:induction false} SlotCountIds(pairs: seq<Pairing>, id: int)
    ensures SlotCount(pairs, id) == multiset(Map(RowId, Slots(pairs)))[id]
    decreases |pairs|
  {
    if |pairs| > 0 {
      SlotCountIds(pairs[1..], id);
      var p := pairs[0];
      var rest := Map(RowId, Slots(pairs[1..]));
      assert Slots(pairs) == [p.First(), p.Second()] + Slots(pairs[1..]);
      MapConcat(RowId, [p.First(), p.Second()], Slots(pairs[1..]));
      assert Map(RowId, Slots(pairs)) == [p.id1, p.id2] + rest;
      assert multiset(Map(RowId, Slots(pairs))) == multiset{p.id1, p.id2} + multiset(rest);
    }
  }

  /** Player ids are unique across the standings (the database assigns them). */
  predicate DistinctIds(standings: seq<Standing>)
  {
    Distinct(Map(RowId, Project(standings)))
  }

  /** Some standings row belongs to player `id`. */
  predicate HasPlayer(standings: seq<Standing>, id: int)
  {
    exists i :: 0 <= i < |standings| && standings[i].id == id
  }

  /** The win count recorded for player `id` (the first row with that id). */
  function WinsOf(standings: seq<Standing>, id: int): nat
    requires HasPlayer(standings, id)
  {
    if standings[0].id == id then standings[0].wins
    else
      assert HasPlayer(standings[1..], id) by {
        var i :| 0 <= i < |standings| && standings[i].id == id;
        assert standings[1..][i - 1].id == id;
      }
      WinsOf(standings[1..], id)
  }

  /** With unique ids, looking a player up by id finds that player's own row. */
  lemma {:induction false} WinsOfRow(standings: seq<Standing>, i: nat)
    requires DistinctIds(standings)
    requires i < |standings|
    ensures HasPlayer(standings, standings[i].id)
    ensures WinsOf(standings, standings[i].id) == standings[i].wins
    decreases i
  {
    if i > 0 {
      var rest := standings[1..];
      assert rest[i - 1] == standings[i];
      assert DistinctIds(rest) by {
        forall a, b | 0 <= a < b < |rest| ensures rest[a].id != rest[b].id {
          assert rest[a] == standings[a + 1] && rest[b] == standings[b + 1];
        }
      }
      WinsOfRow(rest, i - 1);
    }
  }

  /** When the slots of some pairings hold exactly the rows of players with
      unique ids, each player's id fills exactly one slot and no other id
      fills any. */
  lemma CoveringSlotCount(pairs: seq<Pairing>, standings: seq<Standing>, id: int)
    requires DistinctIds(standings)
    requires multiset(Slots(pairs)) == multiset(Project(standings))
    ensures SlotCount(pairs, id) == if HasPlayer(standings, id) then 1 else 0
  {
    var ids := Map(RowId, Project(standings));
    SlotCountIds(pairs, id);
    MapMultiset(RowId, Slots(pairs), Project(standings));
    DistinctOccursOnce(ids, id);
    HasPlayerIds(standings, id);
  }

  /** A player is present exactly when their id is among the projected ids. */
  lemma HasPlayerIds(standings: seq<Standing>, id: int)
    ensures HasPlayer(standings, id) <==> id in Map(RowId, Project(standings))
  {
  }

  /** Looking up a player of any reordering of standings with unique ids finds
      that player's own win count. */
  lemma LookupInReordering(standings: seq<Standing>, order: seq<Standing>)
    requires DistinctIds(standings)
    requires multiset(order) == multiset(standings)
    ensures forall j :: 0 <= j < |order| ==>
      HasPlayer(standings, order[j].id) && WinsOf(standings, order[j].id) == order[j].wins
  {
    forall j | 0 <= j < |order|
      ensures HasPlayer(standings, order[j].id) && WinsOf(standings, order[j].id) == order[j].wins
    {
      assert order[j] in multiset(standings);
      var i :| 0 <= i < |standings| && standings[i] == order[j];
      WinsOfRow(standings, i);
    }
  }
}
