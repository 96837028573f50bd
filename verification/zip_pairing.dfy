/**
 The last two lines of `swissPairings`: the query rows are split into an id
 column and a name column (`ids, names = zip(*result)`), and the round is
 `zip(ids[::2], names[::2], ids[1::2], names[1::2])`. Each step is modelled
 with Python's own semantics (stride slices, truncating `zip`, the unpacking
 error on no rows) and the whole is proved equal to the plain reference
 definition `AdjacentPairs`: rows 0/1, 2/3, 4/5, ... paired in order.
 */
module ZipPairing {
  import opened Sequences
  import opened Tournament

  /** Python's stride slice `s[start::2]` for a non-negative `start`: the
      elements at `start`, `start + 2`, `start + 4`, ..., in order, and every
      element of `s` at such a position. */
  function Stride<T>(s: seq<T>, start: nat): (r: seq<T>)
    ensures forall k :: 0 <= k < |r| ==> start + 2 * k < |s| && r[k] == s[start + 2 * k]
    ensures forall i :: start <= i < |s| && (i - start) % 2 == 0 ==>
      (i - start) / 2 < |r| && r[(i - start) / 2] == s[i]
  {
    if start >= |s| then []
    else seq((|s| - start + 1) / 2, k requires 0 <= k < (|s| - start + 1) / 2 => s[start + 2 * k])
  }

  /** `s[::2]` and `s[1::2]` split `s` between them: the even positions go
      to the first slice and the odd positions to the second, in order, so
      every element lands in exactly one of the two. */
  lemma StridesSplit<T>(s: seq<T>)
    ensures |Stride(s, 0)| == (|s| + 1) / 2 && |Stride(s, 1)| == |s| / 2
    ensures forall i :: 0 <= i < |s| ==>
      s[i] == if i % 2 == 0 then Stride(s, 0)[i / 2] else Stride(s, 1)[i / 2]
  {
    var evens, odds := Stride(s, 0), Stride(s, 1);
    assert |evens| == (|s| + 1) / 2;
    assert |odds| == |s| / 2;
    forall i | 0 <= i < |s|
      ensures s[i] == if i % 2 == 0 then evens[i / 2] else odds[i / 2]
    {
      if i % 2 == 0 {
        assert evens[i / 2] == s[2 * (i / 2)];
      } else {
        assert odds[i / 2] == s[1 + 2 * (i / 2)];
      }
    }
  }

  function Min(a: nat, b: nat): nat { if a <= b then a else b }

  /** Python's four-argument `zip`: tuples of the `k`-th elements, up to the
      end of the shortest argument. */
  function Zip4(a: seq<int>, b: seq<string>, c: seq<int>, d: seq<string>): (r: seq<Pairing>)
    ensures |r| <= |a| && |r| <= |b| && |r| <= |c| && |r| <= |d|
    ensures |r| == |a| || |r| == |b| || |r| == |c| || |r| == |d|
    ensures forall k :: 0 <= k < |r| ==> r[k] == Pairing(a[k], b[k], c[k], d[k])
  {
    var n := Min(Min(|a|, |b|), Min(|c|, |d|));
    seq(n, k requires 0 <= k < n => Pairing(a[k], b[k], c[k], d[k]))
  }

  /** `ids, names = zip(*rows)`: transposes the rows into an id column and a
      name column. With no rows, `zip()` yields nothing and the two-name
      unpacking fails. */
  function Unzip(rows: seq<Row>): (r: Result<(seq<int>, seq<string>)>)
    ensures r.Failure? <==> |rows| == 0
    ensures r.Success? ==>
      && |r.value.0| == |rows| && |r.value.1| == |rows|
      && forall i :: 0 <= i < |rows| ==> Row(r.value.0[i], r.value.1[i]) == rows[i]
  {
    if |rows| == 0 then Failure(UnpackEmpty)
    else Success((Map(RowId, rows), Map(RowName, rows)))
  }

  /** Reference definition of the round: rows 0 and 1 form the first pair,
      rows 2 and 3 the second, and so on; an odd last row is left over. */
  function AdjacentPairs(rows: seq<Row>): (r: seq<Pairing>)
    ensures |r| == |rows| / 2
    ensures forall k :: 0 <= k < |r| ==> r[k] == PairOf(rows[2 * k], rows[2 * k + 1])
    decreases |rows|
  {
    if |rows| < 2 then [] else [PairOf(rows[0], rows[1])] + AdjacentPairs(rows[2..])
  }

  /** Lines 129-130 of `swissPairings`, step by step as the source writes them.
      The result is exactly the adjacent pairing of the rows, and the only
      failure is the unpacking error on an empty result. */
  function ZipPairs(rows: seq<Row>): (r: Result<seq<Pairing>>)
    ensures r.Failure? <==> |rows| == 0
    ensures r.Success? ==> r.value == AdjacentPairs(rows)
  {
    match Unzip(rows)
    case Failure(e) => Failure(e)
    case Success(columns) =>
      var ids := columns.0;
      var names := columns.1;
      var pairs := Zip4(Stride(ids, 0), Stride(names, 0), Stride(ids, 1), Stride(names, 1));
      assert pairs == AdjacentPairs(rows) by {
        StridesSplit(ids);
        StridesSplit(names);
        var expected := AdjacentPairs(rows);
        assert |pairs| == |expected|;
        forall k | 0 <= k < |pairs| ensures pairs[k] == expected[k] {
          assert Row(ids[2 * k], names[2 * k]) == rows[2 * k];
          assert Row(ids[2 * k + 1], names[2 * k + 1]) == rows[2 * k + 1];
        }
      }
      Success(pairs)
  }

  /** Reading the slots of the adjacent pairing in order gives back the rows,
      minus the last one when their number is odd: with an even number of rows
      every row lands in exactly one slot, and with an odd number only the
      last row is left unpaired. */
  lemma {:induction false} AdjacentSlots(rows: seq<Row>)
    ensures Slots(AdjacentPairs(rows)) == rows[..|rows| - |rows| % 2]
    decreases |rows|
  {
    if |rows| >= 2 {
      var rest := rows[2..];
      AdjacentSlots(rest);
      var pairs := AdjacentPairs(rows);
      assert pairs == [PairOf(rows[0], rows[1])] + AdjacentPairs(rest);
      assert pairs[1..] == AdjacentPairs(rest);
      assert Slots(pairs) == [rows[0], rows[1]] + rest[..|rest| - |rest| % 2];
      assert rows[..|rows| - |rows| % 2] == [rows[0], rows[1]] + rest[..|rest| - |rest| % 2];
    }
  }

  /** A pairing never separates an id from its name: both slots of every pair
      hold a row of the input. */
  lemma PairsAreInputRows(rows: seq<Row>)
    ensures forall p :: p in AdjacentPairs(rows) ==> p.First() in rows && p.Second() in rows
  {
  }
}
