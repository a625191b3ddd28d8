/** Grouping buttons into action rows: the platform allows at most five
    components per row, and both the attachment chooser and the streaming
    links use the same `slice(i, i + 5)` loop. */
module Rows {

  const RowWidth: nat := 5

  function Min(a: nat, b: nat): nat {
    if a <= b then a else b
  }

  /** The rows the chunking loop produces: consecutive slices of five, the
      last one holding whatever is left. */
  function Chunks<T>(s: seq<T>): seq<seq<T>>
    decreases |s|
  {
    if s == [] then [] else
    var k := Min(RowWidth, |s|);
    [s[..k]] + Chunks(s[k..])
  }

  function Flatten<T>(rows: seq<seq<T>>): seq<T> {
    if rows == [] then [] else rows[0] + Flatten(rows[1..])
  }

  /** Every row holds one to five items and only the last may hold fewer
      than five. */
  ghost predicate WellShaped<T>(rows: seq<seq<T>>) {
    forall r :: 0 <= r < |rows| ==>
      1 <= |rows[r]| <= RowWidth && (r < |rows| - 1 ==> |rows[r]| == RowWidth)
  }

  function CeilDiv5(n: nat): nat {
    (n + RowWidth - 1) / RowWidth
  }

  /** The rows partition the items in order, are well shaped and there are
      ceil(n / 5) of them. */
  lemma {:induction false} ChunksPartition<T>(s: seq<T>)
    ensures Flatten(Chunks(s)) == s
    ensures WellShaped(Chunks(s))
    ensures |Chunks(s)| == CeilDiv5(|s|)
    decreases |s|
  {
    if s != [] {
      var k := Min(RowWidth, |s|);
      ChunksPartition(s[k..]);
      assert s[..k] + s[k..] == s;
      var rows := Chunks(s);
      assert rows[1..] == Chunks(s[k..]);
      forall r | 0 <= r < |rows|
        ensures 1 <= |rows[r]| <= RowWidth && (r < |rows| - 1 ==> |rows[r]| == RowWidth)
      {
        if r > 0 {
          assert rows[r] == Chunks(s[k..])[r - 1];
        } else if |rows| > 1 {
          assert s[k..] != [];
        }
      }
    }
  }

  /** Well-shaped rows are determined by their items: any such grouping is
      the one the chunking loop produces. */
  lemma {:induction false} ChunksUnique<T>(rows: seq<seq<T>>)
    requires WellShaped(rows)
    ensures Chunks(Flatten(rows)) == rows
  {
    if rows != [] {
      var s := Flatten(rows);
      var rest := rows[1..];
      assert WellShaped(rest) by {
        forall r | 0 <= r < |rest|
          ensures 1 <= |rest[r]| <= RowWidth && (r < |rest| - 1 ==> |rest[r]| == RowWidth)
        {
          assert rest[r] == rows[r + 1];
        }
      }
      ChunksUnique(rest);
      var k := Min(RowWidth, |s|);
      if |rows| > 1 {
        assert |rows[1]| >= 1;
        assert Flatten(rest) == rows[1] + Flatten(rest[1..]);
      } else {
        assert Flatten(rest) == [];
      }
      assert k == |rows[0]|;
      assert s[..k] == rows[0];
      assert s[k..] == Flatten(rest);
    }
  }

  /** The row loop: from index 0 in steps of five, each row is the next five
      elements, fewer at the end, since slicing clips at the length. */
  method ChunkRows<T>(s: seq<T>) returns (rows: seq<seq<T>>)
    ensures rows == Chunks(s)
  {
    rows := [];
    var i: nat := 0;
    while i < |s|
      invariant i <= |s| ==> rows + Chunks(s[i..]) == Chunks(s)
      invariant i > |s| ==> rows == Chunks(s)
    {
      var end := Min(i + RowWidth, |s|);
      var chunk := s[i..end];
      assert s[i..][..Min(RowWidth, |s| - i)] == chunk;
      assert s[i..][Min(RowWidth, |s| - i)..] == s[end..];
      rows := rows + [chunk];
      if end == |s| {
        assert Chunks(s[end..]) == [];
      }
      i := i + RowWidth;
    }
    assert i == |s| ==> s[i..] == [];
  }
}
