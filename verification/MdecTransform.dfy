/** The inverse transform as the two nested passes the source makes over one block. */
module MdecTransform {
  import opened Words
  import opened Mdec

  function At(x: int, y: int): int { x + y * 8 }

  /** A cell the column-major walk has passed. */
  predicate Passed(cx: int, cy: int, x: int, y: int) { 0 <= cx < 8 && 0 <= cy < 8 && (cx < x || (cx == x && cy < y)) }

  ghost predicate ColumnsDone(columns: seq<int>, block: Block, scale: Scale, x: int, y: int) {
    |columns| == 64 && forall cx, cy :: Passed(cx, cy, x, y) ==> columns[At(cx, cy)] == ColumnSum(block, scale, cx, cy, 8)
  }

  ghost predicate SamplesDone(samples: seq<int>, block: Block, scale: Scale, x: int, y: int) {
    |samples| == 64 && forall cx, cy :: Passed(cx, cy, x, y) ==> samples[At(cx, cy)] == Sample(block, scale, cx, cy)
  }

  lemma ColumnAdded(columns: seq<int>, block: Block, scale: Scale, x: int, y: int)
    requires 0 <= x < 8 && 0 <= y < 8 && ColumnsDone(columns, block, scale, x, y)
    ensures ColumnsDone(columns[At(x, y) := ColumnSum(block, scale, x, y, 8)], block, scale, x, y + 1)
  {
    hide ColumnSum;
  }

  lemma SampleAdded(samples: seq<int>, block: Block, scale: Scale, x: int, y: int)
    requires 0 <= x < 8 && 0 <= y < 8 && SamplesDone(samples, block, scale, x, y)
    ensures SamplesDone(samples[At(x, y) := Sample(block, scale, x, y)], block, scale, x, y + 1)
  {
    hide Sample;
  }

  lemma NextColumn(cells: seq<int>, block: Block, scale: Scale, x: int)
    ensures ColumnsDone(cells, block, scale, x, 8) ==> ColumnsDone(cells, block, scale, x + 1, 0)
    ensures SamplesDone(cells, block, scale, x, 8) ==> SamplesDone(cells, block, scale, x + 1, 0)
  {
    hide ColumnSum, Sample;
  }

  method ColumnPass(block: array<int>, scale: Scale) returns (columns: array<int>)
    requires block.Length == 64
    ensures fresh(columns) && columns.Length == 64 && ColumnsDone(columns[..], block[..], scale, 8, 0)
  {
    hide ColumnsDone, Times;
    ghost var was: Block := block[..];
    columns := new int[64](_ => 0);
    assert ColumnsDone(columns[..], was, scale, 0, 0) by { NothingPassed(columns[..], was, scale); }
    for x := 0 to 8
      invariant ColumnsDone(columns[..], was, scale, x, 0)
      invariant block[..] == was
    {
      for y := 0 to 8
        invariant ColumnsDone(columns[..], was, scale, x, y)
        invariant block[..] == was
      {
        var sum := 0;
        for z := 0 to 8
          invariant sum == ColumnSum(was, scale, x, y, z)
        {
          sum := sum + Times(scale[z * 8 + y], block[x + z * 8]);
        }
        ColumnAdded(columns[..], was, scale, x, y);
        columns[x + y * 8] := sum;
      }
      NextColumn(columns[..], was, scale, x);
    }
  }

  lemma NothingPassed(cells: seq<int>, block: Block, scale: Scale)
    requires |cells| == 64
    ensures ColumnsDone(cells, block, scale, 0, 0) && SamplesDone(cells, block, scale, 0, 0)
  {
  }

  lemma ColumnAt(columns: seq<int>, block: Block, scale: Scale, z: int, y: int)
    requires ColumnsDone(columns, block, scale, 8, 0) && 0 <= z < 8 && 0 <= y < 8
    ensures columns[z + y * 8] == ColumnSum(block, scale, z, y, 8)
  {
    hide ColumnSum;
    assert Passed(z, y, 8, 0) && columns[At(z, y)] == columns[z + y * 8];
  }

  method RowPass(block: array<int>, columns: array<int>, ghost was: Block, scale: Scale)
    requires block.Length == 64 && columns != block
    requires columns.Length == 64 && ColumnsDone(columns[..], was, scale, 8, 0)
    modifies block
    ensures SamplesDone(block[..], was, scale, 8, 0)
  {
    hide ColumnsDone, SamplesDone, Times, Rounded, ColumnSum;
    NothingPassed(block[..], was, scale);
    for x := 0 to 8
      invariant SamplesDone(block[..], was, scale, x, 0)
      invariant columns[..] == old(columns[..])
    {
      for y := 0 to 8
        invariant SamplesDone(block[..], was, scale, x, y)
        invariant columns[..] == old(columns[..])
      {
        var sum := 0;
        for z := 0 to 8
          invariant sum == RowSum(was, scale, x, y, z)
          invariant SamplesDone(block[..], was, scale, x, y) && columns[..] == old(columns[..])
        {
          ColumnAt(columns[..], was, scale, z, y);
          sum := sum + Times(columns[z + y * 8], scale[x + z * 8]);
        }
        SampleAdded(block[..], was, scale, x, y);
        block[x + y * 8] := Rounded(sum);
      }
      NextColumn(block[..], was, scale, x);
    }
  }

  /** The two in-place passes together are the transform of the block they were given. */
  method InverseDct(block: array<int>, scale: Scale)
    requires block.Length == 64
    modifies block
    ensures block[..] == Transformed(old(block[..]), scale)
  {
    hide Sample, ColumnsDone;
    ghost var was: Block := block[..];
    var columns := ColumnPass(block, scale);
    RowPass(block, columns, was, scale);
    forall i | 0 <= i < 64
      ensures block[..][i] == Transformed(was, scale)[i]
    {
      assert Passed(i % 8, i / 8, 8, 0);
      assert At(i % 8, i / 8) == i;
    }
  }
}
