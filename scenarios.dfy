/** The repository's two tests, and the empty-donor splice, restated as
    straight-line programs over the model whose outcomes are proved. */
module Scenarios {
  import opened RollingList

  /** `basic`: collecting 1..5 into a list of any chunk capacity, then
      traversing it, yields 1..5; tearing it down drops each of them once. */
  method Basic(cap: nat) returns (got: seq<int>, dropped: seq<int>)
    requires cap != 0
    ensures got == [1, 2, 3, 4, 5]
    ensures dropped == [1, 2, 3, 4, 5]
  {
    var l := List.FromIter(cap, [1, 2, 3, 4, 5]);
    got := l.Collect();
    ghost var released;
    dropped, released := l.Drop();
  }

  /** `append`: 0..103 and 598..700 collected into lists of capacity 37 and
      spliced. The traversal yields both runs in order; the chain has the
      3 + 3 chunks of its halves, the third holding 103 - 2 * 37 = 29
      elements, so the spliced list is no longer packed. */
  method AppendTwoRuns() returns (got: seq<int>, ghost chunkCount: nat, ghost packed: bool)
    ensures got == seq(103, i => i) + seq(102, i => 598 + i)
    ensures chunkCount == 6 && !packed
  {
    var xs := seq(103, i => i);
    var ys := seq(102, i => 598 + i);
    var a := List.FromIter(37, xs);
    var b := List.FromIter(37, ys);
    a.PackedChunkCount();
    b.PackedChunkCount();
    ghost var third := a.last;
    assert third != null && third.len == 29;
    a.Append(b);
    a.NotPacked(2);
    chunkCount, packed := |a.chunks|, a.Packed();
    got := a.Collect();
  }

  /** The splice as written, with a one-element receiver and an empty donor:
      the receiver ends up with a head but no last chunk, a state outside
      the invariant (a later push would take the empty-list branch and
      replace head, dropping the element from the chain). */
  method EmptyDonorAsWritten() returns (headSet: bool, lastSet: bool)
    ensures headSet && !lastSet
  {
    var a := List.FromIter(1, [0]);
    var b := new List(1);
    a.AppendAsWritten(b);
    headSet, lastSet := a.head != null, a.last != null;
    a.HeadWithoutLast();
  }

  /** The corrected splice on the same input leaves the receiver intact, and
      a later push lands after its element. */
  method EmptyDonorCorrected() returns (got: seq<int>)
    ensures got == [0, 1]
  {
    var a := List.FromIter(1, [0]);
    var b := new List(1);
    a.Append(b);
    a.Push(1);
    got := a.Collect();
  }
}
