/** Hemocytometer counts: one pair of live and dead counts per counted square,
    the loop that gathers them from the per-square inputs, and their totals. */
module CellCounts {

  /** The counts read for one square of the hemocytometer grid. */
  datatype Count = Count(live: nat, dead: nat)

  /** Sum of the live counts over all counted squares. */
  function SumLive(counts: seq<Count>): nat
  {
    if counts == [] then 0 else counts[0].live + SumLive(counts[1..])
  }

  /** Sum of the dead counts over all counted squares. */
  function SumDead(counts: seq<Count>): nat
  {
    if counts == [] then 0 else counts[0].dead + SumDead(counts[1..])
  }

  lemma {:induction false} SumLiveAppend(a: seq<Count>, b: seq<Count>)
    ensures SumLive(a + b) == SumLive(a) + SumLive(b)
  {
    if a == [] {
      assert a + b == b;
    } else {
      assert (a + b)[1..] == a[1..] + b;
      SumLiveAppend(a[1..], b);
    }
  }

  lemma {:induction false} SumDeadAppend(a: seq<Count>, b: seq<Count>)
    ensures SumDead(a + b) == SumDead(a) + SumDead(b)
  {
    if a == [] {
      assert a + b == b;
    } else {
      assert (a + b)[1..] == a[1..] + b;
      SumDeadAppend(a[1..], b);
    }
  }

  /** The live total is zero exactly when no square holds a live cell. */
  lemma {:induction false} SumLiveZero(counts: seq<Count>)
    ensures SumLive(counts) == 0 <==> forall i :: 0 <= i < |counts| ==> counts[i].live == 0
  {
    if counts != [] {
      SumLiveZero(counts[1..]);
      forall i | 1 <= i < |counts|
        ensures counts[i].live == counts[1..][i - 1].live
      {
      }
    }
  }

  /** The input loop: for each of the `squares` squares it appends the live and the
      dead count read for that square. `liveAt[i]` and `deadAt[i]` stand for the
      values the two number inputs of square i return. A square count of zero or
      less runs the loop no times. */
  method GatherCounts(squares: int, liveAt: seq<nat>, deadAt: seq<nat>) returns (counts: seq<Count>)
    requires squares <= |liveAt| && squares <= |deadAt|
    ensures |counts| == if squares > 0 then squares else 0
    ensures forall i :: 0 <= i < |counts| ==> counts[i] == Count(liveAt[i], deadAt[i])
  {
    counts := [];
    var i := 0;
    while i < squares
      invariant 0 <= i <= if squares > 0 then squares else 0
      invariant |counts| == i
      invariant forall k :: 0 <= k < i ==> counts[k] == Count(liveAt[k], deadAt[k])
    {
      counts := counts + [Count(liveAt[i], deadAt[i])];
      i := i + 1;
    }
  }

  /** The three totals of the counted cells: live, dead, and all counted cells. */
  method CountTotals(counts: seq<Count>) returns (live: nat, dead: nat, all: nat)
    ensures live == SumLive(counts) && dead == SumDead(counts)
    ensures all == live + dead
  {
    live, dead := 0, 0;
    var i := 0;
    while i < |counts|
      invariant 0 <= i <= |counts|
      invariant live == SumLive(counts[..i])
      invariant dead == SumDead(counts[..i])
    {
      assert counts[..i + 1] == counts[..i] + [counts[i]];
      SumLiveAppend(counts[..i], [counts[i]]);
      SumDeadAppend(counts[..i], [counts[i]]);
      live := live + counts[i].live;
      dead := dead + counts[i].dead;
      i := i + 1;
    }
    assert counts[..i] == counts;
    all := live + dead;
  }
}
