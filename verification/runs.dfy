/** The intended meaning of a clue: reading a line left to right, the lengths
    of its maximal runs of filled cells, in order. This module proves that the
    start-offset encoding of `Placement` means exactly that. */
module LineRuns {
  import opened Placement

  /** The end (exclusive) of the run of filled cells that begins at `p`. */
  function RunEnd(line: seq<bool>, p: nat): (e: nat)
    requires p <= |line|
    ensures p <= e <= |line|
    ensures forall i :: p <= i < e ==> line[i]
    ensures e == |line| || !line[e]
    decreases |line| - p
  {
    if p == |line| || !line[p] then p else RunEnd(line, p + 1)
  }

  /** The lengths of the maximal filled runs of `line` from cell `p` on. */
  function RunsFrom(line: seq<bool>, p: nat): (rs: seq<int>)
    requires p <= |line|
    ensures forall k :: 0 <= k < |rs| ==> rs[k] > 0
    decreases |line| - p
  {
    if p == |line| then []
    else if !line[p] then RunsFrom(line, p + 1)
    else
      var e := RunEnd(line, p);
      [e - p] + RunsFrom(line, e)
  }

  /** Where each of those runs begins. */
  function RunStartsFrom(line: seq<bool>, p: nat): seq<int>
    requires p <= |line|
    decreases |line| - p
  {
    if p == |line| then []
    else if !line[p] then RunStartsFrom(line, p + 1)
    else [p] + RunStartsFrom(line, RunEnd(line, p))
  }

  function Runs(line: seq<bool>): seq<int>
  {
    RunsFrom(line, 0)
  }

  /** The non-zero blocks of a clue, in order: a block of length zero takes a
      start offset but covers no cell. */
  function Positives(clue: Clue): (r: Clue)
    ensures AllPositive(clue) ==> r == clue
    ensures |r| <= |clue|
  {
    if |clue| == 0 then []
    else (if clue[0] > 0 then [clue[0]] else []) + Positives(clue[1..])
  }

  /** A run that is filled on `[p, e)` and stops at `e` ends at `e`. */
  lemma RunEndIs(line: seq<bool>, p: nat, e: nat)
    requires p <= e <= |line|
    requires forall i :: p <= i < e ==> line[i]
    requires e == |line| || !line[e]
    ensures RunEnd(line, p) == e
  {
  }

  lemma {:induction false} NoRunsAfter(line: seq<bool>, p: nat)
    requires p <= |line|
    requires forall i :: p <= i < |line| ==> !line[i]
    ensures RunsFrom(line, p) == []
    decreases |line| - p
  {
    if p < |line| {
      NoRunsAfter(line, p + 1);
    }
  }

  /** A cell between the end of block `b - 1` and the start of block `b` is
      covered by no block. */
  lemma GapNotCovered(clue: Clue, n: int, starts: seq<int>, b: nat, i: int)
    requires NonNegative(clue) && ValidPlacement(clue, n, starts)
    requires b <= |clue|
    requires b > 0 ==> starts[b - 1] + clue[b - 1] <= i
    requires b < |clue| ==> i < starts[b]
    ensures !Covered(clue, starts, i)
  {
    if Covered(clue, starts, i) {
      var j :| 0 <= j < |clue| && InBlock(clue, starts, j, i);
      if j < b - 1 {
        BlocksOrdered(clue, n, starts, j, b - 1);
      } else if j > b {
        BlocksOrdered(clue, n, starts, b, j);
      }
    }
  }

  lemma PositivesCons(clue: Clue, b: nat)
    requires b < |clue|
    ensures Positives(clue[b..]) == (if clue[b] > 0 then [clue[b]] else []) + Positives(clue[b + 1..])
  {
    assert clue[b..][1..] == clue[b + 1..];
  }

  /** An empty cell contributes no run. */
  lemma RunsSkip(line: seq<bool>, p: nat)
    requires p < |line| && !line[p]
    ensures RunsFrom(line, p) == RunsFrom(line, p + 1)
  {
  }

  /** A filled stretch `[p, e)` that stops at `e` is one run. */
  lemma RunsStep(line: seq<bool>, p: nat, e: nat)
    requires p < e <= |line|
    requires forall i :: p <= i < e ==> line[i]
    requires e == |line| || !line[e]
    ensures RunsFrom(line, p) == [e - p] + RunsFrom(line, e)
  {
    RunEndIs(line, p, e);
  }

  /** Block `b` of a valid placement is filled in the induced line and the
      cell after it, if any, is empty. */
  lemma BlockIsRun(clue: Clue, n: nat, starts: seq<int>, b: nat)
    requires NonNegative(clue) && ValidPlacement(clue, n, starts)
    requires b < |clue|
    ensures var line, e := LineOf(clue, starts, n), starts[b] + clue[b];
      && (forall i :: starts[b] <= i < e ==> line[i])
      && (e == n || !line[e])
  {
    var line, e := LineOf(clue, starts, n), starts[b] + clue[b];
    forall i | starts[b] <= i < e ensures line[i] {
      assert InBlock(clue, starts, b, i);
    }
    if e < n {
      GapNotCovered(clue, n, starts, b + 1, e);
    }
  }

  /** No run starts after the last block. */
  lemma RunsAfterLastBlock(clue: Clue, n: nat, starts: seq<int>, p: nat)
    requires NonNegative(clue) && ValidPlacement(clue, n, starts) && p <= n
    requires |clue| > 0 ==> starts[|clue| - 1] + clue[|clue| - 1] <= p
    ensures RunsFrom(LineOf(clue, starts, n), p) == Positives(clue[|clue|..])
  {
    var line := LineOf(clue, starts, n);
    forall i | p <= i < n ensures !line[i] {
      GapNotCovered(clue, n, starts, |clue|, i);
    }
    NoRunsAfter(line, p);
    assert clue[|clue|..] == [];
  }

  /** A cell in the gap before block `b` adds no run. */
  lemma {:induction false} RunsBeforeBlock(clue: Clue, n: nat, starts: seq<int>, b: nat, p: nat)
    requires NonNegative(clue) && ValidPlacement(clue, n, starts)
    requires b < |clue| && p < starts[b]
    requires b > 0 ==> starts[b - 1] + clue[b - 1] <= p
    ensures RunsFrom(LineOf(clue, starts, n), p) == Positives(clue[b..])
    decreases |clue| - b + n - p, 0
  {
    GapNotCovered(clue, n, starts, b, p);
    RunsSkip(LineOf(clue, starts, n), p);
    RunsOfPlacementFrom(clue, n, starts, b, p + 1);
  }

  /** A block of length zero at `p` adds no run. */
  lemma {:induction false} RunsOverEmptyBlock(clue: Clue, n: nat, starts: seq<int>, b: nat)
    requires NonNegative(clue) && ValidPlacement(clue, n, starts)
    requires b < |clue| && clue[b] == 0
    ensures RunsFrom(LineOf(clue, starts, n), starts[b]) == Positives(clue[b..])
    decreases |clue| - b + n - starts[b], 0
  {
    RunsOfPlacementFrom(clue, n, starts, b + 1, starts[b]);
    PositivesCons(clue, b);
  }

  /** A block of positive length is read as one run of its length. */
  lemma {:induction false} RunsOverBlock(clue: Clue, n: nat, starts: seq<int>, b: nat)
    requires NonNegative(clue) && ValidPlacement(clue, n, starts)
    requires b < |clue| && clue[b] > 0
    ensures RunsFrom(LineOf(clue, starts, n), starts[b]) == Positives(clue[b..])
    decreases |clue| - b + n - starts[b], 0
  {
    var line, e := LineOf(clue, starts, n), starts[b] + clue[b];
    BlockIsRun(clue, n, starts, b);
    RunsStep(line, starts[b], e);
    RunsOfPlacementFrom(clue, n, starts, b + 1, e);
    PositivesCons(clue, b);
  }

  /** Reading the induced line from a cell between block `b - 1` and block
      `b` yields the non-zero blocks from `b` on. */
  lemma {:induction false} RunsOfPlacementFrom(clue: Clue, n: nat, starts: seq<int>, b: nat, p: nat)
    requires NonNegative(clue) && ValidPlacement(clue, n, starts)
    requires b <= |clue| && p <= n
    requires b > 0 ==> starts[b - 1] + clue[b - 1] <= p
    requires b < |clue| ==> p <= starts[b]
    ensures RunsFrom(LineOf(clue, starts, n), p) == Positives(clue[b..])
    decreases |clue| - b + n - p, 1
  {
    if b == |clue| {
      RunsAfterLastBlock(clue, n, starts, p);
    } else if p < starts[b] {
      RunsBeforeBlock(clue, n, starts, b, p);
    } else if clue[b] == 0 {
      RunsOverEmptyBlock(clue, n, starts, b);
    } else {
      RunsOverBlock(clue, n, starts, b);
    }
  }

  /** Soundness of the encoding: under a valid placement the filled runs of
      the induced line are the clue's non-zero blocks, in clue order. */
  lemma RunsOfPlacement(clue: Clue, n: nat, starts: seq<int>)
    requires NonNegative(clue) && ValidPlacement(clue, n, starts)
    ensures Runs(LineOf(clue, starts, n)) == Positives(clue)
  {
    RunsOfPlacementFrom(clue, n, starts, 0, 0);
    assert clue[0..] == clue;
  }

  /** `rs` placed at `ss` obeys the block constraints for the cells of
      `line` from `p` on and covers exactly the filled ones among them. */
  predicate PlacedFrom(line: seq<bool>, p: nat, rs: seq<int>, ss: seq<int>) {
    && |ss| == |rs|
    && (forall b :: 0 <= b < |ss| ==> p <= ss[b] <= |line| - rs[b])
    && (forall b :: 0 < b < |ss| ==> ss[b] > ss[b - 1] + rs[b - 1])
    && (forall i :: p <= i < |line| ==> (line[i] <==> Covered(rs, ss, i)))
  }

  /** An empty cell in front of a placement leaves it a placement. */
  lemma PlacedSkip(line: seq<bool>, p: nat, rs: seq<int>, ss: seq<int>)
    requires p < |line| && !line[p]
    requires PlacedFrom(line, p + 1, rs, ss)
    ensures PlacedFrom(line, p, rs, ss)
  {
  }

  /** The first block of a placement of positive runs from `e` starts past
      `e` when the cell at `e` is empty. */
  lemma FirstStartAfter(line: seq<bool>, e: nat, rs: seq<int>, ss: seq<int>)
    requires e <= |line| && (e == |line| || !line[e])
    requires AllPositive(rs) && PlacedFrom(line, e, rs, ss) && |ss| > 0
    ensures ss[0] > e
  {
    assert InBlock(rs, ss, 0, ss[0]);
    assert line[ss[0]];
  }

  /** A filled run `[p, e)` that covers exactly its own cells. */
  lemma CoverCons(line: seq<bool>, p: nat, e: nat, rs: seq<int>, ss: seq<int>)
    requires p < e <= |line|
    requires forall i :: p <= i < e ==> line[i]
    requires PlacedFrom(line, e, rs, ss)
    ensures forall i :: p <= i < |line| ==> (line[i] <==> Covered([e - p] + rs, [p] + ss, i))
  {
    var rs2, ss2 := [e - p] + rs, [p] + ss;
    assert rs2[1..] == rs && ss2[1..] == ss;
    forall i | p <= i < |line| ensures line[i] <==> Covered(rs2, ss2, i) {
      CoveredCons(rs2, ss2, i);
    }
  }

  /** A filled run `[p, e)` in front of a placement of positive runs that
      starts after `e` extends it by one block. */
  lemma PlacedCons(line: seq<bool>, p: nat, e: nat, rs: seq<int>, ss: seq<int>)
    requires p < e <= |line|
    requires forall i :: p <= i < e ==> line[i]
    requires e == |line| || !line[e]
    requires AllPositive(rs) && PlacedFrom(line, e, rs, ss)
    ensures PlacedFrom(line, p, [e - p] + rs, [p] + ss)
  {
    var rs2, ss2 := [e - p] + rs, [p] + ss;
    if |ss| > 0 {
      FirstStartAfter(line, e, rs, ss);
    }
    forall b | 0 <= b < |ss2| ensures p <= ss2[b] <= |line| - rs2[b] {
      if b > 0 {
        assert ss2[b] == ss[b - 1] && rs2[b] == rs[b - 1];
      }
    }
    forall b | 0 < b < |ss2| ensures ss2[b] > ss2[b - 1] + rs2[b - 1] {
      if b > 1 {
        assert ss2[b] == ss[b - 1] && ss2[b - 1] == ss[b - 2] && rs2[b - 1] == rs[b - 2];
      }
    }
    CoverCons(line, p, e, rs, ss);
  }

  /** The runs of a line from cell `p`, placed at the cells where they
      begin, obey the block constraints and cover exactly the filled cells. */
  lemma {:induction false} PlacementOfRunsFrom(line: seq<bool>, p: nat)
    requires p <= |line|
    ensures PlacedFrom(line, p, RunsFrom(line, p), RunStartsFrom(line, p))
    decreases |line| - p
  {
    if p == |line| {
    } else if !line[p] {
      var rs, ss := RunsFrom(line, p + 1), RunStartsFrom(line, p + 1);
      assert RunsFrom(line, p) == rs && RunStartsFrom(line, p) == ss;
      PlacementOfRunsFrom(line, p + 1);
      PlacedSkip(line, p, rs, ss);
    } else {
      var e := RunEnd(line, p);
      var rs, ss := RunsFrom(line, e), RunStartsFrom(line, e);
      assert RunsFrom(line, p) == [e - p] + rs && RunStartsFrom(line, p) == [p] + ss;
      PlacementOfRunsFrom(line, e);
      PlacedCons(line, p, e, rs, ss);
    }
  }

  /** The runs of any line, placed where they begin, are a valid placement
      that induces the line. */
  lemma PlacementOfRuns(line: seq<bool>)
    ensures ValidPlacement(Runs(line), |line|, RunStartsFrom(line, 0))
    ensures LineOf(Runs(line), RunStartsFrom(line, 0), |line|) == line
  {
    PlacementOfRunsFrom(line, 0);
  }

  /** The encoding means what the clue means: a line of non-negative blocks
      fits the clue only if its runs are the clue's non-zero blocks, and for a
      clue of positive blocks that condition is also sufficient. */
  lemma LineFitsIffRuns(clue: Clue, n: nat, line: seq<bool>)
    requires NonNegative(clue)
    ensures LineFits(clue, n, line) ==> Runs(line) == Positives(clue)
    ensures AllPositive(clue) ==> (LineFits(clue, n, line) <==> |line| == n && Runs(line) == clue)
  {
    if LineFits(clue, n, line) {
      var starts :| ValidPlacement(clue, n, starts) && line == LineOf(clue, starts, n);
      RunsOfPlacement(clue, n, starts);
    }
    if |line| == n && Runs(line) == clue {
      PlacementOfRuns(line);
    }
  }
}
