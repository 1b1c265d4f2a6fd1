/** One line of a nonogram as the solver encodes it: an integer start offset
    per block, each block inside the line, each block starting more than one
    cell after the end of the previous one, and a cell filled exactly when
    some block covers it. */
module Placement {

  /** The block lengths of one row or column, in order. `int()` also reads
      signed numbers, so a clue is not restricted to naturals here; the
      theorems that need it say so through `NonNegative`. */
  type Clue = seq<int>

  predicate NonNegative(clue: Clue) {
    forall b :: 0 <= b < |clue| ==> clue[b] >= 0
  }

  predicate AllPositive(clue: Clue) {
    forall b :: 0 <= b < |clue| ==> clue[b] > 0
  }

  /** The start offsets `starts` satisfy the block constraints of a line of
      `n` cells: one start per block, `0 <= start <= n - len`, and a start
      strictly greater than the previous start plus the previous length. */
  predicate ValidPlacement(clue: Clue, n: int, starts: seq<int>) {
    && |starts| == |clue|
    && (forall b :: 0 <= b < |clue| ==> 0 <= starts[b] <= n - clue[b])
    && (forall b :: 0 < b < |clue| ==> starts[b] > starts[b - 1] + clue[b - 1])
  }

  /** Cell `i` lies in block `b`: `start <= i < start + len`. */
  predicate InBlock(clue: Clue, starts: seq<int>, b: int, i: int)
    requires |starts| == |clue| && 0 <= b < |clue|
  {
    starts[b] <= i < starts[b] + clue[b]
  }

  /** Cell `i` is covered when some block of the line contains it; for an
      empty clue the disjunction is empty and nothing is covered. */
  predicate Covered(clue: Clue, starts: seq<int>, i: int)
    requires |starts| == |clue|
  {
    exists b :: 0 <= b < |clue| && InBlock(clue, starts, b, i)
  }

  /** The line of `n` cells a placement induces. */
  function LineOf(clue: Clue, starts: seq<int>, n: nat): seq<bool>
    requires |starts| == |clue|
  {
    seq(n, i => Covered(clue, starts, i))
  }

  /** `line` is a filling of `n` cells that some valid placement of `clue`
      induces. */
  ghost predicate LineFits(clue: Clue, n: nat, line: seq<bool>) {
    && |line| == n
    && exists starts :: ValidPlacement(clue, n, starts) && line == LineOf(clue, starts, n)
  }

  function Sum(clue: Clue): int
  {
    if |clue| == 0 then 0 else Sum(clue[..|clue| - 1]) + clue[|clue| - 1]
  }

  /** The blocks plus one gap between each consecutive pair fit in `n` cells. */
  predicate Fits(clue: Clue, n: int) {
    |clue| == 0 || Sum(clue) + |clue| - 1 <= n
  }

  /** Every block packed as far left as it can go, the first at offset `o`. */
  function Leftmost(clue: Clue, o: int): (starts: seq<int>)
    ensures |starts| == |clue|
    ensures |clue| > 0 ==> starts[0] == o
  {
    if |clue| == 0 then [] else [o] + Leftmost(clue[1..], o + clue[0] + 1)
  }

  lemma {:induction false} SumCons(clue: Clue)
    requires |clue| > 0
    ensures Sum(clue) == clue[0] + Sum(clue[1..])
    decreases |clue|
  {
    if |clue| > 1 {
      var init := clue[..|clue| - 1];
      assert init[1..] == clue[1..][..|clue[1..]| - 1];
      SumCons(init);
    }
  }

  /** A placement of a non-empty clue splits into the first block and a
      placement of the rest. */
  lemma ValidCons(clue: Clue, n: int, starts: seq<int>)
    requires |clue| > 0 && |starts| == |clue|
    ensures ValidPlacement(clue, n, starts) <==>
      && 0 <= starts[0] <= n - clue[0]
      && ValidPlacement(clue[1..], n, starts[1..])
      && (|clue| > 1 ==> starts[1] > starts[0] + clue[0])
  {
    if 0 <= starts[0] <= n - clue[0] && ValidPlacement(clue[1..], n, starts[1..])
      && (|clue| > 1 ==> starts[1] > starts[0] + clue[0])
    {
      forall b | 0 <= b < |clue| ensures 0 <= starts[b] <= n - clue[b] {
        if b > 0 { assert starts[b] == starts[1..][b - 1]; }
      }
      forall b | 0 < b < |clue| ensures starts[b] > starts[b - 1] + clue[b - 1] {
        if b > 1 { assert starts[b] == starts[1..][b - 1]; }
      }
    }
  }

  /** A first block inside the line, followed with a gap by a placement of
      the other blocks, is a placement of the whole clue. */
  lemma ValidConsIntro(clue: Clue, n: int, s0: int, rest: seq<int>)
    requires |clue| > 0 && 0 <= s0 <= n - clue[0]
    requires ValidPlacement(clue[1..], n, rest)
    requires |rest| > 0 ==> rest[0] > s0 + clue[0]
    ensures ValidPlacement(clue, n, [s0] + rest)
  {
    var starts := [s0] + rest;
    assert starts[1..] == rest;
    ValidCons(clue, n, starts);
  }

  /** The leftmost packing starting at a non-negative offset is a valid
      placement whenever it ends inside the line. */
  lemma {:induction false} LeftmostValid(clue: Clue, o: int, n: int)
    requires NonNegative(clue) && |clue| > 0 && o >= 0
    requires o + Sum(clue) + |clue| - 1 <= n
    ensures ValidPlacement(clue, n, Leftmost(clue, o))
    decreases |clue|
  {
    var rest, o' := clue[1..], o + clue[0] + 1;
    SumCons(clue);
    NonNegativeSum(rest);
    if |rest| > 0 {
      LeftmostValid(rest, o', n);
    }
    ValidConsIntro(clue, n, o, Leftmost(rest, o'));
  }

  lemma {:induction false} NonNegativeSum(clue: Clue)
    requires NonNegative(clue)
    ensures Sum(clue) >= 0
    decreases |clue|
  {
    if |clue| > 0 { NonNegativeSum(clue[..|clue| - 1]); }
  }

  /** In a valid placement block `b` starts no earlier than the lengths of
      the blocks before it plus one gap after each of them. */
  lemma {:induction false} StartLowerBound(clue: Clue, n: int, starts: seq<int>, b: nat)
    requires ValidPlacement(clue, n, starts) && b < |clue|
    ensures starts[b] >= Sum(clue[..b]) + b
  {
    if b > 0 {
      StartLowerBound(clue, n, starts, b - 1);
      assert clue[..b][..b - 1] == clue[..b - 1];
    }
  }

  /** A clue of non-negative blocks has a valid placement in a line of `n`
      cells exactly when its blocks and the gaps between them fit. */
  lemma PlacementExistsIffFits(clue: Clue, n: nat)
    requires NonNegative(clue)
    ensures (exists starts :: ValidPlacement(clue, n, starts)) <==> Fits(clue, n)
  {
    if |clue| == 0 {
      assert ValidPlacement(clue, n, []);
    } else if Fits(clue, n) {
      LeftmostValid(clue, 0, n);
    } else if starts :| ValidPlacement(clue, n, starts) {
      var k := |clue| - 1;
      StartLowerBound(clue, n, starts, k);
      assert false;
    }
  }

  /** Each block ends strictly before any later block starts. */
  lemma {:induction false} BlocksOrdered(clue: Clue, n: int, starts: seq<int>, j: nat, j': nat)
    requires NonNegative(clue) && ValidPlacement(clue, n, starts)
    requires j < j' < |clue|
    ensures starts[j] + clue[j] < starts[j']
    decreases j' - j
  {
    if j' > j + 1 {
      BlocksOrdered(clue, n, starts, j, j' - 1);
    }
  }

  /** Coverage by a non-empty clue splits into the first block and the rest. */
  lemma CoveredCons(clue: Clue, starts: seq<int>, i: int)
    requires |clue| > 0 && |starts| == |clue|
    ensures Covered(clue, starts, i) <==>
      (starts[0] <= i < starts[0] + clue[0] || Covered(clue[1..], starts[1..], i))
  {
    if starts[0] <= i < starts[0] + clue[0] {
      assert InBlock(clue, starts, 0, i);
    }
    if Covered(clue[1..], starts[1..], i) {
      var b :| 0 <= b < |clue| - 1 && InBlock(clue[1..], starts[1..], b, i);
      assert InBlock(clue, starts, b + 1, i);
    }
    if Covered(clue, starts, i) {
      var b :| 0 <= b < |clue| && InBlock(clue, starts, b, i);
      if b > 0 { assert InBlock(clue[1..], starts[1..], b - 1, i); }
    }
  }
}
