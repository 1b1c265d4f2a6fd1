/** The puzzle object and the constraint system handed to the SMT solver:
    one Boolean per cell, one integer start per block, the block constraints
    of every row and column, and the cell/coverage equivalences. The search
    itself belongs to the solver; this module states what any model of the
    constraints means as a grid. */
module Encoding {
  import opened Wrappers
  import opened Decimal
  import opened Placement
  import opened LineRuns

  /** A puzzle: column clues, row clues, and optional title and author. */
  datatype Nonogram = Nonogram(
    columnBlocks: seq<Clue>,
    rowBlocks: seq<Clue>,
    title: Option<string>,
    author: Option<string>)
  {
    function Cols(): nat { |columnBlocks| }
    function Rows(): nat { |rowBlocks| }
  }

  // ---------------------------------------------------------------- variables

  /** The solver variables: a cell, the start of block `b` of row `r`, the
      start of block `b` of column `c`. */
  datatype Var = Cell(r: nat, c: nat) | RowStart(row: nat, b: nat) | ColStart(col: nat, cb: nat)

  /** The name a variable is created under; the solver identifies variables
      by name, so distinct variables need distinct names. */
  function Name(v: Var): string
  {
    match v
    case Cell(r, c) => "C_" + Show(r) + "_" + Show(c)
    case RowStart(r, b) => "RS_" + Show(r) + "_" + Show(b)
    case ColStart(c, b) => "CS_" + Show(c) + "_" + Show(b)
  }

  /** The number of digits a string starts with. */
  function LeadingDigits(s: string): nat
  {
    if |s| > 0 && IsDigit(s[0]) then 1 + LeadingDigits(s[1..]) else 0
  }

  lemma {:induction false} LeadingDigitsOfPair(a: string, b: string)
    requires AllDigits(a)
    ensures LeadingDigits(a + "_" + b) == |a|
  {
    if |a| > 0 {
      assert (a + "_" + b)[1..] == a[1..] + "_" + b;
      LeadingDigitsOfPair(a[1..], b);
    }
  }

  /** Two digit strings joined by `_` can be split back apart. */
  lemma DigitPairUnique(a: string, b: string, a': string, b': string)
    requires AllDigits(a) && AllDigits(a')
    requires a + "_" + b == a' + "_" + b'
    ensures a == a' && b == b'
  {
    var s := a + "_" + b;
    LeadingDigitsOfPair(a, b);
    LeadingDigitsOfPair(a', b');
    assert a == s[..|a|] == a';
    assert b == s[|a| + 1..] == b';
  }

  /** Two names with the same prefix and digit-pair suffix agree on both
      numbers. */
  lemma SameNameParts(pre: string, x: nat, y: nat, x': nat, y': nat)
    requires pre + Show(x) + "_" + Show(y) == pre + Show(x') + "_" + Show(y')
    ensures x == x' && y == y'
  {
    var sx, sy, sx', sy' := Show(x), Show(y), Show(x'), Show(y');
    PrefixedPairUnique(pre, sx, sy, sx', sy');
    ShowInjective(x, x');
    ShowInjective(y, y');
  }

  lemma PrefixedPairUnique(pre: string, a: string, b: string, a': string, b': string)
    requires AllDigits(a) && AllDigits(a')
    requires pre + a + "_" + b == pre + a' + "_" + b'
    ensures a == a' && b == b'
  {
    var t, t' := a + "_" + b, a' + "_" + b';
    assert pre + a + "_" + b == pre + t;
    assert pre + a' + "_" + b' == pre + t';
    assert t == (pre + t)[|pre|..];
    assert t' == (pre + t')[|pre|..];
    DigitPairUnique(a, b, a', b');
  }

  /** Different variables get different names. */
  lemma NameInjective(v: Var, w: Var)
    ensures Name(v) == Name(w) ==> v == w
  {
    if Name(v) == Name(w) {
      var s := Name(v);
      match v
      case Cell(r, c) =>
        assert s[1] == '_';
        assert w.Cell?;
        SameNameParts("C_", r, c, w.r, w.c);
      case RowStart(r, b) =>
        assert s[0] == 'R';
        assert w.RowStart?;
        SameNameParts("RS_", r, b, w.row, w.b);
      case ColStart(c, b) =>
        assert s[0] == 'C' && s[1] == 'S';
        assert w.ColStart?;
        SameNameParts("CS_", c, b, w.col, w.cb);
    }
  }

  /** The variable names created for a puzzle: a rows-by-columns table of
      cell names and, per line, one start name per block. */
  datatype VarNames = VarNames(cells: seq<seq<string>>, rowStarts: seq<seq<string>>, colStarts: seq<seq<string>>)

  function SetVariables(p: Nonogram): (vs: VarNames)
    ensures |vs.cells| == p.Rows() && |vs.rowStarts| == p.Rows() && |vs.colStarts| == p.Cols()
    ensures forall r :: 0 <= r < p.Rows() ==> |vs.cells[r]| == p.Cols()
    ensures forall r :: 0 <= r < p.Rows() ==> |vs.rowStarts[r]| == |p.rowBlocks[r]|
    ensures forall c :: 0 <= c < p.Cols() ==> |vs.colStarts[c]| == |p.columnBlocks[c]|
    ensures forall r, c :: 0 <= r < p.Rows() && 0 <= c < p.Cols() ==> vs.cells[r][c] == Name(Cell(r, c))
    ensures forall r, b :: 0 <= r < p.Rows() && 0 <= b < |p.rowBlocks[r]| ==> vs.rowStarts[r][b] == Name(RowStart(r, b))
    ensures forall c, b :: 0 <= c < p.Cols() && 0 <= b < |p.columnBlocks[c]| ==> vs.colStarts[c][b] == Name(ColStart(c, b))
  {
    VarNames(
      seq(p.Rows(), r requires 0 <= r => seq(p.Cols(), c requires 0 <= c => Name(Cell(r, c)))),
      seq(p.Rows(), r requires 0 <= r < p.Rows() =>
        seq(|p.rowBlocks[r]|, b requires 0 <= b => Name(RowStart(r, b)))),
      seq(p.Cols(), c requires 0 <= c < p.Cols() =>
        seq(|p.columnBlocks[c]|, b requires 0 <= b => Name(ColStart(c, b)))))
  }

  /** Exactly one variable per cell and per block: no two entries of the
      tables share a name, within a table or across tables. */
  lemma VariablesDistinct(p: Nonogram)
    ensures var vs := SetVariables(p);
      && (forall r, c, r', c' ::
            (0 <= r < p.Rows() && 0 <= c < p.Cols() && 0 <= r' < p.Rows() && 0 <= c' < p.Cols()
             && vs.cells[r][c] == vs.cells[r'][c']) ==> r == r' && c == c')
      && (forall r, b, r', b' ::
            (0 <= r < p.Rows() && 0 <= b < |p.rowBlocks[r]| && 0 <= r' < p.Rows() && 0 <= b' < |p.rowBlocks[r']|
             && vs.rowStarts[r][b] == vs.rowStarts[r'][b']) ==> r == r' && b == b')
      && (forall c, b, c', b' ::
            (0 <= c < p.Cols() && 0 <= b < |p.columnBlocks[c]| && 0 <= c' < p.Cols() && 0 <= b' < |p.columnBlocks[c']|
             && vs.colStarts[c][b] == vs.colStarts[c'][b']) ==> c == c' && b == b')
      && (forall r, c, r', b ::
            0 <= r < p.Rows() && 0 <= c < p.Cols() && 0 <= r' < p.Rows() && 0 <= b < |p.rowBlocks[r']|
            ==> vs.cells[r][c] != vs.rowStarts[r'][b])
      && (forall r, c, c', b ::
            0 <= r < p.Rows() && 0 <= c < p.Cols() && 0 <= c' < p.Cols() && 0 <= b < |p.columnBlocks[c']|
            ==> vs.cells[r][c] != vs.colStarts[c'][b])
      && (forall r, b, c, b' ::
            0 <= r < p.Rows() && 0 <= b < |p.rowBlocks[r]| && 0 <= c < p.Cols() && 0 <= b' < |p.columnBlocks[c]|
            ==> vs.rowStarts[r][b] != vs.colStarts[c][b'])
  {
    var vs := SetVariables(p);
    forall r, c, r', c' |
      0 <= r < p.Rows() && 0 <= c < p.Cols() && 0 <= r' < p.Rows() && 0 <= c' < p.Cols()
      && vs.cells[r][c] == vs.cells[r'][c']
      ensures r == r' && c == c'
    {
      NameInjective(Cell(r, c), Cell(r', c'));
    }
    forall r, b, r', b' |
      0 <= r < p.Rows() && 0 <= b < |p.rowBlocks[r]| && 0 <= r' < p.Rows() && 0 <= b' < |p.rowBlocks[r']|
      && vs.rowStarts[r][b] == vs.rowStarts[r'][b']
      ensures r == r' && b == b'
    {
      NameInjective(RowStart(r, b), RowStart(r', b'));
    }
    forall c, b, c', b' |
      0 <= c < p.Cols() && 0 <= b < |p.columnBlocks[c]| && 0 <= c' < p.Cols() && 0 <= b' < |p.columnBlocks[c']|
      && vs.colStarts[c][b] == vs.colStarts[c'][b']
      ensures c == c' && b == b'
    {
      NameInjective(ColStart(c, b), ColStart(c', b'));
    }
    forall r, c, r', b |
      0 <= r < p.Rows() && 0 <= c < p.Cols() && 0 <= r' < p.Rows() && 0 <= b < |p.rowBlocks[r']|
      ensures vs.cells[r][c] != vs.rowStarts[r'][b]
    {
      NameInjective(Cell(r, c), RowStart(r', b));
    }
    forall r, c, c', b |
      0 <= r < p.Rows() && 0 <= c < p.Cols() && 0 <= c' < p.Cols() && 0 <= b < |p.columnBlocks[c']|
      ensures vs.cells[r][c] != vs.colStarts[c'][b]
    {
      NameInjective(Cell(r, c), ColStart(c', b));
    }
    forall r, b, c, b' |
      0 <= r < p.Rows() && 0 <= b < |p.rowBlocks[r]| && 0 <= c < p.Cols() && 0 <= b' < |p.columnBlocks[c]|
      ensures vs.rowStarts[r][b] != vs.colStarts[c][b']
    {
      NameInjective(RowStart(r, b), ColStart(c, b'));
    }
  }

  // -------------------------------------------------------------- constraints

  /** A satisfying assignment as the solver reports it, indexed by variable
      (names are injective, see `NameInjective`). */
  datatype Interp = Interp(truth: Var -> bool, value: Var -> int)

  /** `And(start <= pos, pos < start + len)`. */
  datatype Span = Span(start: Var, pos: int, len: int)

  /** The four kinds of assertion the encoding adds. */
  datatype Constraint =
    | AtLeast(v: Var, k: int)                  // v >= k
    | AtMost(v: Var, k: int)                   // v <= k
    | After(v: Var, u: Var, k: int)            // v > u + k
    | FilledIff(cell: Var, spans: seq<Span>)   // cell == Or(spans)

  predicate SpanHolds(sp: Span, m: Interp) {
    m.value(sp.start) <= sp.pos < m.value(sp.start) + sp.len
  }

  predicate Holds(con: Constraint, m: Interp) {
    match con
    case AtLeast(v, k) => m.value(v) >= k
    case AtMost(v, k) => m.value(v) <= k
    case After(v, u, k) => m.value(v) > m.value(u) + k
    case FilledIff(cell, spans) =>
      m.truth(cell) == (exists j :: 0 <= j < |spans| && SpanHolds(spans[j], m))
  }

  predicate AllHold(cs: seq<Constraint>, m: Interp) {
    forall k :: 0 <= k < |cs| ==> Holds(cs[k], m)
  }

  /** Rows and columns are encoded by the same code with the roles of the
      two indices swapped. */
  datatype Axis = Rows | Cols

  function StartVar(axis: Axis, l: nat, b: nat): Var {
    if axis == Rows then RowStart(l, b) else ColStart(l, b)
  }

  function CellVar(axis: Axis, l: nat, i: nat): Var {
    if axis == Rows then Cell(l, i) else Cell(i, l)
  }

  /** The assertions for block `b` of line `l`: inside the line and after the
      previous block with a gap. */
  function BlockConstraints(axis: Axis, l: nat, clue: Clue, n: nat, b: nat): seq<Constraint>
    requires b < |clue|
  {
    [AtLeast(StartVar(axis, l, b), 0), AtMost(StartVar(axis, l, b), n - clue[b])]
    + (if b > 0 then [After(StartVar(axis, l, b), StartVar(axis, l, b - 1), clue[b - 1])] else [])
  }

  function BlocksFrom(axis: Axis, l: nat, clue: Clue, n: nat, b: nat): seq<Constraint>
    requires b <= |clue|
    decreases |clue| - b
  {
    if b == |clue| then [] else BlockConstraints(axis, l, clue, n, b) + BlocksFrom(axis, l, clue, n, b + 1)
  }

  /** Cell `i` of line `l` is filled iff one of the line's blocks covers it. */
  function CellConstraint(axis: Axis, l: nat, clue: Clue, i: nat): Constraint
  {
    FilledIff(CellVar(axis, l, i), seq(|clue|, b requires 0 <= b < |clue| => Span(StartVar(axis, l, b), i, clue[b])))
  }

  function CellsFrom(axis: Axis, l: nat, clue: Clue, n: nat, i: nat): seq<Constraint>
    decreases n - i
  {
    if i >= n then [] else [CellConstraint(axis, l, clue, i)] + CellsFrom(axis, l, clue, n, i + 1)
  }

  /** All assertions of one line of `n` cells: its blocks, then its cells. */
  function LineConstraints(axis: Axis, l: nat, clue: Clue, n: nat): seq<Constraint>
  {
    BlocksFrom(axis, l, clue, n, 0) + CellsFrom(axis, l, clue, n, 0)
  }

  function AxisConstraints(axis: Axis, clues: seq<Clue>, n: nat, l: nat): seq<Constraint>
    decreases |clues| - l
  {
    if l >= |clues| then [] else LineConstraints(axis, l, clues[l], n) + AxisConstraints(axis, clues, n, l + 1)
  }

  /** Every assertion, in the order they are added: all rows, then all
      columns. Each refers only to variables `SetVariables` creates, so no
      lookup in the variable tables is out of range. */
  function AddConstraints(p: Nonogram): (cs: seq<Constraint>)
    ensures Within(p, cs)
  {
    AxisWithin(p, Rows, p.rowBlocks, p.Cols(), 0);
    AxisWithin(p, Cols, p.columnBlocks, p.Rows(), 0);
    WithinAppend(p, AxisConstraints(Rows, p.rowBlocks, p.Cols(), 0), AxisConstraints(Cols, p.columnBlocks, p.Rows(), 0));
    AxisConstraints(Rows, p.rowBlocks, p.Cols(), 0) + AxisConstraints(Cols, p.columnBlocks, p.Rows(), 0)
  }

  // ------------------------------------------------- variables they refer to

  /** `v` is one of the variables created for `p`: a cell of the grid or
      the start of a block of a row or column clue. */
  predicate Declared(p: Nonogram, v: Var) {
    match v
    case Cell(r, c) => r < p.Rows() && c < p.Cols()
    case RowStart(r, b) => r < p.Rows() && b < |p.rowBlocks[r]|
    case ColStart(c, b) => c < p.Cols() && b < |p.columnBlocks[c]|
  }

  /** The assertion refers to variable `v`. */
  predicate Mentions(con: Constraint, v: Var) {
    match con
    case AtLeast(u, _) => v == u
    case AtMost(u, _) => v == u
    case After(u, w, _) => v == u || v == w
    case FilledIff(cell, spans) => v == cell || exists j :: 0 <= j < |spans| && spans[j].start == v
  }

  /** Every assertion refers only to variables created for `p`. */
  ghost predicate Within(p: Nonogram, cs: seq<Constraint>) {
    forall k, v :: 0 <= k < |cs| && Mentions(cs[k], v) ==> Declared(p, v)
  }

  lemma WithinAppend(p: Nonogram, a: seq<Constraint>, b: seq<Constraint>)
    requires Within(p, a) && Within(p, b)
    ensures Within(p, a + b)
  {
    forall k, v | 0 <= k < |a + b| && Mentions((a + b)[k], v) ensures Declared(p, v) {
      if k >= |a| {
        assert (a + b)[k] == b[k - |a|];
      }
    }
  }

  /** Line `l` of `axis` is a line of `p` with clue `clue` and `n` cells. */
  predicate IsLineOf(p: Nonogram, axis: Axis, l: nat, clue: Clue, n: nat) {
    if axis == Rows then l < p.Rows() && clue == p.rowBlocks[l] && n == p.Cols()
    else l < p.Cols() && clue == p.columnBlocks[l] && n == p.Rows()
  }

  lemma {:induction false} BlocksWithin(p: Nonogram, axis: Axis, l: nat, clue: Clue, n: nat, b: nat)
    requires IsLineOf(p, axis, l, clue, n) && b <= |clue|
    ensures Within(p, BlocksFrom(axis, l, clue, n, b))
    decreases |clue| - b
  {
    if b < |clue| {
      BlocksWithin(p, axis, l, clue, n, b + 1);
      WithinAppend(p, BlockConstraints(axis, l, clue, n, b), BlocksFrom(axis, l, clue, n, b + 1));
    }
  }

  lemma {:induction false} CellsWithin(p: Nonogram, axis: Axis, l: nat, clue: Clue, n: nat, i: nat)
    requires IsLineOf(p, axis, l, clue, n)
    ensures Within(p, CellsFrom(axis, l, clue, n, i))
    decreases n - i
  {
    if i < n {
      var con := CellConstraint(axis, l, clue, i);
      assert Within(p, [con]) by {
        forall v | Mentions(con, v) ensures Declared(p, v) {
          if v != CellVar(axis, l, i) {
            var j :| 0 <= j < |con.spans| && con.spans[j].start == v;
            assert v == StartVar(axis, l, j);
          }
        }
      }
      CellsWithin(p, axis, l, clue, n, i + 1);
      WithinAppend(p, [con], CellsFrom(axis, l, clue, n, i + 1));
    }
  }

  lemma {:induction false} AxisWithin(p: Nonogram, axis: Axis, clues: seq<Clue>, n: nat, l: nat)
    requires axis == Rows ==> clues == p.rowBlocks && n == p.Cols()
    requires axis == Cols ==> clues == p.columnBlocks && n == p.Rows()
    ensures Within(p, AxisConstraints(axis, clues, n, l))
    decreases |clues| - l
  {
    if l < |clues| {
      BlocksWithin(p, axis, l, clues[l], n, 0);
      CellsWithin(p, axis, l, clues[l], n, 0);
      WithinAppend(p, BlocksFrom(axis, l, clues[l], n, 0), CellsFrom(axis, l, clues[l], n, 0));
      AxisWithin(p, axis, clues, n, l + 1);
      WithinAppend(p, LineConstraints(axis, l, clues[l], n), AxisConstraints(axis, clues, n, l + 1));
    }
  }

  // ------------------------------------------------------- what they mean

  /** The start values an assignment gives the blocks of a line. */
  function StartsOf(m: Interp, axis: Axis, l: nat, k: nat): seq<int> {
    seq(k, b requires 0 <= b => m.value(StartVar(axis, l, b)))
  }

  /** The cell values an assignment gives a line of `n` cells. */
  function CellsOf(m: Interp, axis: Axis, l: nat, n: nat): seq<bool> {
    seq(n, i requires 0 <= i => m.truth(CellVar(axis, l, i)))
  }

  /** The assignment places the blocks of line `l` validly and fills exactly
      the cells that placement covers. */
  predicate LineEncoded(m: Interp, axis: Axis, l: nat, clue: Clue, n: nat) {
    var starts := StartsOf(m, axis, l, |clue|);
    ValidPlacement(clue, n, starts) && CellsOf(m, axis, l, n) == LineOf(clue, starts, n)
  }

  lemma AllHoldAppend(a: seq<Constraint>, b: seq<Constraint>, m: Interp)
    ensures AllHold(a + b, m) <==> AllHold(a, m) && AllHold(b, m)
  {
    if AllHold(a, m) && AllHold(b, m) {
      forall k | 0 <= k < |a + b| ensures Holds((a + b)[k], m) {
        if k >= |a| { assert (a + b)[k] == b[k - |a|]; }
      }
    }
    if AllHold(a + b, m) {
      forall k | 0 <= k < |a| ensures Holds(a[k], m) {
        assert (a + b)[k] == a[k];
      }
      forall k | 0 <= k < |b| ensures Holds(b[k], m) {
        assert (a + b)[k + |a|] == b[k];
      }
    }
  }

  /** The assertions of block `b` hold exactly when its start lies in the
      line and, after the first block, beyond the previous block's gap. */
  lemma BlockConstraintsMeaning(axis: Axis, l: nat, clue: Clue, n: nat, b: nat, m: Interp)
    requires b < |clue|
    ensures var starts := StartsOf(m, axis, l, |clue|);
      AllHold(BlockConstraints(axis, l, clue, n, b), m) <==>
        && 0 <= starts[b] <= n - clue[b]
        && (b > 0 ==> starts[b] > starts[b - 1] + clue[b - 1])
  {
    var own := BlockConstraints(axis, l, clue, n, b);
    var starts := StartsOf(m, axis, l, |clue|);
    assert Holds(own[0], m) <==> 0 <= starts[b];
    assert Holds(own[1], m) <==> starts[b] <= n - clue[b];
    if b > 0 {
      assert Holds(own[2], m) <==> starts[b] > starts[b - 1] + clue[b - 1];
    }
  }

  /** The block assertions from block `b` on hold exactly when those blocks
      obey the placement constraints. */
  lemma {:induction false} BlocksFromMeaning(axis: Axis, l: nat, clue: Clue, n: nat, b: nat, m: Interp)
    requires b <= |clue|
    ensures var starts := StartsOf(m, axis, l, |clue|);
      AllHold(BlocksFrom(axis, l, clue, n, b), m) <==>
        && (forall j :: b <= j < |clue| ==> 0 <= starts[j] <= n - clue[j])
        && (forall j :: b <= j < |clue| && j > 0 ==> starts[j] > starts[j - 1] + clue[j - 1])
    decreases |clue| - b
  {
    if b < |clue| {
      BlocksFromMeaning(axis, l, clue, n, b + 1, m);
      BlockConstraintsMeaning(axis, l, clue, n, b, m);
      AllHoldAppend(BlockConstraints(axis, l, clue, n, b), BlocksFrom(axis, l, clue, n, b + 1), m);
    }
  }

  /** A cell assertion holds exactly when the cell's value is the coverage of
      the cell by the assignment's placement. */
  lemma CellConstraintMeaning(axis: Axis, l: nat, clue: Clue, i: nat, m: Interp)
    ensures Holds(CellConstraint(axis, l, clue, i), m) <==>
      m.truth(CellVar(axis, l, i)) == Covered(clue, StartsOf(m, axis, l, |clue|), i)
  {
    var starts := StartsOf(m, axis, l, |clue|);
    var spans := CellConstraint(axis, l, clue, i).spans;
    forall j | 0 <= j < |clue| ensures SpanHolds(spans[j], m) <==> InBlock(clue, starts, j, i) {
    }
    if exists j :: 0 <= j < |spans| && SpanHolds(spans[j], m) {
      var j :| 0 <= j < |spans| && SpanHolds(spans[j], m);
      assert InBlock(clue, starts, j, i);
    }
    if Covered(clue, starts, i) {
      var j :| 0 <= j < |clue| && InBlock(clue, starts, j, i);
      assert SpanHolds(spans[j], m);
    }
  }

  lemma {:induction false} CellsFromMeaning(axis: Axis, l: nat, clue: Clue, n: nat, i: nat, m: Interp)
    ensures AllHold(CellsFrom(axis, l, clue, n, i), m) <==>
      forall k :: i <= k < n ==> m.truth(CellVar(axis, l, k)) == Covered(clue, StartsOf(m, axis, l, |clue|), k)
    decreases n - i
  {
    if i < n {
      CellsFromMeaning(axis, l, clue, n, i + 1, m);
      AllHoldAppend([CellConstraint(axis, l, clue, i)], CellsFrom(axis, l, clue, n, i + 1), m);
      CellConstraintMeaning(axis, l, clue, i, m);
      var starts := StartsOf(m, axis, l, |clue|);
      var one := [CellConstraint(axis, l, clue, i)];
      assert one[0] == CellConstraint(axis, l, clue, i);
      assert AllHold(one, m) <==> Holds(CellConstraint(axis, l, clue, i), m);
      assert (forall k :: i <= k < n ==> m.truth(CellVar(axis, l, k)) == Covered(clue, starts, k)) <==>
        (m.truth(CellVar(axis, l, i)) == Covered(clue, starts, i)
         && forall k :: i + 1 <= k < n ==> m.truth(CellVar(axis, l, k)) == Covered(clue, starts, k));
    }
  }

  /** The assertions of one line hold exactly when the assignment encodes a
      valid placement of the line's clue and the line's cells are the cells
      that placement covers. */
  lemma LineConstraintsMeaning(axis: Axis, l: nat, clue: Clue, n: nat, m: Interp)
    ensures AllHold(LineConstraints(axis, l, clue, n), m) <==> LineEncoded(m, axis, l, clue, n)
  {
    var starts := StartsOf(m, axis, l, |clue|);
    BlocksFromMeaning(axis, l, clue, n, 0, m);
    CellsFromMeaning(axis, l, clue, n, 0, m);
    AllHoldAppend(BlocksFrom(axis, l, clue, n, 0), CellsFrom(axis, l, clue, n, 0), m);
    var cells, induced := CellsOf(m, axis, l, n), LineOf(clue, starts, n);
    assert (forall k :: 0 <= k < n ==> m.truth(CellVar(axis, l, k)) == Covered(clue, starts, k))
      <==> cells == induced by {
      if cells == induced {
        forall k | 0 <= k < n ensures m.truth(CellVar(axis, l, k)) == Covered(clue, starts, k) {
          assert cells[k] == induced[k];
        }
      }
    }
  }

  lemma {:induction false} AxisConstraintsMeaning(axis: Axis, clues: seq<Clue>, n: nat, l: nat, m: Interp)
    ensures AllHold(AxisConstraints(axis, clues, n, l), m) <==>
      forall k :: l <= k < |clues| ==> LineEncoded(m, axis, k, clues[k], n)
    decreases |clues| - l
  {
    if l < |clues| {
      AxisConstraintsMeaning(axis, clues, n, l + 1, m);
      LineConstraintsMeaning(axis, l, clues[l], n, m);
      AllHoldAppend(LineConstraints(axis, l, clues[l], n), AxisConstraints(axis, clues, n, l + 1), m);
    }
  }

  /** The whole constraint system holds exactly when every row and every
      column is encoded faithfully. */
  lemma AddConstraintsMeaning(p: Nonogram, m: Interp)
    ensures AllHold(AddConstraints(p), m) <==>
      && (forall r :: 0 <= r < p.Rows() ==> LineEncoded(m, Rows, r, p.rowBlocks[r], p.Cols()))
      && (forall c :: 0 <= c < p.Cols() ==> LineEncoded(m, Cols, c, p.columnBlocks[c], p.Rows()))
  {
    AxisConstraintsMeaning(Rows, p.rowBlocks, p.Cols(), 0, m);
    AxisConstraintsMeaning(Cols, p.columnBlocks, p.Rows(), 0, m);
    AllHoldAppend(AxisConstraints(Rows, p.rowBlocks, p.Cols(), 0), AxisConstraints(Cols, p.columnBlocks, p.Rows(), 0), m);
  }

  // ------------------------------------------------------------------- grids

  /** A solved picture: `grid[r][c]` is true when the cell is filled. */
  type Grid = seq<seq<bool>>

  predicate IsGrid(grid: Grid, rows: nat, cols: nat) {
    |grid| == rows && forall r :: 0 <= r < rows ==> |grid[r]| == cols
  }

  function Column(grid: Grid, c: nat): seq<bool>
    requires forall r :: 0 <= r < |grid| ==> c < |grid[r]|
  {
    seq(|grid|, r requires 0 <= r < |grid| => grid[r][c])
  }

  /** Every row of the grid is a filling some valid placement of its row clue
      induces, and so is every column for its column clue. */
  ghost predicate GridSatisfies(rowClues: seq<Clue>, colClues: seq<Clue>, grid: Grid) {
    && IsGrid(grid, |rowClues|, |colClues|)
    && (forall r :: 0 <= r < |rowClues| ==> LineFits(rowClues[r], |colClues|, grid[r]))
    && (forall c :: 0 <= c < |colClues| ==> LineFits(colClues[c], |rowClues|, Column(grid, c)))
  }

  /** The picture a satisfying assignment describes: one Boolean per cell. */
  function EvaluateGrid(p: Nonogram, m: Interp): (grid: Grid)
    ensures IsGrid(grid, p.Rows(), p.Cols())
  {
    seq(p.Rows(), r requires 0 <= r => seq(p.Cols(), c requires 0 <= c => m.truth(Cell(r, c))))
  }

  /** The rows and columns of the evaluated grid are the cell values the
      assignment gives each line. */
  lemma EvaluatedLines(p: Nonogram, m: Interp)
    ensures forall r :: 0 <= r < p.Rows() ==> EvaluateGrid(p, m)[r] == CellsOf(m, Rows, r, p.Cols())
    ensures forall c :: 0 <= c < p.Cols() ==> Column(EvaluateGrid(p, m), c) == CellsOf(m, Cols, c, p.Rows())
  {
    var grid := EvaluateGrid(p, m);
    forall r | 0 <= r < p.Rows() ensures grid[r] == CellsOf(m, Rows, r, p.Cols()) {
      var line := CellsOf(m, Rows, r, p.Cols());
      forall c | 0 <= c < p.Cols() ensures grid[r][c] == line[c] {
        assert CellVar(Rows, r, c) == Cell(r, c);
      }
    }
    forall c | 0 <= c < p.Cols() ensures Column(grid, c) == CellsOf(m, Cols, c, p.Rows()) {
      var line := CellsOf(m, Cols, c, p.Rows());
      forall r | 0 <= r < p.Rows() ensures Column(grid, c)[r] == line[r] {
        assert CellVar(Cols, c, r) == Cell(r, c);
      }
    }
  }

  /** Soundness of the encoding: the grid read from any assignment that
      satisfies every assertion satisfies every row and column clue. */
  lemma ModelGridSatisfies(p: Nonogram, m: Interp)
    requires AllHold(AddConstraints(p), m)
    ensures GridSatisfies(p.rowBlocks, p.columnBlocks, EvaluateGrid(p, m))
  {
    var grid := EvaluateGrid(p, m);
    AddConstraintsMeaning(p, m);
    EvaluatedLines(p, m);
    forall r | 0 <= r < p.Rows() ensures LineFits(p.rowBlocks[r], p.Cols(), grid[r]) {
      assert LineEncoded(m, Rows, r, p.rowBlocks[r], p.Cols());
    }
    forall c | 0 <= c < p.Cols() ensures LineFits(p.columnBlocks[c], p.Rows(), Column(grid, c)) {
      assert LineEncoded(m, Cols, c, p.columnBlocks[c], p.Rows());
    }
  }

  /** Some valid placement inducing `line`, when there is one. */
  ghost function ChooseStarts(clue: Clue, n: nat, line: seq<bool>): (starts: seq<int>)
    ensures LineFits(clue, n, line) ==> ValidPlacement(clue, n, starts) && line == LineOf(clue, starts, n)
  {
    if LineFits(clue, n, line) then
      var starts :| ValidPlacement(clue, n, starts) && line == LineOf(clue, starts, n); starts
    else []
  }

  /** An assignment that describes `grid`, with the starts of every line
      taken from a placement inducing it. */
  ghost function AssignmentOf(p: Nonogram, grid: Grid): Interp
    requires IsGrid(grid, p.Rows(), p.Cols())
  {
    Interp(
      (v: Var) => match v
        case Cell(r, c) => if r < p.Rows() && c < p.Cols() then grid[r][c] else false
        case RowStart(r, b) => false
        case ColStart(c, b) => false,
      (v: Var) => match v
        case Cell(r, c) => 0
        case RowStart(r, b) =>
          var starts := if r < p.Rows() then ChooseStarts(p.rowBlocks[r], p.Cols(), grid[r]) else [];
          if b < |starts| then starts[b] else 0
        case ColStart(c, b) =>
          var starts := if c < p.Cols() then ChooseStarts(p.columnBlocks[c], p.Rows(), Column(grid, c)) else [];
          if b < |starts| then starts[b] else 0)
  }

  /** Completeness of the encoding: every grid that satisfies the clues is
      the grid of some assignment satisfying every assertion, so the solver
      can only report no model when no such grid exists. */
  lemma EncodingComplete(p: Nonogram, grid: Grid)
    requires GridSatisfies(p.rowBlocks, p.columnBlocks, grid)
    ensures exists m :: AllHold(AddConstraints(p), m) && EvaluateGrid(p, m) == grid
  {
    var m := AssignmentOf(p, grid);
    EvaluatedLines(p, m);
    forall r | 0 <= r < p.Rows() ensures LineEncoded(m, Rows, r, p.rowBlocks[r], p.Cols()) {
      var starts := ChooseStarts(p.rowBlocks[r], p.Cols(), grid[r]);
      var got := StartsOf(m, Rows, r, |p.rowBlocks[r]|);
      forall b | 0 <= b < |starts| ensures got[b] == starts[b] {
        assert StartVar(Rows, r, b) == RowStart(r, b);
      }
      assert got == starts;
      assert CellsOf(m, Rows, r, p.Cols()) == grid[r];
    }
    forall c | 0 <= c < p.Cols() ensures LineEncoded(m, Cols, c, p.columnBlocks[c], p.Rows()) {
      var starts := ChooseStarts(p.columnBlocks[c], p.Rows(), Column(grid, c));
      var got := StartsOf(m, Cols, c, |p.columnBlocks[c]|);
      forall b | 0 <= b < |starts| ensures got[b] == starts[b] {
        assert StartVar(Cols, c, b) == ColStart(c, b);
      }
      assert got == starts;
      assert CellsOf(m, Cols, c, p.Rows()) == Column(grid, c);
    }
    AddConstraintsMeaning(p, m);
    var evaluated := EvaluateGrid(p, m);
    forall r | 0 <= r < p.Rows() ensures evaluated[r] == grid[r] {
      assert forall c :: 0 <= c < p.Cols() ==> evaluated[r][c] == grid[r][c];
    }
    assert evaluated == grid;
  }

  /** Every line of the grid reads, run by run, as the non-zero blocks of its
      clue. */
  ghost predicate GridRunsMatch(rowClues: seq<Clue>, colClues: seq<Clue>, grid: Grid)
    requires IsGrid(grid, |rowClues|, |colClues|)
  {
    && (forall r :: 0 <= r < |rowClues| ==> Runs(grid[r]) == Positives(rowClues[r]))
    && (forall c :: 0 <= c < |colClues| ==> Runs(Column(grid, c)) == Positives(colClues[c]))
  }

  /** For clues of non-negative blocks a grid that satisfies them reads as
      the clues; for clues of positive blocks, as in a well-formed puzzle,
      reading as the clues is also enough to satisfy them. */
  lemma GridSatisfiesIffRuns(rowClues: seq<Clue>, colClues: seq<Clue>, grid: Grid)
    requires forall r :: 0 <= r < |rowClues| ==> NonNegative(rowClues[r])
    requires forall c :: 0 <= c < |colClues| ==> NonNegative(colClues[c])
    requires IsGrid(grid, |rowClues|, |colClues|)
    ensures GridSatisfies(rowClues, colClues, grid) ==> GridRunsMatch(rowClues, colClues, grid)
    ensures (forall r :: 0 <= r < |rowClues| ==> AllPositive(rowClues[r]))
         && (forall c :: 0 <= c < |colClues| ==> AllPositive(colClues[c]))
         ==> (GridSatisfies(rowClues, colClues, grid) <==> GridRunsMatch(rowClues, colClues, grid))
  {
    forall r | 0 <= r < |rowClues| {
      LineFitsIffRuns(rowClues[r], |colClues|, grid[r]);
    }
    forall c | 0 <= c < |colClues| {
      LineFitsIffRuns(colClues[c], |rowClues|, Column(grid, c));
    }
  }

  // ------------------------------------------------------------------- solve

  /** The solver's check always counts as success, so an unsatisfiable
      puzzle surfaces as a failure to read a model rather than as a
      "no solution" answer. */
  datatype SolveError = ModelNotAvailable

  /** Solving: `answer` is the model the solver produced for
      `AddConstraints(p)`, or `None` when it has none (unsatisfiable or
      unknown). A model satisfies every assertion; that is the solver's
      guarantee, stated as the precondition. */
  function Solve(p: Nonogram, answer: Option<Interp>): (r: Result<Grid, SolveError>)
    requires answer.Some? ==> AllHold(AddConstraints(p), answer.value)
    ensures r.Success? <==> answer.Some?
    ensures r.Success? ==> IsGrid(r.value, p.Rows(), p.Cols())
    ensures r.Success? ==> GridSatisfies(p.rowBlocks, p.columnBlocks, r.value)
  {
    match answer
    case None => Failure(ModelNotAvailable)
    case Some(m) =>
      ModelGridSatisfies(p, m);
      Success(EvaluateGrid(p, m))
  }

  /** An unsatisfiable puzzle: one row with no blocks crossing one column
      that needs a block of one cell. Solving it raises instead of reporting
      that there is no solution. */
  lemma UnsatisfiableRaises()
    ensures var p := Nonogram([[1]], [[]], None, None);
      && (forall m :: !AllHold(AddConstraints(p), m))
      && Solve(p, None) == Failure(ModelNotAvailable)
      && SolveChecked(p, Unsat) == NoSolution
  {
    var p := Nonogram([[1]], [[]], None, None);
    forall m ensures !AllHold(AddConstraints(p), m) {
      AddConstraintsMeaning(p, m);
      assert LineEncoded(m, Rows, 0, [], 1) ==> !m.truth(Cell(0, 0)) by {
        assert LineOf([], [], 1)[0] == Covered([], [], 0);
        assert CellsOf(m, Rows, 0, 1)[0] == m.truth(Cell(0, 0));
      }
      assert LineEncoded(m, Cols, 0, [1], 1) ==> m.truth(Cell(0, 0)) by {
        var starts := StartsOf(m, Cols, 0, 1);
        assert InBlock([1], starts, 0, 0) <== ValidPlacement([1], 1, starts);
        assert LineOf([1], starts, 1)[0] == Covered([1], starts, 0);
        assert CellsOf(m, Cols, 0, 1)[0] == m.truth(Cell(0, 0));
      }
    }
  }

  // ------------------------------------------------ the intended outcome

  /** What the solver's check answers. */
  datatype CheckAnswer = Sat(model: Interp) | Unsat | Unknown

  /** The pair `solve` returns: `(True, grid)` or `(False, None)`. */
  datatype Outcome = Solved(grid: Grid) | NoSolution

  /** A puzzle whose clues some grid satisfies has a satisfying assignment. */
  lemma SatisfiableWhenSolvable(p: Nonogram)
    ensures forall grid :: GridSatisfies(p.rowBlocks, p.columnBlocks, grid) ==>
      exists m :: AllHold(AddConstraints(p), m)
  {
    forall grid | GridSatisfies(p.rowBlocks, p.columnBlocks, grid)
      ensures exists m :: AllHold(AddConstraints(p), m)
    {
      EncodingComplete(p, grid);
    }
  }

  /** Solving with the check compared against `sat`, so that an
      unsatisfiable or undecided puzzle takes the `(False, None)` branch.
      The solver's guarantees are the preconditions: a model satisfies every
      assertion, and `unsat` means no assignment does. */
  function SolveChecked(p: Nonogram, answer: CheckAnswer): (r: Outcome)
    requires answer.Sat? ==> AllHold(AddConstraints(p), answer.model)
    requires answer.Unsat? ==> forall m :: !AllHold(AddConstraints(p), m)
    ensures r.Solved? <==> answer.Sat?
    ensures r.Solved? ==> IsGrid(r.grid, p.Rows(), p.Cols()) && GridSatisfies(p.rowBlocks, p.columnBlocks, r.grid)
    ensures answer.Unsat? ==> forall grid :: !GridSatisfies(p.rowBlocks, p.columnBlocks, grid)
  {
    match answer
    case Sat(m) =>
      ModelGridSatisfies(p, m);
      Solved(EvaluateGrid(p, m))
    case Unsat =>
      SatisfiableWhenSolvable(p);
      NoSolution
    case Unknown => NoSolution
  }
}
