/**
  The generation engine of `simulate`: rows padded by one wrapped cell on each
  side, one synchronous step per generation, the scan that folds the step
  height-1 times, and the strip of the padding columns. Beside it, the
  reference semantics with modular neighbour indices, and the proofs that
  the two agree.
*/
module Engine {
  import opened Cells
  import opened RuleDecoder
  import opened Scanning

  /** A padded row: a row of at least one cell with its two wrapped neighbours. */
  type PaddedRow = p: Row | |p| >= 3 witness [0, 0, 0]

  /**
    Indexing a jnp array clamps an out-of-range index into range, so a cell
    value above 1 selects the same table entry as 1.
  */
  function Clamp(v: int): (i: int)
    ensures IsBit(i)
    ensures IsBit(v) ==> i == v
    ensures v >= 1 ==> i == 1
  {
    if v == 0 then 0 else 1
  }

  /** rule_table[l, c, r]: the table entry for one neighbourhood. */
  function Lookup(table: Table, l: int, c: int, r: int): (v: int)
    requires Shaped(table)
    ensures IsBit(l) && IsBit(c) && IsBit(r) ==> v == table[l][c][r]
    ensures BinaryTable(table) ==> IsBit(v)
  {
    table[Clamp(l)][Clamp(c)][Clamp(r)]
  }

  /** jnp.pad(row, 1, mode='wrap'): the last cell in front, the first cell behind. */
  function Pad(row: NonEmptyRow): (p: PaddedRow)
    ensures |p| == |row| + 2
  {
    [row[|row| - 1]] + row + [row[0]]
  }

  /** state[1:-1]: the row without its padding columns. */
  function Unpad(p: PaddedRow): (row: NonEmptyRow)
    ensures |row| == |p| - 2
  {
    p[1..|p| - 1]
  }

  /** rule_table[state[0:-2], state[1:-1], state[2:]], elementwise. */
  function LookupSlices(table: Table, p: PaddedRow): (inner: NonEmptyRow)
    requires Shaped(table)
    ensures |inner| == |p| - 2
    ensures forall i {:trigger inner[i]} :: 0 <= i < |p| - 2 ==> inner[i] == Lookup(table, p[i], p[i + 1], p[i + 2])
  {
    seq(|p| - 2, i requires 0 <= i < |p| - 2 => Lookup(table, p[i], p[i + 1], p[i + 2]))
  }

  /**
    `step`: look up every interior cell from the slices state[0:-2],
    state[1:-1] and state[2:] of the previous padded row, then pad the result.
  */
  function StepPadded(table: Table, p: PaddedRow): (next: PaddedRow)
    requires Shaped(table)
    ensures |next| == |p|
  {
    Pad(LookupSlices(table, p))
  }

  /** `step` with its rule table bound, as the scan receives it. */
  function StepOf(table: Table): (step: PaddedRow -> PaddedRow)
    requires Shaped(table)
    ensures forall p: PaddedRow :: |step(p)| == |p|
  {
    p => StepPadded(table, p)
  }

  /**
    The padded history: the padded initial row in front of the height-1
    rows that lax.scan produces from it.
  */
  function PaddedHistory(table: Table, init: NonEmptyRow, height: nat): (h: seq<PaddedRow>)
    requires Shaped(table) && height >= 1
    ensures |h| == height && h[0] == Pad(init)
  {
    [Pad(init)] + Scan(StepOf(table), Pad(init), height - 1)
  }

  /** history[:, 1:-1]: every row without its padding columns. */
  function Strip(h: seq<PaddedRow>): (g: seq<NonEmptyRow>)
    ensures |g| == |h|
    ensures forall t :: 0 <= t < |h| ==> g[t] == Unpad(h[t])
  {
    seq(|h|, t requires 0 <= t < |h| => Unpad(h[t]))
  }

  /** The history of `init` under a decoded table, as the source builds it. */
  function Run(table: Table, init: NonEmptyRow, height: nat): (g: seq<NonEmptyRow>)
    requires Shaped(table) && height >= 1
    ensures |g| == height
    ensures forall t :: 0 <= t < height ==> |g[t]| == |init|
  {
    PaddedHistoryWidth(table, init, height);
    Strip(PaddedHistory(table, init, height))
  }

  // ---------------------------------------------------------------------
  // Reference semantics: modular neighbour indices, no padding.

  /** The left neighbour of column c on a ring of w cells: (c - 1) mod w. */
  function Left(c: int, w: int): (i: int)
    requires 0 <= c < w
    ensures 0 <= i < w
  {
    if c == 0 then w - 1 else c - 1
  }

  /** The right neighbour of column c on a ring of w cells: (c + 1) mod w. */
  function Right(c: int, w: int): (i: int)
    requires 0 <= c < w
    ensures 0 <= i < w
  {
    if c == w - 1 then 0 else c + 1
  }

  /** The neighbour indices are the modular ones, for every width including 1. */
  lemma NeighboursAreModular(c: int, w: int)
    requires 0 <= c < w
    ensures Left(c, w) == (c - 1) % w
    ensures Right(c, w) == (c + 1) % w
  {
  }

  /**
    The synchronous successor of a row: every new cell c is read off the table
    from the old row's cells (c-1) mod W, c and (c+1) mod W, on a ring.
  */
  function Successor(table: Table, row: NonEmptyRow): (next: NonEmptyRow)
    requires Shaped(table)
    ensures |next| == |row|
    ensures forall c {:trigger next[c]} :: 0 <= c < |row| ==>
      next[c] == Lookup(table, row[Left(c, |row|)], row[c], row[Right(c, |row|)])
  {
    var w := |row|;
    seq(w, c requires 0 <= c < w => Lookup(table, row[Left(c, w)], row[c], row[Right(c, w)]))
  }

  /** The successor with its rule table bound. */
  function SuccessorOf(table: Table): NonEmptyRow -> NonEmptyRow
    requires Shaped(table)
  {
    row => Successor(table, row)
  }

  /** Generation t: the successor applied t times to the initial row. */
  function Generation(table: Table, init: NonEmptyRow, t: nat): NonEmptyRow
    requires Shaped(table)
  {
    Iterate(SuccessorOf(table), init, t)
  }

  /** Each generation is the successor of the one before it. */
  lemma GenerationStep(table: Table, init: NonEmptyRow, t: nat)
    requires Shaped(table)
    ensures Generation(table, init, 0) == init
    ensures Generation(table, init, t + 1) == Successor(table, Generation(table, init, t))
  {
  }

  /** Every generation is as wide as the initial row. */
  lemma GenerationWidth(table: Table, init: NonEmptyRow, t: nat)
    requires Shaped(table)
    ensures |Generation(table, init, t)| == |init|
  {
    IterateInvariant(SuccessorOf(table), (row: NonEmptyRow) => |row| == |init|, init, t);
  }

  /** Wrap padding is modular indexing: padded cell i is cell (i-1) mod W. */
  lemma PadIsModular(row: NonEmptyRow, i: int)
    requires 0 <= i < |row| + 2
    ensures Pad(row)[i] == row[(i - 1) % |row|]
  {
    var w := |row|;
    if i == 0 {
      assert (i - 1) % w == w - 1;
    } else if i == w + 1 {
      assert (i - 1) % w == 0;
    } else {
      assert (i - 1) % w == i - 1;
    }
  }

  /** Padding then slicing [1:-1] is the identity. */
  lemma UnpadPad(row: NonEmptyRow)
    ensures Unpad(Pad(row)) == row
  {
  }

  /** The three padded cells the step reads for column c are the ring neighbours of c. */
  lemma PadNeighbours(row: NonEmptyRow, c: int)
    requires 0 <= c < |row|
    ensures Pad(row)[c] == row[Left(c, |row|)]
    ensures Pad(row)[c + 1] == row[c]
    ensures Pad(row)[c + 2] == row[Right(c, |row|)]
  {
  }

  /** The source's padded step is the padding of the modular successor. */
  lemma StepPaddedIsSuccessor(table: Table, row: NonEmptyRow)
    requires Shaped(table)
    ensures StepPadded(table, Pad(row)) == Pad(Successor(table, row))
  {
    var inner := LookupSlices(table, Pad(row));
    var next := Successor(table, row);
    forall c | 0 <= c < |row| ensures inner[c] == next[c] {
      PadNeighbours(row, c);
    }
    assert inner == next;
  }

  /** The bound step acts on padded rows as the bound successor acts on rows. */
  lemma StepOfIsSuccessorOf(table: Table)
    requires Shaped(table)
    ensures forall row: NonEmptyRow :: StepOf(table)(Pad(row)) == Pad(SuccessorOf(table)(row))
  {
    forall row: NonEmptyRow ensures StepOf(table)(Pad(row)) == Pad(SuccessorOf(table)(row)) {
      StepPaddedIsSuccessor(table, row);
    }
  }

  /** Row t of the padded history is the padding of generation t. */
  lemma PaddedHistoryIsGenerations(table: Table, init: NonEmptyRow, height: nat, t: nat)
    requires Shaped(table) && t < height
    ensures PaddedHistory(table, init, height)[t] == Pad(Generation(table, init, t))
  {
    if t > 0 {
      var step, succ := StepOf(table), SuccessorOf(table);
      var scanned := Scan(step, Pad(init), height - 1);
      assert PaddedHistory(table, init, height)[t] == scanned[t - 1];
      ScanIsIterate(step, Pad(init), height - 1, t - 1);
      assert scanned[t - 1] == Iterate(step, Pad(init), t);
      StepOfIsSuccessorOf(table);
      IterateConjugate(step, succ, Pad, init, t);
      assert Iterate(step, Pad(init), t) == Pad(Iterate(succ, init, t));
    }
  }

  /** Every padded row is two cells wider than the initial row. */
  lemma PaddedHistoryWidth(table: Table, init: NonEmptyRow, height: nat)
    requires Shaped(table) && height >= 1
    ensures forall t :: 0 <= t < height ==> |PaddedHistory(table, init, height)[t]| == |init| + 2
  {
    forall t | 0 <= t < height ensures |PaddedHistory(table, init, height)[t]| == |init| + 2 {
      PaddedHistoryIsGenerations(table, init, height, t);
      GenerationWidth(table, init, t);
    }
  }

  /** Row t of the history the source builds is generation t. */
  lemma RunIsGenerations(table: Table, init: NonEmptyRow, height: nat, t: nat)
    requires Shaped(table) && t < height
    ensures Run(table, init, height)[t] == Generation(table, init, t)
    ensures |Run(table, init, height)[t]| == |init|
  {
    PaddedHistoryIsGenerations(table, init, height, t);
    UnpadPad(Generation(table, init, t));
    GenerationWidth(table, init, t);
  }

  /**
    The successor cell by cell in the modular form; on a binary row each cell
    is the plain table entry for its neighbourhood.
  */
  lemma SuccessorCell(table: Table, row: NonEmptyRow, c: int)
    requires Shaped(table) && 0 <= c < |row|
    ensures var w := |row|;
      Successor(table, row)[c] == Lookup(table, row[(c - 1) % w], row[c], row[(c + 1) % w])
    ensures var w := |row|;
      IsBinary(row) ==> Successor(table, row)[c] == table[row[(c - 1) % w]][row[c]][row[(c + 1) % w]]
  {
    NeighboursAreModular(c, |row|);
  }

  /** The update is synchronous: row t+1 of the history is the successor of row t. */
  lemma RunStep(table: Table, init: NonEmptyRow, height: nat, t: nat)
    requires Shaped(table) && t + 1 < height
    ensures Run(table, init, height)[t + 1] == Successor(table, Run(table, init, height)[t])
  {
    RunIsGenerations(table, init, height, t);
    RunIsGenerations(table, init, height, t + 1);
    GenerationStep(table, init, t);
  }

  /** Under a table whose every entry is v, every row after row 0 is all v. */
  lemma RunOfConstantTable(table: Table, v: int, init: NonEmptyRow, height: nat, t: nat)
    requires Shaped(table) && ConstantTable(table, v) && 0 < t < height
    ensures IsConstant(Run(table, init, height)[t], v)
  {
    RunStep(table, init, height, t - 1);
    SuccessorOfConstantTable(table, Run(table, init, height)[t - 1], v);
  }

  /** A successor row read off a binary table is binary. */
  lemma SuccessorIsBinary(table: Table, row: NonEmptyRow)
    requires Shaped(table) && BinaryTable(table)
    ensures IsBinary(Successor(table, row))
  {
  }

  /** With a table whose every entry is v, every successor row is all v. */
  lemma SuccessorOfConstantTable(table: Table, row: NonEmptyRow, v: int)
    requires Shaped(table) && ConstantTable(table, v)
    ensures IsConstant(Successor(table, row), v)
  {
  }
}
