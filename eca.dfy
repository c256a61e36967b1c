/**
  The entry points of the simulator: `simulate` for one rule, the batch over
  all 256 rules that `main` runs, and the "middle" initial row.
*/
module Eca {
  import opened Cells
  import opened RuleDecoder
  import opened Engine

  /**
    simulate(rule, init_state, height): the history of `height` generations of
    `init_state`, one row per generation, each as wide as `init_state`. The
    initial row is a uint8 array of at least one cell.
  */
  function Simulate(rule: int, init: Row, height: nat): (history: seq<Row>)
    requires 0 <= rule < 256 && |init| >= 1 && IsByteRow(init) && height >= 1
    ensures |history| == height
    ensures forall t :: 0 <= t < height ==> |history[t]| == |init|
  {
    Run(Decode(rule), init, height)
  }

  /** The batch in `main`: `simulate` mapped over the rules 0..255 with a shared initial row. */
  function SimulateAll(init: Row, height: nat): (histories: seq<seq<Row>>)
    requires |init| >= 1 && IsByteRow(init) && height >= 1
    ensures |histories| == 256
    ensures forall r :: 0 <= r < 256 ==> |histories[r]| == height
  {
    seq(256, r requires 0 <= r < 256 => Simulate(r, init, height))
  }

  /** The "middle" initial row: zeros with a single 1 at index width / 2. */
  function MiddleRow(width: nat): (row: Row)
    ensures |row| == width
  {
    seq(width, i requires 0 <= i < width => if i == width / 2 then 1 else 0)
  }

  // ---------------------------------------------------------------------
  // Properties of `simulate`.

  /** Row t of the result is generation t of the reference semantics, as wide as the initial row. */
  lemma SimulateIsGenerations(rule: int, init: Row, height: nat, t: nat)
    requires 0 <= rule < 256 && |init| >= 1 && IsByteRow(init) && t < height
    ensures Simulate(rule, init, height)[t] == Generation(Decode(rule), init, t)
    ensures |Simulate(rule, init, height)[t]| == |init|
  {
    RunIsGenerations(Decode(rule), init, height, t);
  }

  /** Row 0 of the result is the initial row, unchanged. */
  lemma SimulateKeepsInitialRow(rule: int, init: Row, height: nat)
    requires 0 <= rule < 256 && |init| >= 1 && IsByteRow(init) && height >= 1
    ensures Simulate(rule, init, height)[0] == init
  {
    SimulateIsGenerations(rule, init, height, 0);
    GenerationStep(Decode(rule), init, 0);
  }

  /**
    The update is synchronous: row t+1 is the successor of row t and of
    nothing else.
  */
  lemma SimulateStep(rule: int, init: Row, height: nat, t: nat)
    requires 0 <= rule < 256 && |init| >= 1 && IsByteRow(init) && t + 1 < height
    ensures Simulate(rule, init, height)[t + 1] == Successor(Decode(rule), Simulate(rule, init, height)[t])
  {
    RunStep(Decode(rule), init, height, t);
  }

  /**
    The per-cell successor formula with circular neighbours (c-1) mod W and
    (c+1) mod W; on a binary row it is the plain table entry.
  */
  lemma SimulateCell(rule: int, init: Row, height: nat, t: nat, c: nat)
    requires 0 <= rule < 256 && |init| >= 1 && IsByteRow(init) && t + 1 < height && c < |init|
    ensures var h, w := Simulate(rule, init, height), |init|;
      h[t + 1][c] == Lookup(Decode(rule), h[t][(c - 1) % w], h[t][c], h[t][(c + 1) % w])
    ensures var h, w := Simulate(rule, init, height), |init|;
      IsBinary(h[t]) ==> h[t + 1][c] == Decode(rule)[h[t][(c - 1) % w]][h[t][c]][h[t][(c + 1) % w]]
  {
    SimulateStep(rule, init, height, t);
    SimulateIsGenerations(rule, init, height, t);
    SuccessorCell(Decode(rule), Simulate(rule, init, height)[t], c);
  }

  /** The wraparound at the edges: column 0's left neighbour is column W-1, column W-1's right neighbour is column 0. */
  lemma SimulateEdges(rule: int, init: Row, height: nat, t: nat)
    requires 0 <= rule < 256 && |init| >= 1 && IsByteRow(init) && t + 1 < height
    ensures var h, w := Simulate(rule, init, height), |init|;
      h[t + 1][0] == Lookup(Decode(rule), h[t][w - 1], h[t][0], h[t][Right(0, w)])
    ensures var h, w := Simulate(rule, init, height), |init|;
      h[t + 1][w - 1] == Lookup(Decode(rule), h[t][Left(w - 1, w)], h[t][w - 1], h[t][0])
  {
    SimulateStep(rule, init, height, t);
    SimulateIsGenerations(rule, init, height, t);
  }

  /** Every row after row 0 is binary; so is row 0, and hence every row, when the initial row is. */
  lemma SimulateIsBinary(rule: int, init: Row, height: nat, t: nat)
    requires 0 <= rule < 256 && |init| >= 1 && IsByteRow(init) && t < height
    requires t > 0 || IsBinary(init)
    ensures IsBinary(Simulate(rule, init, height)[t])
  {
    if t == 0 {
      SimulateKeepsInitialRow(rule, init, height);
    } else {
      SimulateStep(rule, init, height, t - 1);
      DecodeIsBinary(rule);
      SuccessorIsBinary(Decode(rule), Simulate(rule, init, height)[t - 1]);
    }
  }

  /**
    Rule 0 turns every row after row 0 all-zero and rule 255 turns it all-one,
    whatever the initial row.
  */
  lemma ConstantRuleHistory(rule: int, v: int, init: Row, height: nat, t: nat)
    requires (rule == 0 && v == 0) || (rule == 255 && v == 1)
    requires |init| >= 1 && IsByteRow(init) && 0 < t < height
    ensures IsConstant(Simulate(rule, init, height)[t], v)
  {
    ConstantRule(rule, v);
    RunOfConstantTable(Decode(rule), v, init, height, t);
  }

  /** Width 1: the single cell is its own left and right neighbour. */
  lemma SingleCell(rule: int, x: int, height: nat, t: nat)
    requires 0 <= rule < 256 && IsByte(x) && t + 1 < height
    ensures |Simulate(rule, [x], height)[t]| == 1
    ensures var y := Simulate(rule, [x], height)[t][0];
      Simulate(rule, [x], height)[t + 1] == [Lookup(Decode(rule), y, y, y)]
  {
    SimulateStep(rule, [x], height, t);
    SimulateIsGenerations(rule, [x], height, t);
  }

  /** The six table entries that rule 110 (bits 01101110) uses on the example rows. */
  lemma Rule110Entries()
    ensures var t := Decode(110);
      t[0][0][0] == 0 && t[0][0][1] == 1 && t[0][1][0] == 1 && t[0][1][1] == 1 && t[1][0][0] == 0 && t[1][1][0] == 1
  {
    DecodeEntry(110, 0, 0, 0);
    DecodeEntry(110, 0, 0, 1);
    DecodeEntry(110, 0, 1, 0);
    DecodeEntry(110, 0, 1, 1);
    DecodeEntry(110, 1, 0, 0);
    DecodeEntry(110, 1, 1, 0);
  }

  /** Step 1 of the example, under any table that agrees with rule 110 on the entries it reads. */
  lemma Rule110FirstStep(table: Table, row: NonEmptyRow)
    requires Shaped(table)
    requires table[0][0][0] == 0 && table[0][0][1] == 1 && table[0][1][0] == 1 && table[1][0][0] == 0
    requires row == [0, 0, 0, 1, 0, 0, 0]
    ensures Successor(table, row) == [0, 0, 1, 1, 0, 0, 0]
  {
  }

  /** Step 2 of the example, under any table that agrees with rule 110 on the entries it reads. */
  lemma Rule110SecondStep(table: Table, row: NonEmptyRow)
    requires Shaped(table)
    requires table[0][0][0] == 0 && table[0][0][1] == 1 && table[0][1][1] == 1
    requires table[1][0][0] == 0 && table[1][1][0] == 1
    requires row == [0, 0, 1, 1, 0, 0, 0]
    ensures Successor(table, row) == [0, 1, 1, 1, 0, 0, 0]
  {
  }

  /**
    Three generations from [0,0,0,1,0,0,0] under any table that agrees with rule 110 on the entries they read.
    The row and height arrive as parameters fixed by `requires`, not as literals in the calls,
    so that the verifier does not unfold Run on literal arguments.
  */
  lemma Rule110Run(table: Table, init: NonEmptyRow, height: nat)
    requires Shaped(table)
    requires table[0][0][0] == 0 && table[0][0][1] == 1 && table[0][1][0] == 1
    requires table[0][1][1] == 1 && table[1][0][0] == 0 && table[1][1][0] == 1
    requires init == [0, 0, 0, 1, 0, 0, 0] && height == 3
    ensures var h := Run(table, init, height);
      h[0] == [0, 0, 0, 1, 0, 0, 0] && h[1] == [0, 0, 1, 1, 0, 0, 0] && h[2] == [0, 1, 1, 1, 0, 0, 0]
  {
    var h := Run(table, init, height);
    RunIsGenerations(table, init, height, 0);
    GenerationStep(table, init, 0);
    RunStep(table, init, height, 0);
    Rule110FirstStep(table, h[0]);
    RunStep(table, init, height, 1);
    Rule110SecondStep(table, h[1]);
  }

  /**
    Rule 110 from the width-7 "middle" row, three generations. As in Rule110Run, the
    arguments are fixed by `requires` so that Simulate is not unfolded on literals;
    Rule110ExampleAt states the same for the literal call.
  */
  lemma Rule110Example(init: Row, height: nat)
    requires init == MiddleRow(7) && height == 3
    ensures var h := Simulate(110, init, height);
      |h| == 3 && h[0] == [0, 0, 0, 1, 0, 0, 0] && h[1] == [0, 0, 1, 1, 0, 0, 0] && h[2] == [0, 1, 1, 1, 0, 0, 0]
  {
    assert init == [0, 0, 0, 1, 0, 0, 0];
    Rule110Entries();
    Rule110Run(Decode(110), init, height);
  }

  /** The example as the literal call `simulate(110, middle_row(7), 3)`. */
  lemma Rule110ExampleAt()
    ensures var h := Simulate(110, MiddleRow(7), 3);
      |h| == 3 && h[0] == [0, 0, 0, 1, 0, 0, 0] && h[1] == [0, 0, 1, 1, 0, 0, 0] && h[2] == [0, 1, 1, 1, 0, 0, 0]
  {
    Rule110Example(MiddleRow(7), 3);
  }

  // ---------------------------------------------------------------------
  // The batch and the initial row.

  /** Entry r of the batch is the history of rule r alone: no rule's run affects another's. */
  lemma SimulateAllIsPerRule(init: Row, height: nat, r: int, t: nat)
    requires |init| >= 1 && IsByteRow(init) && 0 <= r < 256 && t < height
    ensures SimulateAll(init, height)[r] == Simulate(r, init, height)
    ensures SimulateAll(init, height)[r][t] == Generation(Decode(r), init, t)
  {
    SimulateIsGenerations(r, init, height, t);
  }

  /** The "middle" row has exactly one cell set, the one at width / 2. */
  lemma MiddleRowHasOneCell(width: nat)
    requires width >= 1
    ensures width / 2 < width && MiddleRow(width)[width / 2] == 1
    ensures forall i :: 0 <= i < width && i != width / 2 ==> MiddleRow(width)[i] == 0
    ensures IsBinary(MiddleRow(width))
  {
  }
}
