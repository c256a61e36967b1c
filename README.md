# Elementary cellular automaton simulator — a Dafny model

This project models the simulation engine of `workshop1/eca.py`.
`simulate(rule, init_state, height)` runs a one-dimensional, two-state, radius-one cellular automaton, with rules in Wolfram's numbering. It has three parts:

- **Rule decoding.** The rule number is converted to uint8. Its bits are unpacked least-significant first and reshaped to a 2×2×2 table indexed `[left][centre][right]`.
- **The step.** The row is wrap-padded with one cell on each side. Each interior cell is then read off the table from the slices `state[0:-2]`, `state[1:-1]` and `state[2:]` of the previous padded row, and the result is padded again.
- **The history.** `jax.lax.scan` folds the step `height-1` times. The padded initial row is put in front, and the two padding columns are sliced off.

The model also covers two parts of `main`: the batch that maps `simulate` over all 256 rules, and the "middle" initial row.

All of it is pure, so the model is written as functions and lemmas. It has five modules:

- `Cells` (`cells.dfy`): rows of integer cells and predicates on them (uint8, binary, constant).
- `RuleDecoder` (`rule_decoder.dfy`):
  - `jnp.unpackbits(.., bitorder='little')`, the reshape, and its inverse `Encode`;
  - the `{rule:08b}` banner the program prints above the Wolfram table.
- `Scanning` (`scan.dfy`): `lax.scan`, and iteration of a function, over any carry type. Their laws are proved once, with the step left abstract.
- `Engine` (`engine.dfy`):
  - the padded rows, the step, the scan-built padded history and the strip, as the source writes them;
  - a reference semantics on rows without padding: the successor with neighbours `(c-1) mod W` and `(c+1) mod W`, and generation t as that successor applied t times;
  - a proof that row t of the source's history is generation t.
- `Eca` (`eca.dfy`): `Simulate`, the 256-rule batch, the middle row, and the properties of the whole.

Cells are integers. The source's uint8 element type is the predicate `IsByteRow`, which `Simulate` requires of its initial row. Table lookup clamps a cell value into 0..1, as indexing a jnp array with an out-of-range index does. So a cell above 1 in the initial row selects the same entries as 1. Every row after row 0 is binary, and row 0 is binary when the initial row is.

## Model

| member | source | states |
|---|---|---|
| RuleDecoder.UnpackLittle | workshop1/eca.py:104 | unpacking gives exactly `count` bits, each 0 or 1 |
| RuleDecoder.UnpackLittleAt | workshop1/eca.py:104 | bit i of the little-endian unpacking is `(n >> i) & 1` |
| RuleDecoder.ShiftRightIsDivision | workshop1/eca.py:104 | `n >> k`, as k halvings, is `n / 2^k` |
| RuleDecoder.PackUnpack | workshop1/eca.py:103-104 | packing the unpacked bits gives back every n below 2^count |
| RuleDecoder.UnpackPack | workshop1/eca.py:103-104 | a binary sequence packs to a number below 2^length, and that number unpacks back to the sequence |
| RuleDecoder.RuleBits | workshop1/eca.py:103-104 | a rule in 0..255 unpacks to 8 binary digits whose weighted sum `Σ bits[i]·2^i` is the rule |
| RuleDecoder.Reshape | workshop1/eca.py:105 | the reshape has shape (2,2,2), and entry [l][c][r] is bit 4l+2c+r |
| RuleDecoder.Flatten | workshop1/eca.py:105 | the inverse of the reshape: position 4l+2c+r holds entry [l][c][r] |
| RuleDecoder.Decode | workshop1/eca.py:103-105 | the decoded table has shape (2,2,2) |
| RuleDecoder.DecodeEntry | workshop1/eca.py:103-105 | entry (l,c,r) of the decoded table is `(rule >> (4l+2c+r)) & 1`, and so is 0 or 1 |
| RuleDecoder.DecodeIsBinary | workshop1/eca.py:103-105 | every entry of a decoded table is 0 or 1 |
| RuleDecoder.ConstantRuleBit | workshop1/eca.py:103-104 | all eight bits of rule 0 are 0 and all eight bits of rule 255 are 1 |
| RuleDecoder.ConstantRule | workshop1/eca.py:103-105 | rule 0 decodes to the all-0 table and rule 255 to the all-1 table |
| RuleDecoder.EncodeDecode | workshop1/eca.py:103-105 | decoding loses nothing: re-packing the eight entries in bit order gives the rule back |
| RuleDecoder.ReshapeFlatten | workshop1/eca.py:105 | reshaping the flattened entries rebuilds any (2,2,2) table |
| RuleDecoder.FlattenIsBinary | workshop1/eca.py:105 | flattening a binary table gives 8 binary digits |
| RuleDecoder.DecodeEncode | workshop1/eca.py:103-105 | every binary (2,2,2) table is the decoding of a rule in 0..255, namely its encoding |
| RuleDecoder.DecodeInjective | workshop1/eca.py:103-105 | two rules decode to the same table if and only if they are equal |
| RuleDecoder.DigitsMsbFirst | workshop1/eca.py:31 | `{rule:08b}` pads to at least `count` digits: exactly `count` when n < 2^count, more when n is larger (Python keeps every digit) |
| RuleDecoder.BannerNeighbourhood | workshop1/eca.py:33 | banner column j is headed by the neighbourhood whose index 4l+2c+r is 7-j (111 first, 000 last) |
| RuleDecoder.DigitsReverseBits | workshop1/eca.py:31-34 | the last `count` printed digits are the unpacked bits in reverse order, for every n |
| RuleDecoder.BannerMatchesTable | workshop1/eca.py:33-34 | the digit printed under neighbourhood (l,c,r) is the table entry the engine uses for it: Wolfram's numbering |
| Scanning.Scan | workshop1/eca.py:118-122 | the scan over `height-1` inputs yields `height-1` outputs |
| Scanning.IterateShift | workshop1/eca.py:118-122 | starting one step later is applying the step once more |
| Scanning.ScanIsIterate | workshop1/eca.py:116-122 | output k of a scan whose step returns its carry as its output is the step applied k+1 times to the initial carry |
| Scanning.IterateConjugate | workshop1/eca.py:107-122 | if the step acts on encoded rows as f acts on rows, iterating the step from an encoded row is encoding the iterate of f |
| Scanning.IterateInvariant | workshop1/eca.py:118-122 | a property the step preserves holds of every iterate |
| Engine.Clamp | workshop1/eca.py:110-114 | the index used is 0 or 1; a 0/1 cell indexes itself, and any cell value of 1 or more indexes 1 |
| Engine.Lookup | workshop1/eca.py:110-113 | `rule_table[l, c, r]` is the table entry for a binary neighbourhood; under a binary table it is a bit |
| Engine.Pad | workshop1/eca.py:107 | wrap-padding adds exactly one cell on each side |
| Engine.Unpad | workshop1/eca.py:131 | the slice `[1:-1]` removes exactly two cells |
| Engine.LookupSlices | workshop1/eca.py:110-113 | interior cell i is the table entry for padded cells i, i+1, i+2 |
| Engine.StepPadded | workshop1/eca.py:109-116 | the step keeps the padded width |
| Engine.StepOf | workshop1/eca.py:109-120 | `step` as the scan receives it keeps the padded width of every carry |
| Engine.PaddedHistory | workshop1/eca.py:118-126 | the padded history has `height` rows, and the first is the padded initial row |
| Engine.Strip | workshop1/eca.py:129-131 | stripping keeps the row count and removes the padding from each row |
| Engine.Run | workshop1/eca.py:97-131 | the history has `height` rows, each as wide as the initial row |
| Engine.Left | workshop1/eca.py:107-111 | the left neighbour of a column is a column of the ring |
| Engine.Right | workshop1/eca.py:107-113 | the right neighbour of a column is a column of the ring |
| Engine.NeighboursAreModular | workshop1/eca.py:107-114 | the neighbours are `(c-1) mod W` and `(c+1) mod W`, including at W = 1 |
| Engine.Successor | workshop1/eca.py:109-116 | the successor has the same width, and cell c is the table entry for old cells Left(c), c, Right(c) |
| Engine.GenerationStep | workshop1/eca.py:118-126 | generation 0 is the initial row, and generation t+1 is the successor of generation t |
| Engine.GenerationWidth | workshop1/eca.py:118-131 | every generation is as wide as the initial row |
| Engine.PadIsModular | workshop1/eca.py:107 | wrap padding is modular indexing: padded cell i is cell `(i-1) mod W` |
| Engine.UnpadPad | workshop1/eca.py:107-131 | padding and then slicing `[1:-1]` is the identity |
| Engine.PadNeighbours | workshop1/eca.py:107-114 | the three padded cells the step reads for column c are the ring cells Left(c), c and Right(c) |
| Engine.StepPaddedIsSuccessor | workshop1/eca.py:107-116 | the source's step on a padded row is the padding of the modular successor |
| Engine.StepOfIsSuccessorOf | workshop1/eca.py:109-116 | the same, for the step as the scan receives it |
| Engine.PaddedHistoryIsGenerations | workshop1/eca.py:107-126 | padded history row t is the padding of generation t |
| Engine.PaddedHistoryWidth | workshop1/eca.py:107-126 | every padded history row is two cells wider than the initial row |
| Engine.RunIsGenerations | workshop1/eca.py:97-131 | history row t is generation t and as wide as the initial row |
| Engine.SuccessorCell | workshop1/eca.py:110-114 | successor cell c is `table[row[(c-1) mod W]][row[c]][row[(c+1) mod W]]` (through the clamp for non-binary rows) |
| Engine.RunStep | workshop1/eca.py:109-122 | history row t+1 is the successor of history row t |
| Engine.RunOfConstantTable | workshop1/eca.py:110-122 | under a table whose every entry is v, every row after row 0 is all v |
| Engine.SuccessorIsBinary | workshop1/eca.py:104-114 | the successor of any row under a binary table is binary |
| Engine.SuccessorOfConstantTable | workshop1/eca.py:110-114 | the successor under a constant table is constant |
| Eca.Simulate | workshop1/eca.py:97-131 | `simulate` returns exactly `height` rows, each as wide as `init_state` |
| Eca.SimulateAll | workshop1/eca.py:55-66 | the batch has 256 histories, each of `height` rows |
| Eca.MiddleRow | workshop1/eca.py:39-40 | the middle row is `width` cells wide |
| Eca.SimulateIsGenerations | workshop1/eca.py:97-131 | row t of `simulate` is generation t of the reference semantics, as wide as the initial row |
| Eca.SimulateKeepsInitialRow | workshop1/eca.py:107-131 | row 0 of the result is `init_state` unchanged |
| Eca.SimulateStep | workshop1/eca.py:109-116 | the update is synchronous: row t+1 is the successor of row t, a function of row t alone |
| Eca.SimulateCell | workshop1/eca.py:107-114 | `history[t+1][c]` is the table entry for `history[t][(c-1) mod W]`, `history[t][c]`, `history[t][(c+1) mod W]`; on a binary row, the plain entry `table[..][..][..]` |
| Eca.SimulateEdges | workshop1/eca.py:107-114 | column 0 reads column W-1 as its left neighbour, and column W-1 reads column 0 as its right one |
| Eca.SimulateIsBinary | workshop1/eca.py:104-114 | every row after row 0 is binary, and every row is binary when `init_state` is |
| Eca.ConstantRuleHistory | workshop1/eca.py:103-122 | rule 0 makes every row after row 0 all-zero, and rule 255 makes it all-one, whatever the initial row |
| Eca.SingleCell | workshop1/eca.py:107-114 | at width 1 the single cell is its own left and right neighbour |
| Eca.Rule110Entries | workshop1/eca.py:103-105 | rule 110 (bits 01101110) gives the entries 000→0, 001→1, 010→1, 011→1, 100→0, 110→1 |
| Eca.Rule110FirstStep | workshop1/eca.py:109-116 | under those entries, [0,0,0,1,0,0,0] steps to [0,0,1,1,0,0,0] |
| Eca.Rule110SecondStep | workshop1/eca.py:109-116 | under those entries, [0,0,1,1,0,0,0] steps to [0,1,1,1,0,0,0] |
| Eca.Rule110Run | workshop1/eca.py:107-131 | three generations from [0,0,0,1,0,0,0] under those entries are as above |
| Eca.Rule110Example | workshop1/eca.py:97-131 | `simulate(110, middle row of width 7, 3)` is [0,0,0,1,0,0,0], [0,0,1,1,0,0,0], [0,1,1,1,0,0,0] |
| Eca.Rule110ExampleAt | workshop1/eca.py:97-131 | the same rows for the literal call `simulate(110, middle_row(7), 3)` |
| Eca.SimulateAllIsPerRule | workshop1/eca.py:55-66 | entry r of the batch is `simulate(r, state, height)`, which depends on r alone: no cross-rule interaction |
| Eca.MiddleRowHasOneCell | workshop1/eca.py:39-40 | the middle row is binary, with its single 1 at index `width // 2` and 0 everywhere else |

## Left out

- Console output (lines 30-34, 36, 51, 53, 68-70, 72-79): printing and the ASCII animation with `time.sleep` pacing are terminal I/O. The banner's digit order is modelled (`DigitsMsbFirst`, `BannerMatchesTable`); the printing is not.
- The random initial state (lines 41-50) is left out because it calls a pseudo-random generator. It also calls `jnp.random.randint`, which the `jax.numpy` namespace does not provide. The initial row is an arbitrary input of at least one uint8 cell.
- Image rendering and saving (lines 81-94) are left out: `einops.rearrange`, the greyscale conversion, the upscaling and PIL's file output are library calls and file I/O.
- Timing (lines 54, 67) and the `tyro` command line (lines 134-136) are left out: both are I/O.
- `jax.jit` and `jax.vmap` (lines 55-62) are execution strategies. The model keeps only their meaning: `SimulateAll` is a sequence comprehension over the rules 0..255.
- Simulate: requires `0 <= rule < 256`. `jnp.uint8(rule)` (line 103) would wrap a value outside that range, and the model does not follow that path.
- Simulate: requires `height >= 1`, because `jnp.zeros(height-1)` (line 121) fails otherwise. It also requires an initial row of at least one cell.
- Input validation: the source does none. `jnp.uint8` (line 103) converts an out-of-range rule, `jnp.zeros(height-1)` (line 121) fails for height 0, and wrap padding (line 107) fails on an empty row. The model states these conditions as preconditions of `Simulate`, not as modelled errors.
- Engine.Lookup: the clamp models indexing a 2-element jnp array with uint8 values only, which is why `Simulate` requires `IsByteRow(init)`. JAX's handling of negative indices is not modelled.
- RuleDecoder.BannerMatchesTable: stated for rules 0..255 only. For a larger rule the banner prints more than eight digits, which `DigitsMsbFirst` models. In the program this changes only the banner, because `main` never passes `rule` to `simulate`: the batch runs the rules `jnp.arange(256)` (line 63).
- Decoding idempotence holds by construction, because `Decode` is a function. No lemma states it.
- Arrays are modelled as sequences: `jnp.stack` on an already stacked history (line 129) is the identity, and the copying and views of jnp arrays have no counterpart.
