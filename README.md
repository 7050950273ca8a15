# Elementary cellular automata, modelled in Dafny

This project models `cellular_automata.py`, a simulator of one-dimensional
cellular automata. A finite ring of binary cells changes one generation at a
time under a rule. The rule is given by a rule number and an odd
neighbourhood width `n`.

- `errors.dfy`, module `Errors`: the failure values. Each Python exception of
  the core becomes an `Err`. A failed `assert` is `InvalidArgument`, a
  dictionary `KeyError` is `KeyMissing`, and a list `IndexError` is
  `IndexOutOfRange`.
- `bits.dfy`, module `Bits`: the helper `binary(number, digits)`. It is
  modelled the way Python computes it: the shortest binary digits of `bin`,
  zero-padded on the left by `zfill`. Beside it sits an arithmetic reference,
  `ToBits`, and the value `Value` of a digit sequence. The two are connected
  by round-trip and uniqueness lemmas.
- `rules.dfy`, module `Rules`: the class `Rule`. A rule never changes after
  construction, so it is a datatype. `BuildMapping` is the table-filling loop
  of `_get_mapping`. `NewRule` is the validating constructor, and
  `GetNextCell` is the length-checked lookup. `IsTable` says what a complete
  table is: exactly the `2^n` bit patterns of length `n`, and pattern `p`
  mapped to bit `2^n - 1 - p` of the rule number.
- `automata.dfy`, module `Automata`: the class `CellularAutomata`, with the
  fields `size` and `cells`. `Successor` is the pure next generation that
  `NextGeneration` is proved against. `Render` is the text form, and `Run`
  is a bounded form of the print loop.
- `generations.dfy`, module `Generations`: properties of the update. These
  are wrap-around, the all-zero ring as a fixed point, fixed points lasting
  for ever, and invariance under turning the ring.

Points where the model follows the code rather than its documentation:

- `binary(0, 0)` returns one digit, `(0,)`, not an empty tuple. `bin(0)` is
  `"0"` and `zfill` never shortens a string. `Bits.Binary` keeps this, and
  `Bits.BinaryZeroDigits` records it. The core itself only calls `binary`
  with at least one digit.
- `run` advances the ring `iteration_limit + 1` times, not
  `iteration_limit` times. The loop breaks only once `iteration >
  iteration_limit`. A limit of 0 runs for ever, like a negative one. So does
  the default limit `size // 2` when `size` is 1 or less.
- The rule number is read most significant digit first. So pattern `p` gets
  bit `2^n - 1 - p` of the number. This is the mirror image of the usual
  numbering of elementary rules, where pattern `p` gets bit `p`. The two agree
  for rules 60 and 90, whose eight-bit forms are palindromes (`00111100`,
  `01011010`). They differ for rules such as 30. The model keeps the code's
  order.
- `[0] * size` is empty for a size that is not positive, and `range(size)`
  is then empty too. The model keeps `size` an `int`. Its class invariant
  reads `|cells| == Width(size)`, where `Width` clamps a negative size to 0.

## Model

| member | source | states |
|---|---|---|
| `Bits.Zeros` | cellular_automata.py:79 | Python's `[0] * count`: `count` zeros for a positive count, the empty list otherwise |
| `Bits.Binary` | cellular_automata.py:4-17 | fails with InvalidArgument exactly when `number` is negative or at least `2^digits`; otherwise the result is all 0s and 1s, has `digits` entries (one entry when `digits` is 0), and its most-significant-first value is `number` |
| `Bits.BinDigits` | cellular_automata.py:16 | the digits of `bin(x)` without the prefix denote `x`, are `[0]` exactly for zero, and otherwise start with a 1 |
| `Bits.ZFill` | cellular_automata.py:16 | `zfill` pads on the left with zeros up to the width and never truncates: the original digits are the suffix, everything before them is 0 |
| `Bits.BinDigitsLength` | cellular_automata.py:14-16 | a number below `2^d` has at most `d` shortest digits when `d >= 1`, so `zfill(d)` yields exactly `d` |
| `Bits.ValueOfZeroPadded` | cellular_automata.py:16 | zero padding on the left keeps the value and keeps the digits binary |
| `Bits.ToBits` | cellular_automata.py:16-17 | reference representation: exactly `d` binary digits whose value is `x` |
| `Bits.BinaryIsToBits` | cellular_automata.py:16-17 | for `d >= 1` and `x < 2^d`, `binary(x, d)` equals the arithmetic reference |
| `Bits.ToBitsUnique` | cellular_automata.py:14-17 | two binary digit sequences of the same length and value are equal, so the representation is unique |
| `Bits.BinaryOfValue` | cellular_automata.py:14-17 | round trip: `binary(Value(b), len(b)) == b` for every non-empty binary sequence `b` |
| `Bits.ToBitsAt` | cellular_automata.py:16-17 | digit `k` from the most significant end of the `d`-digit form of `x` is bit `d-1-k` of `x` |
| `Bits.Digit` | cellular_automata.py:35-37 | bit `k` of a number is 0 or 1, so every value the table stores is a bit |
| `Bits.BinaryFiveInFour` | cellular_automata.py:14-17 | `binary(5, 4) == (0, 1, 0, 1)` |
| `Bits.BinaryOneDigit` | cellular_automata.py:14-17 | `binary(0, 1) == (0,)` and `binary(2, 1)` fails with InvalidArgument |
| `Bits.BinaryZeroDigits` | cellular_automata.py:14-17 | `binary(0, 0) == (0,)` |
| `Rules.BuildMapping` | cellular_automata.py:33-39 | fails with InvalidArgument exactly when `binary` rejects the rule number; otherwise the loop's dictionary is a complete table: keys are exactly the length-`n` bit patterns, there are `2^n` of them, and each maps to its output bit |
| `Rules.PartialTableExtend` | cellular_automata.py:35-37 | one loop step adds the new key `binary(i, n)`, which was not yet present, with its output, keeping the earlier entries |
| `Rules.OutputIsDigit` | cellular_automata.py:35 | digit `p` of `binary(number, 2^n)` is bit `2^n-1-p` of `number` |
| `Rules.NewRule` | cellular_automata.py:21-31 | `n` defaults to 3; construction succeeds exactly when `n` is positive and odd and `0 <= number < 2^(2^n)`, otherwise fails with InvalidArgument; a built rule keeps `number` and `n` and holds a complete table |
| `Rules.GetNextCell` | cellular_automata.py:41-51 | a pattern of the wrong length fails with InvalidArgument; a pattern of length `n` is found exactly when it is all bits, otherwise KeyMissing; the value found is 0 or 1 and is bit `2^n-1-p` of the rule number for a pattern of value `p` |
| `Rules.TableOrder` | cellular_automata.py:35-37 | for every `i < 2^n` the key `binary(i, n)` is in the table and maps to digit `i` of `binary(number, 2^n)` |
| `Rules.TableKeys` | cellular_automata.py:33-39 | every key is `binary(i, n)` for exactly one `i < 2^n`, its own value |
| `Rules.TableUnique` | cellular_automata.py:29-39 | two complete tables for the same number and width are equal, so construction is deterministic |
| `Rules.Rule60` | cellular_automata.py:35-37 | for rule 60 with `n = 3`, `(1,1,0)` gives 0 and `(0,1,1)` gives 1 |
| `Automata.Width` | cellular_automata.py:79 | the length of `[0] * size`, which is 0 for a size that is not positive |
| `Automata.Neighbourhood` | cellular_automata.py:105-109 | the neighbourhood of a position has `2*margin+1` cells and is all bits when the ring is |
| `Automata.Successor` | cellular_automata.py:104-114 | the next generation has one cell per old cell and is all bits |
| `Automata.SuccessorAt` | cellular_automata.py:106-112 | each new cell is the value `get_next_cell` returns for that position's wrapped neighbourhood in the old generation |
| `Automata.Iterate` | cellular_automata.py:127-131 | any number of generations keeps the ring's length and keeps it binary |
| `Automata.IterateStep` | cellular_automata.py:127-131 | one more advance after `k` generations gives generation `k + 1` |
| `Automata.Render` | cellular_automata.py:135-136 | one character per cell, a space exactly for 0 and `#` exactly for 1 |
| `Automata.CellularAutomata.constructor` | cellular_automata.py:62-66 | the size defaults to 256; a new automaton has the given size and all-zero cells, one per position |
| `Automata.CellularAutomata.SetSize` | cellular_automata.py:72-75 | setting the size discards the old cells and leaves `size` zeros |
| `Automata.CellularAutomata.InitZeroes` | cellular_automata.py:77-79 | the cells become `size` zeros; the size is unchanged |
| `Automata.CellularAutomata.InitSingle` | cellular_automata.py:81-92 | zeros with a single 1 at `pos`, or at `size // 2` when no position is given; an explicit position outside `[0, size)` fails with InvalidArgument, the default fails with IndexOutOfRange when the ring is empty, and after a failure the cells are all zero |
| `Automata.CellularAutomata.Randomize` | cellular_automata.py:94-96 | the cells become the given draws, one bit per position |
| `Automata.CellularAutomata.NextGeneration` | cellular_automata.py:98-114 | the new cells are exactly the successor of the old generation, computed only from old values; the class invariant is kept |
| `Automata.CellularAutomata.Run` | cellular_automata.py:116-133 | for a positive effective limit, it prints `limit + 1` lines, line `k` being generation `k`, and leaves generation `limit + 1` |
| `Automata.AppendLine` | cellular_automata.py:128 | printing the current generation extends the printed lines by the rendering of that generation |
| `Generations.NeighbourhoodWraps` | cellular_automata.py:107-109 | position 0 sees the last cell as its left neighbour, the last position sees cell 0 as its right neighbour, and every position sees itself in the middle |
| `Generations.ZeroNeighbourhood` | cellular_automata.py:107-109 | every neighbourhood of an all-zero ring is all zero |
| `Generations.ZeroRingAbsorbing` | cellular_automata.py:104-114 | when the all-zero pattern maps to 0, an all-zero ring stays all zero after one generation |
| `Generations.ZeroRingStaysZero` | cellular_automata.py:104-114 | under the same condition it stays all zero for any number of generations |
| `Generations.FixedPoint` | cellular_automata.py:104-114 | a ring that one generation leaves unchanged is unchanged by any number of generations |
| `Generations.RotateLeft` | cellular_automata.py:104-114 | specification helper for the symmetry of the update (the source never turns the ring): the turned ring has cell `(i + 1) mod size` at position `i` |
| `Generations.RotatedBits` | cellular_automata.py:104-114 | turning a binary ring leaves it binary |
| `Generations.SuccessorRotatedAt` | cellular_automata.py:104-114 | cell `i` of the next generation of the turned ring is cell `(i + 1) mod size` of the next generation of the original ring |
| `Generations.RotationCommutes` | cellular_automata.py:104-114 | turning the ring and then advancing it equals advancing it and then turning it: no position of the ring is special |
| `Generations.NeighbourhoodRotated` | cellular_automata.py:107-109 | the neighbourhood of `i` in the turned ring is the neighbourhood of `(i + 1) mod size` in the original ring |
| `Generations.RenderInjective` | cellular_automata.py:135-136 | different bit rings render as different text |

## Left out

- Choosing a random rule number when none is given, and printing it (cellular_automata.py:22-24): the rule number is always supplied by the caller. The other defaults are kept as Dafny default arguments: `n := 3` for `NewRule` and `size := 256` for the constructor.
- `Rule.__str__` (cellular_automata.py:53-56): text formatting whose order depends on dictionary iteration.
- The `__main__` block (cellular_automata.py:139-149): a command-line driver.
- The branch of `init_single` for a `pos` that is neither `None` nor an `int` (cellular_automata.py:90): the model's `pos` is an `Option<int>`, so the branch has no counterpart.
- Automata.CellularAutomata.Run: requires a positive effective limit. A limit of 0 or below, or a default of `size // 2` that is 0 or below, loops for ever, and a loop without a termination measure cannot be written. Printing becomes the returned list of lines.
- Automata.CellularAutomata.Randomize: takes the random draws as an argument. The random source is outside the model, and the draws are assumed to be bits, as `random.randint(0, 1)` always returns.
- Rules.NewRule: for a negative `n` it fails with InvalidArgument. Python fails too, but when `n` is odd and negative and `number <= 1` (negative numbers included) both asserts pass, since `2 ** (2 ** n)` is a float between 1 and the square root of 2 and `n % 2 == 1`, and the failure is a `TypeError` from `range(2 ** n)` of a float at line 35, before `binary` is called. The model does not tell the exception types apart.
- Bits.Binary: `digits` is a natural number. A negative or non-integer width is never passed by the core.
- Automata.Render: requires every cell to be 0 or 1. For any other value `SYMBOLS[cell]` raises `KeyError`, which the class invariant rules out.
- Non-integer sizes, rule numbers and positions raise Python type errors. They have no counterpart in a typed model.
- The closed-form description of rule 90 grown from a single seed (the Sierpinski triangle) is not proved. The model proves the local facts it rests on: the table order, the wrap-around and the update of each cell.
