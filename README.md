# sudoku-solver header, modelled in Dafny

The repository's header `src/sudoku.hpp` holds all of its logic. That logic is:

- two integer helpers, `count_set_bits` and `pow`;
- a candidate set `BitSet<T, N>`, the values `0 .. N-1` packed into one unsigned word;
- a board `Sudoku<N>` of `S*S` cells (`S = N*N`, `1 < N <= 8`), each either a fixed value or a candidate set;
- the board's text rendering `to_str`.

The model keeps the header's shape:

- **`Bits`** (`bits.dfy`) is the 64-bit word as an integer in `[0, 2^64)`.
  - `And`, `Or` and `Not` are defined bit by bit.
  - `Elements(w)` is the set of positions of the word's 1-bits, and `PopCount(w)` is its size.
  - Every set operation is specified through `Elements`.
- **`Detail`** (`detail.dfy`) holds `count_set_bits` and `pow` as loops.
  - Each is proved against a specification function: `PopCount` and `Power` respectively.
- **`BitSets`** (`bitset.dfy`) holds the candidate set as a class.
  - Its one field is the word, and `insert`, `erase` and `clear` update it in place.
  - The class has the behaviour the header evidently intends.
  - Beside it are the header's `empty`, `full_set`, `mask_from` and capacity constraint as written, each with a lemma that exhibits where it departs from that intent (see Findings).
- **`Cells`** (`cell.dfy`) holds the cell, the variant `Fixed(digit) | Candidates(word)`, and the character it is drawn as.
- **`Layout`** (`layout.dfy`) holds the geometry of `to_str` for the drawn box sizes (`S < 10`, so `N` is 2 or 3).
  - The text has `S + N - 1` lines of `3S + N` characters.
  - Row `i` is on line `i + i/N`, and cell `j` is in column `3j + 1 + j/N`.
  - Bar `k` is in column `3N(k+1) + k`, and separator line `k` is line `N(k+1) + k`.
  - The newline is the last column.
  - Each assignment `to_str` makes is a `Write`. `Decode` reads a line and column back into the write that belongs there. `Rendered` is the text the layout describes.
- **`Board`** (`sudoku.dfy`) holds the board as a class whose cells live in a fixed-size array, with its two constructors.
  - `to_str` is `Sudoku.ToStr`: the header's nested loops over a blank character buffer.
  - The line stride that every index computation multiplies by is a parameter. The header multiplies by `S`; the buffer's lines are `3S + N` wide.
  - At any stride up to `3S + N` every write stays inside the buffer.
  - At the stride `3S + N` the result is `Rendered` at every line and column.

The separator-line index `S*N*(i+1) + S*i + j` (`src/sudoku.hpp:144`) is written as `Index(stride, SeparatorLine(n, i), j)`. That is the same number when the stride is `S`.

The header leaves open which digit candidate bit 0 stands for. The model follows the code:

- bit `v` is candidate value `v`;
- the full set holds `0 .. S-1`;
- a fixed cell holds whatever nonzero integer the input array had, not only `1 .. S`.

## Model

| member | source | states |
|---|---|---|
| Detail.CountSetBits | src/sudoku.hpp:9-18 | returns the number of 1-bits of the word, zero exactly for the zero word, never more than 64; the loop terminates because each step clears one 1-bit |
| Bits.ClearLowestCount | src/sudoku.hpp:13 | `val & (val - 1)` is a smaller word with exactly one 1-bit fewer |
| Bits.ZeroIffEmpty | src/sudoku.hpp:12 | a word is zero exactly when it holds no value |
| Detail.Pow | src/sudoku.hpp:20-36 | -1 for a negative base or exponent; 0 for a zero base, also with a zero exponent; 1 for a zero exponent or base 1; otherwise `b^e` |
| Detail.HalveExponent | src/sudoku.hpp:27-33 | one loop step keeps the power: `b^e == (b*b)^(e/2)`, times `b` when `e` is odd |
| BitSets.MaskFrom | src/sudoku.hpp:45 | the word-width mask of `v` holds exactly `v` |
| BitSets.FullWord | src/sudoku.hpp:48-53 | the intended full set holds exactly `0 .. n-1` and has `n` members |
| BitSets.BitSet.constructor | src/sudoku.hpp:43 | a new set has the zero word and holds nothing |
| BitSets.BitSet.Full | src/sudoku.hpp:48-53 | `full_set()` holds exactly the values below the capacity, as many as the capacity |
| BitSets.BitSet.IsEmpty | src/sudoku.hpp:56 | `empty()` is true exactly when the set holds nothing |
| BitSets.BitSet.Size | src/sudoku.hpp:58-60 | `size()` is the number of values held, at most the capacity, and zero exactly when the set is empty |
| BitSets.BitSet.MaxSize | src/sudoku.hpp:62 | `max_size()` is the capacity, an upper bound on the size |
| BitSets.BitSet.Clear | src/sudoku.hpp:65 | afterwards the word is zero and the set holds nothing |
| BitSets.BitSet.Insert | src/sudoku.hpp:67-74 | reports whether `v` was held; afterwards the set holds exactly what it held plus `v`, and the word is the old word with bit `v` set |
| BitSets.BitSet.Erase | src/sudoku.hpp:76 | afterwards the set holds exactly what it held minus `v`; erasing an absent value leaves the word unchanged |
| BitSets.BitSet.Contains | src/sudoku.hpp:79-81 | true exactly when `v` is held |
| Bits.TestBit | src/sudoku.hpp:69 | `set & mask_from(v)` is nonzero exactly when `v` is held |
| Bits.ElementsOfOr | src/sudoku.hpp:71 | or-ing in the mask of `v` adds exactly `v` |
| Bits.ElementsOfAndNot | src/sudoku.hpp:76 | and-ing with the complement of the mask of `v` removes exactly `v` |
| Bits.ElementsOfNot | src/sudoku.hpp:50 | the complement of a word holds exactly the positions below 64 that the word does not |
| BitSets.InsertTwice | src/sudoku.hpp:67-74 | inserting `v` twice: the second call reports it present and the set holds the old values plus `v` |
| BitSets.InsertIdempotent | src/sudoku.hpp:71 | setting the bit of `v` a second time leaves the word unchanged |
| BitSets.EraseUndoesInsert | src/sudoku.hpp:71-76 | erasing a value that insert had just added restores the original word |
| BitSets.EmptyAsWrittenInverted | src/sudoku.hpp:56 | `empty()` as written (`return set;`) is true exactly when the set is not empty |
| BitSets.FullSetAsWrittenTooLarge | src/sudoku.hpp:50 | `~(1 << N)` as written holds every value below `N` but not `N` itself, and also holds 63; it has 63 members and is not the intended full set |
| BitSets.MaskFromAsWrittenAt31 | src/sudoku.hpp:45 | the `int` shift as written agrees with the word-width mask below 31, but at 31 it also covers 32 and more |
| BitSets.BoardCapacitiesAsWritten | src/sudoku.hpp:42 | the constraint `sizeof(T) >= N` on a 64-bit set of capacity `b*b` holds only for `b == 2` |
| BitSets.BoardCapacities | src/sudoku.hpp:88-96 | capacity at most 64 bits admits every box size from 2 to 8 |
| Cells.Glyph | src/sudoku.hpp:126-130 | an undecided cell is drawn as `.`; a fixed value from 0 to 9 is drawn as its decimal digit; every glyph is an 8-bit character |
| Board.SideFits | src/sudoku.hpp:91-94 | for `1 < N <= 8` the side `S = N*N` is between 4 and 64 |
| Board.InitialCell | src/sudoku.hpp:109-113 | a nonzero entry is that fixed value; a zero entry is a candidate set holding exactly `0 .. S-1`, `S` values |
| Layout.FlatIndexInRange | src/sudoku.hpp:123 | the row-major index `i*S + j` of a cell is below `S*S` |
| Board.RowMajor | src/sudoku.hpp:123 | every index below `S*S` is the row-major index of row `i / S`, column `i % S` |
| Layout.IndexInjective | src/sudoku.hpp:123-124 | with columns below the stride, two positions share an index exactly when they are the same position |
| Board.Sudoku.Blank | src/sudoku.hpp:105 | the default board has every cell fixed at 0 |
| Board.Sudoku.constructor | src/sudoku.hpp:107-115 | cell `i` is `InitialCell(arr[i])` for every `i` |
| Layout.DrawableIff | src/sudoku.hpp:118 | among the allowed box sizes, `S < 10` holds exactly for `N` 2 and 3 |
| Layout.RowLineParts | src/sudoku.hpp:124 | row `i` is on a line below the height, in block `i / N` at offset `i % N` |
| Layout.CellColumnParts | src/sudoku.hpp:124 | cell `j` is in column group `j / N` at place `3(j % N) + 1`, before the newline |
| Layout.BarColumnParts | src/sudoku.hpp:134 | bar `k` closes column group `k`, before the newline |
| Layout.SeparatorLineParts | src/sudoku.hpp:144 | separator line `k` ends line block `k`, below the height |
| Layout.LineAtInverse | src/sudoku.hpp:121-154 | every line below the height is the line of a row below `S` or of a separator below `N - 1` |
| Layout.ColumnAtInverse | src/sudoku.hpp:121-154 | every cell or bar column is the column of a cell below `S` or a bar below `N - 1` |
| Layout.DecodeWrite | src/sudoku.hpp:121-154 | every write's line and column lie in the grid and decode back to that write |
| Layout.WriteOfDecode | src/sudoku.hpp:121-154 | every position that decodes to a write is that write's position |
| Layout.IndexBound | src/sudoku.hpp:119 | a position of the grid has an index inside the `W * H` buffer |
| Layout.IndexOnto | src/sudoku.hpp:119 | every index of the buffer is some position of the grid |
| Layout.TargetInBounds | src/sudoku.hpp:119-153 | at any stride up to `3S + N`, including the `S` of the header, every write lands inside the buffer |
| Layout.TargetsDistinct | src/sudoku.hpp:121-154 | at the stride `3S + N` no two writes go to the same index |
| Layout.StrideCollision | src/sudoku.hpp:124-139 | at the stride `S` of the header, writes collide: for `N = 2` cells (0,2) and (1,1), for `N = 3` cell (2,3) and the newline of row 0 |
| Layout.PlusUnderBar | src/sudoku.hpp:134-149 | a separator column shows `+` exactly where a row has a bar |
| Layout.BarIsPlus | src/sudoku.hpp:134-149 | the separator character under every bar column is `+` |
| Layout.RenderedWrite | src/sudoku.hpp:121-154 | the rendered text holds each write's character at its position |
| Layout.RenderedBlank | src/sudoku.hpp:119 | a position that no write targets stays blank |
| Layout.RenderedLineEnds | src/sudoku.hpp:138-153 | every line of the rendered text ends in a newline |
| Layout.PaintStep | src/sudoku.hpp:121-154 | making the next write in loop order advances the buffer by exactly that write |
| Layout.PaintedAll | src/sudoku.hpp:156 | once every write is made, the buffer is the rendered text |
| Board.Sudoku.ToStr | src/sudoku.hpp:117-161 | for `S < 10` the result has `(3S+N)(S+N-1)` characters, and at the stride `3S + N` it is the rendered board at every line and column; for `S >= 10` it is `(4S+N)(S+N-1)` blanks |
| Board.Sudoku.Paint | src/sudoku.hpp:119-156 | the blank buffer painted by the two loops has the layout's length and, at the line width, is the rendered board |
| Board.Sudoku.PaintRows | src/sudoku.hpp:121-140 | the row loop leaves exactly the writes of all rows in the buffer |
| Board.Sudoku.PaintRow | src/sudoku.hpp:121-140 | one row's cells, bars and newline are added to the buffer |
| Board.Sudoku.PaintCells | src/sudoku.hpp:122-131 | one row's cell glyphs are added to the buffer |
| Board.Sudoku.PaintBars | src/sudoku.hpp:133-136 | one row's bars are added to the buffer |
| Board.Sudoku.PaintSeparators | src/sudoku.hpp:142-154 | the separator loop adds every separator line |
| Board.Sudoku.PaintSeparator | src/sudoku.hpp:142-154 | one separator line and its newline are added to the buffer |
| Board.Sudoku.PaintDashes | src/sudoku.hpp:143-150 | one separator line's `-` and `+` columns are added to the buffer |
| Board.Sudoku.Put | src/sudoku.hpp:126-130 | one assignment stays inside the buffer, changes only its index, and at the line width adds exactly its write |

## Left out

- Detail.Pow: integers are unbounded. The header's `int` products `y *= b` and `b *= b` overflow, which is undefined behaviour, and that is not modelled.
- BitSets.MaskFromAsWritten: shifts of 32 or more on an `int` are undefined behaviour and are not modelled. The function covers `v <= 31`.
- BitSets.BitSet.Insert: requires `v` below the capacity, which the header does not check. An out-of-range value would set a bit the set's invariant excludes.
- BitSets.BitSet.Erase and BitSets.BitSet.Contains: require `v < 64`, the word width. The header shifts without checking.
- The word width is fixed at 64 bits, the `BitSet64` the board uses. The `BitSet32` alias and the type parameter `T` are not modelled.
- Templates, `constexpr`, `noexcept` and `[[nodiscard]]` are not modelled. `N` is a constructor parameter with the precondition `1 < N <= 8`.
- Cells.Glyph: the header's cell-rendering statements apply `if` and `+` directly to the `std::variant`, and as written they do not compile. The model matches on the variant instead: a fixed value `d` becomes `'0' + d` narrowed to 8 bits, and a candidate set becomes `.`.
- Board.InitialCell: an empty entry becomes the intended full set `0 .. S-1`, not the as-written `~(1 << S)`, which is also an undefined shift for `S = 64`.
- Board.Sudoku.ToStr: the `S >= 10` branch is modelled only as its blank output of `(4S+N)(S+N-1)` characters. The header has no layout for multi-digit values.
- Board.Sudoku.ToStr: at the header's own stride `S` the contract states only the length and that every write stays in bounds. Which write survives each collision is not stated (see Findings).
- `std::string` and `std::array` become a Dafny `array<char>` buffer returned as `seq<char>`, and a Dafny `array<Cell>`.
- No solving is done on the board after construction, and the header has none.

## Findings

| source | as written | input that shows it | evidently intended | confidence | as-written member | corrected member |
|---|---|---|---|---|---|---|
| src/sudoku.hpp:56 | `empty()` returns the word converted to `bool` | the set holding only 0 (word 1): `empty()` is true | true exactly when the word is zero | high, not executed | BitSets.EmptyAsWrittenInverted | BitSets.BitSet.IsEmpty |
| src/sudoku.hpp:50 | `full_set()` is `~(1 << N)` | `N = 4`: the word holds 0..3 and 5..63, 63 values | `(1 << N) - 1`, exactly `0 .. N-1` | high, not executed | BitSets.FullSetAsWrittenTooLarge | BitSets.FullWord |
| src/sudoku.hpp:45 | `mask_from` shifts an `int` | `v = 31`: `INT_MIN` sign-extends, setting bits 31..63 | a shift of the 64-bit word, the single bit `v` | high, not executed | BitSets.MaskFromAsWrittenAt31 | BitSets.MaskFrom |
| src/sudoku.hpp:42 | `requires(sizeof(T) >= N)` compares bytes with values | `N = 3`: capacity 9 against 8 bytes rejects the 9x9 board | capacity at most the word's bits, `N <= 8 * sizeof(T)` | high, not executed | BitSets.BoardCapacitiesAsWritten | BitSets.BoardCapacities |
| src/sudoku.hpp:124 | line numbers are multiplied by `SIDE_LENGTH` | `N = 2`: cells (0,2) and (1,1) both go to index 8 | multiply by the line width `3S + N` | high, not executed | Layout.StrideCollision | Layout.TargetsDistinct |
