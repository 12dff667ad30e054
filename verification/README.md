# Sudoku grid engine — a Dafny model

This project models the native engine behind a Sudoku UI. The engine owns a
row-major grid of fixed-layout cell records (`DartToRustElementFFI`). The
host creates and frees the grid, and asks the engine to reclassify one cell
or all cells with the *pair rule*: an unset cell whose candidate flags add up
to 2 gets the `PAIRS` code in the highlight slot of each live candidate. The
engine can also save the grid to a file, and load it back, through a
variable-length serializable form (`SerializableElement`, `AppData`). Each
outcome of saving and loading is reported as an integer status code.

Modules, one per part of the engine:

- `Bytes`: the `u8` type (`uint8`), filled arrays, the flag sum and the
  live-candidate count.
- `Runtime` (in `runtime.dfy`): `Outcome` and `Option`. `Outcome` is either
  `Returned` or `Aborted`; `Aborted` stands for a failed `assert!` or a
  panic. `Option` stands for a grid pointer; `None` is null.
- `Element`: the constants of `ffi.rs`, the record, and `Cell`. `Cell` is
  the record with its arrays at their fixed lengths: 9, 5, 5 and 9 slots.
- `ProcessData`: the pair rule on one cell (`PairRule`) and on one index
  of a grid (`CheckForElementPair`).
- `Ffi`: `CreateMatrix`, `UpdateCell`, `UpdateMatrix` and `FreeMatrix`.
  `UpdateMatrix` is a method that keeps the source's nested row and
  column loops.
- `StoreData`: the two `From` conversions, flattening and unflattening a
  grid, `SaveData`, `LoadData`, and the round-trip lemmas.

A grid handle is modelled as the sequence of cells it points to. Every
operation returns the new value instead of mutating memory. The allocator,
the JSON encoder and decoder, the file system and C-string decoding are
inputs. The allocator is the `allocSucceeds` flag. A path is a `PathArg`:
null, not UTF-8, or a usable path. Encoding and writing are the `encodes`
and `writes` flags. Reading and parsing give a `FileRead`: the read
failed, the parse failed, or the parsed `AppData`. What a save leaves at the
path is a `SavedFile`: untouched, unknown after a failed write (the write
truncates first), or holding the `AppData` value itself.

Points about the code that the model keeps as written:

- The pair rule never resets a highlight slot, and it has no
  single-candidate code. A slot whose candidate is not live keeps its old
  value. `ProcessData.StalePairsSurvive` shows the consequence: after a
  third candidate is switched on, the earlier `PAIRS` marks are still there.
- The rule adds up the candidate flag values; it does not count the live
  candidates. With 0/1 flags the two agree
  (`ProcessData.PairRuleOnFlagCells`), and a cell with one live candidate
  is left alone. With other flag values they differ: a cell whose only
  live candidate has flag value 2 is marked `PAIRS`
  (`ProcessData.FlagValueTwoMarksOneCandidate`).
- `ffi.rs` imports `check_for_element_pair` and `check_for_all_pairs`.
  `process_data.rs` defines only `checkForElementPair`. Both update entry
  points are modelled as calling `checkForElementPair`.
- There are no erase or set-all-candidates operations in the code, so
  none are modelled.

## Model

| member | source | states |
|---|---|---|
| `Bytes.SumOfFlagsCountsSetFlags` | rust/rust_lib/src/process_data.rs:54 | When every candidate flag is 0 or 1, the flag sum equals the number of live candidates and is at most the array length. So with 9 slots the `u8` sum cannot overflow. |
| `ProcessData.MarkPairs` | rust/rust_lib/src/process_data.rs:55-62 | The walk over the zipped candidate and highlight arrays. The result has the highlight array's length. A slot becomes `PAIRS` exactly when its candidate flag is nonzero. Every other slot, including any slot past the end of the candidate array, keeps its value. |
| `ProcessData.PairRule` | rust/rust_lib/src/process_data.rs:53-64 | Only the candidate highlights can change. A cell with a selected value, or whose flags do not add up to 2, is returned unchanged. When the rule fires, each live candidate's slot is `PAIRS` and each other slot keeps its previous value. |
| `ProcessData.CheckForElementPair` | rust/rust_lib/src/process_data.rs:44-67 | A null handle is a no-op. An index of 81 or more aborts. Otherwise cell `idx` becomes `PairRule` of itself, and every other cell and the grid length stay the same. |
| `ProcessData.PairRuleIdempotent` | rust/rust_lib/src/process_data.rs:53-64 | Applying the rule twice gives the same cell as applying it once. |
| `ProcessData.PairRuleOnFlagCells` | rust/rust_lib/src/process_data.rs:53-62 | Take a cell with 0/1 flags and every highlight slot off. The rule fires exactly when no value is selected and there are exactly two live candidates. A slot ends up `PAIRS` exactly when the rule fires and that slot's candidate is live. |
| `ProcessData.FlagValueTwoMarksOneCandidate` | rust/rust_lib/src/process_data.rs:53-62 | A concrete unset cell whose only live candidate has flag value 2 has flags that sum to 2, so the rule fires and marks that one slot `PAIRS`; every other slot stays off. |
| `ProcessData.StalePairsSurvive` | rust/rust_lib/src/process_data.rs:53-64 | A concrete cell with candidates 3 and 7 gets `PAIRS` on exactly those two slots. After candidate 1 is also switched on, the rule leaves the cell as it is, so the old `PAIRS` marks stay. |
| `Ffi.CreateMatrix` | rust/rust_lib/src/ffi.rs:104-138 | It aborts exactly when `rows` or `cols` is not 9. It returns null exactly when allocation fails. Otherwise the grid has `rows*cols` cells, and the cell at `r*cols + c` has row `r` and column `c`. Every cell has no selected value, zero candidate, pattern and element-highlight arrays, and every candidate-highlight slot at the off sentinel 255. |
| `Ffi.RowMajorSplits` | rust/rust_lib/src/ffi.rs:119-127 | Dividing the row-major index `r*cols + c` by `cols` gives back `r`, and the remainder is `c`. So no index is written twice. |
| `Ffi.UpdateCell` | rust/rust_lib/src/ffi.rs:141-161 | A null handle is a no-op. With a handle, it aborts exactly when `rows*cols > 81` or `idx >= rows*cols`. Otherwise only cell `idx` changes, and it changes to `PairRule` of itself. |
| `Ffi.UpdateMatrix` | rust/rust_lib/src/ffi.rs:164-187 | A null handle is a no-op. It aborts exactly when `rows*cols > 81`. Otherwise each of the first `rows*cols` cells gets the rule, and the cells after them are kept. The indices handed to the rule are 0 to `rows*cols - 1`, each once, in row-major order. The loop invariants prove that the source's `idx < count` assertion always holds. |
| `Ffi.FreeMatrix` | rust/rust_lib/src/ffi.rs:192-203 | A null handle is a no-op. Otherwise the block is released and the handle no longer refers to any cells. The caller must pass the size the block was created with. |
| `Ffi.UpdateOfNewGridKeepsEverythingOff` | rust/rust_lib/src/ffi.rs:128-132 | Reclassifying a freshly created grid changes no cell, and every candidate highlight stays off. |
| `Ffi.UpdatedGridIdempotent` | rust/rust_lib/src/ffi.rs:176-186 | Reclassifying the whole grid twice gives the same grid as doing it once. |
| `Ffi.UpdateMatrixAgreesWithUpdateCell` | rust/rust_lib/src/ffi.rs:141-187 | At any valid index, the single-cell update on the original grid produces the same cell as the whole-grid walk. |
| `StoreData.ToSerializable` | rust/rust_lib/src/store_data.rs:84-96 | `row`, `col` and `selectedNumState` are copied. Each vector equals its fixed array, so its length is that array's capacity. |
| `StoreData.CopyIntoZeros` | rust/rust_lib/src/store_data.rs:104-115 | The result has the full capacity. The source vector is its prefix, and every slot after that prefix is zero. |
| `StoreData.FromSerializable` | rust/rust_lib/src/store_data.rs:98-121 | Vectors longer than their arrays are excluded, because the source panics on them. `row`, `col` and `selectedNumState` are copied. The candidate, pattern and element-highlight arrays each start with the vector and are zero after it. The candidate highlights are all zero, whatever was saved. |
| `StoreData.Flatten` | rust/rust_lib/src/store_data.rs:141-147 | One serializable element per cell, in the same order, each the conversion of its cell. |
| `StoreData.Unflatten` | rust/rust_lib/src/store_data.rs:189-192 | The copy succeeds exactly when every element fits the layout, and then each cell is the conversion of the element at the same position. Otherwise it aborts, as the source panics. |
| `StoreData.SaveData` | rust/rust_lib/src/store_data.rs:124-156 | Returns -1 for a null handle or null path. Returns -6 for a path that is not UTF-8, -3 when encoding fails and -2 when writing fails. Returns 0 otherwise. The file is untouched on -1, -6 and -3, and its contents are unknown on -2, because the write truncates it before writing. On 0 the file holds `rows`, `cols` and the first `rows*cols` cells in serializable form. |
| `StoreData.LoadData` | rust/rust_lib/src/store_data.rs:159-200 | Returns -1 for a null argument and -6 for a path that is not UTF-8. Returns -3 when reading fails, -2 when parsing fails, -4 on a size mismatch and -5 on an element-count mismatch. Returns 0 otherwise. Every nonzero code leaves the target unchanged. A copy that meets an element too long for its arrays aborts. On 0, each of the first `rows*cols` cells is the conversion of the element at its position, and the cells after them are kept. |
| `StoreData.ConversionRoundTrip` | rust/rust_lib/src/store_data.rs:84-121 | Converting a cell to serializable form and back reproduces every field except the candidate highlights. Those come back as zeros. |
| `StoreData.UnflattenOfFlatten` | rust/rust_lib/src/store_data.rs:141-192 | The load copy loop never fails on a flattened grid. It gives back each cell with only its candidate highlights zeroed. |
| `StoreData.SaveThenLoadRestores` | rust/rust_lib/src/store_data.rs:124-200 | Save a grid, then load the written document into any grid of the same size. The save returns 0 and the load returns 0. Every saved cell comes back except for its candidate highlights. |

## Left out

- Raw allocation, deallocation, `Layout` and pointer arithmetic. A handle is the value of its cells. A failed allocation is the `allocSucceeds` input.
- Dereferencing memory the handle does not own is undefined behaviour in the source. It becomes a precondition on the paths that dereference: the handle must back the cells those paths read or write.
- JSON encoding and decoding, `fs::write`, `fs::read_to_string` and the decoding of the C path string. Their success or failure are inputs to `SaveData` and `LoadData`.
- The `print!` inside the load loop, which has no effect on the grid.
- `lib.rs` (a trivial `add`) and the platform start-up files for macOS, iOS and Linux. None of them holds engine logic.
- Erase, set-all-candidates and single-candidate highlighting. The code has none of them.
- ProcessData.PairRule: adds the candidate flags as an unbounded number. The `u8` sum in the source panics on overflow in a debug build and wraps around in a release build. That only happens when the flags add up to more than 255, which cannot happen with 0/1 flags (`Bytes.SumOfFlagsCountsSetFlags`).
- Ffi.CreateMatrix: `r as u8` and `c as u8` are not truncated, because both stay below 9. `Layout::array(81).unwrap()` cannot fail, so it is not modelled.
- Unwinding a panic across an `extern "C"` boundary ends the process. Every panic and failed assertion is therefore `Aborted`, with no grid state after it.
- Concurrency: the engine is single-threaded, and calls are made one at a time.
