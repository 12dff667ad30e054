/** The fixed-layout cell record shared with the host, and the constants
    that size it. */
module Element {
  import opened Bytes

  const MaxUint: uint8 := 255
  /** The grid dimension N. */
  const MatrixSize: uint8 := 9
  /** The largest cell count any grid operation accepts. */
  const MatrixElements: uint8 := 81

  /** Pattern-kind codes a candidate-highlight slot can carry. Only `Pairs`
      is ever produced by the engine. */
  const HiLightOn: uint8 := 0
  const Pairs: uint8 := 1
  const MatchPairs: uint8 := 2
  const Twins: uint8 := 3
  const User: uint8 := 4

  /** Array capacities of the record. */
  const SelectedNumberListSize: nat := MatrixSize as nat
  const SelectedPatternListSize: nat := 5
  const RequestedElementHighLightTypeSize: nat := 5
  const RequestedCandHighLightTypeSize: nat := MatrixSize as nat

  /** The "off" sentinel of a candidate-highlight slot. */
  const PatternListOff: uint8 := MaxUint

  /** One grid position, field for field as the host sees it. */
  datatype Element = Element(
    row: uint8,
    col: uint8,
    selectedNumState: uint8,
    selectedCandList: seq<uint8>,
    selectedPatternList: seq<uint8>,
    requestedElementHighLightType: seq<uint8>,
    requestedCandHighLightType: seq<uint8>)
  {
    /** Every array has its compiled capacity. */
    predicate HasFixedLayout()
    {
      && |selectedCandList| == SelectedNumberListSize
      && |selectedPatternList| == SelectedPatternListSize
      && |requestedElementHighLightType| == RequestedElementHighLightTypeSize
      && |requestedCandHighLightType| == RequestedCandHighLightTypeSize
    }
  }

  /** A record whose arrays have their fixed lengths, as the Rust array
      types guarantee. */
  type Cell = e: Element | e.HasFixedLayout()
    witness Element(0, 0, 0, Zeros(9), Zeros(5), Zeros(5), Zeros(9))

  /** The cells behind a grid handle, in row-major order. */
  type Grid = seq<Cell>

  /** The number of cells a `rows` by `cols` grid holds, computed in `usize`
      (no overflow: both factors are below 256). */
  function Count(rows: uint8, cols: uint8): nat
  {
    rows as nat * cols as nat
  }

  /** The row-major index of position (`r`, `c`) in a grid with `cols`
      columns. */
  function RowMajor(r: nat, c: nat, cols: uint8): nat
  {
    r * cols as nat + c
  }
}
