/** The persistence adapter: the variable-length serializable form of a cell,
    the conversions between the two forms, and the status codes of saving
    and loading a grid. The JSON text and the file system are abstracted:
    a saved file holds the `AppData` value itself, and every way the encoder,
    the writer, the reader or the parser can fail is an input. */
module StoreData {
  import opened Bytes
  import opened Runtime
  import opened Element

  /** A cell with its fixed arrays replaced by vectors of any length. */
  datatype SerializableElement = SerializableElement(
    row: uint8,
    col: uint8,
    selectedNumState: uint8,
    selectedCandList: seq<uint8>,
    selectedPatternList: seq<uint8>,
    requestedElementHighLightType: seq<uint8>,
    requestedCandHighLightType: seq<uint8>)

  /** The saved document: the grid size and the cells in row-major order. */
  datatype AppData = AppData(rows: uint8, cols: uint8, elements: seq<SerializableElement>)

  /** Status codes shared by saving and loading. */
  const Success: int := 0
  const NullArgument: int := -1
  const DimensionMismatch: int := -4
  const LengthMismatch: int := -5
  const InvalidUtf8: int := -6
  /** Saving: the write failed, or the encoder failed. */
  const SaveWriteFailed: int := -2
  const SaveEncodeFailed: int := -3
  /** Loading: the codes of the two failures are the other way round. */
  const LoadParseFailed: int := -2
  const LoadReadFailed: int := -3

  /** The path argument as the engine sees it once the C string is read. */
  datatype PathArg = NullPath | NotUtf8 | Utf8Path(name: string)

  /** What reading and parsing the file produced. */
  datatype FileRead = ReadFailed | ParseFailed | Parsed(data: AppData)

  /** What a save leaves at the path. `fs::write` truncates the file before
      writing, so a failed write leaves it in a state the engine does not
      know: empty, partial, or untouched if it could not be opened. */
  datatype SavedFile = Untouched | Unknown | Holds(data: AppData)

  datatype SaveReturn = SaveReturn(code: int, file: SavedFile)
  datatype LoadReturn = LoadReturn(code: int, grid: Option<Grid>)

  /** `dst` starts with a copy of `src` and is zero after it. */
  predicate IsZeroPaddedCopy(dst: seq<uint8>, src: seq<uint8>)
  {
    |src| <= |dst| && dst[..|src|] == src && AllAre(dst[|src|..], 0)
  }

  /** The state of a cell that survives saving and loading: everything but
      the candidate highlights, which come back as zeros. */
  function Persisted(c: Cell): Cell
  {
    c.(requestedCandHighLightType := Zeros(RequestedCandHighLightTypeSize))
  }

  /** `SerializableElement::from(&cell)`: a field-by-field copy in which
      each vector is the whole fixed array. */
  function ToSerializable(c: Cell): (e: SerializableElement)
    ensures e.row == c.row && e.col == c.col && e.selectedNumState == c.selectedNumState
    ensures e.selectedCandList == c.selectedCandList && |e.selectedCandList| == SelectedNumberListSize
    ensures e.selectedPatternList == c.selectedPatternList && |e.selectedPatternList| == SelectedPatternListSize
    ensures e.requestedElementHighLightType == c.requestedElementHighLightType
    ensures |e.requestedElementHighLightType| == RequestedElementHighLightTypeSize
    ensures e.requestedCandHighLightType == c.requestedCandHighLightType
    ensures |e.requestedCandHighLightType| == RequestedCandHighLightTypeSize
  {
    SerializableElement(c.row, c.col, c.selectedNumState,
      c.selectedCandList, c.selectedPatternList,
      c.requestedElementHighLightType, c.requestedCandHighLightType)
  }

  /** The three vectors that are copied back are no longer than their
      arrays; `copy_from_slice` panics on a longer one. The candidate
      highlight vector is not copied, so its length is free. */
  predicate FitsLayout(e: SerializableElement)
  {
    && |e.selectedCandList| <= SelectedNumberListSize
    && |e.selectedPatternList| <= SelectedPatternListSize
    && |e.requestedElementHighLightType| <= RequestedElementHighLightTypeSize
  }

  /** A zeroed array of `cap` slots with `src` copied over its front. */
  function CopyIntoZeros(src: seq<uint8>, cap: nat): (dst: seq<uint8>)
    requires |src| <= cap
    ensures |dst| == cap && IsZeroPaddedCopy(dst, src)
  {
    var dst := src + Zeros(cap)[|src|..];
    assert dst[|src|..] == Zeros(cap)[|src|..];
    dst
  }

  /** `DartToRustElementFFI::from(&element)`: the scalars are copied, each of
      the three copied arrays takes the vector as its prefix and zeros after
      it, and the candidate highlights are all zero, whatever was saved. */
  function FromSerializable(e: SerializableElement): (c: Cell)
    requires FitsLayout(e)
    ensures c.row == e.row && c.col == e.col && c.selectedNumState == e.selectedNumState
    ensures IsZeroPaddedCopy(c.selectedCandList, e.selectedCandList)
    ensures IsZeroPaddedCopy(c.selectedPatternList, e.selectedPatternList)
    ensures IsZeroPaddedCopy(c.requestedElementHighLightType, e.requestedElementHighLightType)
    ensures AllAre(c.requestedCandHighLightType, 0)
  {
    Element(e.row, e.col, e.selectedNumState,
      CopyIntoZeros(e.selectedCandList, SelectedNumberListSize),
      CopyIntoZeros(e.selectedPatternList, SelectedPatternListSize),
      CopyIntoZeros(e.requestedElementHighLightType, RequestedElementHighLightTypeSize),
      Zeros(RequestedCandHighLightTypeSize))
  }

  /** Every element of a loaded document can be copied into a cell. */
  predicate AllFit(elems: seq<SerializableElement>)
  {
    forall i :: 0 <= i < |elems| ==> FitsLayout(elems[i])
  }

  /** The cells of a grid in their serializable form, in the same order. */
  function Flatten(cells: seq<Cell>): (r: seq<SerializableElement>)
    ensures |r| == |cells|
    ensures forall i :: 0 <= i < |cells| ==> r[i] == ToSerializable(cells[i])
  {
    if |cells| == 0 then [] else [ToSerializable(cells[0])] + Flatten(cells[1..])
  }

  /** The copy loop of loading: each element converted in order; it aborts
      when some element is too long for its arrays, where the source panics. */
  function Unflatten(elems: seq<SerializableElement>): (r: Outcome<seq<Cell>>)
    ensures r.Returned? <==> AllFit(elems)
    ensures r.Returned? ==>
      |r.value| == |elems| && forall i :: 0 <= i < |elems| ==> r.value[i] == FromSerializable(elems[i])
  {
    if |elems| == 0 then Returned([])
    else if !FitsLayout(elems[0]) then Aborted
    else
      match Unflatten(elems[1..])
      case Aborted =>
        assert !FitsLayout(elems[1..][ElementNotFitting(elems[1..])]);
        Aborted
      case Returned(rest) => Returned([FromSerializable(elems[0])] + rest)
  }

  /** An element that does not fit, in a sequence where not all do. */
  function ElementNotFitting(elems: seq<SerializableElement>): (i: nat)
    requires !AllFit(elems)
    ensures i < |elems| && !FitsLayout(elems[i])
  {
    if !FitsLayout(elems[0]) then 0 else 1 + ElementNotFitting(elems[1..])
  }

  /** `save_data(ptr, rows, cols, path)`: null arguments, a path that is not
      UTF-8, an encoder failure and a write failure each have their own
      code. On success the file holds the first `rows * cols` cells in
      serializable form; after a failed write its contents are unknown.
      Sizes are not checked against anything. */
  function SaveData(h: Option<Grid>, rows: uint8, cols: uint8, path: PathArg, encodes: bool, writes: bool)
    : (r: SaveReturn)
    // the handle must back `rows * cols` cells once they are read
    requires h.Some? && path.Utf8Path? ==> Count(rows, cols) <= |h.value|
    ensures r.code == NullArgument <==> h.None? || path.NullPath?
    ensures r.code == InvalidUtf8 <==> h.Some? && path.NotUtf8?
    ensures r.code == SaveEncodeFailed <==> h.Some? && path.Utf8Path? && !encodes
    ensures r.code == SaveWriteFailed <==> h.Some? && path.Utf8Path? && encodes && !writes
    ensures r.code == Success <==> h.Some? && path.Utf8Path? && encodes && writes
    // the file is left alone before the write, unknown after a failed write
    ensures r.file.Untouched? <==> r.code != Success && r.code != SaveWriteFailed
    ensures r.file.Unknown? <==> r.code == SaveWriteFailed
    ensures r.file.Holds? <==> r.code == Success
    ensures r.file.Holds? ==>
      && r.file.data.rows == rows && r.file.data.cols == cols
      && |r.file.data.elements| == Count(rows, cols)
      && forall i :: 0 <= i < Count(rows, cols) ==>
           r.file.data.elements[i] == ToSerializable(h.value[i])
  {
    if h.None? || path.NullPath? then SaveReturn(NullArgument, Untouched)
    else if path.NotUtf8? then SaveReturn(InvalidUtf8, Untouched)
    else
      var data := AppData(rows, cols, Flatten(h.value[..Count(rows, cols)]));
      if !encodes then SaveReturn(SaveEncodeFailed, Untouched)
      else if !writes then SaveReturn(SaveWriteFailed, Unknown)
      else SaveReturn(Success, Holds(data))
  }

  /** True if a load reaches the point where it addresses the target cells. */
  predicate LoadAddressesGrid(h: Option<Grid>, rows: uint8, cols: uint8, path: PathArg, file: FileRead)
  {
    h.Some? && path.Utf8Path? && file.Parsed? && file.data.rows == rows && file.data.cols == cols
  }

  /** `load_data(ptr, rows, cols, path)`: every failure before the copy has
      its own code and leaves the target untouched; the size and the element
      count are checked before anything is written; a copy that reaches an
      element too long for its arrays aborts. On success the first
      `rows * cols` cells are the converted elements and the rest are kept. */
  function LoadData(h: Option<Grid>, rows: uint8, cols: uint8, path: PathArg, file: FileRead)
    : (r: Outcome<LoadReturn>)
    requires LoadAddressesGrid(h, rows, cols, path, file) ==> Count(rows, cols) <= |h.value|
    ensures r.Aborted? <==>
      LoadAddressesGrid(h, rows, cols, path, file) && |file.data.elements| == Count(rows, cols) &&
      !AllFit(file.data.elements)
    ensures r.Returned? && r.value.code != Success ==> r.value.grid == h
    ensures r.Returned? ==> (r.value.code == NullArgument <==> h.None? || path.NullPath?)
    ensures r.Returned? ==> (r.value.code == InvalidUtf8 <==> h.Some? && path.NotUtf8?)
    ensures r.Returned? ==> (r.value.code == LoadReadFailed <==> h.Some? && path.Utf8Path? && file.ReadFailed?)
    ensures r.Returned? ==> (r.value.code == LoadParseFailed <==> h.Some? && path.Utf8Path? && file.ParseFailed?)
    ensures r.Returned? ==> (r.value.code == DimensionMismatch <==>
      h.Some? && path.Utf8Path? && file.Parsed? && (file.data.rows != rows || file.data.cols != cols))
    ensures r.Returned? ==> (r.value.code == LengthMismatch <==>
      LoadAddressesGrid(h, rows, cols, path, file) && |file.data.elements| != Count(rows, cols))
    ensures r.Returned? ==> (r.value.code == Success <==>
      LoadAddressesGrid(h, rows, cols, path, file) && |file.data.elements| == Count(rows, cols))
    ensures r.Returned? && r.value.code == Success ==>
      && LoadAddressesGrid(h, rows, cols, path, file)
      && r.value.grid.Some?
      && |r.value.grid.value| == |h.value|
      && (forall i :: 0 <= i < Count(rows, cols) ==>
            r.value.grid.value[i] == FromSerializable(file.data.elements[i]))
      && (forall i :: Count(rows, cols) <= i < |h.value| ==> r.value.grid.value[i] == h.value[i])
  {
    if h.None? || path.NullPath? then Returned(LoadReturn(NullArgument, h))
    else if path.NotUtf8? then Returned(LoadReturn(InvalidUtf8, h))
    else if file.ReadFailed? then Returned(LoadReturn(LoadReadFailed, h))
    else if file.ParseFailed? then Returned(LoadReturn(LoadParseFailed, h))
    else if file.data.rows != rows || file.data.cols != cols then Returned(LoadReturn(DimensionMismatch, h))
    else
      var count := Count(rows, cols);
      if count != |file.data.elements| then Returned(LoadReturn(LengthMismatch, h))
      else
        match Unflatten(file.data.elements)
        case Aborted => Aborted
        case Returned(cells) => Returned(LoadReturn(Success, Some(cells + h.value[count..])))
  }

  /** Converting a cell to its serializable form and back gives the cell
      with its candidate highlights zeroed and every other field as it was. */
  lemma ConversionRoundTrip(c: Cell)
    ensures FitsLayout(ToSerializable(c))
    ensures FromSerializable(ToSerializable(c)) == Persisted(c)
  {
  }

  /** The copy loop of loading undoes the flattening of saving, up to the
      candidate highlights. */
  lemma UnflattenOfFlatten(cells: seq<Cell>)
    ensures Unflatten(Flatten(cells)).Returned?
    ensures |Unflatten(Flatten(cells)).value| == |cells|
    ensures forall i :: 0 <= i < |cells| ==> Unflatten(Flatten(cells)).value[i] == Persisted(cells[i])
  {
  }

  /** Saving a grid and loading the written document into any grid of the
      same size succeeds and restores every saved cell except its candidate
      highlights. */
  lemma SaveThenLoadRestores(g: Grid, target: Grid, rows: uint8, cols: uint8, name: string)
    requires Count(rows, cols) <= |g| && Count(rows, cols) <= |target|
    ensures
      var saved := SaveData(Some(g), rows, cols, Utf8Path(name), true, true);
      && saved.code == Success
      && var loaded := LoadData(Some(target), rows, cols, Utf8Path(name), Parsed(saved.file.data));
      && loaded.Returned?
      && loaded.value.code == Success
      && forall i :: 0 <= i < Count(rows, cols) ==> loaded.value.grid.value[i] == Persisted(g[i])
  {
  }
}
