/** The pair-highlighting rule: a per-cell classification of the candidate
    flags that marks the candidates of a two-candidate cell. */
module ProcessData {
  import opened Bytes
  import opened Runtime
  import opened Element

  /** The walk over `zip(candidates, highlights)`: every highlight slot whose
      candidate flag is nonzero becomes `Pairs`; the rest keep their value,
      including any highlight slots past the end of the candidate array. */
  function MarkPairs(cands: seq<uint8>, hl: seq<uint8>): (r: seq<uint8>)
    ensures |r| == |hl|
    ensures forall i :: 0 <= i < |hl| ==>
      r[i] == (if i < |cands| && cands[i] != 0 then Pairs else hl[i])
    decreases |hl|
  {
    if |cands| == 0 || |hl| == 0 then hl
    else [if cands[0] != 0 then Pairs else hl[0]] + MarkPairs(cands[1..], hl[1..])
  }

  /** The rule applies only to a cell with no value selected whose candidate
      flags add up to exactly 2. */
  predicate Fires(c: Cell)
  {
    c.selectedNumState == 0 && Sum(c.selectedCandList) == 2
  }

  /** The per-cell rule. It never resets a slot and has no single-candidate
      case. */
  function PairRule(c: Cell): (r: Cell)
    // only the candidate highlights can change
    ensures r == c.(requestedCandHighLightType := r.requestedCandHighLightType)
    // a cell with a selected value, or whose flags do not add up to 2, is untouched
    ensures c.selectedNumState != 0 ==> r == c
    ensures Sum(c.selectedCandList) != 2 ==> r == c
    // when the rule fires every live candidate is marked and every other slot is kept
    ensures forall i :: 0 <= i < RequestedCandHighLightTypeSize ==>
      r.requestedCandHighLightType[i] ==
        (if Fires(c) && c.selectedCandList[i] != 0 then Pairs else c.requestedCandHighLightType[i])
  {
    if Fires(c) then
      c.(requestedCandHighLightType := MarkPairs(c.selectedCandList, c.requestedCandHighLightType))
    else
      c
  }

  /** `checkForElementPair(ptr, idx)`: a null handle is ignored, an index
      at or past 81 aborts, otherwise the rule is applied to cell `idx` and
      to no other cell. */
  function CheckForElementPair(h: Option<Grid>, idx: nat): (r: Outcome<Option<Grid>>)
    // the handle must address cell `idx` whenever the code dereferences it
    requires h.Some? && idx < MatrixElements as nat ==> idx < |h.value|
    ensures h.None? ==> r == Returned(None)
    ensures h.Some? ==> (r.Aborted? <==> idx >= MatrixElements as nat)
    ensures h.Some? && r.Returned? ==>
      && r.value.Some?
      && |r.value.value| == |h.value|
      && r.value.value[idx] == PairRule(h.value[idx])
      && forall j :: 0 <= j < |h.value| && j != idx ==> r.value.value[j] == h.value[j]
  {
    if h.None? then Returned(None)
    else if idx >= MatrixElements as nat then Aborted
    else
      var g := h.value;
      Returned(Some(g[idx := PairRule(g[idx])]))
  }

  /** Applying the rule a second time changes nothing: the candidate flags and
      the selected value that decide it are left alone, and the slots it
      writes already hold `Pairs`. */
  lemma PairRuleIdempotent(c: Cell)
    ensures PairRule(PairRule(c)) == PairRule(c)
  {
  }

  /** With 0/1 candidate flags the rule fires exactly on an unset cell with
      two live candidates, and then the live candidates are exactly the slots
      that change to `Pairs` when no slot was `Pairs` before. */
  lemma PairRuleOnFlagCells(c: Cell)
    requires IsFlagArray(c.selectedCandList)
    requires forall i :: 0 <= i < RequestedCandHighLightTypeSize ==>
      c.requestedCandHighLightType[i] == PatternListOff
    ensures Fires(c) <==> c.selectedNumState == 0 && CountNonzero(c.selectedCandList) == 2
    ensures forall i :: 0 <= i < RequestedCandHighLightTypeSize ==>
      (PairRule(c).requestedCandHighLightType[i] == Pairs <==>
        c.selectedNumState == 0 && CountNonzero(c.selectedCandList) == 2 && c.selectedCandList[i] == 1)
  {
    SumOfFlagsCountsSetFlags(c.selectedCandList);
  }

  /** Highlights are not recomputed from scratch: a cell marked as a pair
      keeps its `Pairs` slots when a third candidate is switched on. */
  lemma StalePairsSurvive()
    ensures
      var before := Element(0, 0, 0, [0, 0, 1, 0, 0, 0, 1, 0, 0], Zeros(5), Zeros(5), Filled(9, PatternListOff));
      var marked := PairRule(before);
      var third := marked.(selectedCandList := [1, 0, 1, 0, 0, 0, 1, 0, 0]);
      && marked.requestedCandHighLightType == [PatternListOff, PatternListOff, Pairs, PatternListOff,
                                               PatternListOff, PatternListOff, Pairs, PatternListOff, PatternListOff]
      && PairRule(third) == third
      && PairRule(third).requestedCandHighLightType[2] == Pairs
  {
    var before := Element(0, 0, 0, [0, 0, 1, 0, 0, 0, 1, 0, 0], Zeros(5), Zeros(5), Filled(9, PatternListOff));
    var cands := before.selectedCandList;
    assert Sum(cands) == 2 by {
      assert cands[1..][1..][1..][1..][1..][1..][1..] == [0, 0];
    }
    var marked := PairRule(before);
    var third := marked.(selectedCandList := [1, 0, 1, 0, 0, 0, 1, 0, 0]);
    assert Sum(third.selectedCandList) == 3 by {
      assert third.selectedCandList[1..][1..][1..][1..][1..][1..][1..] == [0, 0];
    }
  }

  /** The rule adds flag values rather than counting live candidates: a cell
      whose only live candidate carries the flag value 2 is marked as a pair. */
  lemma FlagValueTwoMarksOneCandidate()
    ensures
      var c := Element(0, 0, 0, [2, 0, 0, 0, 0, 0, 0, 0, 0], Zeros(5), Zeros(5), Filled(9, PatternListOff));
      && CountNonzero(c.selectedCandList) == 1
      && Fires(c)
      && PairRule(c).requestedCandHighLightType[0] == Pairs
      && forall i :: 1 <= i < RequestedCandHighLightTypeSize ==>
           PairRule(c).requestedCandHighLightType[i] == PatternListOff
  {
  }
}
