/**
 * The state of the decomposition tool around the step generator: the input
 * matrix, the snapshot list, the index of the snapshot on screen, the final
 * L and U, and the open tab, with the Decompose, Next, Previous and Reset
 * actions.
 */
module Navigation {
  import opened Wrappers
  import opened Matrices
  import opened LuDecomposition
  import opened LuTheorems
  import opened ResultDisplay

  datatype Tab = InputTab | VisualizationTab | ResultTab

  datatype Session = Session(matrix: Matrix, steps: seq<Step>, index: int, l: Matrix, u: Matrix, tab: Tab)

  /** Before any decomposition: no snapshots, index -1, empty L and U, input tab. */
  function Initial(matrix: Matrix): (s: Session)
    ensures Valid(s) && s.steps == [] && s.tab == InputTab
  {
    Session(matrix, [], -1, [], [], InputTab)
  }

  /** Either there are no snapshots and the index is -1, or the index points at one. */
  predicate Valid(s: Session) {
    (|s.steps| == 0 && s.index == -1) || (0 <= s.index < |s.steps|)
  }

  /** The snapshot on screen, if any (`steps[currentStepIndex]`, undefined when out of range). */
  function CurrentStep(s: Session): (step: Option<Step>)
    ensures step.Some? <==> 0 <= s.index < |s.steps|
    ensures step.Some? ==> step.value == s.steps[s.index]
  {
    if 0 <= s.index < |s.steps| then Some(s.steps[s.index]) else None
  }

  /**
   * The "Decompose Matrix" button: nothing for an empty matrix; otherwise
   * the snapshots of the current matrix, the first one on screen, the final
   * L and U stored, and the visualization tab opened.
   */
  function StartDecomposition(s: Session): (s': Session)
    requires IsSquare(s.matrix, |s.matrix|)
    ensures |s.matrix| == 0 ==> s' == s
    ensures |s.matrix| > 0 ==>
              && s'.matrix == s.matrix
              && s'.steps == Decompose(s.matrix)
              && s'.index == 0
              && s'.tab == VisualizationTab
              && s'.l == s'.steps[|s'.steps| - 1].l
              && s'.u == s'.steps[|s'.steps| - 1].u
  {
    if |s.matrix| == 0 then s
    else
      var r := Eliminate(s.matrix);
      var steps := Decompose(s.matrix);
      assert steps[|steps| - 1].l == r.l && steps[|steps| - 1].u == r.u;
      Session(s.matrix, steps, 0, r.l, r.u, VisualizationTab)
  }

  /** The "Next Step" button is enabled. */
  predicate CanGoNext(s: Session) {
    s.index < |s.steps| - 1
  }

  /** The "Previous Step" button is enabled. */
  predicate CanGoBack(s: Session) {
    s.index > 0
  }

  /** `nextStep`: one snapshot forward unless the last one is on screen. */
  function Next(s: Session): (s': Session)
    ensures s'.steps == s.steps && s'.matrix == s.matrix && s'.l == s.l && s'.u == s.u && s'.tab == s.tab
    ensures CanGoNext(s) ==> s'.index == s.index + 1
    ensures !CanGoNext(s) ==> s' == s
  {
    if s.index < |s.steps| - 1 then s.(index := s.index + 1) else s
  }

  /** `prevStep`: one snapshot back unless the first one is on screen. */
  function Previous(s: Session): (s': Session)
    ensures s'.steps == s.steps && s'.matrix == s.matrix && s'.l == s.l && s'.u == s.u && s'.tab == s.tab
    ensures CanGoBack(s) ==> s'.index == s.index - 1
    ensures !CanGoBack(s) ==> s' == s
  {
    if s.index > 0 then s.(index := s.index - 1) else s
  }

  /**
   * `resetDecomposition`: the snapshots are dropped, the index is -1 and the
   * input tab opens; the stored L and U stay as they were.
   */
  function Reset(s: Session): (s': Session)
    ensures Valid(s') && s'.steps == [] && s'.tab == InputTab
    ensures s'.matrix == s.matrix && s'.l == s.l && s'.u == s.u
  {
    s.(steps := [], index := -1, tab := InputTab)
  }

  /** Every action keeps the index in range. */
  lemma ActionsKeepValid(s: Session)
    requires Valid(s)
    ensures Valid(Next(s)) && Valid(Previous(s)) && Valid(Reset(s))
    ensures IsSquare(s.matrix, |s.matrix|) ==> Valid(StartDecomposition(s))
  {
  }

  /** A button changes the state exactly when it is enabled. */
  lemma ButtonsActExactlyWhenEnabled(s: Session)
    ensures Next(s) != s <==> CanGoNext(s)
    ensures Previous(s) != s <==> CanGoBack(s)
  {
  }

  /** Previous undoes Next, and Next undoes Previous. */
  lemma NextPreviousInverse(s: Session)
    requires Valid(s)
    ensures CanGoNext(s) ==> Previous(Next(s)) == s
    ensures CanGoBack(s) ==> Next(Previous(s)) == s
  {
  }

  /** k presses of Next. */
  function NextTimes(s: Session, k: nat): (s': Session)
    ensures s'.steps == s.steps
    ensures Valid(s) ==> Valid(s')
  {
    if k == 0 then s else Next(NextTimes(s, k - 1))
  }

  /**
   * From a snapshot, k presses of Next move k snapshots forward, stopping
   * at the last one.
   */
  lemma {:induction false} NextTimesIndex(s: Session, k: nat)
    requires 0 <= s.index < |s.steps|
    ensures NextTimes(s, k).index == if s.index + k < |s.steps| then s.index + k else |s.steps| - 1
  {
    if k > 0 {
      NextTimesIndex(s, k - 1);
    }
  }

  /**
   * After decomposing a non-empty matrix, Next pressed once per remaining
   * snapshot reaches the final result, which shows the stored L and U.
   */
  lemma WalkReachesFinalResult(s: Session)
    requires IsSquare(s.matrix, |s.matrix|) && |s.matrix| > 0
    ensures var d := StartDecomposition(s);
            var last := NextTimes(d, |d.steps| - 1);
            && CurrentStep(last).Some?
            && CurrentStep(last).value.description == FinalResult
            && CurrentStep(last).value.l == d.l && CurrentStep(last).value.u == d.u
  {
    var d := StartDecomposition(s);
    NextTimesIndex(d, |d.steps| - 1);
    SnapshotsFrame(s.matrix);
  }

  /**
   * The result tab of a decomposed matrix without zero pivots reports a
   * correct decomposition.
   */
  lemma ResultTabReportsCorrect(s: Session)
    requires IsSquare(s.matrix, |s.matrix|) && |s.matrix| > 0 && NoZeroPivot(s.matrix)
    ensures var d := StartDecomposition(s);
            && ProductDefined(d.l, d.u)
            && Verdict(false, d.matrix, d.l, d.u)
  {
    DecompositionReportedCorrect(s.matrix);
  }
}
