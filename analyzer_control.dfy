/**
  The start/pause button of the text analyzer window. Three pieces of state
  matter: `_isRunning`, `_isPaused`, and whether the `ManualResetEventSlim`
  the background loop waits on is set. A click starts a run, pauses it or
  resumes it; the `finally` block after the awaited run is a separate event,
  "run completed".
 */
module AnalyzerControl {
  import opened TextAnalyzer

  /** `_isRunning`, `_isPaused`, and the set/reset state of `_pauseEvent`. */
  datatype Flags = Flags(isRunning: bool, isPaused: bool, pauseEventSet: bool)

  /** A fresh window: idle, not paused, the event created set. */
  const Initial: Flags := Flags(false, false, true)

  /** What a click does: start a run, refuse to start for want of an
      analysis box or an output box, pause, or resume. */
  datatype ClickResult = Started | NoAnalysisOption | NoOutputOption | Paused | Resumed

  /** `ButtonStartPause_Click` up to the point where a started run awaits
      the analysis. */
  function OnClick(f: Flags, analysisSelected: bool, outputSelected: bool): (Flags, ClickResult) {
    if !f.isRunning then
      if !analysisSelected then (f, NoAnalysisOption)
      else if !outputSelected then (f, NoOutputOption)
      else (f.(isRunning := true, isPaused := false), Started)
    else if !f.isPaused then (f.(pauseEventSet := false, isPaused := true), Paused)
    else (f.(pauseEventSet := true, isPaused := false), Resumed)
  }

  /** The `finally` block once the awaited run has ended. */
  function OnRunCompleted(f: Flags): Flags {
    f.(isRunning := false)
  }

  /** Something the window reacts to: a click with the boxes as they are,
      or the end of the run. */
  datatype Event = Click(analysis: AnalysisBoxes, output: OutputBoxes) | RunCompleted

  /** How a click changes the flags, given whether an analysis box and an
      output box are checked: `OnClick` as written, or a corrected version. */
  type ClickTransition = (Flags, bool, bool) -> (Flags, ClickResult)

  function Apply(onClick: ClickTransition, f: Flags, e: Event): Flags {
    match e
    case Click(analysis, output) =>
      onClick(f, IsAnyAnalysisOptionSelected(analysis), IsAnyOutputOptionSelected(output)).0
    case RunCompleted => OnRunCompleted(f)
  }

  /** The flags after a sequence of events. */
  function Replay(onClick: ClickTransition, f: Flags, es: seq<Event>): Flags
    decreases |es|
  {
    if es == [] then f else Apply(onClick, Replay(onClick, f, es[..|es| - 1]), es[|es| - 1])
  }

  /** While idle, a click starts a run exactly when an analysis box and an
      output box are checked, the analysis box being looked at first;
      otherwise nothing changes. A start clears the pause flag and leaves
      the event as it was. */
  lemma IdleClick(f: Flags, analysisSelected: bool, outputSelected: bool)
    requires !f.isRunning
    ensures OnClick(f, analysisSelected, outputSelected).1 == Started <==> analysisSelected && outputSelected
    ensures !analysisSelected ==> OnClick(f, analysisSelected, outputSelected) == (f, NoAnalysisOption)
    ensures analysisSelected && !outputSelected ==> OnClick(f, analysisSelected, outputSelected) == (f, NoOutputOption)
    ensures analysisSelected && outputSelected ==>
              OnClick(f, analysisSelected, outputSelected).0 == Flags(true, false, f.pauseEventSet)
  {
  }

  /** While running, the boxes play no part, and clicks alternate between
      pausing (event reset) and resuming (event set). Two clicks from a
      state whose event agrees with its pause flag come back to it. */
  lemma RunningClicksAlternate(f: Flags, a1: bool, o1: bool, a2: bool, o2: bool)
    requires f.isRunning
    ensures OnClick(f, a1, o1) == OnClick(f, a2, o2)
    ensures OnClick(f, a1, o1).0.isRunning
    ensures OnClick(f, a1, o1).1 == (if f.isPaused then Resumed else Paused)
    ensures OnClick(f, a1, o1).0.isPaused == !f.isPaused
    ensures OnClick(f, a1, o1).0.pauseEventSet == f.isPaused
    ensures f.pauseEventSet == !f.isPaused ==> OnClick(OnClick(f, a1, o1).0, a2, o2).0 == f
  {
  }

  /** Completion stops the run and touches neither the pause flag nor the
      event; a later click is then a start attempt. */
  lemma CompletionStopsRun(f: Flags, analysisSelected: bool, outputSelected: bool)
    ensures !OnRunCompleted(f).isRunning
    ensures OnRunCompleted(f).isPaused == f.isPaused && OnRunCompleted(f).pauseEventSet == f.pauseEventSet
    ensures OnClick(OnRunCompleted(f), analysisSelected, outputSelected).1 in {Started, NoAnalysisOption, NoOutputOption}
  {
  }

  /** The state that holds in every reachable state of the code as
      written: a paused run has its event reset. */
  predicate PausedMeansReset(f: Flags) {
    f.isPaused ==> !f.pauseEventSet
  }

  /** Every event keeps `PausedMeansReset`. */
  lemma ApplyKeepsPausedMeansReset(f: Flags, e: Event)
    requires PausedMeansReset(f)
    ensures PausedMeansReset(Apply(OnClick, f, e))
  {
  }

  /** `PausedMeansReset` holds after any sequence of events from a fresh
      window. */
  lemma {:induction false} ReplayKeepsPausedMeansReset(es: seq<Event>)
    ensures PausedMeansReset(Replay(OnClick, Initial, es))
    decreases |es|
  {
    if es != [] {
      ReplayKeepsPausedMeansReset(es[..|es| - 1]);
      ApplyKeepsPausedMeansReset(Replay(OnClick, Initial, es[..|es| - 1]), es[|es| - 1]);
    }
  }

  /** A run the window shows as running and not paused while the
      background loop waits on a reset event. */
  predicate WorkerBlocked(f: Flags) {
    f.isRunning && !f.isPaused && !f.pauseEventSet
  }

  const AllAnalysis: AnalysisBoxes := AnalysisBoxes(Checked, Checked, Checked, Checked, Checked)
  const AllOutput: OutputBoxes := OutputBoxes(Checked, Checked)

  /** Start, pause during the last delay so that the run still completes,
      then start again: the new run shows "Пауза" but its loop waits on the
      event left reset, so the start branch not setting the event leaves
      the run stuck until two more clicks. */
  lemma StartAfterPausedRunBlocks()
    ensures var trace := [Click(AllAnalysis, AllOutput), Click(AllAnalysis, AllOutput),
                          RunCompleted, Click(AllAnalysis, AllOutput)];
            WorkerBlocked(Replay(OnClick, Initial, trace))
  {
    var c := Click(AllAnalysis, AllOutput);
    var trace := [c, c, RunCompleted, c];
    assert trace[..3] == [c, c, RunCompleted];
    assert trace[..3][..2] == [c, c];
    assert trace[..3][..2][..1] == [c];
    assert [c][..0] == [];
    assert Replay(OnClick, Initial, [c]) == Flags(true, false, true);
    assert Replay(OnClick, Initial, [c, c]) == Flags(true, true, false);
    assert Replay(OnClick, Initial, [c, c, RunCompleted]) == Flags(false, true, false);
  }

  /** The start branch setting the event as well, as pausing and resuming
      keep it in step with the pause flag. */
  function OnClickCorrected(f: Flags, analysisSelected: bool, outputSelected: bool): (Flags, ClickResult) {
    if !f.isRunning then
      if !analysisSelected then (f, NoAnalysisOption)
      else if !outputSelected then (f, NoOutputOption)
      else (f.(isRunning := true, isPaused := false, pauseEventSet := true), Started)
    else if !f.isPaused then (f.(pauseEventSet := false, isPaused := true), Paused)
    else (f.(pauseEventSet := true, isPaused := false), Resumed)
  }

  /** With the correction the event is set exactly when the run is not
      paused, in every reachable state, so a running, unpaused loop never
      waits. */
  lemma {:induction false} CorrectedNeverBlocks(es: seq<Event>)
    ensures Replay(OnClickCorrected, Initial, es).pauseEventSet == !Replay(OnClickCorrected, Initial, es).isPaused
    ensures !WorkerBlocked(Replay(OnClickCorrected, Initial, es))
    decreases |es|
  {
    if es != [] {
      CorrectedNeverBlocks(es[..|es| - 1]);
    }
  }

  /** The correction changes nothing but the event on a start. */
  lemma CorrectionOnlyTouchesStart(f: Flags, analysisSelected: bool, outputSelected: bool)
    ensures OnClickCorrected(f, analysisSelected, outputSelected).1 == OnClick(f, analysisSelected, outputSelected).1
    ensures OnClick(f, analysisSelected, outputSelected).1 != Started ==>
              OnClickCorrected(f, analysisSelected, outputSelected) == OnClick(f, analysisSelected, outputSelected)
    ensures OnClickCorrected(f, analysisSelected, outputSelected).0
            == OnClick(f, analysisSelected, outputSelected).0.(pauseEventSet :=
                 OnClickCorrected(f, analysisSelected, outputSelected).0.pauseEventSet)
  {
  }

  /** The window's button and the three fields it updates. */
  class StartPauseButton {
    var isRunning: bool
    var isPaused: bool
    var pauseEventSet: bool

    function State(): Flags
      reads this
    {
      Flags(isRunning, isPaused, pauseEventSet)
    }

    constructor ()
      ensures State() == Initial
    {
      isRunning := false;
      isPaused := false;
      pauseEventSet := true;
    }

    /** `ButtonStartPause_Click`, up to the point where a started run
        awaits the analysis. */
    method Click(analysis: AnalysisBoxes, output: OutputBoxes) returns (result: ClickResult)
      modifies this
      ensures (State(), result)
              == OnClick(old(State()), IsAnyAnalysisOptionSelected(analysis), IsAnyOutputOptionSelected(output))
      ensures PausedMeansReset(old(State())) ==> PausedMeansReset(State())
    {
      if !isRunning {
        if !IsAnyAnalysisOptionSelected(analysis) {
          return NoAnalysisOption;
        }
        if !IsAnyOutputOptionSelected(output) {
          return NoOutputOption;
        }
        isRunning := true;
        isPaused := false;
        result := Started;
      } else if !isPaused {
        pauseEventSet := false;
        isPaused := true;
        result := Paused;
      } else {
        pauseEventSet := true;
        isPaused := false;
        result := Resumed;
      }
    }

    /** The `finally` block after the awaited run. */
    method RunCompleted()
      modifies this
      ensures State() == OnRunCompleted(old(State()))
      ensures PausedMeansReset(old(State())) ==> PausedMeansReset(State())
    {
      isRunning := false;
    }
  }
}
