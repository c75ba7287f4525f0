/**
 The preferences window: the update-interval slider, whose ticks are half-hour steps with
 one tick meaning "never", and the include-dependencies checkbox. Ticks and stored
 seconds are integers; the slider position set on load is an exact rational.
 */
module Preferences {
  import opened Wrappers

  /** The slider tick that means "never update". */
  const NeverTick := 10
  /** Seconds per slider tick: half an hour. */
  const SecondsPerTick := 1800
  /** The stored interval that means "never update". */
  const NeverStored := -1

  datatype ControlState = On | Off

  /** What the preferences window tells its delegate. */
  datatype DelegateMessage =
    | UpdateIntervalChanged(newInterval: Option<int>)
    | IncludeDependenciesChanged(newState: ControlState)

  /** The interval for a slider tick: none for the "never" tick, otherwise half an hour per tick. */
  function IntervalForTick(tick: int): Option<int> {
    if tick == NeverTick then None else Some(tick * SecondsPerTick)
  }

  /** `updateIntervalChanged`: the slider at `tick` sends the interval for that tick. */
  function SliderMoved(tick: int): (m: DelegateMessage)
    ensures m.UpdateIntervalChanged?
    ensures m.newInterval.None? <==> tick == 10
    ensures m.newInterval.Some? ==> m.newInterval.value * 2 == tick * 3600
  {
    UpdateIntervalChanged(IntervalForTick(tick))
  }

  /**
   `windowDidLoad`: the value assigned to the slider for a stored interval, the slider's
   maximum for "never", otherwise two ticks per hour.
   */
  function SliderPosition(stored: int, maxValue: real): (v: real)
    ensures stored == -1 ==> v == maxValue
    ensures stored != -1 ==> v * 1800.0 == stored as real
  {
    if stored == NeverStored then maxValue else (stored as real / 3600.0) * 2.0
  }

  /** Loading the interval a tick sends puts the slider back on that tick. */
  lemma TickRoundTrip(tick: int, maxValue: real)
    requires tick != NeverTick
    ensures IntervalForTick(tick).Some?
    ensures SliderPosition(IntervalForTick(tick).value, maxValue) == tick as real
  {
  }

  /**
   For any stored interval other than "never", the slider lands on tick `t` exactly when
   `t` is the tick that sends that interval.
   */
  lemma PositionIffTick(stored: int, tick: int, maxValue: real)
    requires stored != NeverStored && tick != NeverTick
    ensures SliderPosition(stored, maxValue) == tick as real <==> IntervalForTick(tick) == Some(stored)
  {
  }

  /** With the "never" tick as the slider's maximum, a stored "never" reloads onto the tick that sends no interval. */
  lemma NeverRoundTrip()
    ensures SliderPosition(NeverStored, NeverTick as real) == NeverTick as real
    ensures IntervalForTick(NeverTick) == None
  {
  }

  /** `windowDidLoad`: the checkbox is on exactly when dependencies are included. */
  function CheckboxState(includeDependencies: bool): (s: ControlState)
    ensures s == On <==> includeDependencies
  {
    if includeDependencies then On else Off
  }

  /** `includeDependenciesPressed`: the checkbox's new state is forwarded unchanged. */
  function CheckboxPressed(state: ControlState): (m: DelegateMessage)
    ensures m.IncludeDependenciesChanged? && m.newState == state
  {
    IncludeDependenciesChanged(state)
  }

  /** The control state the delegate receives says whether dependencies are included, and reads back to the same flag. */
  lemma CheckboxRoundTrip(includeDependencies: bool)
    ensures (CheckboxPressed(CheckboxState(includeDependencies)).newState == On) == includeDependencies
  {
  }
}
