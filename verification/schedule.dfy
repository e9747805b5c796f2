/** The periodic trigger: a timer whose period is the scan interval, set in
    whole minutes from the settings spin box (minimum 1). Changing the interval
    stops the timer and starts it again with the new period; the firing itself
    is not modelled. */
module Schedule {

  /** The interval the popup starts with, in minutes. */
  const DefaultMinutes: nat := 5

  const MillisPerMinute: nat := 60 * 1000

  /** The timer period for an interval of `minutes`, in milliseconds, as
      `update_interval` and the initial `start` compute it. The period is a
      positive whole number of minutes and gives back the interval. */
  function PeriodMillis(minutes: int): (ms: nat)
    requires minutes >= 1
    ensures ms >= MillisPerMinute
    ensures ms % MillisPerMinute == 0
    ensures ms / MillisPerMinute == minutes
  {
    minutes * 60 * 1000
  }

  /** The scan timer: the interval in minutes it was last set from, the
      period it runs with, and whether it is running. */
  datatype Timer = Timer(minutes: int, period: nat, running: bool)

  /** The timer as the popup starts it, with the default interval. */
  function InitialTimer(): (t: Timer)
    ensures t.running && t.minutes == DefaultMinutes
    ensures t.period == PeriodMillis(DefaultMinutes)
  {
    Timer(DefaultMinutes, PeriodMillis(DefaultMinutes), true)
  }

  /** `update_interval`: keep the new interval, stop the timer and start it
      again with the period for that interval. */
  function UpdateInterval(t: Timer, value: int): (t': Timer)
    requires value >= 1
    ensures t'.running && t'.minutes == value
    ensures t'.period % MillisPerMinute == 0 && t'.period / MillisPerMinute == value
  {
    Timer(value, PeriodMillis(value), true)
  }

  /** Nothing of the previous timer survives an update: the result depends on
      the new interval alone, so of several updates only the last one counts. */
  lemma UpdateIntervalForgets(t1: Timer, t2: Timer, v: int, w: int)
    requires v >= 1 && w >= 1
    ensures UpdateInterval(t1, w) == UpdateInterval(t2, w)
    ensures UpdateInterval(UpdateInterval(t1, v), w) == UpdateInterval(t1, w)
  {
  }

  /** Setting the interval the popup started with gives back the timer it
      started with. */
  lemma UpdateToDefaultRestoresInitial(t: Timer)
    ensures UpdateInterval(t, DefaultMinutes) == InitialTimer()
  {
  }
}
