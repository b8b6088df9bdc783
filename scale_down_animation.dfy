/** ScaleDownAnimation (ParticleEditor.h): the shrinking highlight drawn
    around the selected node, advanced by a periodic tick. The float fields
    are kept in integer hundredths, which makes the constants exact:
    m_top = 1.0, m_low = 0.0 and m_step = 0.01 become 100, 0 and 1. */
module Animation {

  const Top: int := 100
  const Low: int := 0
  const Step: int := 1

  /** The two fields the methods change: m_current and m_isActive. */
  datatype AnimState = AnimState(current: int, active: bool)

  /** What `stop()` leaves behind. */
  function Stopped(): AnimState
  {
    AnimState(Low, false)
  }

  /** One `update()`: above the floor it shrinks by one step and leaves the
      flag alone; at or below the floor it stops. It never raises a value
      that is at or above the floor, never drops it below the floor, and
      never switches the animation on. */
  function Updated(a: AnimState): (r: AnimState)
    ensures Low <= a.current ==> Low <= r.current <= a.current
    ensures r.active ==> a.active
    ensures r.current < a.current || r == Stopped()
  {
    if a.current > Low then AnimState(a.current - Step, a.active)
    else Stopped()
  }

  /** `n` consecutive calls of `update()`. */
  function UpdatedTimes(a: AnimState, n: nat): AnimState
    decreases n
  {
    if n == 0 then a else UpdatedTimes(Updated(a), n - 1)
  }

  /** How many calls of `update()` it takes, from value `c`, until the
      animation has stopped. */
  function UpdatesToStop(c: int): nat
    decreases if c <= Low then 0 else c - Low
  {
    if c <= Low then 1 else 1 + UpdatesToStop(c - Step)
  }

  lemma UpdateAboveFloor(a: AnimState)
    requires a.current > Low
    ensures Updated(a).current == a.current - Step
    ensures Updated(a).active == a.active
  {
  }

  lemma UpdateAtFloor(a: AnimState)
    requires a.current <= Low
    ensures Updated(a) == Stopped()
  {
  }

  /** From a value at or above the floor, stopping takes exactly one call
      per step down plus the final call that stops. */
  lemma {:induction false} UpdatesToStopCount(c: int)
    requires Low <= c
    ensures UpdatesToStop(c) == c - Low + 1
  {
    if c > Low {
      UpdatesToStopCount(c - Step);
    }
  }

  /** Repeated updates stop the animation after `UpdatesToStop` calls, and
      the flag keeps its value until then. */
  lemma {:induction false} UpdatesReachStop(a: AnimState)
    ensures UpdatedTimes(a, UpdatesToStop(a.current)) == Stopped()
    ensures forall m :: 0 <= m < UpdatesToStop(a.current) ==> UpdatedTimes(a, m).active == a.active
    decreases if a.current <= Low then 0 else a.current - Low
  {
    if a.current > Low {
      var b := Updated(a);
      UpdatesReachStop(b);
      forall m | 0 <= m < UpdatesToStop(a.current)
        ensures UpdatedTimes(a, m).active == a.active
      {
        if m > 0 {
          assert UpdatedTimes(a, m) == UpdatedTimes(b, m - 1);
        }
      }
    }
  }

  /** After `start()`, the animation is still active for the first
      Top - Low updates (100 ticks) and stopped after one more. */
  lemma StartedStopsAfter()
    ensures UpdatedTimes(AnimState(Top, true), Top - Low + 1) == Stopped()
    ensures forall m :: 0 <= m <= Top - Low ==> UpdatedTimes(AnimState(Top, true), m).active
  {
    UpdatesToStopCount(Top);
    UpdatesReachStop(AnimState(Top, true));
  }

  /** Once stopped, further updates change nothing. */
  lemma {:induction false} StoppedStaysStopped(n: nat)
    ensures UpdatedTimes(Stopped(), n) == Stopped()
  {
    if n > 0 {
      StoppedStaysStopped(n - 1);
    }
  }

  /** No sequence of updates raises the value or takes it below the floor. */
  lemma {:induction false} UpdatesNeverIncrease(a: AnimState, n: nat)
    requires Low <= a.current
    ensures Low <= UpdatedTimes(a, n).current <= a.current
    decreases n
  {
    if n > 0 {
      UpdatesNeverIncrease(Updated(a), n - 1);
    }
  }

  class ScaleDownAnimation {
    /** m_current, in hundredths. */
    var current: int
    /** m_isActive. */
    var isActive: bool

    function State(): AnimState
      reads this
    {
      AnimState(current, isActive)
    }

    /** The in-class initialisers: inactive at full size. */
    constructor ()
      ensures State() == AnimState(Top, false)
    {
      current := Top;
      isActive := false;
    }

    method Start()
      modifies this
      ensures State() == AnimState(Top, true)
    {
      isActive := true;
      current := Top;
    }

    /** Note that `update()` does not look at the flag: an animation that was
        never started shrinks too. */
    method Update()
      modifies this
      ensures State() == Updated(old(State()))
    {
      if current > Low {
        current := current - Step;
      } else {
        Stop();
      }
    }

    method Stop()
      modifies this
      ensures State() == Stopped()
    {
      isActive := false;
      current := Low;
    }
  }
}
