/** The button's cooldown: the countdown arithmetic of buttonCountdown, the
    button's state as a value, and what a run of one-second ticks does to it. */
module Cooldown {
  import opened Storage

  /** rateLimitTimeOut, in seconds. */
  const RateLimitTimeOut := 60

  /** The cooldown window in milliseconds. */
  const Window := RateLimitTimeOut * MillisPerSecond

  /** `Math.ceil(deadline - now)` in seconds, with both instants in
      milliseconds: the least whole number of seconds that covers the time
      left. */
  function Countdown(deadline: int, now: int): (r: int)
    ensures (r - 1) * MillisPerSecond < deadline - now <= r * MillisPerSecond
    ensures r > 0 <==> now < deadline
  {
    (deadline - now + MillisPerSecond - 1) / MillisPerSecond
  }

  /** For a fixed deadline the countdown never goes up as time goes on. */
  lemma CountdownNeverIncreases(deadline: int, earlier: int, later: int)
    requires earlier <= later
    ensures Countdown(deadline, later) <= Countdown(deadline, earlier)
  {
  }

  /** The trigger button as the popup shows it: `disabled`, whether the
      "(n)" count label is displayed and its n, and the deadline of the armed
      one-second interval (`countdownInterval`), if any. */
  datatype Button = Button(disabled: bool, countShown: bool, countLabel: int, interval: Option<int>)

  /** buttonCountdown(deadline) at `now`: while time is left the button is
      disabled and shows the seconds left; once none is left it is enabled,
      the label hidden and the interval cleared. */
  function CountdownStep(b: Button, deadline: int, now: int): (r: Button)
    ensures r.disabled <==> now < deadline
    ensures r.countShown == r.disabled
    ensures r.disabled ==> r.countLabel == Countdown(deadline, now) > 0 && r.interval == b.interval
    ensures !r.disabled ==> r.countLabel == b.countLabel && r.interval == None
  {
    var countdown := Countdown(deadline, now);
    if countdown > 0 then b.(disabled := true, countShown := true, countLabel := countdown)
    else b.(disabled := false, countShown := false, interval := None)
  }

  /** startCountdown(deadline) at `now`: one immediate buttonCountdown, then
      an interval armed for the deadline. */
  function StartedCountdown(b: Button, deadline: int, now: int): (r: Button)
    ensures r.interval == Some(deadline)
    ensures r.disabled <==> now < deadline
    ensures r.countShown == r.disabled
    ensures r.disabled ==> r.countLabel == Countdown(deadline, now) > 0
  {
    CountdownStep(b, deadline, now).(interval := Some(deadline))
  }

  /** One firing of the armed interval at `now`; with no interval armed
      nothing fires. */
  function TimerFired(b: Button, now: int): (r: Button)
  {
    match b.interval
    case None => b
    case Some(deadline) => CountdownStep(b, deadline, now)
  }

  /** The button after the interval has fired at each of `times`, in order. */
  function AfterTicks(b: Button, times: seq<int>): (r: Button)
    decreases |times|
  {
    if times == [] then b else AfterTicks(TimerFired(b, times[0]), times[1..])
  }

  /** Once the interval is cleared no tick changes the button again. */
  lemma {:induction false} StoppedTimerIsInert(b: Button, times: seq<int>)
    requires b.interval == None
    ensures AfterTicks(b, times) == b
    decreases |times|
  {
    if times != [] {
      StoppedTimerIsInert(b, times[1..]);
    }
  }

  /** An interval armed for `deadline` keeps the button disabled, showing the
      seconds left at the latest tick, for as long as every tick comes before
      the deadline; the first tick at or after it enables the button, hides
      the label and stops the interval for good. */
  lemma {:induction false} TicksUntilDeadline(b: Button, deadline: int, times: seq<int>)
    requires b.interval == Some(deadline)
    ensures (exists i :: 0 <= i < |times| && deadline <= times[i]) ==>
      var r := AfterTicks(b, times);
      r.interval == None && !r.disabled && !r.countShown
    ensures (forall i :: 0 <= i < |times| ==> times[i] < deadline) ==>
      AfterTicks(b, times).interval == Some(deadline)
    ensures (forall i :: 0 <= i < |times| ==> times[i] < deadline) && times != [] ==>
      AfterTicks(b, times) == b.(disabled := true, countShown := true, countLabel := Countdown(deadline, times[|times| - 1]))
    decreases |times|
  {
    if times != [] {
      var next := TimerFired(b, times[0]);
      var rest := times[1..];
      assert AfterTicks(b, times) == AfterTicks(next, rest);
      if deadline <= times[0] {
        StoppedTimerIsInert(next, rest);
      } else {
        TicksUntilDeadline(next, deadline, rest);
        if exists i :: 0 <= i < |times| && deadline <= times[i] {
          var i :| 0 <= i < |times| && deadline <= times[i];
          assert rest[i - 1] == times[i];
        }
        if forall i :: 0 <= i < |times| ==> times[i] < deadline {
          assert forall i :: 0 <= i < |rest| ==> rest[i] < deadline by {
            forall i | 0 <= i < |rest| ensures rest[i] < deadline {
              assert rest[i] == times[i + 1];
            }
          }
          if rest != [] {
            assert rest[|rest| - 1] == times[|times| - 1];
          }
        }
      }
    }
  }
}
