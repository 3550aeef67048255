/**
 * The chrono adaptor over clock_gettime: a clock is a POSIX clock id plus a
 * steadiness flag; its time points and durations count nanoseconds in
 * std::chrono::nanoseconds. The clock readings themselves (clock_gettime,
 * clock_getres) are parameters.
 */
module Clocks {
  const NanosPerSecond: int := 1_000_000_000

  /** struct timespec as the kernel fills it in. */
  datatype Timespec = Timespec(sec: int, nsec: int)

  /** std::chrono::nanoseconds. */
  datatype Duration = Nanoseconds(count: int)
  {
    function Plus(other: Duration): Duration { Nanoseconds(count + other.count) }
  }

  /** std::chrono::time_point of a posix_clock: a duration since the clock's epoch. */
  datatype TimePoint = TimePoint(sinceEpoch: Duration)

  /** The conversion std::chrono::seconds -> std::chrono::nanoseconds. */
  function Seconds(s: int): Duration { Nanoseconds(s * NanosPerSecond) }

  datatype ClockId =
    | RealtimeFast | RealtimeCoarse | Realtime
    | MonotonicFast | MonotonicCoarse | Monotonic

  predicate IsMonotonicId(id: ClockId) { id.MonotonicFast? || id.MonotonicCoarse? || id.Monotonic? }

  /** posix_clock<CLK, STEADY>: is_steady is the template argument. */
  datatype PosixClock = PosixClock(clk: ClockId, isSteady: bool)

  /** Which of the optional clock ids the platform headers define. */
  datatype Platform = Platform(
    hasMonotonicFast: bool, hasMonotonicCoarse: bool,
    hasRealtimeFast: bool, hasRealtimeCoarse: bool)

  /** fast_mono_clock: the cheapest monotonic clock the platform has; steady. */
  function FastMonoClock(p: Platform): (c: PosixClock)
    ensures c.isSteady && IsMonotonicId(c.clk)
    ensures p.hasMonotonicFast ==> c.clk == MonotonicFast
    ensures !p.hasMonotonicFast && p.hasMonotonicCoarse ==> c.clk == MonotonicCoarse
    ensures !p.hasMonotonicFast && !p.hasMonotonicCoarse ==> c.clk == Monotonic
  {
    if p.hasMonotonicFast then PosixClock(MonotonicFast, true)
    else if p.hasMonotonicCoarse then PosixClock(MonotonicCoarse, true)
    else PosixClock(Monotonic, true)
  }

  /** fast_wall_clock: the cheapest real-time clock the platform has; not steady. */
  function FastWallClock(p: Platform): (c: PosixClock)
    ensures !c.isSteady && !IsMonotonicId(c.clk)
    ensures p.hasRealtimeFast ==> c.clk == RealtimeFast
    ensures !p.hasRealtimeFast && p.hasRealtimeCoarse ==> c.clk == RealtimeCoarse
    ensures !p.hasRealtimeFast && !p.hasRealtimeCoarse ==> c.clk == Realtime
  {
    if p.hasRealtimeFast then PosixClock(RealtimeFast, false)
    else if p.hasRealtimeCoarse then PosixClock(RealtimeCoarse, false)
    else PosixClock(Realtime, false)
  }

  /**
   * seconds(t.tv_sec) + nanoseconds(t.tv_nsec), shared by now() and
   * get_resolution(). For a normalised timespec the count splits back into
   * its two fields (Euclidean division, so also for negative seconds).
   */
  function TimespecDuration(t: Timespec): (d: Duration)
    ensures d.count == t.sec * NanosPerSecond + t.nsec
    ensures 0 <= t.nsec < NanosPerSecond ==>
      d.count / NanosPerSecond == t.sec && d.count % NanosPerSecond == t.nsec
  {
    Seconds(t.sec).Plus(Nanoseconds(t.nsec))
  }

  /**
   * time_t(duration_cast<seconds>(t.time_since_epoch()).count()):
   * whole seconds, truncated toward zero.
   */
  function ToTimeT(t: TimePoint): (s: int)
    ensures var n := t.sinceEpoch.count;
      (n >= 0 ==> 0 <= s && s * NanosPerSecond <= n < (s + 1) * NanosPerSecond) &&
      (n < 0 ==> s <= 0 && (s - 1) * NanosPerSecond < n <= s * NanosPerSecond)
  {
    var n := t.sinceEpoch.count;
    if n >= 0 then n / NanosPerSecond else -((-n) / NanosPerSecond)
  }

  /** now(): the time point of a clock_gettime reading. */
  function Now(c: PosixClock, reading: Timespec): (t: TimePoint)
    ensures t.sinceEpoch.count == reading.sec * NanosPerSecond + reading.nsec
    ensures reading.sec >= 0 && 0 <= reading.nsec < NanosPerSecond ==> ToTimeT(t) == reading.sec
  {
    var t := TimePoint(TimespecDuration(reading));
    if reading.sec >= 0 && 0 <= reading.nsec < NanosPerSecond then
      ToTimeTOfNormalised(reading.sec, reading.nsec);
      t
    else t
  }

  /** get_resolution(): the duration of a clock_getres reading. */
  function GetResolution(c: PosixClock, reading: Timespec): (d: Duration)
    ensures d.count == reading.sec * NanosPerSecond + reading.nsec
    ensures 0 <= reading.nsec < NanosPerSecond ==> d.count % NanosPerSecond == reading.nsec
  {
    TimespecDuration(reading)
  }

  lemma ToTimeTOfNormalised(sec: int, nsec: int)
    requires sec >= 0 && 0 <= nsec < NanosPerSecond
    ensures ToTimeT(TimePoint(Nanoseconds(sec * NanosPerSecond + nsec))) == sec
  {
    var s := ToTimeT(TimePoint(Nanoseconds(sec * NanosPerSecond + nsec)));
    SecondsUnique(s, sec, sec * NanosPerSecond + nsec);
  }

  /** At most one whole-second count brackets a non-negative nanosecond count. */
  lemma SecondsUnique(a: int, b: int, n: int)
    requires a * NanosPerSecond <= n < (a + 1) * NanosPerSecond
    requires b * NanosPerSecond <= n < (b + 1) * NanosPerSecond
    ensures a == b
  {
  }

  /** to_time_t is monotone. */
  lemma ToTimeTMonotone(t1: TimePoint, t2: TimePoint)
    requires t1.sinceEpoch.count <= t2.sinceEpoch.count
    ensures ToTimeT(t1) <= ToTimeT(t2)
  {
  }

  /**
   * The round trip fails before the epoch: a reading with a negative tv_sec and
   * a non-zero tv_nsec converts back to one second later.
   */
  lemma NegativeReadingRoundsUp(c: PosixClock, sec: int, nsec: int)
    requires sec < 0 && 0 < nsec < NanosPerSecond
    ensures ToTimeT(Now(c, Timespec(sec, nsec))) == sec + 1
  {
  }
}
