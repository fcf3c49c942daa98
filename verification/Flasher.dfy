/** Whole runs of the LED flashing worker (led_delay_worker_fn of esl.c), from the command that schedules
    it until it no longer reschedules itself. */
module Flasher {
  import opened Bytes
  import opened Elements

  /** Clock readings when the worker is invoked. */
  datatype Tick = Tick(now: u32, up: nat)

  /** What a run showed: the LED at its end, the on and off calls, and the number of invocations. */
  datatype Show = Show(led: Led, calls: seq<bool>, runs: nat)

  /** The worker invoked for as long as its work item is scheduled, at most `fuel` times. */
  function Flash(l: Led, clock: nat -> Tick, at: nat, fuel: nat): Show
    requires |l.obj.pattern| == FLASH_PATTERN_LEN
    decreases fuel
  {
    if fuel == 0 || l.work.Idle? then Show(l, [], 0)
    else
      var (next, calls) := LedWorker(l, clock(at).now, clock(at).up);
      var rest := Flash(next, clock, at + 1, fuel - 1);
      Show(rest.led, calls + rest.calls, 1 + rest.runs)
  }

  /** Positions h down to 1, as on and off calls. */
  function Down(pattern: bytes, h: nat): (s: seq<bool>)
    requires |pattern| == FLASH_PATTERN_LEN
    ensures |s| == h
  {
    if h == 0 then [] else [PatternBit(pattern, h)] + Down(pattern, h - 1)
  }

  /** One pass over the pattern: position 0 is skipped, unless it is the only one. */
  function Pass(pattern: bytes): seq<bool>
    requires |pattern| == FLASH_PATTERN_LEN
  {
    if TopBit(pattern) == 0 then [true] else Down(pattern, TopBit(pattern))
  }

  function Times(n: nat, s: seq<bool>): seq<bool> {
    if n == 0 then [] else s + Times(n - 1, s)
  }

  /** Invocations of one pass. */
  function Steps(pattern: bytes): nat
    requires |pattern| == FLASH_PATTERN_LEN
  {
    if TopBit(pattern) == 0 then 1 else TopBit(pattern)
  }

  // ---------- time ----------

  /** How long a position is shown, in milliseconds. */
  function Hold(o: LedObj, on: bool): nat { 2 * (if on then o.onPeriod else o.offPeriod) as int }

  /** Positions h down to 1. */
  function Span(o: LedObj, h: nat): nat
    requires |o.pattern| == FLASH_PATTERN_LEN
  {
    if h == 0 then 0 else Hold(o, PatternBit(o.pattern, h)) + Span(o, h - 1)
  }

  /** One pass. */
  function PassTime(o: LedObj): nat
    requires |o.pattern| == FLASH_PATTERN_LEN
  {
    if TopBit(o.pattern) == 0 then Hold(o, true) else Span(o, TopBit(o.pattern))
  }

  /** The next `runs` invocations come exactly when they are due. */
  ghost predicate OnTime(l: Led, clock: nat -> Tick, at: nat, runs: nat)
    requires |l.obj.pattern| == FLASH_PATTERN_LEN
    decreases runs
  {
    runs == 0 || l.work.Idle?
    || (clock(at).up == l.work.at && OnTime(LedWorker(l, clock(at).now, clock(at).up).0, clock, at + 1, runs - 1))
  }

  ghost predicate Flashing(l: Led) {
    |l.obj.pattern| == FLASH_PATTERN_LEN && TopBit(l.obj.pattern) != 255 && l.work.Due? && l.obj.duration > 0
  }

  /** Repeats counted, not timed, and under way. */
  ghost predicate Counting(l: Led) {
    Flashing(l) && l.enabled && l.stop == 0
  }

  ghost predicate Finished(l: Led) {
    l.work.Idle? && !l.enabled && !l.active && l.start == 0
  }

  lemma FlashStep(l: Led, clock: nat -> Tick, at: nat, fuel: nat, next: Led, calls: seq<bool>)
    requires |l.obj.pattern| == FLASH_PATTERN_LEN && l.work.Due? && fuel > 0
    requires LedWorker(l, clock(at).now, clock(at).up) == (next, calls)
    ensures |next.obj.pattern| == FLASH_PATTERN_LEN
    ensures var rest := Flash(next, clock, at + 1, fuel - 1);
            Flash(l, clock, at, fuel) == Show(rest.led, calls + rest.calls, 1 + rest.runs)
    ensures OnTime(l, clock, at, fuel) <==> clock(at).up == l.work.at && OnTime(next, clock, at + 1, fuel - 1)
  {
  }

  /** In the middle of a pass: the position is shown and the next one scheduled. */
  lemma MidStep(l: Led, now: u32, u: nat)
    requires Counting(l) && 0 < l.patternIdx < START_MARK
    ensures var (next, calls) := LedWorker(l, now, u);
            && next == l.(start := 0, patternIdx := l.patternIdx - 1, work := next.work)
            && next.work == Due(u + Hold(l.obj, PatternBit(l.obj.pattern, l.patternIdx)))
            && calls == [PatternBit(l.obj.pattern, l.patternIdx)]
  {
  }

  /** Position a pass leaves for its second step. */
  function Second(pattern: bytes): nat
    requires |pattern| == FLASH_PATTERN_LEN
  {
    if TopBit(pattern) == 0 then 0 else TopBit(pattern) - 1
  }

  /** At a pass boundary: the last pass is counted; then either all is over, or the top bit is shown. */
  lemma BoundaryStep(l: Led, now: u32, u: nat)
    requires Counting(l) && l.patternIdx == 0 && l.repeats < 255
    ensures var (next, calls) := LedWorker(l, now, u);
            if l.repeats + 1 >= l.obj.duration then Finished(next) && calls == [false]
            else && next == l.(start := 0, repeats := l.repeats + 1, patternIdx := Second(l.obj.pattern),
                               work := next.work)
                 && next.work == Due(u + Hold(l.obj, true)) && calls == [true]
  {
  }

  /** The rest of a pass: positions i down to 1. */
  lemma {:induction false} FinishPass(l: Led, clock: nat -> Tick, at: nat, i: nat, fuel: nat) returns (end: Led)
    requires Counting(l) && l.patternIdx == i && i < START_MARK && l.start == 0
    ensures end == l.(patternIdx := 0, work := end.work) && end.work.Due?
    ensures var rest := Flash(end, clock, at + i, fuel);
            Flash(l, clock, at, i + fuel) == Show(rest.led, Down(l.obj.pattern, i) + rest.calls, i + rest.runs)
    ensures OnTime(l, clock, at, i + fuel) ==>
              OnTime(end, clock, at + i, fuel) && end.work.at == l.work.at + Span(l.obj, i)
    decreases i
  {
    hide LedWorker, Flash, PatternBit, TopBit, OnTime, Hold;
    if i == 0 {
      end := l;
      var rest := Flash(l, clock, at, fuel);
      assert Down(l.obj.pattern, 0) + rest.calls == rest.calls;
    } else {
      var (next, calls) := LedWorker(l, clock(at).now, clock(at).up);
      MidStep(l, clock(at).now, clock(at).up);
      FlashStep(l, clock, at, i + fuel, next, calls);
      end := FinishPass(next, clock, at + 1, i - 1, fuel);
      var rest := Flash(end, clock, at + i, fuel);
      assert calls + (Down(l.obj.pattern, i - 1) + rest.calls) == Down(l.obj.pattern, i) + rest.calls;
    }
  }

  /** One whole pass from its boundary, when it is not the last. */
  lemma OnePass(l: Led, clock: nat -> Tick, at: nat, fuel: nat) returns (end: Led)
    requires Counting(l) && l.patternIdx == 0 && l.start == 0 && l.repeats + 1 < l.obj.duration && l.repeats < 255
    ensures end == l.(repeats := l.repeats + 1, work := end.work) && end.work.Due?
    ensures var rest := Flash(end, clock, at + Steps(l.obj.pattern), fuel);
            Flash(l, clock, at, Steps(l.obj.pattern) + fuel) ==
              Show(rest.led, Pass(l.obj.pattern) + rest.calls, Steps(l.obj.pattern) + rest.runs)
    ensures OnTime(l, clock, at, Steps(l.obj.pattern) + fuel) ==>
              OnTime(end, clock, at + Steps(l.obj.pattern), fuel) && end.work.at == l.work.at + PassTime(l.obj)
  {
    hide LedWorker, Flash, PatternBit, TopBit, Pass, Steps, Second, OnTime, Hold, PassTime, Span;
    PassSplits(l.obj.pattern);
    PassTimeSplits(l.obj);
    SecondInside(l.obj.pattern);
    var pattern := l.obj.pattern;
    var i := Second(pattern);
    var (next, calls) := LedWorker(l, clock(at).now, clock(at).up);
    BoundaryStep(l, clock(at).now, clock(at).up);
    FlashStep(l, clock, at, 1 + i + fuel, next, calls);
    end := FinishPass(next, clock, at + 1, i, fuel);
    var rest := Flash(end, clock, at + 1 + i, fuel);
    assert calls + (Down(pattern, i) + rest.calls) == Pass(pattern) + rest.calls;
  }

  lemma SecondInside(pattern: bytes)
    requires |pattern| == FLASH_PATTERN_LEN && TopBit(pattern) != 255
    ensures Second(pattern) < 39
  {
  }

  lemma PassSplits(pattern: bytes)
    requires |pattern| == FLASH_PATTERN_LEN && TopBit(pattern) != 255
    ensures Steps(pattern) == 1 + Second(pattern)
    ensures Pass(pattern) == [true] + Down(pattern, Second(pattern))
  {
    assert PatternBit(pattern, TopBit(pattern));
    if TopBit(pattern) == 0 {
      assert Down(pattern, 0) == [];
    }
  }

  lemma PassTimeSplits(o: LedObj)
    requires |o.pattern| == FLASH_PATTERN_LEN && TopBit(o.pattern) != 255
    ensures PassTime(o) == Hold(o, true) + Span(o, Second(o.pattern))
  {
    assert PatternBit(o.pattern, TopBit(o.pattern));
  }

  /** From a pass boundary with some passes counted: the remaining passes, then off and stop. */
  lemma {:induction false} RemainingPasses(l: Led, clock: nat -> Tick, at: nat, left: nat, fuel: nat)
    requires Counting(l) && l.patternIdx == 0 && l.start == 0
    requires left == l.obj.duration - 1 - l.repeats && l.obj.duration <= 255
    requires fuel >= left * Steps(l.obj.pattern) + 1
    ensures var s := Flash(l, clock, at, fuel);
            && s.runs == left * Steps(l.obj.pattern) + 1
            && s.calls == Times(left, Pass(l.obj.pattern)) + [false]
            && Finished(s.led)
            && (OnTime(l, clock, at, fuel) ==> clock(at + s.runs - 1).up == l.work.at + left * PassTime(l.obj))
    decreases left
  {
    hide LedWorker, PatternBit, TopBit, Pass, Steps, PassTime;
    var pattern, steps := l.obj.pattern, Steps(l.obj.pattern);
    if left == 0 {
      var (next, calls) := LedWorker(l, clock(at).now, clock(at).up);
      BoundaryStep(l, clock(at).now, clock(at).up);
      FlashStep(l, clock, at, fuel, next, calls);
      assert Flash(next, clock, at + 1, fuel - 1) == Show(next, [], 0);
      assert calls + [] == calls;
    } else {
      hide Flash, OnTime;
      OneLess(left, steps);
      OneLess(left, PassTime(l.obj));
      var end := OnePass(l, clock, at, fuel - steps);
      RemainingPasses(end, clock, at + steps, left - 1, fuel - steps);
      assert Pass(pattern) + (Times(left - 1, Pass(pattern)) + [false]) == Times(left, Pass(pattern)) + [false];
    }
  }

  lemma OneLess(n: nat, steps: nat)
    requires n > 0
    ensures n * steps == (n - 1) * steps + steps && (n - 1) * steps >= 0
  {
  }

  // ---------- the two commands ----------

  /** A scheduled LED that has not begun and counts its repeats. */
  ghost predicate Ready(l: Led) {
    Flashing(l) && !l.enabled && l.repeats == 0 && l.obj.repeatType != 1
  }

  lemma FirstStep(l: Led, now: u32, u: nat)
    requires Ready(l)
    ensures LedWorker(l, now, u) == LedWorker(l.(start := 0, enabled := true, active := true, stop := 0), now, u)
  {
  }

  lemma MarkStep(l: Led, now: u32, u: nat)
    requires Counting(l) && l.patternIdx == START_MARK
    ensures var (next, calls) := LedWorker(l, now, u);
            && next == l.(start := 0, patternIdx := Second(l.obj.pattern), work := next.work)
            && next.work == Due(u + Hold(l.obj, true)) && calls == [true]
  {
  }

  /** OP_LED_CONTROL leaves index 0, so the first invocation counts a pass that was never shown: D - 1
      passes, and none at all for D = 1. When every invocation is on time the last one comes as much later. */
  lemma {:induction false} ControlTrace(l: Led, clock: nat -> Tick, fuel: nat)
    requires Ready(l) && l.patternIdx == 0 && 1 <= l.obj.duration <= 255
    requires fuel >= (l.obj.duration - 1) * Steps(l.obj.pattern) + 1
    ensures var s := Flash(l, clock, 0, fuel);
            && s.runs == (l.obj.duration - 1) * Steps(l.obj.pattern) + 1
            && s.calls == Times(l.obj.duration - 1, Pass(l.obj.pattern)) + [false]
            && Finished(s.led)
            && (OnTime(l, clock, 0, fuel) ==>
                  clock(s.runs - 1).up == l.work.at + (l.obj.duration - 1) * PassTime(l.obj))
  {
    hide LedWorker, PatternBit, TopBit, Steps, Pass, PassTime;
    var begun := l.(start := 0, enabled := true, active := true, stop := 0);
    FirstStep(l, clock(0).now, clock(0).up);
    assert Flash(l, clock, 0, fuel) == Flash(begun, clock, 0, fuel);
    assert OnTime(l, clock, 0, fuel) == OnTime(begun, clock, 0, fuel);
    RemainingPasses(begun, clock, 0, l.obj.duration - 1, fuel);
  }

  /** OP_LED_TIMED_CONTROL leaves the start mark: exactly D passes, then off and stop. */
  lemma {:induction false} TimedTrace(l: Led, clock: nat -> Tick, fuel: nat)
    requires Ready(l) && l.patternIdx == START_MARK && 1 <= l.obj.duration <= 255
    requires fuel >= l.obj.duration * Steps(l.obj.pattern) + 1
    ensures var s := Flash(l, clock, 0, fuel);
            && s.runs == l.obj.duration * Steps(l.obj.pattern) + 1
            && s.calls == Times(l.obj.duration, Pass(l.obj.pattern)) + [false]
            && Finished(s.led)
            && (OnTime(l, clock, 0, fuel) ==> clock(s.runs - 1).up == l.work.at + l.obj.duration * PassTime(l.obj))
  {
    hide LedWorker, Flash, PatternBit, TopBit, Pass, Steps, Second, OnTime, PassTime, Span, Hold;
    var pattern, d, steps := l.obj.pattern, l.obj.duration, Steps(l.obj.pattern);
    PassSplits(pattern);
    SecondInside(pattern);
    OneLess(d, steps);
    PassTimeSplits(l.obj);
    OneLess(d, PassTime(l.obj));
    var begun := l.(start := 0, enabled := true, active := true, stop := 0);
    var (next, calls) := LedWorker(begun, clock(0).now, clock(0).up);
    FirstStep(l, clock(0).now, clock(0).up);
    MarkStep(begun, clock(0).now, clock(0).up);
    FlashStep(l, clock, 0, fuel, next, calls);
    var end := FinishPass(next, clock, 1, Second(pattern), fuel - steps);
    RemainingPasses(end, clock, steps, d - 1, fuel - steps);
    assert [true] + (Down(pattern, Second(pattern)) + (Times(d - 1, Pass(pattern)) + [false]))
           == Times(d, Pass(pattern)) + [false];
  }

  /** A duration of 0 is not flashed: one invocation switches the LED for good, on for type 1 and off otherwise. */
  lemma SteadyTrace(l: Led, clock: nat -> Tick, fuel: nat)
    requires |l.obj.pattern| == FLASH_PATTERN_LEN && l.work.Due? && l.obj.duration == 0 && fuel > 0
    ensures var (s, on) := (Flash(l, clock, 0, fuel), l.obj.repeatType == 1);
            && s.runs == 1 && s.calls == [on]
            && s.led.active == on && s.led.work.Idle? && s.led.start == 0 && s.led.obj == l.obj
  {
    var (next, calls) := LedWorker(l, clock(0).now, clock(0).up);
    FlashStep(l, clock, 0, fuel, next, calls);
    assert Flash(next, clock, 1, fuel - 1) == Show(next, [], 0);
  }

  // ---------- repeats counted in seconds ----------

  /** The same settings with the repeats counted in passes. */
  function Counted(l: Led): Led { l.(obj := l.obj.(repeatType := 0)) }

  ghost predicate Lasting(l: Led) { Flashing(l) && l.enabled && l.stop != 0 }

  lemma LastingStep(l: Led, now: u32, u: nat)
    requires Lasting(l)
    ensures var (n, calls) := LedWorker(l, now, u);
            if now <= l.stop then
              && LedWorker(Counted(l).(stop := 0), now, u) == (Counted(n).(stop := 0), calls)
              && n.stop == l.stop && (n.work.Due? ==> Lasting(n))
            else Finished(n) && (calls == [false] || calls == [false, false])
  {
    hide PatternBit;
  }

  lemma {:induction false} LastingTrace(l: Led, clock: nat -> Tick, at: nat, k: nat, fuel: nat)
    requires Lasting(l) && fuel > k && clock(at + k).now > l.stop
    requires forall j | at <= j < at + k :: clock(j).now <= l.stop
    ensures var (s, twin) := (Flash(l, clock, at, fuel), Flash(Counted(l).(stop := 0), clock, at, k));
            if twin.led.work.Idle? then s.calls == twin.calls && s.runs == twin.runs && s.led.work.Idle?
            else s.runs == k + 1 && Finished(s.led) && OffAfter(s.calls, twin.calls)
    decreases k
  {
    hide LedWorker, Finished, Flash, TopBit;
    var (n, calls) := LedWorker(l, clock(at).now, clock(at).up);
    var twin := Counted(l).(stop := 0);
    LastingStep(l, clock(at).now, clock(at).up);
    FlashStep(l, clock, at, fuel, n, calls);
    Stops(n, clock, at + 1, fuel - 1);
    Stops(twin, clock, at, 0);
    if k == 0 {
      FinishedIsIdle(n);
      assert calls + [] == calls && [] + calls == calls;
    } else {
      var next := Counted(n).(stop := 0);
      FlashStep(twin, clock, at, k, next, calls);
      Stops(next, clock, at + 1, k - 1);
      if n.work.Due? {
        LastingTrace(n, clock, at + 1, k - 1, fuel - 1);
        OffLater(calls, Flash(n, clock, at + 1, fuel - 1).calls, Flash(next, clock, at + 1, k - 1).calls);
      }
    }
  }

  /** The LED is switched off, once or twice, after the calls. */
  predicate OffAfter(all: seq<bool>, calls: seq<bool>) { all == calls + [false] || all == calls + [false, false] }

  lemma OffLater(first: seq<bool>, all: seq<bool>, calls: seq<bool>)
    ensures OffAfter(all, calls) ==> OffAfter(first + all, first + calls)
  {
    assert first + (calls + [false]) == first + calls + [false];
    assert first + (calls + [false, false]) == first + calls + [false, false];
  }

  lemma Stops(l: Led, clock: nat -> Tick, at: nat, fuel: nat)
    requires |l.obj.pattern| == FLASH_PATTERN_LEN
    ensures l.work.Idle? || fuel == 0 ==> Flash(l, clock, at, fuel) == Show(l, [], 0)
  {
  }

  lemma FinishedIsIdle(l: Led)
    requires Finished(l)
    ensures l.work.Idle?
  {
  }

  /** The first invocation sets the end, as the clock will read it, wrapping, D seconds later. */
  lemma LastingBegins(l: Led, now: u32, u: nat)
    requires Flashing(l) && !l.enabled && l.obj.repeatType == 1
    ensures var begun := l.(start := 0, enabled := true, active := true, stop := (now + l.obj.duration * 1000) % WORD);
            && LedWorker(l, now, u) == LedWorker(begun, now, u)
            && LedWorker(Counted(l), now, u) == LedWorker(Counted(begun).(stop := 0), now, u)
  {
    hide PatternBit, TopBit;
  }

  /** Repeats counted in seconds: the LED shows what it would show with the same number of passes, until an invocation
      finds the clock past the end, D seconds after the first one; that one switches it off and stops. */
  lemma SecondsTrace(l: Led, clock: nat -> Tick, k: nat, fuel: nat)
    requires Flashing(l) && !l.enabled && l.obj.repeatType == 1 && fuel > k
    requires var end := (clock(0).now + l.obj.duration * 1000) % WORD;
             end != 0 && clock(k).now > end && forall j | 0 <= j < k :: clock(j).now <= end
    ensures var (s, twin) := (Flash(l, clock, 0, fuel), Flash(Counted(l), clock, 0, k));
            if twin.led.work.Idle? then s.calls == twin.calls && s.runs == twin.runs && s.led.work.Idle?
            else s.runs == k + 1 && Finished(s.led) && OffAfter(s.calls, twin.calls)
  {
    hide LedWorker, PatternBit, TopBit;
    var end := (clock(0).now + l.obj.duration * 1000) % WORD;
    var begun := l.(start := 0, enabled := true, active := true, stop := end);
    LastingBegins(l, clock(0).now, clock(0).up);
    assert Flash(l, clock, 0, fuel) == Flash(begun, clock, 0, fuel);
    assert k > 0 ==> Flash(Counted(l), clock, 0, k) == Flash(Counted(begun).(stop := 0), clock, 0, k);
    LastingTrace(begun, clock, 0, k, fuel);
  }

  // ---------- the pattern as a number ----------

  /** Bytes i and up as one number, least significant first; from byte 0 on these are the 40 bits of the pattern. */
  function Number(p: bytes, i: nat): nat
    requires |p| == FLASH_PATTERN_LEN && i <= 5
    decreases 5 - i
  {
    if i == 5 then 0 else p[i] + 0x100 * Number(p, i + 1)
  }

  lemma {:induction false} HalvedOn(n: nat, j: nat, k: nat)
    ensures Halved(n, j + k) == Halved(Halved(n, j), k)
  {
    if j > 0 { HalvedOn(n / 2, j - 1, k); }
  }

  lemma {:induction false} HalvedBytes(p: bytes, i: nat)
    requires |p| == FLASH_PATTERN_LEN && i <= 5
    ensures Halved(Number(p, 0), 8 * i) == Number(p, i)
  {
    if i > 0 {
      HalvedBytes(p, i - 1);
      HalvedOn(Number(p, 0), 8 * (i - 1), 8);
      EightTimes(Number(p, i - 1));
    }
  }

  lemma EightTimes(n: nat)
    ensures Halved(n, 8) == n / 0x100
  {
    FourTimes(n);
    FourTimes(n / 16);
    HalvedOn(n, 4, 4);
  }

  lemma FourTimes(n: nat)
    ensures Halved(n, 4) == n / 16
  {
    assert Halved(n, 4) == Halved(n / 2, 3) == Halved(n / 2 / 2, 2) == Halved(n / 2 / 2 / 2, 1);
  }

  function Doubled(n: nat, k: nat): nat { if k == 0 then n else 2 * Doubled(n, k - 1) }

  lemma {:induction false} DoubledOn(n: nat, j: nat, k: nat)
    ensures Doubled(n, j + k) == Doubled(Doubled(n, j), k)
  {
    if k > 0 { DoubledOn(n, j, k - 1); }
  }

  /** Higher bits do not matter. */
  lemma {:induction false} EvenAbove(b: nat, above: nat, r: nat)
    ensures Halved(b + Doubled(above, r + 1), r) % 2 == Halved(b, r) % 2
  {
    var d := Doubled(above, r);
    assert Doubled(above, r + 1) == 2 * d;
    if r > 0 {
      EvenAbove(b / 2, above, r - 1);
      assert (b + 2 * d) / 2 == b / 2 + d;
    } else {
      assert (b + 2 * d) % 2 == b % 2;
    }
  }

  /** Position k of the pattern is bit k of its 40. */
  lemma PatternBitIs(p: bytes, k: nat)
    requires |p| == FLASH_PATTERN_LEN && k < 40
    ensures PatternBit(p, k) <==> Halved(Number(p, 0), k) % 2 == 1
  {
    hide Halved, Doubled;
    var i, r := k / 8, k % 8;
    var above := Number(p, i + 1);
    HalvedBytes(p, i);
    HalvedOn(Number(p, 0), 8 * i, r);
    DoubledOn(above, 7 - r, r + 1);
    DoubledByte(above);
    EvenAbove(p[i], Doubled(above, 7 - r), r);
  }

  lemma FourDoublings(n: nat)
    ensures Doubled(n, 4) == 16 * n
  {
    assert Doubled(n, 1) == 2 * n && Doubled(n, 2) == 2 * Doubled(n, 1);
    assert Doubled(n, 3) == 2 * Doubled(n, 2) && Doubled(n, 4) == 2 * Doubled(n, 3);
  }

  lemma DoubledByte(n: nat)
    ensures Doubled(n, 8) == 0x100 * n
  {
    FourDoublings(n);
    DoubledOn(n, 4, 4);
    FourDoublings(Doubled(n, 4));
  }

  // ---------- termination ----------

  /** Most invocations still to come. */
  function Left(l: Led): int
    requires |l.obj.pattern| == FLASH_PATTERN_LEN
  {
    if l.patternIdx == START_MARK then l.obj.duration * Steps(l.obj.pattern) + 1
    else l.patternIdx + (l.obj.duration - 1 - l.repeats) * Steps(l.obj.pattern) + 1
  }

  ghost predicate Bounded(l: Led) {
    && Flashing(l) && l.obj.duration <= 255 && l.repeats < l.obj.duration
    && l.patternIdx <= START_MARK && (l.patternIdx == START_MARK ==> l.repeats == 0)
  }

  /** However an invocation ends: the item stays scheduled only after one step of a pass. */
  lemma StepShape(l: Led, now: u32, u: nat)
    requires Bounded(l)
    ensures var (next, _) := LedWorker(l, now, u);
            next.work.Due? ==>
              && next.obj == l.obj
              && if l.patternIdx == 0 then
                   next.repeats == l.repeats + 1 < l.obj.duration && next.patternIdx == Second(l.obj.pattern)
                 else if l.patternIdx == START_MARK then
                   next.repeats == l.repeats && next.patternIdx == Second(l.obj.pattern)
                 else next.repeats == l.repeats && next.patternIdx == l.patternIdx - 1
  {
    hide PatternBit;
  }

  lemma LeftDrops(l: Led, now: u32, u: nat)
    requires Bounded(l)
    ensures Left(l) >= 1
    ensures var (next, _) := LedWorker(l, now, u);
            next.work.Due? ==> Bounded(next) && Left(next) == Left(l) - 1
  {
    hide LedWorker, PatternBit, TopBit, Steps, Second;
    var d, steps := l.obj.duration, Steps(l.obj.pattern);
    PassSplits(l.obj.pattern);
    SecondInside(l.obj.pattern);
    OneLess(d, steps);
    OneLess(d - l.repeats, steps);
    StepShape(l, now, u);
    if l.repeats + 1 < d {
      OneLess(d - 1 - l.repeats, steps);
    }
  }

  /** For repeats counted in seconds, too, and whatever the clock does, the run is over after at most the
      counted number of invocations. */
  lemma {:induction false} RunIsBounded(l: Led, clock: nat -> Tick, at: nat, fuel: nat)
    requires Bounded(l) && fuel >= Left(l)
    ensures var s := Flash(l, clock, at, fuel); s.runs <= Left(l) && s.led.work.Idle?
    decreases fuel
  {
    var (next, calls) := LedWorker(l, clock(at).now, clock(at).up);
    LeftDrops(l, clock(at).now, clock(at).up);
    FlashStep(l, clock, at, fuel, next, calls);
    if next.work.Due? {
      hide LedWorker;
      RunIsBounded(next, clock, at + 1, fuel - 1);
    }
  }

  /** The pass counter has 8 bits: with a duration above 255 a counted run never ends. */
  lemma {:induction false} RunIsEndless(l: Led, clock: nat -> Tick, at: nat, fuel: nat)
    requires Flashing(l) && l.obj.repeatType != 1 && l.obj.duration > 255 && l.patternIdx <= START_MARK
    requires l.enabled ==> l.stop == 0
    ensures var s := Flash(l, clock, at, fuel); s.runs == fuel && s.led.work.Due?
    decreases fuel
  {
    if fuel > 0 {
      var (next, calls) := LedWorker(l, clock(at).now, clock(at).up);
      assert Flashing(next) && next.obj == l.obj && next.enabled && next.stop == 0 && next.patternIdx <= START_MARK;
      FlashStep(l, clock, at, fuel, next, calls);
      RunIsEndless(next, clock, at + 1, fuel - 1);
    }
  }

  /** A counted run, from either command, ends exactly when the duration fits the 8-bit counter. */
  lemma {:induction false} RunEndsIff(l: Led, clock: nat -> Tick)
    requires Ready(l) && (l.patternIdx == 0 || l.patternIdx == START_MARK)
    ensures (exists fuel: nat :: Flash(l, clock, 0, fuel).led.work.Idle?) <==> l.obj.duration <= 255
  {
    if l.obj.duration <= 255 {
      LeftDrops(l, clock(0).now, clock(0).up);
      RunIsBounded(l, clock, 0, Left(l));
    } else {
      forall fuel: nat ensures !Flash(l, clock, 0, fuel).led.work.Idle? {
        RunIsEndless(l, clock, 0, fuel);
      }
    }
  }
}
