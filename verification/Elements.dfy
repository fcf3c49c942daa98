/** LEDs, displays and the clock of a tag (esl.c): timed slots, the flashing worker, and the basic-state
    bits derived from them, as functions from state to state. */
module Elements {
  import opened Bytes
  import opened RepeatCodec
  import opened Responses

  const ESL_TIMED_ABS_MAX: int := 4147200000  // 48 days in milliseconds
  const FLASH_PATTERN_LEN: nat := 5
  /** ESL_LED_FLASH_PATTERN_START_BIT_IDX: one past the last bit, marks a pattern that has not begun */
  const START_MARK: byte := 40
  const MSEC_PER_SEC: int := 1000

  /** A Zephyr work item: scheduled with a due time, or not. */
  datatype Work = Idle | Due(at: int)

  datatype LedObj = LedObj(color: byte, pattern: bytes, offPeriod: byte, onPeriod: byte, repeatType: byte,
                           duration: u16)

  datatype Led = Led(obj: LedObj, patternIdx: byte, repeats: byte, stop: u32, start: u32, enabled: bool, active: bool,
                     work: Work)

  datatype Display = Display(img: byte, start: u32, active: bool, work: Work)

  datatype Elements = Elements(leds: seq<Led>, displays: seq<Display>, anchor: u32,
                               activeLed: bool, pendingLed: bool, pendingDisplay: bool, imageSizes: seq<nat>)

  /** Build-time configuration. */
  datatype Config = Config(ledMax: nat, displayMax: nat, sensorMax: nat, imageMax: nat, simulated: bool, pts: bool)

  ghost predicate Fitting(e: Elements, c: Config) {
    && |e.leds| == c.ledMax && |e.displays| == c.displayMax && |e.imageSizes| == c.imageMax
    && 1 <= c.imageMax <= 255
    && forall l | l in e.leds :: |l.obj.pattern| == FLASH_PATTERN_LEN
  }

  // ---------- clock ----------

  /** esl_get_abs_time at uptime u */
  function ClockAt(anchor: u32, u: nat): u32 { (u % WORD - anchor) % WORD }

  /** esl_abs_time_update */
  function AnchorFor(t: u32, u: nat): u32 { (u % WORD - t) % WORD }

  /** offset_time of a timed command */
  function Offset(target: u32, now: u32): u32 { (target - now) % WORD }

  lemma WordsDrop(x: int, k: int)
    ensures (x + k * WORD) % WORD == x % WORD
  {
  }

  /** After an absolute-time write of t at uptime u0 the clock reads t + (u - u0) modulo 2^32, also across wrap. */
  lemma ClockReads(t: u32, u0: nat, u: nat)
    requires u0 <= u
    ensures ClockAt(AnchorFor(t, u0), u) == (t + (u - u0)) % WORD
  {
    WordsDrop(t + (u - u0), u0 / WORD + (u0 % WORD - t) / WORD - u / WORD);
  }

  /** The delay given to an accepted timed command ends when the clock reads exactly the requested time. */
  lemma DelayIsExact(anchor: u32, u: nat, target: u32)
    ensures ClockAt(anchor, u + Offset(target, ClockAt(anchor, u))) == target
  {
    var now := ClockAt(anchor, u);
    var v := u + Offset(target, now);
    WordsDrop(target, (u % WORD - anchor) / WORD + u / WORD - (target - now) / WORD - v / WORD);
  }

  // ---------- slots ----------

  /** led_dwork_reset */
  function ResetLed(l: Led): Led {
    l.(enabled := false, active := false, start := 0, stop := 0, patternIdx := 0, repeats := 0, work := Idle)
  }

  function ResetLeds(e: Elements): Elements {
    e.(leds := seq(|e.leds|, i requires 0 <= i < |e.leds| => ResetLed(e.leds[i])))
  }

  /** display_dwork_reset */
  function ResetDisplay(d: Display, c: Config): Display
    requires c.imageMax <= 255
  {
    d.(start := 0, active := false, img := if c.pts then 0 else c.imageMax, work := Idle)
  }

  /** bt_esl_basic_state_update */
  function RefreshBasic(e: Elements): Elements {
    e.(activeLed := exists l | l in e.leds :: l.active,
       pendingLed := exists l | l in e.leds :: l.start != 0,
       pendingDisplay := exists d | d in e.displays :: d.start != 0)
  }

  /** Every slot that waits for a time has its work item scheduled. */
  ghost predicate SlotsPending(e: Elements) {
    && (forall l | l in e.leds :: l.start != 0 ==> l.work.Due?)
    && (forall d | d in e.displays :: d.start != 0 ==> d.work.Due?)
  }

  // ---------- commands; the command's length is that of its op code ----------

  /** Fields of OP_LED_CONTROL and OP_LED_TIMED_CONTROL */
  function DecodeLed(cmd: bytes): (o: LedObj)
    requires |cmd| >= 13
    ensures |o.pattern| == FLASH_PATTERN_LEN
  {
    var (repeatType, duration) := Unpack(cmd[11..13]);
    LedObj(cmd[3], cmd[4..9], cmd[9], cmd[10], repeatType, duration)
  }

  function LedControl(e: Elements, c: Config, cmd: bytes, u: nat): (Elements, Resp)
    requires Fitting(e, c) && |cmd| == 13
  {
    var i := cmd[2];
    if c.ledMax == 0 then (e, Failed(ERR_INV_OPCODE))
    else if i >= c.ledMax then (e, Failed(ERR_INV_PARAMS))
    else (e.(leds := e.leds[i := ResetLed(e.leds[i]).(obj := DecodeLed(cmd), work := Due(u))]), LedState(i))
  }

  /** May a timed command for `target` take a slot that waits for `start`? */
  predicate SlotTakes(start: u32, target: u32) { start == 0 || start == target }

  predicate Plausible(e: Elements, target: u32, u: nat) { Offset(target, ClockAt(e.anchor, u)) < ESL_TIMED_ABS_MAX }

  function LedTimed(e: Elements, c: Config, cmd: bytes, u: nat): (Elements, Resp)
    requires Fitting(e, c) && |cmd| == 17
  {
    var i, target := cmd[2], GetLe32(cmd[13..17]);
    if c.ledMax == 0 then (e, Failed(ERR_INV_OPCODE))
    else if i >= c.ledMax then (e, Failed(ERR_INV_PARAMS))
    else if target == 0 then (RefreshBasic(e.(leds := e.leds[i := ResetLed(e.leds[i])])), LedState(i))
    else if !Plausible(e, target, u) then (e, Failed(ERR_IMPLAUSIBLE_ABS))
    else if !SlotTakes(e.leds[i].start, target) then (e, Failed(ERR_QUEUE_FULL))
    else
      var waiting := ResetLed(e.leds[i]).(start := target, patternIdx := START_MARK);
      var r := RefreshBasic(e.(leds := e.leds[i := waiting]));
      var due := Due(u + Offset(target, ClockAt(e.anchor, u)));
      (r.(leds := e.leds[i := waiting.(obj := DecodeLed(cmd), work := due)]), LedState(i))
  }

  /** The checks that all commands naming a display and an image share. */
  function ImageFault(e: Elements, c: Config, display: byte, img: byte): Option<byte>
    requires Fitting(e, c)
  {
    if c.displayMax == 0 then Some(ERR_INV_OPCODE)
    else if display >= c.displayMax then Some(ERR_INV_PARAMS)
    else if img >= c.imageMax then Some(ERR_INV_PARAMS)
    else if e.imageSizes[img] == 0 && !c.simulated then Some(ERR_IMG_NOT_AVAIL)
    else None
  }

  function DisplayImage(e: Elements, c: Config, cmd: bytes, u: nat): (Elements, Resp)
    requires Fitting(e, c) && |cmd| == 4
  {
    var i, img := cmd[2], cmd[3];
    match ImageFault(e, c, i, img)
    case Some(code) => (e, Failed(code))
    case None => (e.(displays := e.displays[i := e.displays[i].(img := img, work := Due(u))]), DisplayState(i, img))
  }

  function DisplayTimed(e: Elements, c: Config, cmd: bytes, u: nat): (Elements, Resp)
    requires Fitting(e, c) && |cmd| == 8
  {
    var i, img, target := cmd[2], cmd[3], GetLe32(cmd[4..8]);
    match ImageFault(e, c, i, img)
    case Some(code) => (e, Failed(code))
    case None =>
      if target == 0 then
        (RefreshBasic(e.(displays := e.displays[i := ResetDisplay(e.displays[i], c)])), DisplayState(i, img))
      else if !Plausible(e, target, u) then (e, Failed(ERR_IMPLAUSIBLE_ABS))
      else if !SlotTakes(e.displays[i].start, target) then (e, Failed(ERR_QUEUE_FULL))
      else
        var due := Due(u + Offset(target, ClockAt(e.anchor, u)));
        var waiting := ResetDisplay(e.displays[i], c).(img := img, start := target, work := due);
        (e.(displays := e.displays[i := waiting], pendingDisplay := true), DisplayState(i, img))
  }

  function DisplayRefresh(e: Elements, c: Config, cmd: bytes, u: nat): (Elements, Resp)
    requires Fitting(e, c) && |cmd| == 3
  {
    var i := cmd[2];
    if c.displayMax == 0 then (e, Failed(ERR_INV_OPCODE))
    else if i >= c.displayMax then (e, Failed(ERR_INV_PARAMS))
    else if e.displays[i].img == c.imageMax then (e, Failed(ERR_INV_IMG_IDX))
    else (e.(displays := e.displays[i := e.displays[i].(work := Due(u))]), DisplayState(i, e.displays[i].img))
  }

  function ReadSensor(c: Config, cmd: bytes): Resp
    requires |cmd| == 3
  {
    if c.sensorMax == 0 then Failed(ERR_INV_OPCODE)
    else if cmd[2] >= c.sensorMax then Failed(ERR_INV_PARAMS)
    else SensorValue(cmd[2])
  }

  // ---------- the workers ----------

  /** Bit k of the 40-bit flashing pattern, least significant byte first. */
  predicate PatternBit(pattern: bytes, k: nat)
    requires |pattern| == FLASH_PATTERN_LEN
  {
    k < 40 && Halved(pattern[k / 8], k % 8) % 2 == 1
  }

  /** A number shifted down by k bits. */
  function Halved(n: nat, k: nat): nat { if k == 0 then n else Halved(n / 2, k - 1) }

  /** Highest set bit below k, as 63 - clz finds it. For a pattern without any, where the source's result
      is undefined, this takes 255. */
  function TopBelow(pattern: bytes, k: nat): (h: byte)
    requires |pattern| == FLASH_PATTERN_LEN && k <= 40
    ensures h == 255 <==> forall j: nat | j < k :: !PatternBit(pattern, j)
    ensures h != 255 ==> h < k && PatternBit(pattern, h) && forall j: nat | h < j < k :: !PatternBit(pattern, j)
  {
    if k == 0 then 255 else if PatternBit(pattern, k - 1) then k - 1 else TopBelow(pattern, k - 1)
  }

  function TopBit(pattern: bytes): byte
    requires |pattern| == FLASH_PATTERN_LEN
  {
    TopBelow(pattern, 40)
  }

  /** Head of led_delay_worker_fn for a duration other than 0: a first run is enabled, with a stop time
      when the repeats are counted in seconds. */
  function Begun(l: Led, now: u32): Led {
    var s := l.(start := 0, work := Idle);
    if l.enabled then s
    else s.(enabled := true, active := true,
            stop := if l.obj.repeatType == 1 then (now + l.obj.duration * MSEC_PER_SEC) % WORD else 0)
  }

  predicate Expired(l: Led, now: u32) { l.stop != 0 && now > l.stop }

  /** led_delay_worker_fn: the LED afterwards, and the on and off calls it makes. */
  function LedWorker(l: Led, now: u32, u: nat): (Led, seq<bool>)
    requires |l.obj.pattern| == FLASH_PATTERN_LEN
  {
    if l.obj.duration == 0 then
      var on := l.obj.repeatType == 1;
      (l.(start := 0, work := Idle, active := on), [on])
    else
      var b := Begun(l, now);
      var s := if Expired(b, now) then b.(enabled := false, active := false) else b;
      var calls := if Expired(b, now) then [false] else [];
      var count := (s.repeats + 1) % 0x100;
      if s.patternIdx == 0 && count >= s.obj.duration then
        (s.(repeats := count, patternIdx := TopBit(s.obj.pattern), enabled := false, active := false), calls + [false])
      else
        var at := if s.patternIdx == 0 || s.patternIdx == START_MARK then TopBit(s.obj.pattern) else s.patternIdx;
        var t := s.(repeats := if s.patternIdx == 0 then count else s.repeats, patternIdx := at);
        if !t.enabled then (t, calls)
        else
          var on := PatternBit(t.obj.pattern, at);
          (t.(work := Due(u + 2 * (if on then t.obj.onPeriod else t.obj.offPeriod) as int),
              patternIdx := if at != 0 then at - 1 else 0), calls + [on])
  }

  /** display_delay_worker_fn */
  function DisplayWorker(d: Display): Display { d.(active := true, start := 0, work := Idle) }

  // ---------- what every operation keeps ----------

  ghost predicate LedFine(l: Led) {
    |l.obj.pattern| == FLASH_PATTERN_LEN && (l.start != 0 ==> l.work.Due?)
  }

  lemma LedReplaced(e: Elements, c: Config, i: nat, l: Led)
    requires Fitting(e, c) && i < |e.leds| && |l.obj.pattern| == FLASH_PATTERN_LEN
    ensures Fitting(e.(leds := e.leds[i := l]), c)
    ensures SlotsPending(e) && LedFine(l) ==> SlotsPending(e.(leds := e.leds[i := l]))
  {
    forall k | k in e.leds[i := l] ensures k == l || k in e.leds {
    }
  }

  lemma DisplayReplaced(e: Elements, c: Config, i: nat, d: Display)
    requires Fitting(e, c) && i < |e.displays|
    ensures Fitting(e.(displays := e.displays[i := d]), c)
    ensures SlotsPending(e) && (d.start != 0 ==> d.work.Due?) ==> SlotsPending(e.(displays := e.displays[i := d]))
  {
    forall k | k in e.displays[i := d] ensures k == d || k in e.displays {
    }
  }

  lemma BitsDoNotMatter(e: Elements, c: Config, a: bool, b: bool, d: bool)
    ensures var n := e.(activeLed := a, pendingLed := b, pendingDisplay := d);
            (Fitting(n, c) <==> Fitting(e, c)) && (SlotsPending(n) <==> SlotsPending(e))
  {
  }

  lemma RefreshKeeps(e: Elements, c: Config)
    requires Fitting(e, c)
    ensures Fitting(RefreshBasic(e), c) && (SlotsPending(e) ==> SlotsPending(RefreshBasic(e)))
  {
    var r := RefreshBasic(e);
    BitsDoNotMatter(e, c, r.activeLed, r.pendingLed, r.pendingDisplay);
  }

  lemma LedCommandsKeep(e: Elements, c: Config, cmd: bytes, u: nat)
    requires Fitting(e, c)
    ensures |cmd| == 13 ==>
              var (n, _) := LedControl(e, c, cmd, u); Fitting(n, c) && (SlotsPending(e) ==> SlotsPending(n))
    ensures |cmd| == 17 ==>
              var (n, _) := LedTimed(e, c, cmd, u); Fitting(n, c) && (SlotsPending(e) ==> SlotsPending(n))
  {
    hide SlotsPending, Plausible, DecodeLed, RefreshBasic;
    if |cmd| == 13 && cmd[2] < c.ledMax {
      LedReplaced(e, c, cmd[2], ResetLed(e.leds[cmd[2]]).(obj := DecodeLed(cmd), work := Due(u)));
    } else if |cmd| == 17 && cmd[2] < c.ledMax {
      LedTimedKeeps(e, c, cmd, u);
    }
  }

  lemma LedTimedKeeps(e: Elements, c: Config, cmd: bytes, u: nat)
    requires Fitting(e, c) && |cmd| == 17 && cmd[2] < c.ledMax
    ensures var (n, _) := LedTimed(e, c, cmd, u); Fitting(n, c) && (SlotsPending(e) ==> SlotsPending(n))
  {
    hide SlotsPending, Plausible, DecodeLed;
    var i, target := cmd[2], GetLe32(cmd[13..17]);
    var cleared := ResetLed(e.leds[i]);
    LedReplaced(e, c, i, cleared);
    var r := RefreshBasic(e.(leds := e.leds[i := cleared]));
    BitsDoNotMatter(e.(leds := e.leds[i := cleared]), c, r.activeLed, r.pendingLed, r.pendingDisplay);
    var waiting := cleared.(start := target, patternIdx := START_MARK);
    var set_ := waiting.(obj := DecodeLed(cmd), work := Due(u + Offset(target, ClockAt(e.anchor, u))));
    var q := RefreshBasic(e.(leds := e.leds[i := waiting]));
    LedReplaced(e, c, i, set_);
    assert q.(leds := e.leds[i := set_]) ==
           e.(leds := e.leds[i := set_]).(activeLed := q.activeLed, pendingLed := q.pendingLed,
                                          pendingDisplay := q.pendingDisplay);
    BitsDoNotMatter(e.(leds := e.leds[i := set_]), c, q.activeLed, q.pendingLed, q.pendingDisplay);
  }

  lemma DisplayCommandsKeep(e: Elements, c: Config, cmd: bytes, u: nat)
    requires Fitting(e, c)
    ensures |cmd| == 3 ==>
              var (n, _) := DisplayRefresh(e, c, cmd, u); Fitting(n, c) && (SlotsPending(e) ==> SlotsPending(n))
    ensures |cmd| == 4 ==>
              var (n, _) := DisplayImage(e, c, cmd, u); Fitting(n, c) && (SlotsPending(e) ==> SlotsPending(n))
    ensures |cmd| == 8 ==>
              var (n, _) := DisplayTimed(e, c, cmd, u); Fitting(n, c) && (SlotsPending(e) ==> SlotsPending(n))
  {
    hide SlotsPending, Plausible, RefreshBasic;
    if |cmd| == 3 && cmd[2] < c.displayMax {
      DisplayReplaced(e, c, cmd[2], e.displays[cmd[2]].(work := Due(u)));
    } else if |cmd| == 4 && cmd[2] < c.displayMax {
      DisplayReplaced(e, c, cmd[2], e.displays[cmd[2]].(img := cmd[3], work := Due(u)));
    } else if |cmd| == 8 && cmd[2] < c.displayMax {
      DisplayTimedKeeps(e, c, cmd, u);
    }
  }

  lemma DisplayTimedKeeps(e: Elements, c: Config, cmd: bytes, u: nat)
    requires Fitting(e, c) && |cmd| == 8 && cmd[2] < c.displayMax
    ensures var (n, _) := DisplayTimed(e, c, cmd, u); Fitting(n, c) && (SlotsPending(e) ==> SlotsPending(n))
  {
    hide SlotsPending, Plausible;
    var i, img, target := cmd[2], cmd[3], GetLe32(cmd[4..8]);
    var cleared := ResetDisplay(e.displays[i], c);
    var set_ := cleared.(img := img, start := target, work := Due(u + Offset(target, ClockAt(e.anchor, u))));
    DisplayReplaced(e, c, i, cleared);
    DisplayReplaced(e, c, i, set_);
    var r := RefreshBasic(e.(displays := e.displays[i := cleared]));
    BitsDoNotMatter(e.(displays := e.displays[i := cleared]), c, r.activeLed, r.pendingLed, r.pendingDisplay);
    BitsDoNotMatter(e.(displays := e.displays[i := set_]), c, e.activeLed, e.pendingLed, true);
  }

  lemma ResetLedsKeeps(e: Elements, c: Config)
    requires Fitting(e, c)
    ensures Fitting(ResetLeds(e), c) && (SlotsPending(e) ==> SlotsPending(ResetLeds(e)))
    ensures forall l | l in ResetLeds(e).leds :: l.start == 0 && l.work.Idle?
  {
  }

  lemma WorkersKeep(e: Elements, c: Config, i: nat, now: u32, u: nat)
    requires Fitting(e, c)
    ensures i < |e.leds| ==> var n := e.(leds := e.leds[i := LedWorker(e.leds[i], now, u).0]);
                             Fitting(n, c) && (SlotsPending(e) ==> SlotsPending(n))
    ensures i < |e.displays| ==> var n := e.(displays := e.displays[i := DisplayWorker(e.displays[i])]);
                                 Fitting(n, c) && (SlotsPending(e) ==> SlotsPending(n))
  {
    hide SlotsPending;
    if i < |e.leds| {
      WorkerClears(e.leds[i], now, u);
      LedReplaced(e, c, i, LedWorker(e.leds[i], now, u).0);
    }
    if i < |e.displays| {
      DisplayReplaced(e, c, i, DisplayWorker(e.displays[i]));
    }
  }

  lemma WorkerClears(l: Led, now: u32, u: nat)
    requires |l.obj.pattern| == FLASH_PATTERN_LEN
    ensures var n := LedWorker(l, now, u).0; n.start == 0 && n.obj == l.obj
  {
  }
}
