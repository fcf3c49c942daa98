/** Timed commands, one slot per LED and per display: what is accepted, what replaces what, and what the
    basic state says about it. */
module Slots {
  import opened Bytes
  import opened Tlv
  import opened TagMachine
  import opened Responses
  import opened Elements
  import opened TagRules
  import opened Flasher

  /** The work is scheduled for an instant, not before u, at which the clock reads t. */
  predicate DueAt(w: Work, e: Elements, t: u32, u: nat) {
    w.Due? && u <= w.at && ClockAt(e.anchor, w.at) == t
  }

  /** A timed LED command: time 0 frees the slot; another time is accepted exactly when it is less than 48 days
      ahead, modulo the wrapping clock, and the slot is free or waits for that same time. What is refused
      changes nothing. */
  lemma LedTimedIff(e: Elements, c: Config, cmd: bytes, u: nat)
    requires Fitting(e, c) && |cmd| == 17 && cmd[2] < c.ledMax
    ensures var (i, t, now) := (cmd[2], GetLe32(cmd[13..17]), ClockAt(e.anchor, u));
            var (n, r) := LedTimed(e, c, cmd, u);
            var plausible := (t - now) % WORD < ESL_TIMED_ABS_MAX;
            var mine := e.leds[i].start == 0 || e.leds[i].start == t;
            && r == (if t == 0 || (plausible && mine) then LedState(i)
                     else Failed(if plausible then ERR_QUEUE_FULL else ERR_IMPLAUSIBLE_ABS))
            && (r != LedState(i) ==> n == e)
            && |n.leds| == |e.leds| && n.displays == e.displays && n.anchor == e.anchor
            && (forall j: nat | j < |e.leds| && j != i :: n.leds[j] == e.leds[j])
            && (t == 0 ==> n.leds[i].start == 0 && n.leds[i].work.Idle?)
            && (t != 0 && r == LedState(i) ==>
                  && n.leds[i].start == t && DueAt(n.leds[i].work, e, t, u) && n.leds[i].obj == DecodeLed(cmd)
                  && n.leds[i].patternIdx == START_MARK && !n.leds[i].enabled && n.leds[i].repeats == 0 && n.pendingLed)
  {
    var (i, t) := (cmd[2], GetLe32(cmd[13..17]));
    DelayIsExact(e.anchor, u, t);
    hide ClockAt, DecodeLed, GetLe32;
    var waiting := ResetLed(e.leds[i]).(start := t, patternIdx := START_MARK);
    assert e.leds[i := waiting][i] in e.leds[i := waiting];
  }

  /** The same for displays. */
  lemma DisplayTimedIff(e: Elements, c: Config, cmd: bytes, u: nat)
    requires Fitting(e, c) && |cmd| == 8 && ImageFault(e, c, cmd[2], cmd[3]) == None
    ensures var (i, img, t, now) := (cmd[2], cmd[3], GetLe32(cmd[4..8]), ClockAt(e.anchor, u));
            var (n, r) := DisplayTimed(e, c, cmd, u);
            var plausible := (t - now) % WORD < ESL_TIMED_ABS_MAX;
            var mine := e.displays[i].start == 0 || e.displays[i].start == t;
            && r == (if t == 0 || (plausible && mine) then DisplayState(i, img)
                     else Failed(if plausible then ERR_QUEUE_FULL else ERR_IMPLAUSIBLE_ABS))
            && (r != DisplayState(i, img) ==> n == e)
            && |n.displays| == |e.displays| && n.leds == e.leds && n.anchor == e.anchor
            && (forall j: nat | j < |e.displays| && j != i :: n.displays[j] == e.displays[j])
            && (t == 0 ==> n.displays[i].start == 0 && n.displays[i].work.Idle?)
            && (t != 0 && r == DisplayState(i, img) ==>
                  && n.displays[i].start == t && DueAt(n.displays[i].work, e, t, u) && n.displays[i].img == img
                  && n.pendingDisplay)
  {
    var t := GetLe32(cmd[4..8]);
    DelayIsExact(e.anchor, u, t);
    hide ClockAt, GetLe32;
  }

  // ---------- immediate and timed images on one display ----------

  /** What can concern a display: a command to the tag, or its worker's turn. */
  datatype Act = Told(cmd: bytes, u: nat) | WorkerRuns

  predicate Proper(acts: seq<Act>) { forall a | a in acts :: a.Told? ==> WellFramed(a.cmd) }

  /** The command gives display i another image, or takes its image away. */
  predicate Names(cmd: bytes, i: nat)
    requires WellFramed(cmd)
  {
    && (cmd[0] == OP_DISPLAY_IMAGE || cmd[0] == OP_DISPLAY_TIMED_IMAGE)
    && EcpLen(cmd[0]) >= 4 && cmd[2] == i
  }

  /** The images that display i shows along a run. */
  function Shown(e: Elements, c: Config, i: nat, acts: seq<Act>): seq<byte>
    requires Fitting(e, c) && i < |e.displays| && Proper(acts)
    decreases |acts|
  {
    if acts == [] then []
    else
      assert acts[0] in acts && forall a | a in acts[1..] :: a in acts;
      match acts[0]
      case Told(cmd, u) => OperateKeeps(e, c, cmd, u); Shown(Operate(e, c, cmd, u).0, c, i, acts[1..])
      case WorkerRuns =>
        var d := e.displays[i];
        DisplayReplaced(e, c, i, DisplayWorker(d));
        if d.work.Idle? then Shown(e, c, i, acts[1..])
        else [d.img] + Shown(e.(displays := e.displays[i := DisplayWorker(d)]), c, i, acts[1..])
  }

  lemma OperateKeepsImage(e: Elements, c: Config, cmd: bytes, u: nat, i: nat)
    requires Fitting(e, c) && i < |e.displays| && WellFramed(cmd) && !Names(cmd, i)
    ensures var n := Operate(e, c, cmd, u).0; |n.displays| == |e.displays| && n.displays[i].img == e.displays[i].img
  {
    hide ReadSensor, GetLe32, DecodeLed, Plausible, ResetLed, ResetDisplay, SlotsPending;
  }

  /** Along any run in which no command names it, a display shows the image that is set and no other. */
  lemma {:induction false} OnlyTheImageIsShown(e: Elements, c: Config, i: nat, acts: seq<Act>)
    requires Fitting(e, c) && i < |e.displays| && Proper(acts)
    requires forall a | a in acts :: a.Told? ==> WellFramed(a.cmd) && !Names(a.cmd, i)
    ensures forall img | img in Shown(e, c, i, acts) :: img == e.displays[i].img
    decreases |acts|
  {
    hide Fitting, Operate, WellFramed, Names;
    if acts != [] {
      assert acts[0] in acts && forall a | a in acts[1..] :: a in acts;
      match acts[0]
      case Told(cmd, u) =>
        OperateKeeps(e, c, cmd, u);
        OperateKeepsImage(e, c, cmd, u, i);
        OnlyTheImageIsShown(Operate(e, c, cmd, u).0, c, i, acts[1..]);
      case WorkerRuns =>
        var next := e.(displays := e.displays[i := DisplayWorker(e.displays[i])]);
        DisplayReplaced(e, c, i, DisplayWorker(e.displays[i]));
        OnlyTheImageIsShown(next, c, i, acts[1..]);
        OnlyTheImageIsShown(e, c, i, acts[1..]);
    }
  }

  /** An immediate image on a display that waits for a time uses the slot up: its worker's next turn frees the
      slot, and until a command names the display again only the immediate image is shown, never the timed one. */
  lemma ImmediateImageConsumesTimed(e: Elements, c: Config, cmd: bytes, u: nat, acts: seq<Act>)
    requires Fitting(e, c) && |cmd| == 4 && ImageFault(e, c, cmd[2], cmd[3]) == None
    requires Proper(acts) && forall a | a in acts :: a.Told? ==> WellFramed(a.cmd) && !Names(a.cmd, cmd[2])
    ensures var (i, n) := (cmd[2], DisplayImage(e, c, cmd, u).0);
            && Fitting(n, c) && |n.displays| == |e.displays|
            && n.displays[i].start == e.displays[i].start && n.displays[i].work == Due(u)
            && DisplayWorker(n.displays[i]).start == 0 && DisplayWorker(n.displays[i]).work.Idle?
            && forall img | img in Shown(n, c, i, acts) :: img == cmd[3]
  {
    hide Shown, Names, WellFramed;
    DisplayCommandsKeep(e, c, cmd, u);
    OnlyTheImageIsShown(DisplayImage(e, c, cmd, u).0, c, cmd[2], acts);
  }

  /** An accepted timed image is shown by the worker's next turn, which is due when the clock reads its time, and by
      that turn only; the display is active from then on and not before. */
  lemma TimedImageIsShownOnce(e: Elements, c: Config, cmd: bytes, u: nat)
    requires Fitting(e, c) && |cmd| == 8 && ImageFault(e, c, cmd[2], cmd[3]) == None && GetLe32(cmd[4..8]) != 0
    requires DisplayTimed(e, c, cmd, u).1 == DisplayState(cmd[2], cmd[3])
    ensures var (i, n) := (cmd[2], DisplayTimed(e, c, cmd, u).0);
            && Fitting(n, c) && |n.displays| == |e.displays|
            && DueAt(n.displays[i].work, n, GetLe32(cmd[4..8]), u) && !n.displays[i].active
            && Shown(n, c, i, [WorkerRuns]) == Shown(n, c, i, [WorkerRuns, WorkerRuns]) == [cmd[3]]
            && var d := DisplayWorker(n.displays[i]); d.active && d.start == 0 && d.work.Idle? && d.img == cmd[3]
  {
    hide GetLe32, ClockAt, Plausible, RefreshBasic;
    DisplayTimedIff(e, c, cmd, u);
    DisplayCommandsKeep(e, c, cmd, u);
    var i, n := cmd[2], DisplayTimed(e, c, cmd, u).0;
    hide DisplayTimed;
    var next := n.(displays := n.displays[i := DisplayWorker(n.displays[i])]);
    DisplayReplaced(n, c, i, DisplayWorker(n.displays[i]));
    assert [WorkerRuns][1..] == [] && [WorkerRuns, WorkerRuns][1..] == [WorkerRuns];
    assert Shown(next, c, i, []) == [] && Shown(next, c, i, [WorkerRuns]) == [];
  }

  /** Refreshing a display does the same, with whatever image is set. */
  lemma RefreshConsumesTimed(e: Elements, c: Config, cmd: bytes, u: nat, acts: seq<Act>)
    requires Fitting(e, c) && |cmd| == 3 && cmd[2] < c.displayMax && e.displays[cmd[2]].img != c.imageMax
    requires Proper(acts) && forall a | a in acts :: a.Told? ==> WellFramed(a.cmd) && !Names(a.cmd, cmd[2])
    ensures var (i, n) := (cmd[2], DisplayRefresh(e, c, cmd, u).0);
            && Fitting(n, c) && |n.displays| == |e.displays|
            && n.displays[i].work == Due(u) && DisplayWorker(n.displays[i]).start == 0
            && forall img | img in Shown(n, c, i, acts) :: img == e.displays[i].img
  {
    hide Shown, Names, WellFramed;
    DisplayCommandsKeep(e, c, cmd, u);
    OnlyTheImageIsShown(DisplayRefresh(e, c, cmd, u).0, c, cmd[2], acts);
  }

  /** An immediate LED command cancels the timed one instead. */
  lemma ImmediateLedCancelsTimed(e: Elements, c: Config, cmd: bytes, u: nat)
    requires Fitting(e, c) && |cmd| == 13 && cmd[2] < c.ledMax
    ensures var l := LedControl(e, c, cmd, u).0.leds[cmd[2]];
            l.start == 0 && l.work == Due(u) && l.obj == DecodeLed(cmd) && l.patternIdx == 0 && !l.enabled
              && l.repeats == 0
  {
    hide DecodeLed;
  }

  /** The same settings sent both ways: the immediate command shows one pass fewer than the timed one, then both
      switch off and stop. */
  lemma ImmediateShowsOnePassFewer(e: Elements, c: Config, cmd: bytes, timed: bytes, u: nat, clock: nat -> Tick,
                                   fuel: nat)
    requires Fitting(e, c) && |cmd| == 13 && |timed| == 17 && cmd[2] == timed[2] < c.ledMax
    requires DecodeLed(cmd) == DecodeLed(timed) && DecodeLed(cmd).repeatType != 1 && 1 <= DecodeLed(cmd).duration <= 255
    requires TopBit(DecodeLed(cmd).pattern) != 255
    requires GetLe32(timed[13..17]) != 0 && LedTimed(e, c, timed, u).1 == LedState(timed[2])
    requires fuel >= DecodeLed(cmd).duration * Steps(DecodeLed(cmd).pattern) + 1
    ensures var (now, later) := (LedControl(e, c, cmd, u).0.leds[cmd[2]], LedTimed(e, c, timed, u).0.leds[cmd[2]]);
            var (pass, d) := (Pass(DecodeLed(cmd).pattern), DecodeLed(cmd).duration);
            && |now.obj.pattern| == |later.obj.pattern| == FLASH_PATTERN_LEN
            && Flash(now, clock, 0, fuel).calls == Times(d - 1, pass) + [false]
            && Flash(later, clock, 0, fuel).calls == Times(d, pass) + [false]
            && Flash(now, clock, 0, fuel).led.work.Idle? && Flash(later, clock, 0, fuel).led.work.Idle?
  {
    hide Flash, Times, Pass, Steps, TopBit, DecodeLed, GetLe32, LedTimed;
    LedTimedIff(e, c, timed, u);
    ImmediateLedCancelsTimed(e, c, cmd, u);
    OneLess(DecodeLed(cmd).duration, Steps(DecodeLed(cmd).pattern));
    ControlTrace(LedControl(e, c, cmd, u).0.leds[cmd[2]], clock, fuel);
    TimedTrace(LedTimed(e, c, timed, u).0.leds[cmd[2]], clock, fuel);
  }

  /** An LED command with duration 0, sent either way, switches the LED for good in a single run of its worker: on when
      the lowest bit of the repeat field is set, off when it is not. The pattern does not matter, nor does the clock. */
  lemma DurationZeroIsSteady(e: Elements, c: Config, cmd: bytes, u: nat, clock: nat -> Tick, fuel: nat)
    requires Fitting(e, c) && (|cmd| == 13 || |cmd| == 17) && cmd[2] < c.ledMax
    requires cmd[11] <= 1 && cmd[12] == 0 && fuel > 0
    requires |cmd| == 17 ==> GetLe32(cmd[13..17]) != 0 && LedTimed(e, c, cmd, u).1 == LedState(cmd[2])
    ensures var n := if |cmd| == 13 then LedControl(e, c, cmd, u).0 else LedTimed(e, c, cmd, u).0;
            && |n.leds| == |e.leds| && |n.leds[cmd[2]].obj.pattern| == FLASH_PATTERN_LEN
            && var s := Flash(n.leds[cmd[2]], clock, 0, fuel);
               && s.runs == 1 && s.calls == [cmd[11] == 1]
               && s.led.active == (cmd[11] == 1) && s.led.work.Idle? && s.led.start == 0
  {
    hide Flash, LedTimed, LedControl, GetLe32;
    assert DecodeLed(cmd).duration == 0 && DecodeLed(cmd).repeatType == cmd[11];
    if |cmd| == 13 {
      ImmediateLedCancelsTimed(e, c, cmd, u);
      LedCommandsKeep(e, c, cmd, u);
      SteadyTrace(LedControl(e, c, cmd, u).0.leds[cmd[2]], clock, fuel);
    } else {
      LedTimedIff(e, c, cmd, u);
      SteadyTrace(LedTimed(e, c, cmd, u).0.leds[cmd[2]], clock, fuel);
    }
  }

  /** Unassociating frees the slots of the LEDs, and leaves those of the displays as they are. */
  lemma UnassociateFreesOnlyLeds(t: Tag, undeleted: set<Item>)
    ensures var n := UnassociateTag(t, undeleted).e;
            && n.displays == t.e.displays && |n.leds| == |t.e.leds|
            && forall l | l in n.leds :: l.start == 0 && !l.active && l.work.Idle?
  {
    hide Unassociate;
  }

  /** A Basic State response is exact: bit by bit, the flags of the tag and the state of its elements. */
  lemma BasicStateIsExact(t: Tag, reading: Reading)
    requires t.resp.BasicState? && ReadingOk(reading)
    ensures var rsp := Respond(t, FromEcp, reading).rsp;
            && |rsp| == 3 && rsp[0] == OP_BASIC_STATE && rsp[2] == 0
            && (rsp[1] % 2 == 1 <==> t.service)
            && (rsp[1] / 2 % 2 == 1 <==> t.m.synced)
            && (rsp[1] / 4 % 2 == 1 <==> exists l | l in t.e.leds :: l.active)
            && (rsp[1] / 8 % 2 == 1 <==> exists l | l in t.e.leds :: l.start != 0)
            && (rsp[1] / 16 % 2 == 1 <==> exists d | d in t.e.displays :: d.start != 0)
            && rsp[1] < 32
  {
    var e := RefreshBasic(t.e);
    BitsOfFive(t.service, t.m.synced, e.activeLed, e.pendingLed, e.pendingDisplay);
  }

  lemma BitsOfFive(a: bool, b: bool, c: bool, d: bool, e: bool)
    ensures var v := (if a then 1 else 0) + (if b then 2 else 0) + (if c then 4 else 0) + (if d then 8 else 0)
                     + (if e then 16 else 0);
            && (v % 2 == 1 <==> a) && (v / 2 % 2 == 1 <==> b) && (v / 4 % 2 == 1 <==> c)
            && (v / 8 % 2 == 1 <==> d) && (v / 16 % 2 == 1 <==> e)
  {
  }
}
