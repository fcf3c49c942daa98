/** The control point seen from outside: the bytes of a command and the bytes of its answer, with what changed on
    the tag in between. Op codes, error codes and layouts are written as the numbers of section 3.10 of the ESL
    Service. What is answered over a connection here is what a packet appends (Accumulator.CommandAppends). */
module Exchanges {
  import opened Bytes
  import opened Tlv
  import opened Ead
  import opened RepeatCodec
  import opened TagMachine
  import opened Responses
  import opened Elements
  import opened TagRules
  import opened TagRun
  import opened TagEvents
  import opened Lifecycle
  import opened ApCommands
  import Slots

  /** A whole command that the tag carries out: of the length its op code says, not vendor specific, to this tag or
      to all, and the tag is not busy. */
  predicate Taken(t: Tag, cmd: bytes) {
    && |cmd| >= 2 && |cmd| == cmd[0] / 16 + 2 && cmd[0] % 16 != 15
    && (cmd[1] == t.m.addr % 0x100 || cmd[1] == 0xFF) && !t.busy
  }

  /** An answer is given, and nothing but the elements may have changed besides. */
  predicate OnlyElements(t: Tag, n: Tag) {
    n.m == t.m && n.service == t.service && n.inFlight == t.inFlight && n.busy == t.busy && n.respNeeded
  }

  predicate OnlyAnswered(t: Tag, n: Tag) { OnlyElements(t, n) && n.e == t.e }

  /** The same elements, but for the three bits of the basic state that are derived from them. */
  predicate SameButBits(a: Elements, b: Elements) {
    a.leds == b.leds && a.displays == b.displays && a.anchor == b.anchor && a.imageSizes == b.imageSizes
  }

  /** Bit by bit: service needed, synchronized, some LED active, some LED waiting, some display waiting. */
  predicate SaysBasicState(rsp: bytes, n: Tag) {
    && |rsp| == 3 && rsp[0] == 0x10 && rsp[1] < 32 && rsp[2] == 0
    && (rsp[1] % 2 == 1 <==> n.service) && (rsp[1] / 2 % 2 == 1 <==> n.m.synced)
    && (rsp[1] / 4 % 2 == 1 <==> exists l | l in n.e.leds :: l.active)
    && (rsp[1] / 8 % 2 == 1 <==> exists l | l in n.e.leds :: l.start != 0)
    && (rsp[1] / 16 % 2 == 1 <==> exists d | d in n.e.displays :: d.start != 0)
  }

  // ---------- commands that are not carried out ----------

  /** In this order: a wrong length is answered with Invalid Parameter, a vendor-specific op code with Invalid Opcode,
      another tag's ID not at all, and the first command to a busy tag with Retry. Nothing else changes. */
  lemma NotTaken(t: Tag, c: Config, cmd: bytes, w: World)
    requires Fitting(t.e, c) && |cmd| >= 2 && ReadingOk(w.reading) && !Taken(t, cmd)
    ensures var (n, id) := (Command(t, c, cmd, FromEcp, w), cmd[1]);
            if |cmd| != cmd[0] / 16 + 2 then n.rsp == [0x00, 0x06] && OnlyAnswered(t, n)
            else if cmd[0] % 16 == 15 then n.rsp == [0x00, 0x02] && OnlyAnswered(t, n)
            else if id != t.m.addr % 0x100 && id != 0xFF then n.rsp == t.rsp && OnlyAnswered(t, n)
            else n.rsp == [0x00, 0x0A] && !n.busy && OnlyAnswered(t.(busy := false), n)
  {
    hide Execute, Fitting;
  }

  // ---------- commands to elements ----------

  lemma Operated(t: Tag, c: Config, cmd: bytes, w: World)
    requires Fitting(t.e, c) && ReadingOk(w.reading) && Taken(t, cmd) && !(cmd[0] in {1, 2, 3, 4})
    ensures WellFramed(cmd)
    ensures var (n, (e, r)) := (Command(t, c, cmd, FromEcp, w), Operate(t.e, c, cmd, w.u));
            && OnlyElements(t, n)
            && (!r.BasicState? ==> n.e == e && n.rsp == Encode(r, 0, w.reading))
            && (r.BasicState? ==> n.e == RefreshBasic(e) && n.rsp == [0x10, BasicByte(n), 0])
  {
    hide Operate, Fitting, RefreshBasic;
  }

  /** A Read Sensor Data command: the answer has the sensor's data behind its index, their number in the high nibble
      of its first byte; or Retry while the sensor is busy. */
  lemma SensorExchange(t: Tag, c: Config, cmd: bytes, w: World)
    requires Fitting(t.e, c) && ReadingOk(w.reading) && Taken(t, cmd) && cmd[0] == 0x10
    ensures var (n, s) := (Command(t, c, cmd, FromEcp, w), cmd[2]);
            && OnlyAnswered(t, n)
            && n.rsp == if c.sensorMax == 0 then [0x00, 0x02]
                        else if s >= c.sensorMax then [0x00, 0x06]
                        else match w.reading
                             case Absent(stale) => [0x0E, stale]
                             case Busy => [0x00, 0x0A]
                             case Value(data) => [16 * |data| + 0x0E, s] + data
  {
    hide Command, Fitting;
    Operated(t, c, cmd, w);
  }

  /** Why a command that names a display and an image is refused; 0 when it is not. */
  function ImageRefusal(t: Tag, c: Config, display: byte, img: byte): byte
    requires Fitting(t.e, c)
  {
    if c.displayMax == 0 then 0x02
    else if display >= c.displayMax || img >= c.imageMax then 0x06
    else if t.e.imageSizes[img] == 0 && !c.simulated then 0x05
    else 0
  }

  /** Display Image: refused with its code and no change, or else the image is set, the display is to show it now,
      and the answer names display and image. It is carried out if and only if there is such a display and such an
      image, which is not empty or does not matter. */
  lemma DisplayImageExchange(t: Tag, c: Config, cmd: bytes, w: World)
    requires Fitting(t.e, c) && ReadingOk(w.reading) && Taken(t, cmd) && cmd[0] == 0x20
    ensures var (n, d, img) := (Command(t, c, cmd, FromEcp, w), cmd[2], cmd[3]);
            var refusal := ImageRefusal(t, c, d, img);
            && OnlyElements(t, n)
            && (refusal == 0 <==> d < c.displayMax && img < c.imageMax && (t.e.imageSizes[img] != 0 || c.simulated))
            && if refusal != 0 then n.rsp == [0x00, refusal] && n.e == t.e
               else
                 && n.rsp == [0x11, d, img]
                 && n.e == t.e.(displays := t.e.displays[d := t.e.displays[d].(img := img, work := Due(w.u))])
  {
    hide Command, Fitting;
    Operated(t, c, cmd, w);
  }

  /** Milliseconds until the tag's clock reads the time, modulo 2^32. */
  function Ahead(t: Tag, target: u32, u: nat): u32 { (target + t.e.anchor - u) % 0x1_0000_0000 }

  function TimeAt(cmd: bytes, i: nat): u32
    requires i + 4 <= |cmd|
  {
    (cmd[i] as int) + 0x100 * (cmd[i + 1] as int) + 0x1_0000 * (cmd[i + 2] as int) + 0x100_0000 * (cmd[i + 3] as int)
  }

  lemma AheadIs(t: Tag, target: u32, u: nat)
    ensures Offset(target, ClockAt(t.e.anchor, u)) == Ahead(t, target, u)
  {
    var (now, k) := (ClockAt(t.e.anchor, u), u / 0x1_0000_0000 + (u % WORD - t.e.anchor) / WORD);
    assert now == u - t.e.anchor - k * WORD;
    WordsDrop(target + t.e.anchor - u, k);
  }

  /** Why a timed command for a slot that waits for `start`, 0 for none, is refused; 0 when it is not. */
  function TimeRefusal(t: Tag, target: u32, u: nat, start: u32): byte {
    if target == 0 then 0
    else if Ahead(t, target, u) >= 48 * 24 * 60 * 60 * 1000 then 0x0C
    else if start != 0 && start != target then 0x0B
    else 0
  }

  /** Timed Display Image: after the same checks, time 0 takes image and slot away; another time less than 48 days
      ahead is set, unless the display waits for a different one. */
  lemma TimedImageExchange(t: Tag, c: Config, cmd: bytes, w: World)
    requires Fitting(t.e, c) && ReadingOk(w.reading) && Taken(t, cmd) && cmd[0] == 0x60
    ensures var (n, d, img, target) := (Command(t, c, cmd, FromEcp, w), cmd[2], cmd[3], TimeAt(cmd, 4));
            var refusal := ImageRefusal(t, c, d, img);
            && OnlyElements(t, n)
            && if refusal != 0 then n.rsp == [0x00, refusal] && n.e == t.e
               else
                 var late := TimeRefusal(t, target, w.u, t.e.displays[d].start);
                 if late != 0 then n.rsp == [0x00, late] && n.e == t.e
                 else
                   && n.rsp == [0x11, d, img] && (target != 0 ==> n.e.pendingDisplay)
                   && SameButBits(n.e, t.e.(displays := t.e.displays[d :=
                        if target == 0 then Display(if c.pts then 0 else c.imageMax, 0, false, Idle)
                        else Display(img, target, false, Due(w.u + Ahead(t, target, w.u)))]))
  {
    hide Command, Fitting, Ahead, ClockAt, Offset, DisplayTimed, TimeAt, GetLe32;
    Operated(t, c, cmd, w);
    AheadIs(t, TimeAt(cmd, 4), w.u);
    TimeIs(cmd, 4);
    if ImageFault(t.e, c, cmd[2], cmd[3]) == None {
      TimedImageIs(t.e, c, cmd, w.u);
    } else {
      FaultyImage(t.e, c, cmd, w.u);
    }
  }

  lemma FaultyImage(e: Elements, c: Config, cmd: bytes, u: nat)
    requires Fitting(e, c) && |cmd| == 8 && ImageFault(e, c, cmd[2], cmd[3]).Some?
    ensures DisplayTimed(e, c, cmd, u) == (e, Failed(ImageFault(e, c, cmd[2], cmd[3]).value))
  {
  }

  lemma RefreshedIs(e: Elements)
    ensures SameButBits(RefreshBasic(e), e)
  {
  }

  lemma TimedImageIs(e: Elements, c: Config, cmd: bytes, u: nat)
    requires Fitting(e, c) && |cmd| == 8 && ImageFault(e, c, cmd[2], cmd[3]) == None
    ensures var (i, img, target, ahead) := (cmd[2], cmd[3], GetLe32(cmd[4..8]),
                                            Offset(GetLe32(cmd[4..8]), ClockAt(e.anchor, u)));
            var (n, r) := DisplayTimed(e, c, cmd, u);
            if target == 0 then
              r == DisplayState(i, img)
              && SameButBits(n, e.(displays := e.displays[i :=
                   Display(if c.pts then 0 else c.imageMax, 0, false, Idle)]))
            else if ahead >= ESL_TIMED_ABS_MAX then r == Failed(0x0C) && n == e
            else if e.displays[i].start != 0 && e.displays[i].start != target then r == Failed(0x0B) && n == e
            else
              r == DisplayState(i, img) && n.pendingDisplay
              && SameButBits(n, e.(displays := e.displays[i := Display(img, target, false, Due(u + ahead))]))
  {
    hide Offset, ClockAt, GetLe32, RefreshBasic;
    var d := e.displays[cmd[2]];
    RefreshedIs(e.(displays := e.displays[cmd[2] := ResetDisplay(d, c)]));
  }

  lemma TimeIs(cmd: bytes, i: nat)
    requires i + 4 <= |cmd|
    ensures GetLe32(cmd[i..i + 4]) == TimeAt(cmd, i)
  {
  }

  /** Refresh Display: a display that has an image shows it now. */
  lemma RefreshExchange(t: Tag, c: Config, cmd: bytes, w: World)
    requires Fitting(t.e, c) && ReadingOk(w.reading) && Taken(t, cmd) && cmd[0] == 0x11
    ensures var (n, d) := (Command(t, c, cmd, FromEcp, w), cmd[2]);
            && OnlyElements(t, n)
            && if c.displayMax == 0 then n.rsp == [0x00, 0x02] && n.e == t.e
               else if d >= c.displayMax then n.rsp == [0x00, 0x06] && n.e == t.e
               else if t.e.displays[d].img == c.imageMax then n.rsp == [0x00, 0x04] && n.e == t.e
               else
                 && n.rsp == [0x11, d, t.e.displays[d].img]
                 && n.e == t.e.(displays := t.e.displays[d := t.e.displays[d].(work := Due(w.u))])
  {
    hide Command, Fitting;
    Operated(t, c, cmd, w);
  }

  /** Settings as an LED command carries them. */
  function LedSettings(cmd: bytes): LedObj
    requires |cmd| >= 13
  {
    LedObj(cmd[3], [cmd[4], cmd[5], cmd[6], cmd[7], cmd[8]], cmd[9], cmd[10], cmd[11] % 2,
           cmd[11] / 2 + 0x100 * (cmd[12] as int))
  }

  lemma SettingsAre(cmd: bytes)
    requires |cmd| >= 13
    ensures DecodeLed(cmd) == LedSettings(cmd)
  {
    assert cmd[4..9] == [cmd[4], cmd[5], cmd[6], cmd[7], cmd[8]];
    assert cmd[11..13] == [cmd[11], cmd[12]];
  }

  function LedRefusal(c: Config, led: byte): byte {
    if c.ledMax == 0 then 0x02 else if led >= c.ledMax then 0x06 else 0
  }

  /** LED Control: whatever the LED was doing, it begins anew with these settings now. */
  lemma LedExchange(t: Tag, c: Config, cmd: bytes, w: World)
    requires Fitting(t.e, c) && ReadingOk(w.reading) && Taken(t, cmd) && cmd[0] == 0xB0
    ensures var (n, led) := (Command(t, c, cmd, FromEcp, w), cmd[2]);
            var refusal := LedRefusal(c, led);
            && OnlyElements(t, n)
            && if refusal != 0 then n.rsp == [0x00, refusal] && n.e == t.e
               else
                 && n.rsp == [0x01, led]
                 && n.e == t.e.(leds := t.e.leds[led :=
                             Led(LedSettings(cmd), 0, 0, 0, 0, false, false, Due(w.u))])
  {
    hide Command, Fitting, DecodeLed, LedSettings;
    Operated(t, c, cmd, w);
    SettingsAre(cmd);
  }

  /** LED Timed Control: time 0 stops the LED and takes the slot away; another time is set as for displays. */
  lemma TimedLedExchange(t: Tag, c: Config, cmd: bytes, w: World)
    requires Fitting(t.e, c) && ReadingOk(w.reading) && Taken(t, cmd) && cmd[0] == 0xF0
    ensures var (n, led, target) := (Command(t, c, cmd, FromEcp, w), cmd[2], TimeAt(cmd, 13));
            var refusal := LedRefusal(c, led);
            && OnlyElements(t, n)
            && if refusal != 0 then n.rsp == [0x00, refusal] && n.e == t.e
               else
                 var late := TimeRefusal(t, target, w.u, t.e.leds[led].start);
                 if late != 0 then n.rsp == [0x00, late] && n.e == t.e
                 else
                   && n.rsp == [0x01, led]
                   && SameButBits(n.e, t.e.(leds := t.e.leds[led :=
                        if target == 0 then Led(t.e.leds[led].obj, 0, 0, 0, 0, false, false, Idle)
                        else Led(LedSettings(cmd), 40, 0, 0, target, false, false,
                                 Due(w.u + Ahead(t, target, w.u)))]))
  {
    hide Command, Fitting, Ahead, ClockAt, Offset, LedTimed, TimeAt, GetLe32, DecodeLed, LedSettings;
    Operated(t, c, cmd, w);
    AheadIs(t, TimeAt(cmd, 13), w.u);
    TimeIs(cmd, 13);
    SettingsAre(cmd);
    TimedLedIs(t.e, c, cmd, w.u);
  }

  lemma TimedLedIs(e: Elements, c: Config, cmd: bytes, u: nat)
    requires Fitting(e, c) && |cmd| == 17
    ensures var (i, target, ahead) := (cmd[2], GetLe32(cmd[13..17]),
                                       Offset(GetLe32(cmd[13..17]), ClockAt(e.anchor, u)));
            var (n, r) := LedTimed(e, c, cmd, u);
            if LedRefusal(c, i) != 0 then r == Failed(LedRefusal(c, i)) && n == e
            else if target == 0 then
              r == LedState(i)
              && SameButBits(n, e.(leds := e.leds[i := Led(e.leds[i].obj, 0, 0, 0, 0, false, false, Idle)]))
            else if ahead >= ESL_TIMED_ABS_MAX then r == Failed(0x0C) && n == e
            else if e.leds[i].start != 0 && e.leds[i].start != target then r == Failed(0x0B) && n == e
            else
              r == LedState(i)
              && SameButBits(n, e.(leds := e.leds[i :=
                   Led(DecodeLed(cmd), 40, 0, 0, target, false, false, Due(u + ahead))]))
  {
    hide Offset, ClockAt, GetLe32, RefreshBasic, DecodeLed;
    if cmd[2] < c.ledMax {
      var l := ResetLed(e.leds[cmd[2]]);
      RefreshedIs(e.(leds := e.leds[cmd[2] := l]));
      RefreshedIs(e.(leds := e.leds[cmd[2] := l.(start := GetLe32(cmd[13..17]), patternIdx := START_MARK)]));
    }
  }

  predicate ElementOp(op: byte) { op in {0x10, 0x11, 0x20, 0x60, 0xB0, 0xF0} }

  /** A ping, and any op code with a low nibble that is reserved, is answered with Basic State; all other op codes that
      are not defined with Invalid Opcode. */
  lemma OtherExchange(t: Tag, c: Config, cmd: bytes, w: World)
    requires Fitting(t.e, c) && ReadingOk(w.reading) && Taken(t, cmd)
    requires !ElementOp(cmd[0]) && !(cmd[0] in {1, 2, 3, 4})
    ensures var n := Command(t, c, cmd, FromEcp, w);
            && OnlyElements(t, n)
            && if cmd[0] == 0 || cmd[0] % 16 != 0 then SaysBasicState(n.rsp, n) && n.e == RefreshBasic(t.e)
               else n.rsp == [0x00, 0x02] && n.e == t.e
  {
    hide Command, Fitting, RefreshBasic, BasicByte;
    Operated(t, c, cmd, w);
    BasicStateSaid(t.e, Command(t, c, cmd, FromEcp, w));
  }

  lemma BasicStateSaid(e: Elements, n: Tag)
    ensures n.e == RefreshBasic(e) ==> SaysBasicState([0x10, BasicByte(n), 0], n)
  {
    Slots.BitsOfFive(n.service, n.m.synced, n.e.activeLed, n.e.pendingLed, n.e.pendingDisplay);
  }

  lemma AnswersBasicState(t: Tag, reading: Reading)
    requires t.resp.BasicState? && ReadingOk(reading)
    ensures var n := Respond(t, FromEcp, reading);
            && n == t.(e := n.e, rsp := n.rsp, inFlight := n.inFlight)
            && (n.inFlight <==> t.inFlight || (t.respNeeded && t.unassociateAfter))
            && SaysBasicState(n.rsp, n) && SameButBits(n.e, t.e)
  {
    hide RefreshBasic;
    BasicStateSaid(t.e, Respond(t, FromEcp, reading));
    RefreshedIs(t.e);
  }

  // ---------- commands to the tag itself ----------

  lemma Executed(t: Tag, c: Config, cmd: bytes, w: World)
    requires Fitting(t.e, c) && ReadingOk(w.reading) && Taken(t, cmd)
    ensures WellFramed(cmd)
    ensures var s := t.(resp := BasicState, respNeeded := true, unassociateAfter := false);
            Command(t, c, cmd, FromEcp, w) == Respond(Execute(s, c, cmd, w), FromEcp, w.reading)
  {
    hide Execute, Respond, Fitting;
  }

  /** Unassociate: refused with Retry when it is to all tags; otherwise the synchronized bit is cleared, the answer
      already says so, and the tag forgets everything once the answer is out. */
  lemma UnassociateExchange(t: Tag, c: Config, cmd: bytes, w: World, undeleted: set<Item>)
    requires Fitting(t.e, c) && ReadingOk(w.reading) && Taken(t, cmd) && cmd[0] == 0x01
    ensures var n := Command(t, c, cmd, FromEcp, w);
            if cmd[1] == 0xFF then n.rsp == [0x00, 0x0A] && OnlyAnswered(t, n)
            else
              && n.m == t.m.(synced := false) && n.service == t.service && n.busy == t.busy && n.respNeeded
              && SameButBits(n.e, t.e) && SaysBasicState(n.rsp, n)
              && Legal(t, c, [EcpWritten(cmd, w), NotificationSent(undeleted)])
              && var gone := Final(t, c, [EcpWritten(cmd, w), NotificationSent(undeleted)]);
                 && gone.m.phase == Unassociated && !gone.m.synced && Empty(t.m, gone.m, undeleted) && !gone.inFlight
                 && gone.e.displays == t.e.displays && |gone.e.leds| == |t.e.leds|
                 && forall l | l in gone.e.leds :: l.start == 0 && !l.active && l.work.Idle?
  {
    hide Command, Fitting, Respond, SaysBasicState, SameButBits, Empty, Unassociate, ResetLeds, Legal, Final, Step;
    UnassociateAnswer(t, c, cmd, w);
    var n := Command(t, c, cmd, FromEcp, w);
    if cmd[1] != 0xFF {
      NotificationStep(t, c, cmd, w, undeleted);
      TwoEvents(t, c, EcpWritten(cmd, w), NotificationSent(undeleted));
      Gone(n, t.m, t.e, undeleted);
    }
  }

  lemma UnassociateAnswer(t: Tag, c: Config, cmd: bytes, w: World)
    requires Fitting(t.e, c) && ReadingOk(w.reading) && Taken(t, cmd) && cmd[0] == 0x01
    ensures var n := Command(t, c, cmd, FromEcp, w);
            if cmd[1] == 0xFF then n.rsp == [0x00, 0x0A] && OnlyAnswered(t, n)
            else
              && n.m == t.m.(synced := false) && n.service == t.service && n.busy == t.busy && n.respNeeded
              && n.inFlight && SameButBits(n.e, t.e) && SaysBasicState(n.rsp, n)
  {
    hide Command, Fitting, SaysBasicState, SameButBits, BasicByte;
    Executed(t, c, cmd, w);
    var s := t.(resp := BasicState, respNeeded := true, unassociateAfter := false);
    if cmd[1] != 0xFF {
      hide Respond;
      AnswersBasicState(Execute(s, c, cmd, w), w.reading);
    }
  }

  lemma NotificationStep(t: Tag, c: Config, cmd: bytes, w: World, undeleted: set<Item>)
    requires Fitting(t.e, c) && Enabled(t, c, EcpWritten(cmd, w)) && Command(t, c, cmd, FromEcp, w).inFlight
    ensures var n := Step(t, c, EcpWritten(cmd, w));
            && n == Command(t, c, cmd, FromEcp, w) && Fitting(n.e, c) && Enabled(n, c, NotificationSent(undeleted))
            && Step(n, c, NotificationSent(undeleted)) == UnassociateTag(n.(inFlight := false), undeleted)
  {
    hide Command, Fitting, UnassociateTag;
    StepKeepsSlots(t, c, EcpWritten(cmd, w));
  }

  lemma Gone(t: Tag, m: Machine, e: Elements, undeleted: set<Item>)
    requires t.m == m.(synced := false) && SameButBits(t.e, e)
    ensures var n := UnassociateTag(t.(inFlight := false), undeleted);
            && n.m.phase == Unassociated && !n.m.synced && Empty(m, n.m, undeleted) && !n.inFlight
            && n.e.displays == e.displays && |n.e.leds| == |e.leds|
            && forall l | l in n.e.leds :: l.start == 0 && !l.active && l.work.Idle?
  {
    hide Empty, Unassociate;
    Emptied(t.m, undeleted);
    EmptiedToo(m, t.m, Unassociate(t.m, undeleted), undeleted);
    StaysCleared(t.m, undeleted);
  }

  lemma StaysCleared(m: Machine, undeleted: set<Item>)
    ensures Unassociate(m, undeleted).synced == m.synced && Unassociate(m, undeleted).phase == Unassociated
  {
  }

  /** Service Reset clears the service bit, and the answer already says so. */
  lemma ServiceResetExchange(t: Tag, c: Config, cmd: bytes, w: World)
    requires Fitting(t.e, c) && ReadingOk(w.reading) && Taken(t, cmd) && cmd[0] == 0x02
    ensures var n := Command(t, c, cmd, FromEcp, w);
            !n.service && OnlyElements(t.(service := false), n) && SameButBits(n.e, t.e) && SaysBasicState(n.rsp, n)
  {
    hide Command, Fitting, SaysBasicState, SameButBits, Respond;
    Executed(t, c, cmd, w);
    var s := t.(resp := BasicState, respNeeded := true, unassociateAfter := false);
    AnswersBasicState(Execute(s, c, cmd, w), w.reading);
  }

  /** Factory Reset: refused as Invalid State by a synchronized tag, and with Retry when it is to all tags; otherwise
      all is forgotten at once, the images with it, and no answer is given. */
  lemma FactoryResetExchange(t: Tag, c: Config, cmd: bytes, w: World)
    requires Fitting(t.e, c) && ReadingOk(w.reading) && Taken(t, cmd) && cmd[0] == 0x03
    ensures var n := Command(t, c, cmd, FromEcp, w);
            if t.m.phase == Synchronized then n.rsp == [0x00, 0x03] && OnlyAnswered(t, n)
            else if cmd[1] == 0xFF then n.rsp == [0x00, 0x0A] && OnlyAnswered(t, n)
            else
              && !n.respNeeded && n.inFlight == t.inFlight && n.service == t.service
              && n.m.phase == Unassociated && Empty(t.m, n.m, w.undeleted)
              && |n.e.imageSizes| == |t.e.imageSizes| && (forall size | size in n.e.imageSizes :: size == 0)
              && n.e.displays == t.e.displays && |n.e.leds| == |t.e.leds|
              && forall l | l in n.e.leds :: l.start == 0 && !l.active && l.work.Idle?
  {
    hide Command, Fitting, RefreshBasic, BasicByte, Empty, Unassociate;
    Executed(t, c, cmd, w);
    Emptied(t.m, w.undeleted);
    StaysCleared(t.m, w.undeleted);
    RefreshedIs(ResetLeds(NoImages(t.e)));
  }

  /** Update Complete: the machine moves as the diagram says, and the answer says whether it is synchronized now. */
  lemma UpdateCompleteExchange(t: Tag, c: Config, cmd: bytes, w: World)
    requires Fitting(t.e, c) && ReadingOk(w.reading) && Taken(t, cmd) && cmd[0] == 0x04 && Settled(t.m)
    ensures var n := Command(t, c, cmd, FromEcp, w);
            && ViewOf(n.m) == Diagram(ViewOf(t.m), UpdateCompleted, false) && n.m.complete && SameItems(t.m, n.m)
            && OnlyElements(t.(m := n.m), n) && SameButBits(n.e, t.e) && SaysBasicState(n.rsp, n)
  {
    hide Command, Fitting, SaysBasicState, SameButBits, Respond, UpdateComplete, Diagram, Settled;
    Executed(t, c, cmd, w);
    FollowsDiagram(t.m, UpdateCompleted);
    OthersAre(t.m, UpdateCompleted);
    var s := t.(resp := BasicState, respNeeded := true, unassociateAfter := false);
    AnswersBasicState(Execute(s, c, cmd, w), w.reading);
  }

  // ---------- from the access point and back ----------

  /** The access point's LED command, on the tag it is for: the LED has the settings as given, except for what the
      duration loses on the way, and the answer names the LED. */
  lemma LedControlAnswered(t: Tag, c: Config, led: byte, obj: LedObj, w: World)
    requires Fitting(t.e, c) && ReadingOk(w.reading) && !t.busy && led < c.ledMax && |obj.pattern| == FLASH_PATTERN_LEN
    ensures var d := obj.duration % 0x8000;
            var n := Command(t, c, Built(0xB0, Low(t.m.addr), LedParameters(led, obj, false, 0)), FromEcp, w);
            && n.rsp == [0x01, led] && |n.e.leds| == |t.e.leds| && n.e.leds[led].work == Due(w.u)
            && n.e.leds[led].obj == obj.(repeatType := obj.repeatType % 2, duration := d % 128 + 256 * (d / 128))
  {
    hide Command, LedParameters, Built, LedSettings, DecodeLed;
    var cmd := Built(0xB0, Low(t.m.addr), LedParameters(led, obj, false, 0));
    LedCommandArrives(Low(t.m.addr), led, obj, false, 0);
    LedExchange(t, c, cmd, w);
    SettingsAre(cmd);
  }

  /** And its image command: the display is to show the image, and the answer names both, when there is such an
      image. */
  lemma DisplayControlAnswered(t: Tag, c: Config, display: byte, img: byte, w: World)
    requires Fitting(t.e, c) && ReadingOk(w.reading) && !t.busy && display < c.displayMax && img < c.imageMax
    requires t.e.imageSizes[img] != 0
    ensures var n := Command(t, c, Built(0x20, Low(t.m.addr), DisplayParameters(display, img, false, 0)), FromEcp, w);
            && n.rsp == [0x11, display, img] && |n.e.displays| == |t.e.displays|
            && n.e.displays[display].img == img && n.e.displays[display].work == Due(w.u)
  {
    hide Command, DisplayParameters, Built;
    var cmd := Built(0x20, Low(t.m.addr), DisplayParameters(display, img, false, 0));
    DisplayCommandArrives(Low(t.m.addr), display, img, false, 0);
    DisplayImageExchange(t, c, cmd, w);
  }

  /** After a boot no display has an image, and a refresh is refused, except in the builds for the test suite. */
  lemma NoImageAfterBoot(c: Config, store: map<Item, bytes>, order: seq<Item>, sizes: seq<nat>, service: bool,
                         cmd: bytes, w: World)
    requires 1 <= c.imageMax <= 255 && |sizes| == c.imageMax && ReadingOk(w.reading)
    requires var t := Restarted(store, c, order, sizes, service);
             Taken(t, cmd) && cmd[0] == 0x11 && cmd[2] < c.displayMax
    ensures var t := Restarted(store, c, order, sizes, service);
            && Fitting(t.e, c) && |t.e.displays| == c.displayMax
            && Command(t, c, cmd, FromEcp, w).rsp == if c.pts then [0x11, cmd[2], 0] else [0x00, 0x04]
  {
    hide Boot, Command, SaysBasicState;
    var t := Restarted(store, c, order, sizes, service);
    assert t.e.displays[cmd[2]] == ResetDisplay(BlankDisplay(), c);
    RefreshExchange(t, c, cmd, w);
  }
}
