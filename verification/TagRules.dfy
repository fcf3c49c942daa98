/** What a tag does with commands, packets and callbacks (esl.c), as functions from state to state: the
    command handler, the response buffer, the walk over a synchronization packet, and every other event. */
module TagRules {
  import opened Bytes
  import opened Tlv
  import opened Ead
  import opened TagMachine
  import opened Responses
  import opened Elements

  const OP_PING: byte := 0x00
  const OP_UNASSOCIATE: byte := 0x01
  const OP_SERVICE_RESET: byte := 0x02
  const OP_FACTORY_RESET: byte := 0x03
  const OP_UPDATE_COMPLETE: byte := 0x04
  const OP_READ_SENSOR_DATA: byte := 0x10
  const OP_REFRESH_DISPLAY: byte := 0x11
  const OP_DISPLAY_IMAGE: byte := 0x20
  const OP_DISPLAY_TIMED_IMAGE: byte := 0x60
  const OP_LED_CONTROL: byte := 0xB0
  const OP_LED_TIMED_CONTROL: byte := 0xF0

  datatype Source = FromEcp | FromPawr

  datatype Tag = Tag(
    m: Machine,
    e: Elements,
    service: bool,            // ESL_SERVICE_NEEDED_BIT
    busy: bool,
    resp: Resp,
    respNeeded: bool,
    unassociateAfter: bool,   // the notification callback is the one that unassociates
    inFlight: bool,           // such a notification has been sent
    rsp: bytes,               // ecp_rsp_net_buf
    last: nat)                // ecp_rsp_last_tlv_len

  /** What the surroundings contribute to one event: uptime, sensor readings, failing deletions. */
  datatype World = World(u: nat, reading: Reading, undeleted: set<Item>)

  ghost predicate TagOk(t: Tag, c: Config) {
    MachineOk(t.m) && Fitting(t.e, c) && SlotsPending(t.e)
  }

  // ---------- responses ----------

  function BasicByte(t: Tag): byte {
    (if t.service then 1 else 0) + (if t.m.synced then 2 else 0) + (if t.e.activeLed then 4 else 0)
    + (if t.e.pendingLed then 8 else 0) + (if t.e.pendingDisplay then 16 else 0)
  }

  /** The response buffer after one more TLV; over 48 bytes, the last TLV gives way to Capacity Limit. */
  function Accumulate(rsp: bytes, last: nat, tlv: bytes): (bytes, nat) {
    if |rsp| + |tlv| > ESL_SYNC_PKT_PAYLOAD_MAX_LEN then
      ((if last <= |rsp| then rsp[..|rsp| - last] else []) + [OP_ERR, ERR_CAP_LIMIT], 2)
    else
      (rsp + tlv, |tlv|)
  }

  /** ecp_response_handler */
  function Respond(t: Tag, src: Source, reading: Reading): Tag
    requires ReadingOk(reading)
  {
    var s := if t.resp.BasicState? then t.(e := RefreshBasic(t.e)) else t;
    var tlv := Encode(s.resp, BasicByte(s), reading);
    if src == FromPawr then
      var (rsp, last) := Accumulate(s.rsp, s.last, tlv);
      s.(rsp := rsp, last := last)
    else
      s.(rsp := tlv, inFlight := s.inFlight || (s.respNeeded && s.unassociateAfter))
  }

  // ---------- commands ----------

  function UnassociateTag(t: Tag, undeleted: set<Item>): Tag {
    t.(m := Unassociate(t.m, undeleted), e := ResetLeds(t.e))
  }

  function NoImages(e: Elements): Elements {
    e.(imageSizes := seq(|e.imageSizes|, _ => 0))
  }

  /** Commands to sensors, displays and LEDs, and whatever is left. A ping and, with no handler for them, op codes
      whose low nibble is reserved for future use get the Basic State that was set before the switch. */
  function Operate(e: Elements, c: Config, cmd: bytes, u: nat): (Elements, Resp)
    requires Fitting(e, c) && WellFramed(cmd)
  {
    var op := cmd[0];
    if op == OP_READ_SENSOR_DATA then (e, ReadSensor(c, cmd))
    else if op == OP_REFRESH_DISPLAY then DisplayRefresh(e, c, cmd, u)
    else if op == OP_DISPLAY_IMAGE then DisplayImage(e, c, cmd, u)
    else if op == OP_DISPLAY_TIMED_IMAGE then DisplayTimed(e, c, cmd, u)
    else if op == OP_LED_CONTROL then LedControl(e, c, cmd, u)
    else if op == OP_LED_TIMED_CONTROL then LedTimed(e, c, cmd, u)
    else if op == OP_PING || op % 16 != 0 then (e, BasicState)
    else (e, Failed(ERR_INV_OPCODE))
  }

  /** The switch of ecp_command_handler, for a command of the right length to this tag or to all */
  function Execute(t: Tag, c: Config, cmd: bytes, w: World): Tag
    requires Fitting(t.e, c) && WellFramed(cmd)
  {
    var op, toAll := cmd[0], cmd[1] == ESL_ADDR_BROADCAST;
    if op == OP_UNASSOCIATE then
      if toAll then t.(resp := Failed(ERR_RETRY))
      else t.(m := t.m.(synced := false), unassociateAfter := true)
    else if op == OP_SERVICE_RESET then t.(service := false)
    else if op == OP_FACTORY_RESET then
      if t.m.phase == Synchronized then t.(resp := Failed(ERR_INV_STATE))
      else if toAll then t.(resp := Failed(ERR_RETRY))
      else UnassociateTag(t.(e := NoImages(t.e)), w.undeleted).(respNeeded := false)
    else if op == OP_UPDATE_COMPLETE then t.(m := UpdateComplete(t.m))
    else var (e, r) := Operate(t.e, c, cmd, w.u); t.(e := e, resp := r)
  }

  predicate ToMe(t: Tag, id: byte) { id == Low(t.m.addr) || id == ESL_ADDR_BROADCAST }

  /** ecp_command_handler, without vendor-specific support */
  function Command(t: Tag, c: Config, cmd: bytes, src: Source, w: World): Tag
    requires Fitting(t.e, c) && |cmd| >= 2 && ReadingOk(w.reading)
  {
    var s := t.(resp := BasicState, respNeeded := true, unassociateAfter := false);
    if |cmd| != EcpLen(cmd[0]) then Respond(s.(resp := Failed(ERR_INV_PARAMS)), src, w.reading)
    else if cmd[0] % 16 == 15 then Respond(s.(resp := Failed(ERR_INV_OPCODE)), src, w.reading)
    else if !ToMe(t, cmd[1]) then s.(resp := Failed(ERR_INV_PARAMS))
    else if t.busy then Respond(s.(resp := Failed(ERR_RETRY), busy := false), src, w.reading)
    else Respond(Execute(s, c, cmd, w), src, w.reading)
  }

  // ---------- packets ----------

  datatype Walked = Walked(t: Tag, slot: int, dispatched: seq<bytes>)

  /** Readings are numbered by the commands dispatched before. */
  type Readings = nat -> Reading

  ghost predicate ReadingsOk(readings: Readings) { forall k: nat :: ReadingOk(readings(k)) }

  /** One TLV of a packet, at cur: dispatched when it is for this tag or for all. */
  function WalkStep(s: Walked, c: Config, mem: bytes, cur: nat, tlv: int, w: World, readings: Readings): Walked
    requires Fitting(s.t.e, c) && cur + 17 <= |mem| && ReadingsOk(readings)
  {
    var id, cmd := mem[cur + 1], mem[cur..cur + EcpLen(mem[cur])];
    if ToMe(s.t, id) then
      Walked(Command(s.t, c, cmd, FromPawr, w.(reading := readings(|s.dispatched|))),
             if id != ESL_ADDR_BROADCAST then tlv + 1 else s.slot, s.dispatched + [cmd])
    else s
  }

  /** The loop of esl_parse_sync_packet: n payload bytes at the head of mem, the walk standing at cur after
      tlv + 1 TLVs. Bytes past n are whatever memory holds there; a cut last TLV reads into them. */
  function Walk(s: Walked, c: Config, mem: bytes, n: nat, cur: nat, tlv: int, w: World, readings: Readings): Walked
    requires Fitting(s.t.e, c) && |mem| >= n + 17 && ReadingsOk(readings)
    decreases n - cur
  {
    if cur >= n then s
    else
      var next := WalkStep(s, c, mem, cur, tlv, w, readings);
      WalkStepFits(s, c, mem, cur, tlv, w, readings);
      if cur + EcpLen(mem[cur]) <= n then Walk(next, c, mem, n, cur + EcpLen(mem[cur]), tlv + 1, w, readings)
      else next
  }

  lemma WalkStepFits(s: Walked, c: Config, mem: bytes, cur: nat, tlv: int, w: World, readings: Readings)
    requires Fitting(s.t.e, c) && cur + 17 <= |mem| && ReadingsOk(readings)
    ensures var n := WalkStep(s, c, mem, cur, tlv, w, readings).t.e;
            Fitting(n, c) && (SlotsPending(s.t.e) ==> SlotsPending(n))
  {
    hide Command;
    if ToMe(s.t, mem[cur + 1]) {
      CommandKeepsElements(s.t, c, mem[cur..cur + EcpLen(mem[cur])], FromPawr, w.(reading := readings(|s.dispatched|)));
    }
  }

  // ---------- what commands keep ----------

  /** Execute, case by case. */
  lemma ExecuteCases(t: Tag, c: Config, cmd: bytes, w: World)
    requires Fitting(t.e, c) && WellFramed(cmd)
    ensures var (n, op, toAll) := (Execute(t, c, cmd, w), cmd[0], cmd[1] == ESL_ADDR_BROADCAST);
            if op == OP_UNASSOCIATE then
              n == if toAll then t.(resp := Failed(ERR_RETRY))
                   else t.(m := t.m.(synced := false), unassociateAfter := true)
            else if op == OP_SERVICE_RESET then n == t.(service := false)
            else if op == OP_FACTORY_RESET then
              n == if t.m.phase == Synchronized then t.(resp := Failed(ERR_INV_STATE))
                   else if toAll then t.(resp := Failed(ERR_RETRY))
                   else t.(m := Unassociate(t.m, w.undeleted), e := ResetLeds(NoImages(t.e)), respNeeded := false)
            else if op == OP_UPDATE_COMPLETE then n == t.(m := UpdateComplete(t.m))
            else n == t.(e := Operate(t.e, c, cmd, w.u).0, resp := Operate(t.e, c, cmd, w.u).1)
  {
    hide Operate, UpdateComplete, Unassociate, ResetLeds, NoImages, Fitting, EcpLen;
  }

  lemma OperateKeeps(e: Elements, c: Config, cmd: bytes, u: nat)
    requires Fitting(e, c) && WellFramed(cmd)
    ensures var (n, _) := Operate(e, c, cmd, u); Fitting(n, c) && (SlotsPending(e) ==> SlotsPending(n))
  {
    hide SlotsPending, Fitting, LedControl, LedTimed, DisplayImage, DisplayTimed, DisplayRefresh, ReadSensor;
    LedCommandsKeep(e, c, cmd, u);
    DisplayCommandsKeep(e, c, cmd, u);
  }

  lemma ExecuteKeepsElements(t: Tag, c: Config, cmd: bytes, w: World)
    requires Fitting(t.e, c) && WellFramed(cmd)
    ensures var n := Execute(t, c, cmd, w).e; Fitting(n, c) && (SlotsPending(t.e) ==> SlotsPending(n))
  {
    hide SlotsPending, Fitting, Operate, ResetLeds, NoImages, WellFramed, UpdateComplete, Unassociate, Execute;
    ExecuteCases(t, c, cmd, w);
    OperateKeeps(t.e, c, cmd, w.u);
    NoImagesKeeps(t.e, c);
    ResetLedsKeeps(NoImages(t.e), c);
  }

  lemma NoImagesKeeps(e: Elements, c: Config)
    requires Fitting(e, c)
    ensures Fitting(NoImages(e), c) && (SlotsPending(e) ==> SlotsPending(NoImages(e)))
  {
  }

  lemma RespondKeepsElements(t: Tag, c: Config, src: Source, reading: Reading)
    requires Fitting(t.e, c) && ReadingOk(reading)
    ensures var n := Respond(t, src, reading);
            Fitting(n.e, c) && (SlotsPending(t.e) ==> SlotsPending(n.e)) && n.m == t.m
  {
    hide Encode, Accumulate, Fitting, SlotsPending, BasicByte, ReadingOk, RefreshBasic;
    RefreshKeeps(t.e, c);
  }

  /** Commands keep the number of LEDs, displays and images, and every waiting slot scheduled. */
  lemma CommandKeepsElements(t: Tag, c: Config, cmd: bytes, src: Source, w: World)
    requires Fitting(t.e, c) && |cmd| >= 2 && ReadingOk(w.reading)
    ensures var n := Command(t, c, cmd, src, w).e; Fitting(n, c) && (SlotsPending(t.e) ==> SlotsPending(n))
  {
    var s := t.(resp := BasicState, respNeeded := true, unassociateAfter := false);
    hide Respond, Execute, Fitting, SlotsPending;
    if WellFramed(cmd) {
      ExecuteKeepsElements(s, c, cmd, w);
      RespondKeepsElements(Execute(s, c, cmd, w), c, src, w.reading);
    }
    RespondKeepsElements(s.(resp := Failed(ERR_INV_PARAMS)), c, src, w.reading);
    RespondKeepsElements(s.(resp := Failed(ERR_INV_OPCODE)), c, src, w.reading);
    RespondKeepsElements(s.(resp := Failed(ERR_RETRY), busy := false), c, src, w.reading);
  }

  /** esl_parse_sync_packet on a decrypted packet, and the response it hands to the controller. */
  datatype Parsed = Parsed(t: Tag, slot: int, dispatched: seq<bytes>, response: Option<bytes>)

  predicate HeaderOk(t: Tag, plain: bytes, tail: bytes)
    requires |plain| >= 2 && |tail| >= 17
  {
    |plain| - 1 == plain[0] && plain[1] == BT_DATA_ESL && (plain[2..] + tail)[0] == GroupId(t.m.addr)
  }

  function Parse(t: Tag, c: Config, plain: bytes, tail: bytes, w: World, readings: Readings): Parsed
    requires Fitting(t.e, c) && |plain| >= 2 && |tail| >= 17 && ReadingsOk(readings)
  {
    if !HeaderOk(t, plain, tail) then Parsed(t, -1, [], None)
    else
      var r := Walk(Walked(t.(rsp := []), -1, []), c, plain[2..] + tail, |plain| - 2, 1, -1, w, readings);
      Parsed(r.t.(rsp := []), r.slot, r.dispatched, if r.slot == -1 then None else Some(r.t.rsp))
  }
}
