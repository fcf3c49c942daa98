/** Whole runs of a tag: every interleaving of connections, writes, synchronization, packets, timeouts,
    workers and reboots. */
module TagRun {
  import opened Bytes
  import opened Tlv
  import opened Ead
  import opened TagMachine
  import opened Responses
  import opened Elements
  import opened TagRules

  // ---------- a command's effect on the state machine ----------

  predicate Acts(m: Machine, busy: bool, cmd: bytes)
    requires |cmd| >= 2
  {
    && WellFramed(cmd) && cmd[0] % 16 != 15
    && (cmd[1] == Low(m.addr) || cmd[1] == ESL_ADDR_BROADCAST) && !busy
  }

  function OnMachine(m: Machine, busy: bool, cmd: bytes, undeleted: set<Item>): Machine
    requires |cmd| >= 2
  {
    if !Acts(m, busy, cmd) then m
    else if cmd[0] == OP_UPDATE_COMPLETE then UpdateComplete(m)
    else if cmd[1] == ESL_ADDR_BROADCAST then m
    else if cmd[0] == OP_UNASSOCIATE then m.(synced := false)
    else if cmd[0] == OP_FACTORY_RESET then FactoryReset(m, undeleted)
    else m
  }

  /** A busy tag refuses one command that is otherwise fine. */
  function StillBusy(m: Machine, busy: bool, cmd: bytes): bool
    requires |cmd| >= 2
  {
    busy && !Acts(m, false, cmd)
  }

  lemma ExecuteOnMachine(t: Tag, c: Config, cmd: bytes, w: World)
    requires Fitting(t.e, c) && WellFramed(cmd) && Acts(t.m, t.busy, cmd)
    ensures var n := Execute(t, c, cmd, w); n.m == OnMachine(t.m, t.busy, cmd, w.undeleted) && n.busy == t.busy
  {
    hide UpdateComplete, Unassociate, Fitting, NoImages, Operate, Low, EcpLen, Acts, Execute;
    ExecuteCases(t, c, cmd, w);
  }

  lemma RespondOnMachine(t: Tag, src: Source, reading: Reading)
    requires ReadingOk(reading)
    ensures var n := Respond(t, src, reading); n.m == t.m && n.busy == t.busy
  {
    hide Encode, Accumulate, RefreshBasic, BasicByte;
  }

  lemma CommandOnMachine(t: Tag, c: Config, cmd: bytes, src: Source, w: World)
    requires Fitting(t.e, c) && |cmd| >= 2 && ReadingOk(w.reading)
    ensures var n := Command(t, c, cmd, src, w);
            n.m == OnMachine(t.m, t.busy, cmd, w.undeleted) && n.busy == StillBusy(t.m, t.busy, cmd)
  {
    hide Respond, Execute, Fitting;
    var s := t.(resp := BasicState, respNeeded := true, unassociateAfter := false);
    RespondOnMachine(s.(resp := Failed(ERR_INV_PARAMS)), src, w.reading);
    RespondOnMachine(s.(resp := Failed(ERR_INV_OPCODE)), src, w.reading);
    RespondOnMachine(s.(resp := Failed(ERR_RETRY), busy := false), src, w.reading);
    if Acts(t.m, t.busy, cmd) {
      ExecuteOnMachine(s, c, cmd, w);
      RespondOnMachine(Execute(s, c, cmd, w), src, w.reading);
    }
  }

  /** The command at cur, whole even when the payload cuts it. */
  function CommandAt(mem: bytes, cur: nat): (cmd: bytes)
    requires cur + 17 <= |mem|
    ensures WellFramed(cmd) && cmd[0] == mem[cur] && cmd[1] == mem[cur + 1]
  {
    mem[cur..cur + EcpLen(mem[cur])]
  }

  lemma WalkStepOnMachine(s: Walked, c: Config, mem: bytes, cur: nat, tlv: int, w: World, readings: Readings)
    requires Fitting(s.t.e, c) && cur + 17 <= |mem| && ReadingsOk(readings)
    ensures var n := WalkStep(s, c, mem, cur, tlv, w, readings).t;
            && n.m == OnMachine(s.t.m, s.t.busy, CommandAt(mem, cur), w.undeleted)
            && n.busy == StillBusy(s.t.m, s.t.busy, CommandAt(mem, cur))
  {
    hide Command;
    CommandOnMachine(s.t, c, CommandAt(mem, cur), FromPawr, w.(reading := readings(|s.dispatched|)));
    hide OnMachine;
    assert !ToMe(s.t, mem[cur + 1]) ==> OnMachine(s.t.m, s.t.busy, CommandAt(mem, cur), w.undeleted) == s.t.m by {
      NotMine(s.t.m, s.t.busy, CommandAt(mem, cur), w.undeleted);
    }
  }

  lemma NotMine(m: Machine, busy: bool, cmd: bytes, undeleted: set<Item>)
    requires |cmd| >= 2
    ensures !Acts(m, busy, cmd) ==> OnMachine(m, busy, cmd, undeleted) == m
  {
  }

  lemma OnMachineKeepsOk(m: Machine, busy: bool, cmd: bytes, undeleted: set<Item>)
    requires MachineOk(m) && |cmd| >= 2
    ensures MachineOk(OnMachine(m, busy, cmd, undeleted))
  {
    hide MachineOk, Acts, UpdateComplete, FactoryReset;
    HappeningKeepsOk(m, UpdateCompleted);
    HappeningKeepsOk(m, SyncBitCleared);
    HappeningKeepsOk(m, ResetBy(undeleted));
  }

  // ---------- packets that leave the tag stranded ----------

  /** Does the packet make a synchronized tag carry out a factory reset after an update complete? The
      update complete moves it out of Synchronized, where a factory reset would be refused. */
  predicate Strands(mem: bytes, n: nat, cur: nat, low: byte, busy: bool, updated: bool)
    requires |mem| >= n + 17
    decreases n - cur
  {
    cur < n &&
    var op, id := mem[cur], mem[cur + 1];
    var taken := op % 16 != 15 && (id == low || id == ESL_ADDR_BROADCAST);
    var acts := taken && !busy;
    (acts && updated && op == OP_FACTORY_RESET && id != ESL_ADDR_BROADCAST)
    || (cur + EcpLen(op) <= n &&
        Strands(mem, n, cur + EcpLen(op), low, busy && !taken, updated || (acts && op == OP_UPDATE_COMPLETE)))
  }

  lemma WalkEnds(s: Walked, c: Config, mem: bytes, n: nat, cur: nat, tlv: int, w: World, readings: Readings)
    requires Fitting(s.t.e, c) && |mem| >= n + 17 && ReadingsOk(readings)
    ensures cur >= n ==> Walk(s, c, mem, n, cur, tlv, w, readings) == s
  {
  }

  /** What an unassociate leaves of the provisioning: no item, no address and keys of zeros. */
  ghost predicate Forgotten(m: Machine) {
    MachineOk(m) && !Provisioned(m) && m.addr == UNASSOCIATED_ADDR && m.apKey == m.rspKey == NoKey()
  }

  lemma {:induction false} ForgottenStays(s: Walked, c: Config, mem: bytes, n: nat, cur: nat, tlv: int, w: World,
                                          readings: Readings)
    requires Fitting(s.t.e, c) && |mem| >= n + 17 && ReadingsOk(readings)
    requires Forgotten(s.t.m)
    ensures Forgotten(Walk(s, c, mem, n, cur, tlv, w, readings).t.m)
    decreases n - cur
  {
    hide Walk, WalkStep, Fitting, OnMachine, CommandAt, ReadingsOk, Forgotten, StillBusy;
    WalkEnds(s, c, mem, n, cur, tlv, w, readings);
    if cur < n {
      var cmd, next := CommandAt(mem, cur), WalkStep(s, c, mem, cur, tlv, w, readings);
      WalkUnfolds(s, c, mem, n, cur, tlv, w, readings);
      WalkStepOnMachine(s, c, mem, cur, tlv, w, readings);
      ForgottenStep(s.t.m, s.t.busy, cmd, w.undeleted);
      if cur + |cmd| <= n {
        ForgottenStays(next, c, mem, n, cur + |cmd|, tlv + 1, w, readings);
      }
    }
  }

  lemma ForgottenStep(m: Machine, busy: bool, cmd: bytes, undeleted: set<Item>)
    requires |cmd| >= 2 && Forgotten(m)
    ensures Forgotten(OnMachine(m, busy, cmd, undeleted))
  {
    hide MachineOk, NoKey, Surviving, Acts;
    OnMachineKeepsOk(m, busy, cmd, undeleted);
    NoUpdate(m);
  }

  /** Without all four items an update complete only sets its flag. */
  lemma NoUpdate(m: Machine)
    requires MachineOk(m)
    ensures !Provisioned(m) ==> UpdateComplete(m) == m.(complete := true)
  {
  }

  ghost predicate InPacket(m: Machine, updated: bool) {
    MachineOk(m) && Provisioned(m) && m.phase == (if updated then Configured else Synchronized)
  }

  predicate SameIdentity(a: Machine, b: Machine) { a.addr == b.addr && a.apKey == b.apKey && a.rspKey == b.rspKey }

  /** The command that strands a tag which has already been told that the update is complete. */
  predicate Resets(m: Machine, busy: bool, cmd: bytes)
    requires |cmd| >= 2
  {
    Acts(m, busy, cmd) && cmd[0] == OP_FACTORY_RESET && cmd[1] != ESL_ADDR_BROADCAST
  }

  lemma WalkUnfolds(s: Walked, c: Config, mem: bytes, n: nat, cur: nat, tlv: int, w: World, readings: Readings)
    requires Fitting(s.t.e, c) && |mem| >= n + 17 && ReadingsOk(readings) && cur < n
    ensures var (cmd, next) := (CommandAt(mem, cur), WalkStep(s, c, mem, cur, tlv, w, readings));
            && Fitting(next.t.e, c)
            && Walk(s, c, mem, n, cur, tlv, w, readings) ==
                 if cur + |cmd| <= n then Walk(next, c, mem, n, cur + |cmd|, tlv + 1, w, readings) else next
  {
    hide WalkStep, Fitting, SlotsPending, ReadingsOk;
    WalkStepFits(s, c, mem, cur, tlv, w, readings);
  }

  lemma StrandsUnfolds(m: Machine, mem: bytes, n: nat, cur: nat, busy: bool, updated: bool)
    requires |mem| >= n + 17 && cur < n
    ensures var cmd := CommandAt(mem, cur);
            Strands(mem, n, cur, Low(m.addr), busy, updated) <==>
              ((Resets(m, busy, cmd) && updated)
               || (cur + |cmd| <= n && Strands(mem, n, cur + |cmd|, Low(m.addr), StillBusy(m, busy, cmd),
                                               updated || (Acts(m, busy, cmd) && cmd[0] == OP_UPDATE_COMPLETE))))
  {
  }

  /** A walk unprovisions the tag exactly when the packet strands it, and then forgets address and keys;
      otherwise they stay. */
  lemma {:induction false} WalkStrands(s: Walked, c: Config, mem: bytes, n: nat, cur: nat, tlv: int, w: World,
                                       readings: Readings, updated: bool)
    requires Fitting(s.t.e, c) && |mem| >= n + 17 && ReadingsOk(readings)
    requires InPacket(s.t.m, updated)
    ensures var r := Walk(s, c, mem, n, cur, tlv, w, readings).t;
            && MachineOk(r.m)
            && (Provisioned(r.m) <==> !Strands(mem, n, cur, Low(s.t.m.addr), s.t.busy, updated))
            && (if Provisioned(r.m) then SameIdentity(r.m, s.t.m) else Forgotten(r.m))
    decreases n - cur
  {
    hide Walk, Strands, WalkStep, Fitting, MachineOk, OnMachine, CommandAt, ReadingsOk, Provisioned, Acts, StillBusy;
    hide Resets, Forgotten;
    WalkEnds(s, c, mem, n, cur, tlv, w, readings);
    if cur < n {
      var m, busy, cmd, next := s.t.m, s.t.busy, CommandAt(mem, cur), WalkStep(s, c, mem, cur, tlv, w, readings);
      WalkUnfolds(s, c, mem, n, cur, tlv, w, readings);
      StrandsUnfolds(m, mem, n, cur, busy, updated);
      WalkStepOnMachine(s, c, mem, cur, tlv, w, readings);
      OnMachineKeepsOk(m, busy, cmd, w.undeleted);
      if Resets(m, busy, cmd) && updated {
        ResetForgets(m, busy, cmd, w.undeleted);
        if cur + |cmd| <= n {
          ForgottenStays(next, c, mem, n, cur + |cmd|, tlv + 1, w, readings);
          ForgottenIs(Walk(s, c, mem, n, cur, tlv, w, readings).t.m);
        }
        ForgottenIs(next.t.m);
      } else {
        var updated' := updated || (Acts(m, busy, cmd) && cmd[0] == OP_UPDATE_COMPLETE);
        StepInPacket(m, busy, cmd, w.undeleted, updated);
        if cur + |cmd| <= n {
          WalkStrands(next, c, mem, n, cur + |cmd|, tlv + 1, w, readings, updated');
        }
      }
    } else {
      NothingStrands(mem, n, cur, Low(s.t.m.addr), s.t.busy, updated);
      InPacketIs(s.t.m, updated);
    }
  }

  lemma ForgottenIs(m: Machine)
    requires Forgotten(m)
    ensures MachineOk(m) && !Provisioned(m)
  {
  }

  lemma InPacketIs(m: Machine, updated: bool)
    requires InPacket(m, updated)
    ensures MachineOk(m) && Provisioned(m)
  {
  }

  lemma NothingStrands(mem: bytes, n: nat, cur: nat, low: byte, busy: bool, updated: bool)
    requires |mem| >= n + 17 && cur >= n
    ensures !Strands(mem, n, cur, low, busy, updated)
  {
  }

  lemma ResetForgets(m: Machine, busy: bool, cmd: bytes, undeleted: set<Item>)
    requires |cmd| >= 2 && Resets(m, busy, cmd) && m.phase != Synchronized && MachineOk(m)
    ensures Forgotten(OnMachine(m, busy, cmd, undeleted))
  {
    hide Acts, NoKey, Surviving, MachineOk;
    OnMachineKeepsOk(m, busy, cmd, undeleted);
  }

  lemma StepInPacket(m: Machine, busy: bool, cmd: bytes, undeleted: set<Item>, updated: bool)
    requires InPacket(m, updated) && |cmd| >= 2
    requires !(Resets(m, busy, cmd) && updated)
    ensures var n := OnMachine(m, busy, cmd, undeleted);
            InPacket(n, updated || (Acts(m, busy, cmd) && cmd[0] == OP_UPDATE_COMPLETE)) && SameIdentity(n, m)
  {
    hide Unassociate;
    OnMachineKeepsOk(m, busy, cmd, undeleted);
  }
}
