/** A packet on its way from the access point to a tag and the response on its way back. */
module Packets {
  import opened Bytes
  import opened Tlv
  import opened Ead
  import opened TagMachine
  import opened Responses
  import opened Elements
  import opened TagRules
  import opened TagRun
  import opened TagEvents
  import opened Accumulator
  import ApSync

  /** The commands for the tag with this ESL ID, or for all. */
  function Mine(cmds: seq<bytes>, low: byte): (mine: seq<bytes>)
    requires AllWellFramed(cmds)
    ensures AllWellFramed(mine)
  {
    if cmds == [] then []
    else
      assert cmds[0] in cmds;
      (if cmds[0][1] == low || cmds[0][1] == ESL_ADDR_BROADCAST then [cmds[0]] else []) + Mine(cmds[1..], low)
  }

  /** Index, counted from `base`, of the last command to this ESL ID; `none` when there is none. */
  function LastTo(cmds: seq<bytes>, low: byte, base: nat, none: int): int
    requires AllWellFramed(cmds)
    decreases |cmds|
  {
    if cmds == [] then none
    else
      assert cmds[0] in cmds;
      LastTo(cmds[1..], low, base + 1, if cmds[0][1] == low then base else none)
  }

  /** The commands up to the one that resets the tag after an update complete, in most packets all of them. */
  function Ahead(low: byte, busy: bool, updated: bool, cmds: seq<bytes>): (front: seq<bytes>)
    requires AllWellFramed(cmds)
    ensures AllWellFramed(front)
    decreases |cmds|
  {
    if cmds == [] then []
    else
      assert cmds[0] in cmds;
      var op, id := cmds[0][0], cmds[0][1];
      var taken := op % 16 != 15 && (id == low || id == ESL_ADDR_BROADCAST);
      var acts := taken && !busy;
      if acts && updated && op == OP_FACTORY_RESET && id != ESL_ADDR_BROADCAST then [cmds[0]]
      else [cmds[0]] + Ahead(low, busy && !taken, updated || (acts && op == OP_UPDATE_COMPLETE), cmds[1..])
  }

  /** The commands behind it. */
  function Behind(low: byte, busy: bool, updated: bool, cmds: seq<bytes>): (rest: seq<bytes>)
    requires AllWellFramed(cmds)
    ensures |Ahead(low, busy, updated, cmds)| + |rest| == |cmds|
    ensures Ahead(low, busy, updated, cmds) + rest == cmds && AllWellFramed(rest)
    decreases |cmds|
  {
    AheadIsPrefix(low, busy, updated, cmds);
    cmds[|Ahead(low, busy, updated, cmds)|..]
  }

  lemma {:induction false} AheadIsPrefix(low: byte, busy: bool, updated: bool, cmds: seq<bytes>)
    requires AllWellFramed(cmds)
    ensures Ahead(low, busy, updated, cmds) <= cmds
    decreases |cmds|
  {
    if cmds != [] {
      assert cmds[0] in cmds;
      var op, id := cmds[0][0], cmds[0][1];
      var taken := op % 16 != 15 && (id == low || id == ESL_ADDR_BROADCAST);
      var acts := taken && !busy;
      assert cmds == [cmds[0]] + cmds[1..];
      AheadIsPrefix(low, busy && !taken, updated || (acts && op == OP_UPDATE_COMPLETE), cmds[1..]);
    }
  }

  // ---------- the walk over a well-framed payload ----------

  /** Dispatch with the address that is in force at each command. */
  function Dispatches(m: Machine, busy: bool, cmds: seq<bytes>, undeleted: set<Item>): seq<bytes>
    requires AllWellFramed(cmds)
    decreases |cmds|
  {
    if cmds == [] then []
    else
      assert cmds[0] in cmds;
      var id := cmds[0][1];
      (if id == Low(m.addr) || id == ESL_ADDR_BROADCAST then [cmds[0]] else [])
      + Dispatches(OnMachine(m, busy, cmds[0], undeleted), StillBusy(m, busy, cmds[0]), cmds[1..], undeleted)
  }

  function SlotOf(m: Machine, busy: bool, cmds: seq<bytes>, undeleted: set<Item>, base: nat, slot: int): int
    requires AllWellFramed(cmds)
    decreases |cmds|
  {
    if cmds == [] then slot
    else
      assert cmds[0] in cmds;
      var id := cmds[0][1];
      SlotOf(OnMachine(m, busy, cmds[0], undeleted), StillBusy(m, busy, cmds[0]), cmds[1..], undeleted, base + 1,
             if id == Low(m.addr) && id != ESL_ADDR_BROADCAST then base else slot)
  }

  lemma Head(mem: bytes, n: nat, cur: nat, cmds: seq<bytes>)
    requires |mem| >= n + 17 && cur <= n && AllWellFramed(cmds) && mem[cur..n] == Flat(cmds) && cmds != []
    ensures cur < n && CommandAt(mem, cur) == cmds[0]
            && cur + |cmds[0]| <= n && mem[cur + |cmds[0]|..n] == Flat(cmds[1..]) && AllWellFramed(cmds[1..])
  {
    hide AllWellFramed;
    Tail(cmds);
    var head, rest := cmds[0], Flat(cmds[1..]);
    SplitSlice(mem, cur, n, head, rest);
  }

  lemma SplitSlice(mem: bytes, cur: nat, n: nat, head: bytes, rest: bytes)
    requires cur <= n <= |mem| && mem[cur..n] == head + rest && head != []
    ensures cur + |head| <= n && mem[cur] == head[0] && mem[cur..cur + |head|] == head && mem[cur + |head|..n] == rest
  {
    assert mem[cur..n][..|head|] == head && mem[cur..n][|head|..] == rest;
    assert mem[cur..n][0] == mem[cur];
  }

  lemma {:induction false} WalkIsDispatch(s: Walked, c: Config, mem: bytes, n: nat, cur: nat, tlv: int, w: World,
                                          readings: Readings, cmds: seq<bytes>)
    requires Fitting(s.t.e, c) && |mem| >= n + 17 && ReadingsOk(readings)
    requires cur <= n && tlv >= -1 && AllWellFramed(cmds) && mem[cur..n] == Flat(cmds)
    ensures var r := Walk(s, c, mem, n, cur, tlv, w, readings);
            && r.dispatched == s.dispatched + Dispatches(s.t.m, s.t.busy, cmds, w.undeleted)
            && r.slot == SlotOf(s.t.m, s.t.busy, cmds, w.undeleted, tlv + 1, s.slot)
    decreases |cmds|
  {
    hide Walk, Fitting, OnMachine, CommandAt, ReadingsOk, StillBusy, AllWellFramed, Flat, Command;
    WalkEnds(s, c, mem, n, cur, tlv, w, readings);
    NothingFlat(cmds);
    if cmds != [] {
      Head(mem, n, cur, cmds);
      var next := WalkStep(s, c, mem, cur, tlv, w, readings);
      WalkUnfolds(s, c, mem, n, cur, tlv, w, readings);
      WalkStepOnMachine(s, c, mem, cur, tlv, w, readings);
      StepDispatches(s, c, mem, cur, tlv, w, readings);
      hide WalkStep;
      WalkIsDispatch(next, c, mem, n, cur + |cmds[0]|, tlv + 1, w, readings, cmds[1..]);
    }
  }

  lemma NothingFlat(cmds: seq<bytes>)
    requires AllWellFramed(cmds)
    ensures Flat(cmds) == [] <==> cmds == []
  {
    if cmds != [] { assert cmds[0] in cmds; }
  }

  lemma StepDispatches(s: Walked, c: Config, mem: bytes, cur: nat, tlv: int, w: World, readings: Readings)
    requires Fitting(s.t.e, c) && cur + 17 <= |mem| && ReadingsOk(readings)
    ensures var (n, cmd) := (WalkStep(s, c, mem, cur, tlv, w, readings), CommandAt(mem, cur));
            var mine := cmd[1] == Low(s.t.m.addr) || cmd[1] == ESL_ADDR_BROADCAST;
            && n.dispatched == s.dispatched + (if mine then [cmd] else [])
            && n.slot == if cmd[1] == Low(s.t.m.addr) && cmd[1] != ESL_ADDR_BROADCAST then tlv + 1 else s.slot
  {
    hide Command, Fitting;
  }

  // ---------- lists of commands ----------

  lemma {:induction false} MineMembers(cmds: seq<bytes>, low: byte)
    requires AllWellFramed(cmds)
    ensures forall t :: t in Mine(cmds, low) <==> t in cmds && (t[1] == low || t[1] == ESL_ADDR_BROADCAST)
  {
    if cmds != [] {
      assert forall t :: t in cmds <==> t == cmds[0] || t in cmds[1..];
      MineMembers(cmds[1..], low);
    }
  }

  lemma {:induction false} MineJoins(a: seq<bytes>, b: seq<bytes>, low: byte)
    requires AllWellFramed(a) && AllWellFramed(b)
    ensures AllWellFramed(a + b) && Mine(a + b, low) == Mine(a, low) + Mine(b, low)
  {
    if a == [] {
      assert a + b == b;
    } else {
      assert forall t | t in a[1..] :: t in a;
      MineJoins(a[1..], b, low);
      assert (a + b)[0] == a[0] && (a + b)[1..] == a[1..] + b;
    }
  }

  /** Two tags are dispatched the same commands exactly when no command is to either of them. */
  lemma {:induction false} MineAlikeIff(cmds: seq<bytes>, low: byte, other: byte)
    requires AllWellFramed(cmds) && low != other && low != ESL_ADDR_BROADCAST && other != ESL_ADDR_BROADCAST
    ensures Mine(cmds, low) == Mine(cmds, other) <==> forall t | t in cmds :: t[1] != low && t[1] != other
  {
    MineMembers(cmds, low);
    MineMembers(cmds, other);
    if forall t | t in cmds :: t[1] != low && t[1] != other {
      MineAlike(cmds, low, other);
    } else {
      var t :| t in cmds && (t[1] == low || t[1] == other);
      assert t in Mine(cmds, low) <==> t !in Mine(cmds, other);
    }
  }

  lemma {:induction false} MineAlike(cmds: seq<bytes>, low: byte, other: byte)
    requires AllWellFramed(cmds) && forall t | t in cmds :: t[1] != low && t[1] != other
    ensures Mine(cmds, low) == Mine(cmds, other)
  {
    if cmds != [] {
      assert cmds[0] in cmds && forall t | t in cmds[1..] :: t in cmds;
      MineAlike(cmds[1..], low, other);
    }
  }

  // ---------- dispatch with a steady address ----------

  lemma ResetStays(m: Machine, busy: bool, cmd: bytes, undeleted: set<Item>)
    requires |cmd| >= 2 && MachineOk(m) && !Provisioned(m) && m.addr == UNASSOCIATED_ADDR
    ensures var n := OnMachine(m, busy, cmd, undeleted); MachineOk(n) && !Provisioned(n) && n.addr == UNASSOCIATED_ADDR
  {
    OnMachineKeepsOk(m, busy, cmd, undeleted);
    hide MachineOk;
  }

  lemma Tail(cmds: seq<bytes>)
    requires AllWellFramed(cmds) && cmds != []
    ensures AllWellFramed(cmds[1..]) && WellFramed(cmds[0])
    ensures forall t | t in cmds[1..] :: t in cmds
  {
    assert cmds[0] in cmds;
  }

  lemma {:induction false} DispatchesReset(m: Machine, busy: bool, cmds: seq<bytes>, undeleted: set<Item>, base: nat,
                                           slot: int)
    requires AllWellFramed(cmds)
    requires MachineOk(m) && !Provisioned(m) && m.addr == UNASSOCIATED_ADDR
    ensures Dispatches(m, busy, cmds, undeleted) == Mine(cmds, 0)
    ensures SlotOf(m, busy, cmds, undeleted, base, slot) == LastTo(cmds, 0, base, slot)
    decreases |cmds|
  {
    hide OnMachine, StillBusy, MachineOk, Provisioned, AllWellFramed;
    if cmds != [] {
      Tail(cmds);
      ResetStays(m, busy, cmds[0], undeleted);
      DispatchesReset(OnMachine(m, busy, cmds[0], undeleted), StillBusy(m, busy, cmds[0]), cmds[1..], undeleted,
                      base + 1,
                      if cmds[0][1] == 0 then base else slot);
    }
  }

  /** As long as the tag is not reset it is dispatched its own; behind the reset, what is for ESL ID 0. */
  lemma {:induction false} DispatchesOwn(m: Machine, busy: bool, cmds: seq<bytes>, undeleted: set<Item>, base: nat,
                                         slot: int,
                                         updated: bool)
    requires AllWellFramed(cmds) && InPacket(m, updated)
    ensures var low := Low(m.addr);
            var front, rest := Ahead(low, busy, updated, cmds), Behind(low, busy, updated, cmds);
            && Dispatches(m, busy, cmds, undeleted) == Mine(front, low) + Mine(rest, 0)
            && SlotOf(m, busy, cmds, undeleted, base, slot) ==
              LastTo(rest, 0, base + |front|, LastTo(front, low, base, slot))
    decreases |cmds|
  {
    hide OnMachine, StillBusy, InPacket, AllWellFramed, Acts, Resets, Ahead, Behind, Dispatches, SlotOf, Mine, LastTo;
    hide Low;
    OwnId(m, updated);
    var low := Low(m.addr);
    EmptyLists(m, busy, undeleted, base, slot, low, updated);
    if cmds != [] {
      Tail(cmds);
      var cmd, slot' := cmds[0], if cmds[0][1] == low then base else slot;
      var next, busy' := OnMachine(m, busy, cmd, undeleted), StillBusy(m, busy, cmd);
      BehindUnfolds(m, busy, updated, cmds);
      OwnUnfolds(m, busy, cmds, undeleted, base, slot);
      if Resets(m, busy, cmd) && updated {
        ResetHappens(m, busy, cmd, undeleted);
        DispatchesReset(next, busy', cmds[1..], undeleted, base + 1, slot');
        FrontUnfolds(cmd, [], low, base, slot);
        assert [cmd] + [] == [cmd];
        EmptyLists(m, busy, undeleted, base + 1, slot', low, updated);
      } else {
        var updated' := updated || (Acts(m, busy, cmd) && cmd[0] == OP_UPDATE_COMPLETE);
        StepInPacket(m, busy, cmd, undeleted, updated);
        DispatchesOwn(next, busy', cmds[1..], undeleted, base + 1, slot', updated');
        FrontUnfolds(cmd, Ahead(low, busy', updated', cmds[1..]), low, base, slot);
      }
    }
  }

  lemma OwnId(m: Machine, updated: bool)
    ensures InPacket(m, updated) ==> Low(m.addr) != ESL_ADDR_BROADCAST
    ensures MachineOk(m) && m.phase == Synchronized ==> InPacket(m, false)
  {
  }

  lemma EmptyLists(m: Machine, busy: bool, undeleted: set<Item>, base: nat, slot: int, low: byte, updated: bool)
    ensures AllWellFramed([]) && Dispatches(m, busy, [], undeleted) == []
            && SlotOf(m, busy, [], undeleted, base, slot) == slot
    ensures Mine([], low) == Mine([], 0) == [] && LastTo([], low, base, slot) == LastTo([], 0, base, slot) == slot
    ensures Ahead(low, busy, updated, []) == Behind(low, busy, updated, []) == []
  {
  }

  lemma BehindUnfolds(m: Machine, busy: bool, updated: bool, cmds: seq<bytes>)
    requires AllWellFramed(cmds) && cmds != []
    ensures AllWellFramed(cmds[1..]) && |cmds[0]| >= 2
    ensures var (low, cmd) := (Low(m.addr), cmds[0]);
            var busy' := StillBusy(m, busy, cmd);
            var updated' := updated || (Acts(m, busy, cmd) && cmd[0] == OP_UPDATE_COMPLETE);
            if Resets(m, busy, cmd) && updated then
              Ahead(low, busy, updated, cmds) == [cmd] && Behind(low, busy, updated, cmds) == cmds[1..]
            else
              && Ahead(low, busy, updated, cmds) == [cmd] + Ahead(low, busy', updated', cmds[1..])
              && Behind(low, busy, updated, cmds) == Behind(low, busy', updated', cmds[1..])
  {
    hide Low;
    Tail(cmds);
    assert cmds == [cmds[0]] + cmds[1..];
  }

  lemma OwnUnfolds(m: Machine, busy: bool, cmds: seq<bytes>, undeleted: set<Item>, base: nat, slot: int)
    requires AllWellFramed(cmds) && cmds != [] && Low(m.addr) != ESL_ADDR_BROADCAST
    ensures AllWellFramed(cmds[1..]) && |cmds[0]| >= 2
    ensures var (low, cmd) := (Low(m.addr), cmds[0]);
            var (next, busy') := (OnMachine(m, busy, cmd, undeleted), StillBusy(m, busy, cmd));
            && Dispatches(m, busy, cmds, undeleted) ==
                 (if cmd[1] == low || cmd[1] == ESL_ADDR_BROADCAST then [cmd] else [])
                 + Dispatches(next, busy', cmds[1..], undeleted)
            && SlotOf(m, busy, cmds, undeleted, base, slot) ==
                 SlotOf(next, busy', cmds[1..], undeleted, base + 1, if cmd[1] == low then base else slot)
  {
    hide OnMachine, StillBusy, Low;
    Tail(cmds);
  }

  lemma FrontUnfolds(cmd: bytes, front: seq<bytes>, low: byte, base: nat, slot: int)
    requires WellFramed(cmd) && AllWellFramed(front)
    ensures AllWellFramed([cmd] + front)
    ensures Mine([cmd] + front, low) ==
              (if cmd[1] == low || cmd[1] == ESL_ADDR_BROADCAST then [cmd] else []) + Mine(front, low)
    ensures LastTo([cmd] + front, low, base, slot) == LastTo(front, low, base + 1, if cmd[1] == low then base else slot)
  {
    assert ([cmd] + front)[1..] == front;
  }

  lemma ResetHappens(m: Machine, busy: bool, cmd: bytes, undeleted: set<Item>)
    requires |cmd| >= 2 && InPacket(m, true) && Resets(m, busy, cmd)
    ensures var n := OnMachine(m, busy, cmd, undeleted); MachineOk(n) && !Provisioned(n) && n.addr == UNASSOCIATED_ADDR
  {
    OnMachineKeepsOk(m, busy, cmd, undeleted);
  }

  lemma {:induction false} LastToJoins(a: seq<bytes>, b: seq<bytes>, low: byte, base: nat, none: int)
    requires AllWellFramed(a) && AllWellFramed(b)
    ensures AllWellFramed(a + b) && LastTo(a + b, low, base, none) ==
            LastTo(b, low, base + |a|, LastTo(a, low, base, none))
    decreases |a|
  {
    if a == [] {
      assert a + b == b;
    } else {
      Tail(a);
      LastToJoins(a[1..], b, low, base + 1, if a[0][1] == low then base else none);
      assert (a + b)[0] == a[0] && (a + b)[1..] == a[1..] + b;
    }
  }

  lemma {:induction false} NoneTo(cmds: seq<bytes>, low: byte, base: nat, none: int)
    requires AllWellFramed(cmds) && forall t | t in cmds :: t[1] != low
    ensures LastTo(cmds, low, base, none) == none
    decreases |cmds|
  {
    if cmds != [] {
      assert cmds[0] in cmds;
      Tail(cmds);
      NoneTo(cmds[1..], low, base + 1, none);
    }
  }

  /** LastTo is what its name says. */
  lemma {:induction false} LastToIsLast(cmds: seq<bytes>, low: byte, base: nat, none: int)
    requires AllWellFramed(cmds)
    ensures forall t | t in cmds :: |t| >= 2
    ensures var s := LastTo(cmds, low, base, none);
            || (s == none && forall t | t in cmds :: t[1] != low)
            || (base <= s < base + |cmds| && cmds[s - base] in cmds && cmds[s - base][1] == low
                && forall j | s - base < j < |cmds| :: cmds[j] in cmds && cmds[j][1] != low)
    decreases |cmds|
  {
    if cmds != [] {
      Tail(cmds);
      LastToIsLast(cmds[1..], low, base + 1, if cmds[0][1] == low then base else none);
      assert forall t | t in cmds :: t == cmds[0] || t in cmds[1..];
    }
  }

  // ---------- downlink ----------

  /** The commands of one packet as the access point puts them on the air, behind the group. */
  function Payload(group: byte, cmds: seq<bytes>): bytes { [group] + Flat(cmds) }

  /** Composed, opened and parsed, the commands of a packet are dispatched to a tag of the group exactly when
      they are for it or for all, unchanged and in order, and the response slot is the index of the last one
      to the tag alone: if and only if no command behind a reset is for the address lost or the one gained. */
  lemma {:induction false} DownlinkRoundTrip(x: Cipher, t: Tag, c: Config, cmds: seq<bytes>, randomizer: bytes,
                                             tail: bytes, w: World,
                          readings: Readings)
    requires Sound(x) && AllWellFramed(cmds) && |Payload(GroupId(t.m.addr), cmds)| <= ESL_SYNC_PKT_PAYLOAD_MAX_LEN
    requires Fitting(t.e, c) && ReadingsOk(readings) && |tail| >= 17
    requires MachineOk(t.m) && t.m.phase == Synchronized
    ensures var (payload, low) := (Payload(GroupId(t.m.addr), cmds), Low(t.m.addr));
            var air := Frame(x, t.m.apKey, randomizer, payload);
            && |air| == |payload| + 13 && Opened(x, t.m.apKey, air) == Some(Plain(payload))
            && var r := Parse(t, c, Plain(payload), tail, w, readings);
               var rest := Behind(low, t.busy, false, cmds);
               && (forall u | u in rest :: |u| >= 2)
               && (r.dispatched == Mine(cmds, low) <==> low == 0 || forall u | u in rest :: u[1] != low && u[1] != 0)
               && (r.dispatched == Mine(cmds, low) ==> r.slot == LastTo(cmds, low, 0, -1))
  {
    hide Fitting, ReadingsOk, MachineOk, InPacket, Parse, Payload, Ahead, Behind, Mine, LastTo, AllWellFramed;
    hide Dispatches, SlotOf, Low;
    hide Frame, Sound, Plain, Opened, GroupId;
    var (payload, low) := (Payload(GroupId(t.m.addr), cmds), Low(t.m.addr));
    FrameOpens(x, t.m.apKey, randomizer, payload);
    ParseIsDispatch(t, c, cmds, tail, w, readings);
    OwnId(t.m, false);
    DispatchesOwn(t.m, t.busy, cmds, w.undeleted, 0, -1, false);
    DispatchIff(Ahead(low, t.busy, false, cmds), Behind(low, t.busy, false, cmds), low);
  }

  lemma ParseIsDispatch(t: Tag, c: Config, cmds: seq<bytes>, tail: bytes, w: World, readings: Readings)
    requires AllWellFramed(cmds) && |Payload(GroupId(t.m.addr), cmds)| <= ESL_SYNC_PKT_PAYLOAD_MAX_LEN
    requires Fitting(t.e, c) && ReadingsOk(readings) && |tail| >= 17
    ensures var r := Parse(t, c, Plain(Payload(GroupId(t.m.addr), cmds)), tail, w, readings);
            && r.dispatched == Dispatches(t.m, t.busy, cmds, w.undeleted)
            && r.slot == SlotOf(t.m, t.busy, cmds, w.undeleted, 0, -1)
  {
    hide Fitting, ReadingsOk, Walk, AllWellFramed, Flat, Dispatches, SlotOf, Low;
    var payload, start := Payload(GroupId(t.m.addr), cmds), Walked(t.(rsp := []), -1, []);
    var plain := Plain(payload);
    var mem, n := plain[2..] + tail, |plain| - 2;
    assert mem[0] == payload[0] && mem[1..n] == Flat(cmds);
    WalkIsDispatch(start, c, mem, n, 1, -1, w, readings, cmds);
    assert HeaderOk(t, plain, tail);
  }

  lemma DispatchIff(front: seq<bytes>, rest: seq<bytes>, low: byte)
    requires AllWellFramed(front) && AllWellFramed(rest) && low != ESL_ADDR_BROADCAST
    ensures AllWellFramed(front + rest) && forall u | u in rest :: |u| >= 2
    ensures var kept := low == 0 || forall u | u in rest :: u[1] != low && u[1] != 0;
            && (Mine(front, low) + Mine(rest, 0) == Mine(front + rest, low) <==> kept)
            && (kept ==> LastTo(rest, 0, |front|, LastTo(front, low, 0, -1)) == LastTo(front + rest, low, 0, -1))
  {
    hide Mine, LastTo;
    MineJoins(front, rest, low);
    LastToJoins(front, rest, low, 0, -1);
    SamePrefix(Mine(front, low), Mine(rest, 0), Mine(rest, low));
    if low != 0 {
      MineAlikeIff(rest, low, 0);
      if forall u | u in rest :: u[1] != low && u[1] != 0 {
        NoneTo(rest, 0, |front|, LastTo(front, low, 0, -1));
        NoneTo(rest, low, |front|, LastTo(front, low, 0, -1));
      }
    }
  }

  lemma SamePrefix(a: seq<bytes>, b: seq<bytes>, d: seq<bytes>)
    ensures a + b == a + d <==> b == d
  {
    assert (a + b)[|a|..] == b && (a + d)[|a|..] == d;
  }

  /** A packet is parsed if and only if its length and type are right and its group is bits 8 to 14 of the tag's
      address; any other is ignored. The response buffer is empty after it. */
  lemma ParsedIff(t: Tag, c: Config, plain: bytes, tail: bytes, w: World, readings: Readings)
    requires Fitting(t.e, c) && ReadingsOk(readings) && |plain| >= 2 && |tail| >= 17
    ensures var legit := |plain| - 1 == plain[0] && plain[1] == 0x34 && (plain + tail)[2] == t.m.addr / 0x100 % 0x80;
            && (HeaderOk(t, plain, tail) <==> legit)
            && (!legit ==> Parse(t, c, plain, tail, w, readings) == Parsed(t, -1, [], None))
            && (legit ==> Parse(t, c, plain, tail, w, readings).t.rsp == [])
  {
    hide Fitting, ReadingsOk, Walk;
    assert (plain[2..] + tail)[0] == (plain + tail)[2];
  }

  /** A tag of another group ignores the packet. */
  lemma OtherGroupIgnores(t: Tag, c: Config, group: byte, cmds: seq<bytes>, tail: bytes, w: World, readings: Readings)
    requires |Payload(group, cmds)| <= ESL_SYNC_PKT_PAYLOAD_MAX_LEN && group != GroupId(t.m.addr)
    requires Fitting(t.e, c) && ReadingsOk(readings) && |tail| >= 17
    ensures Parse(t, c, Plain(Payload(group, cmds)), tail, w, readings) == Parsed(t, -1, [], None)
  {
    hide Fitting, ReadingsOk, Walk, Flat;
    assert Plain(Payload(group, cmds))[2..][0] == group;
  }

  /** The TLV counter stays within eight signed bits, for any packet. */
  lemma {:induction false} WalkSlotIsSmall(s: Walked, c: Config, mem: bytes, n: nat, cur: nat, tlv: int, w: World,
                                           readings: Readings)
    requires Fitting(s.t.e, c) && |mem| >= n + 17 && ReadingsOk(readings)
    requires n <= 254 && tlv >= -1 && 2 * tlv + 3 <= cur && -1 <= s.slot <= 126
    ensures -1 <= Walk(s, c, mem, n, cur, tlv, w, readings).slot <= 126
    decreases n - cur
  {
    hide Walk, Fitting, ReadingsOk, Command, CommandAt;
    WalkEnds(s, c, mem, n, cur, tlv, w, readings);
    if cur < n {
      WalkUnfolds(s, c, mem, n, cur, tlv, w, readings);
      StepDispatches(s, c, mem, cur, tlv, w, readings);
      var cmd := CommandAt(mem, cur);
      if cur + |cmd| <= n {
        hide WalkStep;
        WalkSlotIsSmall(WalkStep(s, c, mem, cur, tlv, w, readings), c, mem, n, cur + |cmd|, tlv + 1, w, readings);
      }
    }
  }

  // ---------- uplink ----------

  /** The access point reverses the session keys before it writes them: both sides end with its keys. */
  lemma KeysAgree(m: Machine, key: bytes, saved: bool)
    requires |key| == EAD_KEY_MATERIAL_LEN
    ensures WriteApKey(m, SwapSessionKey(key), saved).apKey == key
    ensures WriteRspKey(m, SwapSessionKey(key), saved).rspKey == key
  {
    hide SwapSessionKey;
    SwapsCancel(key);
    EnterKeepsItems(SetItem(m.(apKey := key), ApKey, saved), Configuring);
    EnterKeepsItems(SetItem(m.(rspKey := key), RspKey, saved), Configuring);
  }

  /** The tag answers under its response key, except that a packet which strands it has cleared the key by then. */
  lemma AnsweringKey(t: Tag, c: Config, plain: bytes, tail: bytes, w: World, readings: Readings)
    requires Fitting(t.e, c) && ReadingsOk(readings) && |plain| >= 2 && |tail| >= 17
    requires MachineOk(t.m) && t.m.phase == Synchronized
    ensures var stranding := Stranding(t, PacketReceived(plain, tail, w, readings));
            Parse(t, c, plain, tail, w, readings).t.m.rspKey == if stranding then NoKey() else t.m.rspKey
  {
    hide Fitting, ReadingsOk, MachineOk, Parse, Stranding;
    ParseOnMachine(t, c, plain, tail, w, readings);
  }

  /** The answers of a packet, as TLVs. */
  ghost function AnswersTo(t: Tag, c: Config, plain: bytes, tail: bytes, w: World, readings: Readings): seq<bytes>
    requires Fitting(t.e, c) && ReadingsOk(readings) && |plain| >= 2 && |tail| >= 17
  {
    Kept([], Answers(Walked(t.(rsp := []), -1, []), c, plain[2..] + tail, |plain| - 2, 1, -1, w, readings))
  }

  /** What goes on the air for a chosen slot, whatever the packet was: a frame of at most 61 bytes that passes the
      access point's checks and opens, with the key it was sealed with, to a two-byte header and the very answers. */
  lemma UplinkRoundTrip(x: Cipher, t: Tag, c: Config, plain: bytes, tail: bytes, w: World, readings: Readings,
                        randomizer: bytes)
    requires Sound(x) && Fitting(t.e, c) && ReadingsOk(readings) && |plain| >= 2 && |tail| >= 17
    ensures var r := Parse(t, c, plain, tail, w, readings);
            r.slot != -1 ==>
              && r.response.Some? && 1 <= |r.response.value| <= ESL_SYNC_PKT_PAYLOAD_MAX_LEN
              && var air := Frame(x, r.t.m.rspKey, randomizer, r.response.value);
                 && |air| <= ESL_ENCRYPTED_DATA_MAX_LEN && |air| == air[0] + 1 && air[1] == BT_DATA_ENCRYPTED_AD_DATA
                 && Opened(x, r.t.m.rspKey, air) == Some(Plain(r.response.value))
                 && Split(Plain(r.response.value)[AD_HEADER_LEN..]) == Some(AnswersTo(t, c, plain, tail, w, readings))
  {
    hide Fitting, ReadingsOk, Parse, Answers, Kept, Split;
    var r := Parse(t, c, plain, tail, w, readings);
    ResponsesAreWhole(t, c, plain, tail, w, readings);
    if r.slot != -1 {
      FrameOpens(x, r.t.m.rspKey, randomizer, r.response.value);
      assert Plain(r.response.value)[AD_HEADER_LEN..] == r.response.value;
    }
  }

  /** What is sealed under one of these keys does not open to the same plaintext under the other. */
  ghost predicate Apart(x: Cipher, key: bytes, other: bytes) {
    forall r, p :: x.open(other, x.seal(key, r, p)) != Some(p)
  }

  /** There are sound ciphers that tell two keys apart. */
  lemma SomeCipherTellsApart(key: bytes, other: bytes)
    requires key != other
    ensures exists x :: Sound(x) && Apart(x, key, other)
  {
    var tag: bytes -> bytes := k => if k == key then [0, 0, 0, 0, 0, 0, 0, 0, 0] else [1, 0, 0, 0, 0, 0, 0, 0, 0];
    var x := Cipher((k, r, p) => tag(k) + p,
                    (k, c) => if |c| >= EAD_OVERHEAD && c[..EAD_OVERHEAD] == tag(k) then Some(c[EAD_OVERHEAD..])
                              else None);
    assert Sound(x) by {
      forall k, r, p: bytes ensures |x.seal(k, r, p)| == |p| + EAD_OVERHEAD && x.open(k, x.seal(k, r, p)) == Some(p) {
        assert (tag(k) + p)[..EAD_OVERHEAD] == tag(k) && (tag(k) + p)[EAD_OVERHEAD..] == p;
      }
    }
    assert Apart(x, key, other) by {
      forall r, p: bytes ensures x.open(other, x.seal(key, r, p)) != Some(p) {
        assert (tag(key) + p)[..EAD_OVERHEAD][0] == 0;
      }
    }
  }

  /** The access point opens the response with the tag's key from before the packet: if the packet does not strand
      the tag or that key is all zero; and, when the cipher tells the key from the one of zeros, only then. */
  lemma UplinkOpensIff(x: Cipher, t: Tag, c: Config, plain: bytes, tail: bytes, w: World, readings: Readings,
                       randomizer: bytes)
    requires Sound(x) && Fitting(t.e, c) && ReadingsOk(readings) && |plain| >= 2 && |tail| >= 17
    requires MachineOk(t.m) && t.m.phase == Synchronized && Parse(t, c, plain, tail, w, readings).slot != -1
    ensures var r := Parse(t, c, plain, tail, w, readings);
            && r.response.Some? && |r.response.value| <= ESL_SYNC_PKT_PAYLOAD_MAX_LEN
            && var air := Frame(x, r.t.m.rspKey, randomizer, r.response.value);
               var kept := !Stranding(t, PacketReceived(plain, tail, w, readings)) || t.m.rspKey == NoKey();
               && |air| >= AD_HEADER_LEN
               && (kept ==> Opened(x, t.m.rspKey, air) == Some(Plain(r.response.value)))
               && (Apart(x, NoKey(), t.m.rspKey) && Opened(x, t.m.rspKey, air) == Some(Plain(r.response.value)) ==>
                     kept)
  {
    hide Fitting, ReadingsOk, MachineOk, Parse, Stranding, Answers, Kept, Split, Plain;
    var r := Parse(t, c, plain, tail, w, readings);
    AnsweringKey(t, c, plain, tail, w, readings);
    UplinkRoundTrip(x, t, c, plain, tail, w, readings, randomizer);
    SealedPart(x, r.t.m.rspKey, randomizer, r.response.value);
  }

  lemma SealedPart(x: Cipher, key: bytes, randomizer: bytes, payload: bytes)
    requires |payload| <= ESL_SYNC_PKT_PAYLOAD_MAX_LEN
    ensures Frame(x, key, randomizer, payload)[AD_HEADER_LEN..] == x.seal(key, randomizer, Plain(payload))
  {
  }

  /** From the packet to the access point's buffer: with the tag's response key on file for the slot, the buffer
      ends up with a two-byte header and the tag's answers, exactly when the response opens. */
  lemma AnswersArriveIff(x: Cipher, t: Tag, c: Config, plain: bytes, tail: bytes, w: World, readings: Readings,
                         randomizer: bytes, b: ApSync.SyncBuf)
    requires Sound(x) && Fitting(t.e, c) && ReadingsOk(readings) && |plain| >= 2 && |tail| >= 17
    requires MachineOk(t.m) && t.m.phase == Synchronized
    requires var slot := Parse(t, c, plain, tail, w, readings).slot;
             0 <= slot < |b.rsp| && b.rsp[slot].key == t.m.rspKey && |b.rsp[slot].data| == ESL_ENCRYPTED_DATA_MAX_LEN
    ensures var r := Parse(t, c, plain, tail, w, readings);
            && r.response.Some? && |r.response.value| <= ESL_SYNC_PKT_PAYLOAD_MAX_LEN
            && var air := Frame(x, r.t.m.rspKey, randomizer, r.response.value);
               && AD_HEADER_LEN <= |air| <= ESL_ENCRYPTED_DATA_MAX_LEN
               && var n := ApSync.Answered(b, x, r.slot, air).rsp[r.slot];
                  var arrived := n.len <= |n.data| && n.data[..n.len] == Plain(r.response.value);
                  var kept := !Stranding(t, PacketReceived(plain, tail, w, readings)) || t.m.rspKey == NoKey();
                  && (kept ==> arrived) && (Apart(x, NoKey(), t.m.rspKey) && arrived ==> kept)
                  && (arrived ==>
                        Split(n.data[..n.len][AD_HEADER_LEN..]) == Some(AnswersTo(t, c, plain, tail, w, readings)))
  {
    hide Fitting, ReadingsOk, MachineOk, Parse, AnswersTo, Stranding, Split, Sound, Apart;
    var r := Parse(t, c, plain, tail, w, readings);
    UplinkRoundTrip(x, t, c, plain, tail, w, readings, randomizer);
    UplinkOpensIff(x, t, c, plain, tail, w, readings, randomizer);
    FiledIff(b, x, r.slot, r.t.m.rspKey, randomizer, r.response.value);
  }

  /** The slot's buffer holds a sealed plaintext exactly when the key on file opens it. */
  lemma FiledIff(b: ApSync.SyncBuf, x: Cipher, slot: nat, key: bytes, randomizer: bytes, payload: bytes)
    requires Sound(x) && |payload| <= ESL_SYNC_PKT_PAYLOAD_MAX_LEN
    requires slot < |b.rsp| && |b.rsp[slot].data| == ESL_ENCRYPTED_DATA_MAX_LEN
    ensures var air := Frame(x, key, randomizer, payload);
            && AD_HEADER_LEN <= |air| <= ESL_ENCRYPTED_DATA_MAX_LEN
            && var n := ApSync.Answered(b, x, slot, air).rsp[slot];
               && n.len <= |n.data|
               && (n.data[..n.len] == Plain(payload) <==> Opened(x, b.rsp[slot].key, air) == Some(Plain(payload)))
  {
    FrameOpens(x, key, randomizer, payload);
    hide Frame;
  }

  /** There is such a packet for every tag: complete the update, then reset. Its response is chosen, and sealed
      under a key of zeros. */
  lemma StrandingIsAnswered(t: Tag, c: Config, tail: bytes, w: World, readings: Readings)
    requires Fitting(t.e, c) && ReadingsOk(readings) && |tail| >= 17
    requires MachineOk(t.m) && t.m.phase == Synchronized && !t.busy
    ensures var r := Parse(t, c, StrandingPacket(t.m.addr), tail, w, readings);
            r.slot == 1 && r.response.Some? && r.t.m.rspKey == NoKey()
  {
    hide Fitting, ReadingsOk, MachineOk, InPacket, Parse, Stranding, Answers, Kept, Dispatches, SlotOf, Low, GroupId;
    hide NoKey;
    var low := Low(t.m.addr);
    var cmds: seq<bytes> := [[OP_UPDATE_COMPLETE, low], [OP_FACTORY_RESET, low]];
    OwnId(t.m, false);
    TwoCommands(t.m.addr);
    ParseIsDispatch(t, c, cmds, tail, w, readings);
    DispatchesOwn(t.m, t.busy, cmds, w.undeleted, 0, -1, false);
    StrandingExists(t, tail, w, readings);
    AnsweringKey(t, c, StrandingPacket(t.m.addr), tail, w, readings);
    ResponsesAreWhole(t, c, StrandingPacket(t.m.addr), tail, w, readings);
  }

  lemma TwoCommands(addr: u16)
    ensures var low := Low(addr);
            var cmds: seq<bytes> := [[OP_UPDATE_COMPLETE, low], [OP_FACTORY_RESET, low]];
            && AllWellFramed(cmds) && |Payload(GroupId(addr), cmds)| == 5
            && StrandingPacket(addr) == Plain(Payload(GroupId(addr), cmds))
            && (low != ESL_ADDR_BROADCAST ==>
                  && Ahead(low, false, false, cmds) == cmds && Behind(low, false, false, cmds) == []
                  && LastTo([], 0, 2, LastTo(cmds, low, 0, -1)) == 1)
  {
    hide Low, GroupId;
    var low := Low(addr);
    var update: bytes, reset: bytes := [OP_UPDATE_COMPLETE, low], [OP_FACTORY_RESET, low];
    var cmds := [update, reset];
    assert cmds[1..] == [reset] && [reset][1..] == [];
    assert Flat([reset]) == reset + Flat([]) && Flat(cmds) == update + Flat([reset]);
    if low != ESL_ADDR_BROADCAST {
      assert Ahead(low, false, true, [reset]) == [reset];
      assert Ahead(low, false, false, cmds) == [update] + [reset];
      assert LastTo([reset], low, 1, 0) == LastTo([], low, 2, 1);
    }
  }
}
