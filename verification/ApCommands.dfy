/** Commands that the access point writes to a tag's control point over a connection (esl_client.c), against
    what the tag reads out of them. */
module ApCommands {
  import opened Bytes
  import opened Tlv
  import opened Ead
  import opened RepeatCodec
  import opened TagMachine
  import opened Responses
  import opened Elements
  import opened TagRules

  const ESL_ECP_COMMAND_MAX_LEN: nat := 17
  const ESL_OP_HEADER_LEN: nat := 2

  predicate Defined(op: byte) {
    op in {OP_PING, OP_UNASSOCIATE, OP_SERVICE_RESET, OP_FACTORY_RESET, OP_UPDATE_COMPLETE, OP_READ_SENSOR_DATA,
           OP_REFRESH_DISPLAY, OP_DISPLAY_IMAGE, OP_DISPLAY_TIMED_IMAGE, OP_LED_CONTROL, OP_LED_TIMED_CONTROL}
  }

  /** In numbers; the high nibble of each counts its parameters. */
  lemma DefinedIs(op: byte)
    ensures Defined(op) <==> op in {0x00, 0x01, 0x02, 0x03, 0x04, 0x10, 0x11, 0x20, 0x60, 0xB0, 0xF0}
  {
  }

  /** A command as the tag is to see it: op code, ESL ID, and the parameters that the op code's nibble counts. */
  function Built(op: byte, id: byte, parameters: bytes): (cmd: bytes)
    requires |parameters| == ESL_ECP_COMMAND_MAX_LEN
    ensures WellFramed(cmd) && cmd[0] == op && cmd[1] == id
  {
    [op, id] + parameters[..EcpLen(op) - ESL_OP_HEADER_LEN]
  }

  function Zeros(n: nat): (z: bytes) { seq(n, _ => 0) }

  function LedParameters(led: byte, obj: LedObj, timed: bool, absTime: u32): (p: bytes)
    requires |obj.pattern| == FLASH_PATTERN_LEN
    ensures |p| == ESL_ECP_COMMAND_MAX_LEN
  {
    [led, obj.color] + obj.pattern + [obj.offPeriod, obj.onPeriod] + Pack(obj.repeatType, obj.duration)
    + (if timed then PutLe32(absTime) else [0, 0, 0, 0]) + [0, 0]
  }

  function DisplayParameters(display: byte, img: byte, timed: bool, absTime: u32): (p: bytes)
    ensures |p| == ESL_ECP_COMMAND_MAX_LEN
  {
    [display, img] + (if timed then PutLe32(absTime) else [0, 0, 0, 0]) + Zeros(11)
  }

  lemma Middle(a: bytes, b: bytes, c: bytes)
    ensures (a + b + c)[|a|..|a| + |b|] == b
  {
  }

  /** The tag reads the LED, its settings and the time as they were given, except for the duration: of the
      duration d, cut to 15 bits, d mod 128 + 256 * (d div 128) arrives. */
  lemma LedCommandArrives(id: byte, led: byte, obj: LedObj, timed: bool, absTime: u32)
    requires |obj.pattern| == FLASH_PATTERN_LEN
    ensures var cmd := Built(if timed then OP_LED_TIMED_CONTROL else OP_LED_CONTROL, id,
                             LedParameters(led, obj, timed, absTime));
            var d := obj.duration % 0x8000;
            && |cmd| == (if timed then 17 else 13) && cmd[1] == id && cmd[2] == led
            && DecodeLed(cmd) == obj.(repeatType := obj.repeatType % 2, duration := d % 128 + 256 * (d / 128))
            && (timed ==> GetLe32(cmd[13..17]) == absTime)
  {
    hide PutLe32, GetLe32, Pack, Unpack;
    var cmd := Built(if timed then OP_LED_TIMED_CONTROL else OP_LED_CONTROL, id,
                     LedParameters(led, obj, timed, absTime));
    RepeatArrives(obj.repeatType, obj.duration);
    Le32RoundTrip(absTime);
    var op := if timed then OP_LED_TIMED_CONTROL else OP_LED_CONTROL;
    var repeat, periods := Pack(obj.repeatType, obj.duration), [obj.offPeriod, obj.onPeriod];
    if timed {
      assert cmd == [op, id, led, obj.color] + obj.pattern + (periods + repeat + PutLe32(absTime));
      assert cmd == ([op, id, led, obj.color] + obj.pattern + periods) + repeat + PutLe32(absTime);
      assert cmd == ([op, id, led, obj.color] + obj.pattern + periods + repeat) + PutLe32(absTime) + [];
      Middle([op, id, led, obj.color] + obj.pattern + periods + repeat, PutLe32(absTime), []);
    } else {
      assert cmd == [op, id, led, obj.color] + obj.pattern + (periods + repeat);
      assert cmd == ([op, id, led, obj.color] + obj.pattern + periods) + repeat + [];
    }
    Middle([op, id, led, obj.color], obj.pattern, cmd[9..]);
    Middle([op, id, led, obj.color] + obj.pattern + periods, repeat, cmd[13..]);
  }

  /** The LED settings arrive unchanged exactly when the type is one bit and the duration at most 127. */
  lemma LedSettingsArriveIff(id: byte, led: byte, obj: LedObj, timed: bool, absTime: u32)
    requires |obj.pattern| == FLASH_PATTERN_LEN
    ensures var cmd := Built(if timed then OP_LED_TIMED_CONTROL else OP_LED_CONTROL, id,
                             LedParameters(led, obj, timed, absTime));
            |cmd| >= 13 && (DecodeLed(cmd) == obj <==> obj.repeatType <= 1 && obj.duration <= 127)
  {
    hide DecodeLed, LedParameters, Built;
    LedCommandArrives(id, led, obj, timed, absTime);
    DurationArrivesIff(obj.repeatType, obj.duration);
    RepeatArrives(obj.repeatType, obj.duration);
  }

  lemma DisplayCommandArrives(id: byte, display: byte, img: byte, timed: bool, absTime: u32)
    ensures var cmd := Built(if timed then OP_DISPLAY_TIMED_IMAGE else OP_DISPLAY_IMAGE, id,
                             DisplayParameters(display, img, timed, absTime));
            && |cmd| == (if timed then 8 else 4) && cmd[1] == id && cmd[2] == display && cmd[3] == img
            && (timed ==> GetLe32(cmd[4..8]) == absTime)
  {
    hide PutLe32, GetLe32;
    Le32RoundTrip(absTime);
    var cmd := Built(if timed then OP_DISPLAY_TIMED_IMAGE else OP_DISPLAY_IMAGE, id,
                     DisplayParameters(display, img, timed, absTime));
    assert timed ==> cmd[4..8] == PutLe32(absTime);
  }

  /** A built command is never refused by the tag for its length: with a busy flag down and the tag's ESL ID, it
      is carried out. */
  lemma BuiltIsCarriedOut(t: Tag, c: Config, op: byte, parameters: bytes, w: World)
    requires Fitting(t.e, c) && ReadingOk(w.reading) && Defined(op) && |parameters| == ESL_ECP_COMMAND_MAX_LEN
             && !t.busy
    ensures var cmd := Built(op, Low(t.m.addr), parameters);
            Command(t, c, cmd, FromEcp, w) ==
              Respond(Execute(t.(resp := BasicState, respNeeded := true, unassociateAfter := false), c, cmd, w),
                      FromEcp, w.reading)
  {
    hide Respond, Execute, Fitting;
    assert op % 16 != 15;
  }

  /** The write parameters of one connection. */
  class ControlPoint {
    const ecpBuf: array<byte>
    var length: nat

    constructor ()
      ensures fresh(ecpBuf) && ecpBuf.Length == ESL_ECP_COMMAND_MAX_LEN && length == 0
    {
      ecpBuf := new byte[ESL_ECP_COMMAND_MAX_LEN](_ => 0);
      length := 0;
    }

    /** What is written to the tag. */
    function Written(): bytes
      requires length <= ecpBuf.Length
      reads this, ecpBuf
    {
      ecpBuf[..length]
    }

    /** bt_esl_c_ecp_command_send on a valid connection: false for a reserved op code. An op code with a non-zero
        low nibble other than those defined is sent with whatever length the last command had. */
    method CommandSend(command: array<byte>, op: byte, id: byte) returns (sent: bool)
      requires ecpBuf.Length == command.Length == ESL_ECP_COMMAND_MAX_LEN && command != ecpBuf
               && length <= ecpBuf.Length
      modifies this`length, ecpBuf
      ensures length <= ecpBuf.Length
      ensures sent <==> Defined(op) || op % 16 != 0
      ensures Defined(op) ==> Written() == Built(op, id, command[..])
      ensures !Defined(op) ==> length == old(length) && ecpBuf[..] == [op, id] + old(ecpBuf[2..])
    {
      ecpBuf[0] := op;
      ecpBuf[1] := id;
      sent := true;
      if op == OP_PING || op == OP_UNASSOCIATE || op == OP_SERVICE_RESET || op == OP_FACTORY_RESET
         || op == OP_UPDATE_COMPLETE {
        length := 2;
      } else if op == OP_READ_SENSOR_DATA || op == OP_REFRESH_DISPLAY {
        ecpBuf[2] := command[0];
        length := 3;
      } else if op == OP_DISPLAY_IMAGE {
        ecpBuf[2] := command[0];
        ecpBuf[3] := command[1];
        length := 4;
      } else if op == OP_DISPLAY_TIMED_IMAGE {
        CopyInto(ecpBuf, ESL_OP_HEADER_LEN, command[..6]);
        length := 8;
      } else if op == OP_LED_CONTROL {
        CopyInto(ecpBuf, ESL_OP_HEADER_LEN, command[..11]);
        length := 13;
      } else if op == OP_LED_TIMED_CONTROL {
        CopyInto(ecpBuf, ESL_OP_HEADER_LEN, command[..15]);
        length := 17;
      } else if op % 16 == 0 {
        sent := false;
      }
    }

    /** bt_esl_c_led_control */
    method LedControl(id: byte, led: byte, obj: LedObj, timed: bool, absTime: u32)
      requires ecpBuf.Length == ESL_ECP_COMMAND_MAX_LEN && length <= ecpBuf.Length && |obj.pattern| == FLASH_PATTERN_LEN
      modifies this`length, ecpBuf
      ensures length <= ecpBuf.Length
      ensures Written() == Built(if timed then OP_LED_TIMED_CONTROL else OP_LED_CONTROL, id,
                                 LedParameters(led, obj, timed, absTime))
    {
      hide Pack, PutLe32, Built, LedParameters;
      var command := new byte[ESL_ECP_COMMAND_MAX_LEN](_ => 0);
      assert command[..] == Zeros(17);
      FillLedSettings(command, led, obj);
      if timed {
        AddTime(command, led, obj, absTime);
        var _ := CommandSend(command, OP_LED_TIMED_CONTROL, id);
      } else {
        UntimedParameters(led, obj, absTime);
        var _ := CommandSend(command, OP_LED_CONTROL, id);
      }
    }

    lemma UntimedParameters(led: byte, obj: LedObj, absTime: u32)
      requires |obj.pattern| == FLASH_PATTERN_LEN
      ensures LedParameters(led, obj, false, absTime) == LedParameters(led, obj, false, 0)
    {
    }

    /** The parameters up to the repeat duration */
    static method FillLedSettings(command: array<byte>, led: byte, obj: LedObj)
      requires |obj.pattern| == FLASH_PATTERN_LEN && command[..] == Zeros(17)
      modifies command
      ensures command[..] == LedParameters(led, obj, false, 0)
    {
      hide Pack, PutLe32;
      assert command.Length == |command[..]| == 17;
      SetTwo(command, 0, led, obj.color);
      assert command[..] == [led, obj.color] + Zeros(15);
      CopyInto(command, 2, obj.pattern);
      ghost var head := [led, obj.color] + obj.pattern;
      assert command[..] == head + Zeros(10);
      SetTwo(command, 7, obj.offPeriod, obj.onPeriod);
      assert command[..] == head + [obj.offPeriod, obj.onPeriod] + Zeros(8);
      CopyInto(command, 9, Pack(obj.repeatType, obj.duration));
      assert Zeros(6) == [0, 0, 0, 0] + [0, 0];
    }

    static method SetTwo(command: array<byte>, at: nat, first: byte, second: byte)
      requires at + 2 <= command.Length
      modifies command
      ensures command[..] == old(command[..at]) + [first, second] + old(command[at + 2..])
    {
      command[at] := first;
      command[at + 1] := second;
    }

    static method AddTime(command: array<byte>, led: byte, obj: LedObj, absTime: u32)
      requires |obj.pattern| == FLASH_PATTERN_LEN && command[..] == LedParameters(led, obj, false, 0)
      modifies command
      ensures command[..] == LedParameters(led, obj, true, absTime)
    {
      hide Pack, PutLe32;
      assert command.Length == |command[..]| == 17;
      ghost var settings :=
        [led, obj.color] + obj.pattern + [obj.offPeriod, obj.onPeriod] + Pack(obj.repeatType, obj.duration);
      assert command[..11] == settings;
      CopyInto(command, 11, PutLe32(absTime));
    }

    /** bt_esl_c_display_control */
    method DisplayControl(id: byte, display: byte, img: byte, timed: bool, absTime: u32)
      requires ecpBuf.Length == ESL_ECP_COMMAND_MAX_LEN && length <= ecpBuf.Length
      modifies this`length, ecpBuf
      ensures length <= ecpBuf.Length
      ensures Written() == Built(if timed then OP_DISPLAY_TIMED_IMAGE else OP_DISPLAY_IMAGE, id,
                                 DisplayParameters(display, img, timed, absTime))
    {
      var command := new byte[ESL_ECP_COMMAND_MAX_LEN](_ => 0);
      command[0] := display;
      command[1] := img;
      assert command[..] == DisplayParameters(display, img, false, absTime);
      if timed {
        CopyInto(command, 2, PutLe32(absTime));
        assert command[..] == DisplayParameters(display, img, true, absTime);
        var _ := CommandSend(command, OP_DISPLAY_TIMED_IMAGE, id);
      } else {
        var _ := CommandSend(command, OP_DISPLAY_IMAGE, id);
      }
    }
  }
}
