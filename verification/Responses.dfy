/** Responses of the ESL Control Point (section 3.10.3 of the ESL Service). */
module Responses {
  import opened Bytes
  import opened Tlv

  const ERR_INV_OPCODE: byte := 2
  const ERR_INV_STATE: byte := 3
  const ERR_INV_IMG_IDX: byte := 4
  const ERR_IMG_NOT_AVAIL: byte := 5
  const ERR_INV_PARAMS: byte := 6
  const ERR_CAP_LIMIT: byte := 7
  const ERR_RETRY: byte := 10
  const ERR_QUEUE_FULL: byte := 11
  const ERR_IMPLAUSIBLE_ABS: byte := 12

  const OP_ERR: byte := 0x00
  const OP_LED_STATE: byte := 0x01
  const OP_BASIC_STATE: byte := 0x10
  const OP_DISPLAY_STATE: byte := 0x11
  const OP_SENSOR_VALUE: byte := 0x0E

  const SENSOR_DATA_MAX: nat := 15

  /** struct esl_ecp_resp, by its op code */
  datatype Resp =
    | Failed(code: byte)
    | LedState(led: byte)
    | BasicState
    | DisplayState(display: byte, img: byte)
    | SensorValue(sensor: byte)

  /** What the sensor callback gives. `Absent` is a missing callback; its second byte is whatever the
      response buffer held. */
  datatype Reading = Absent(stale: byte) | Busy | Value(data: bytes)

  predicate ReadingOk(r: Reading) { r.Value? ==> |r.data| <= SENSOR_DATA_MAX }

  function Encode(r: Resp, basic: byte, reading: Reading): (t: bytes)
    requires ReadingOk(reading)
    ensures WellFramed(t)
  {
    match r
    case Failed(code) => [OP_ERR, code]
    case LedState(led) => [OP_LED_STATE, led]
    case BasicState => [OP_BASIC_STATE, basic, 0]
    case DisplayState(display, img) => [OP_DISPLAY_STATE, display, img]
    case SensorValue(sensor) =>
      match reading
      case Absent(stale) => [OP_SENSOR_VALUE, stale]
      case Busy => [OP_ERR, ERR_RETRY]
      case Value(data) => [|data| * 16 + OP_SENSOR_VALUE, sensor] + data
  }
}
