/** The 15-bit repeat duration and its type bit (pack_repeat_type_duration and
    unpack_repeat_type_duration of esl_common.c). */
module RepeatCodec {
  import opened Bytes

  const REPEATS_DURATION_MAX := 0x7FFF

  function Pack(repeatType: byte, duration: u16): (b: bytes)
    ensures |b| == 2
  {
    PutLe16(repeatType % 2 + duration % 0x8000 * 2)
  }

  /** The high byte is shifted by 8, although only 7 bits of the duration are in the low byte. */
  function Unpack(b: bytes): (byte, u16)
    requires |b| == 2
  {
    (b[0] % 2, b[0] / 2 + 0x100 * (b[1] as int))
  }

  /** The type arrives; the duration d, cut to 15 bits, arrives as d mod 128 + 256 * (d div 128). */
  lemma RepeatArrives(repeatType: byte, duration: u16)
    ensures var d := duration % 0x8000;
            Unpack(Pack(repeatType, duration)) == (repeatType % 2, d % 128 + 256 * (d / 128))
  {
    var d := duration % 0x8000;
    var v := repeatType % 2 + d * 2;
    assert v % 0x100 == repeatType % 2 + d % 128 * 2 && v / 0x100 == d / 128;
  }

  /** Exactly the durations up to 127 arrive unchanged. */
  lemma DurationArrivesIff(repeatType: byte, duration: u16)
    ensures Unpack(Pack(repeatType, duration)).1 == duration <==> duration <= 127
  {
    RepeatArrives(repeatType, duration);
  }
}
