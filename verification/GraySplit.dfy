/** The four-gray modes of the 4.2 inch drivers (EPD_4in2.c, EPD_4in2_V2.c): an image of two-bit pixels is
    sent to the panel as two one-bit planes. */
module GraySplit {

  datatype Sent = Command(cmd: bv8) | Data(data: bv8)

  datatype Plane = HighBits | LowBits

  // ---------- the planes, and the pixels they came from ----------

  /** High bits of eight consecutive two-bit pixels, first pixel at the top. */
  function HighOf(b0: bv8, b1: bv8): bv8 {
    (b0 & 0x80) | ((b0 & 0x20) << 1) | ((b0 & 0x08) << 2) | ((b0 & 0x02) << 3) |
    ((b1 & 0x80) >> 4) | ((b1 & 0x20) >> 3) | ((b1 & 0x08) >> 2) | ((b1 & 0x02) >> 1)
  }

  function LowOf(b0: bv8, b1: bv8): bv8 {
    ((b0 & 0x40) << 1) | ((b0 & 0x10) << 2) | ((b0 & 0x04) << 3) | ((b0 & 0x01) << 4) |
    ((b1 & 0x40) >> 3) | ((b1 & 0x10) >> 2) | ((b1 & 0x04) >> 1) | (b1 & 0x01)
  }

  function PlaneByte(plane: Plane, b0: bv8, b1: bv8): bv8 {
    match plane
    case HighBits => HighOf(b0, b1)
    case LowBits => LowOf(b0, b1)
  }

  /** Re-interleaving one byte of each plane. */
  function Weave(high: bv8, low: bv8): (bv8, bv8) {
    ((high & 0x80) | ((low & 0x80) >> 1) | ((high & 0x40) >> 1) | ((low & 0x40) >> 2) |
     ((high & 0x20) >> 2) | ((low & 0x20) >> 3) | ((high & 0x10) >> 3) | ((low & 0x10) >> 4),
     ((high & 0x08) << 4) | ((low & 0x08) << 3) | ((high & 0x04) << 3) | ((low & 0x04) << 2) |
     ((high & 0x02) << 2) | ((low & 0x02) << 1) | ((high & 0x01) << 1) | (low & 0x01))
  }

  lemma WeaveByte(b0: bv8, b1: bv8)
    ensures Weave(HighOf(b0, b1), LowOf(b0, b1)) == (b0, b1)
  {
  }

  /** Pixel i of eight: two bits, the first pixel in the highest ones. */
  function PixelOf(b0: bv8, b1: bv8, i: nat): bv8
    requires i < 8
  {
    ((if i < 4 then b0 else b1) >> (6 - 2 * (i % 4))) & 3
  }

  /** Bit 7 - i of the two plane bytes is the higher and the lower bit of pixel i. */
  lemma PlaneBits(b0: bv8, b1: bv8, i: nat)
    requires i < 8
    ensures (HighOf(b0, b1) >> (7 - i)) & 1 == PixelOf(b0, b1, i) >> 1
    ensures (LowOf(b0, b1) >> (7 - i)) & 1 == PixelOf(b0, b1, i) & 1
  {
    if i < 4 {
      if i == 0 { } else if i == 1 { } else if i == 2 { } else { }
    } else {
      if i == 4 { } else if i == 5 { } else if i == 6 { } else { }
    }
  }

  function PlaneOf(plane: Plane, image: seq<bv8>): (p: seq<bv8>)
    requires |image| % 2 == 0
    ensures |p| == |image| / 2
  {
    seq(|image| / 2, i requires 0 <= i < |image| / 2 => PlaneByte(plane, image[2 * i], image[2 * i + 1]))
  }

  function WeaveAll(high: seq<bv8>, low: seq<bv8>): seq<bv8>
    requires |high| == |low|
  {
    if high == [] then []
    else
      var n := |high| - 1;
      var (b0, b1) := Weave(high[n], low[n]);
      WeaveAll(high[..n], low[..n]) + [b0, b1]
  }

  /** The split loses nothing: every byte of the image comes back from the two planes. */
  lemma {:induction false} SplitLossless(image: seq<bv8>)
    requires |image| % 2 == 0
    ensures WeaveAll(PlaneOf(HighBits, image), PlaneOf(LowBits, image)) == image
    decreases |image|
  {
    if image != [] {
      var n := |image| - 2;
      var high, low := PlaneOf(HighBits, image), PlaneOf(LowBits, image);
      SplitLossless(image[..n]);
      assert high[..|high| - 1] == PlaneOf(HighBits, image[..n]);
      assert low[..|high| - 1] == PlaneOf(LowBits, image[..n]);
      WeaveByte(image[n], image[n + 1]);
      assert image == image[..n] + [image[n], image[n + 1]];
    }
  }

  // ---------- the drivers ----------

  /** temp3 when the loops stand at byte j and half k of a pair: the pixels so far, each but the last of
      all shifted up once more. */
  function SoFar(whole: bv8, j: nat, k: nat): bv8 {
    if (j, k) == (0, 0) then 0
    else if (j, k) == (0, 1) then (whole >> 6) << 1
    else if (j, k) == (0, 2) || (j, k) == (1, 0) then (whole >> 4) << 1
    else if (j, k) == (1, 1) then (whole >> 2) << 1
    else whole
  }

  function Up1(b: bv8): bv8 { b << 1 }
  function Up2(b: bv8): bv8 { b << 2 }

  function Shifted(b: bv8, k: nat): bv8 { if k == 0 then b else Up2(Up2(b)) }

  function Level(plane: Plane, two: bv8): bv8 {
    if two == 0xC0 then 0x01
    else if two == 0x00 then 0x00
    else if two == 0x80 then (if plane == HighBits then 0x01 else 0x00)
    else (if plane == HighBits then 0x00 else 0x01)
  }

  /** The body of the innermost loop: temp3 after two more pixels, taken from the top of temp1; the very
      last one is not shifted up. */
  function TwoPixels(plane: Plane, temp1: bv8, temp3: bv8, last: bool): bv8 {
    var t := Up1(temp3 | Level(plane, temp1 & 0xC0)) | Level(plane, Up2(temp1) & 0xC0);
    if last then t else Up1(t)
  }

  lemma FirstHalf(plane: Plane, b0: bv8, b1: bv8)
    ensures TwoPixels(plane, b0, 0, false) == SoFar(PlaneByte(plane, b0, b1), 0, 1)
  {
  }

  lemma SecondHalf(plane: Plane, b0: bv8, b1: bv8)
    ensures TwoPixels(plane, Up2(Up2(b0)), SoFar(PlaneByte(plane, b0, b1), 0, 1), false) ==
            SoFar(PlaneByte(plane, b0, b1), 1, 0)
  {
  }

  lemma ThirdHalf(plane: Plane, b0: bv8, b1: bv8)
    ensures TwoPixels(plane, b1, SoFar(PlaneByte(plane, b0, b1), 1, 0), false) == SoFar(PlaneByte(plane, b0, b1), 1, 1)
  {
  }

  lemma FourthHalf(plane: Plane, b0: bv8, b1: bv8)
    ensures TwoPixels(plane, Up2(Up2(b1)), SoFar(PlaneByte(plane, b0, b1), 1, 1), true) == PlaneByte(plane, b0, b1)
  {
    match plane
    case HighBits =>
    case LowBits =>
  }

  lemma OneHalf(plane: Plane, b0: bv8, b1: bv8, j: nat, k: nat)
    requires j < 2 && k < 2
    ensures var whole := PlaneByte(plane, b0, b1);
            TwoPixels(plane, Shifted(if j == 0 then b0 else b1, k), SoFar(whole, j, k), j == 1 && k == 1)
            == SoFar(whole, j, k + 1)
  {
    hide TwoPixels, PlaneByte, Up2;
    FirstHalf(plane, b0, b1);
    SecondHalf(plane, b0, b1);
    ThirdHalf(plane, b0, b1);
    FourthHalf(plane, b0, b1);
  }

  class Panel {
    var sent: seq<Sent>

    constructor ()
      ensures sent == []
    {
      sent := [];
    }

    method SendCommand(cmd: bv8)
      modifies this
      ensures sent == old(sent) + [Command(cmd)]
    {
      sent := sent + [Command(cmd)];
    }

    method SendData(data: bv8)
      modifies this
      ensures sent == old(sent) + [Data(data)]
    {
      sent := sent + [Data(data)];
    }

    /** The two inner loops: eight pixels of one plane */
    static method PackPixels(plane: Plane, b0: bv8, b1: bv8) returns (temp3: bv8)
      ensures temp3 == PlaneByte(plane, b0, b1)
    {
      hide TwoPixels, PlaneByte, Up2;
      ghost var whole := PlaneByte(plane, b0, b1);
      temp3 := 0;
      var j := 0;
      while j < 2
        invariant 0 <= j <= 2 && temp3 == SoFar(whole, j, 0)
      {
        var temp1 := if j == 0 then b0 else b1;
        var k := 0;
        while k < 2
          invariant 0 <= k <= 2 && temp3 == SoFar(whole, j, k)
          invariant k < 2 ==> temp1 == Shifted(if j == 0 then b0 else b1, k)
        {
          OneHalf(plane, b0, b1, j, k);
          temp3 := TwoPixels(plane, temp1, temp3, j == 1 && k == 1);
          temp1 := Up2(Up2(temp1));
          k := k + 1;
        }
        j := j + 1;
      }
    }

    /** One row: the byte pairs from number `start` on */
    method SendRow(plane: Plane, image: array<bv8>, start: nat, stride: nat, ghost before: seq<Sent>,
                   ghost whole: seq<bv8>)
      requires image.Length % 2 == 0 && (start + stride) * 2 <= image.Length && whole == PlaneOf(plane, image[..])
      requires sent == before + Sending(whole[..start])
      modifies this
      ensures sent == before + Sending(whole[..start + stride])
    {
      for i := 0 to stride
        invariant sent == before + Sending(whole[..start + i])
      {
        var b := PackPixels(plane, image[(start + i) * 2], image[(start + i) * 2 + 1]);
        SendData(b);
        SendingSnoc(whole, start + i);
      }
    }

    /** One plane of the image, row by row */
    method SendPlane(plane: Plane, image: array<bv8>, height: nat, width: nat)
      requires image.Length == height * (width / 8) * 2
      modifies this
      ensures sent == old(sent) + Sending(PlaneOf(plane, image[..]))
    {
      ghost var whole := PlaneOf(plane, image[..]);
      var stride := width / 8;
      for m := 0 to height
        invariant m * stride <= |whole| && sent == old(sent) + Sending(whole[..m * stride])
      {
        RowEnd(m, height, stride);
        SendRow(plane, image, m * stride, stride, old(sent), whole);
      }
      assert whole[..height * stride] == whole;
    }

    /** EPD_4IN2_4GrayDisplay */
    method Display4Gray(image: array<bv8>, height: nat, width: nat)
      requires image.Length == height * (width / 8) * 2
      modifies this
      ensures sent == old(sent) + [Command(0x10)] + Sending(PlaneOf(HighBits, image[..]))
                                + [Command(0x13)] + Sending(PlaneOf(LowBits, image[..]))
    {
      SendCommand(0x10);
      SendPlane(HighBits, image, height, width);
      SendCommand(0x13);
      SendPlane(LowBits, image, height, width);
    }

    /** EPD_4IN2_V2_Display_4Gray: the same planes, exchanged */
    method Display4GrayV2(image: array<bv8>, height: nat, width: nat)
      requires image.Length == height * (width / 8) * 2
      modifies this
      ensures sent == old(sent) + [Command(0x24)] + Sending(PlaneOf(LowBits, image[..]))
                                + [Command(0x26)] + Sending(PlaneOf(HighBits, image[..]))
    {
      SendCommand(0x24);
      SendPlane(LowBits, image, height, width);
      SendCommand(0x26);
      SendPlane(HighBits, image, height, width);
    }
  }

  function Sending(bytes: seq<bv8>): (s: seq<Sent>)
    ensures |s| == |bytes|
  {
    seq(|bytes|, i requires 0 <= i < |bytes| => Data(bytes[i]))
  }

  lemma SendingSnoc(bytes: seq<bv8>, k: nat)
    requires k < |bytes|
    ensures Sending(bytes[..k + 1]) == Sending(bytes[..k]) + [Data(bytes[k])]
  {
  }

  lemma RowEnd(m: nat, height: nat, stride: nat)
    requires m < height
    ensures m * stride + stride == (m + 1) * stride <= height * stride
  {
    assert height * stride == (m + 1) * stride + (height - (m + 1)) * stride;
  }

  /** What the panel got determines the image, and the V2 driver sends the same planes in exchanged order. */
  lemma FramesDetermineImage(a: seq<bv8>, b: seq<bv8>)
    requires |a| % 2 == 0 && |b| == |a|
    requires Sending(PlaneOf(HighBits, a)) == Sending(PlaneOf(HighBits, b))
    requires Sending(PlaneOf(LowBits, a)) == Sending(PlaneOf(LowBits, b))
    ensures a == b
  {
    forall plane | Sending(PlaneOf(plane, a)) == Sending(PlaneOf(plane, b))
      ensures PlaneOf(plane, a) == PlaneOf(plane, b)
    {
      forall i | 0 <= i < |a| / 2 ensures PlaneOf(plane, a)[i] == PlaneOf(plane, b)[i] {
        assert Sending(PlaneOf(plane, a))[i] == Sending(PlaneOf(plane, b))[i];
      }
    }
    SplitLossless(a);
    SplitLossless(b);
  }
}
