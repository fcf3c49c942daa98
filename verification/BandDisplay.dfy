/** The UC81xx display (epd_shield_uc81xx_display.c): a queue of strings, rendered band by band through a
    buffer of 16 rows, each band written to the panel before the next is drawn. */
module BandDisplay {
  import opened PaintSpec
  import opened Paint

  const PAINT_BAND_ROWS: nat := 16
  const PAINT_CMD_MAX: nat := 8
  const TEXT_MAX: nat := 63
  const ENOMEM: int := -12

  datatype PaintCmd = PaintCmd(text: seq<int>, x: nat, y: nat)

  /** The panel's whole frame, as the layout of a buffer without bands. */
  function FullFrame(l: Layout): Layout { l.(bandHeight := 0, bandStart := 0) }

  predicate SceneOk(font: Font, cmds: seq<PaintCmd>) {
    forall cmd | cmd in cmds :: cmd.text != [] && Printable(font, cmd.text)
  }

  /** Logical points blackened by some string of the list. */
  predicate SceneCovers(l: Layout, font: Font, cmds: seq<PaintCmd>, p: (int, int)) {
    cmds != [] &&
    (SceneCovers(l, font, cmds[..|cmds| - 1], p) ||
     TextCovers(l, font, cmds[|cmds| - 1].text, cmds[|cmds| - 1].x, cmds[|cmds| - 1].y, p))
  }

  /** No string is left out, and the order does not matter. */
  lemma {:induction false} SceneIs(l: Layout, font: Font, cmds: seq<PaintCmd>, p: (int, int))
    ensures SceneCovers(l, font, cmds, p) <==>
            exists cmd | cmd in cmds :: TextCovers(l, font, cmd.text, cmd.x, cmd.y, p)
  {
    if cmds != [] {
      var before, last := cmds[..|cmds| - 1], cmds[|cmds| - 1];
      SceneIs(l, font, before, p);
      assert cmds == before + [last];
    }
  }

  /** The buffer shows exactly the strings, black on white. */
  ghost predicate Shows(l: Layout, font: Font, cmds: seq<PaintCmd>, buf: seq<bv8>) {
    && Fits(l, buf)
    && forall px, py | InBuffer(l, px, py) :: Pixel(l, buf, px, py) == SceneCovers(l, font, cmds, l.Logical(px, py))
  }

  lemma ShownUnique(l: Layout, font: Font, cmds: seq<PaintCmd>, a: seq<bv8>, b: seq<bv8>)
    requires Shows(l, font, cmds, a) && Shows(l, font, cmds, b)
    ensures a == b
  {
    SamePixels(l, a, b);
  }

  // ---------- a band is a slice of the frame ----------

  lemma {:induction false} TextInAnyBand(l: Layout, font: Font, s: seq<int>, x: int, y: int, p: (int, int))
    ensures TextCovers(l, font, s, x, y, p) == TextCovers(FullFrame(l), font, s, x, y, p)
  {
    if s != [] {
      TextInAnyBand(l, font, s[1..], x + font.width, y, p);
    }
  }

  lemma {:induction false} SceneInAnyBand(l: Layout, font: Font, cmds: seq<PaintCmd>, p: (int, int))
    ensures SceneCovers(l, font, cmds, p) == SceneCovers(FullFrame(l), font, cmds, p)
  {
    if cmds != [] {
      var last := cmds[|cmds| - 1];
      SceneInAnyBand(l, font, cmds[..|cmds| - 1], p);
      TextInAnyBand(l, font, last.text, last.x, last.y, p);
    }
  }

  /** Two buffers whose rows r and r' show the same pixels hold the same bytes there. */
  lemma SameRow(l: Layout, a: seq<bv8>, l': Layout, b: seq<bv8>, py: int, c: nat)
    requires Fits(l, a) && Fits(l', b) && FullFrame(l) == FullFrame(l') && c < l.Stride()
    requires l.Top() <= py < l.Top() + l.Rows() && l'.Top() <= py < l'.Top() + l'.Rows()
    requires forall px | 0 <= px < l.width :: Pixel(l, a, px, py) == Pixel(l', b, px, py)
    ensures a[ByteIndex(l, py - l.Top(), c)] == b[ByteIndex(l', py - l'.Top(), c)]
  {
    var x, y := a[ByteIndex(l, py - l.Top(), c)], b[ByteIndex(l', py - l'.Top(), c)];
    forall j: nat | j < 8 ensures BitAt(x, j) == BitAt(y, j) {
      var px := 8 * c + if l.msbFirst then 7 - j else j;
      assert px / 8 == c && BitIndex(l, px) == j && 0 <= px < l.width;
      assert Pixel(l, a, px, py) == Pixel(l', b, px, py);
    }
    SameBits(x, y);
  }

  /** Rows [y, y + n) of a full frame. */
  function RowsOf(l: Layout, frame: seq<bv8>, y: nat, n: nat): seq<bv8>
    requires |frame| == l.height * l.Stride() && y + n <= l.height
  {
    RowSpan(l, y, n);
    frame[y * l.Stride()..(y + n) * l.Stride()]
  }

  lemma RowsJoin(l: Layout, frame: seq<bv8>, y: nat, n: nat, m: nat)
    requires |frame| == l.height * l.Stride() && y + n + m <= l.height
    ensures RowsOf(l, frame, y, n + m) == RowsOf(l, frame, y, n) + RowsOf(l, frame, y + n, m)
  {
    RowSpan(l, y, n);
    RowSpan(l, y + n, m);
  }

  lemma RowSpan(l: Layout, y: nat, n: nat)
    requires y + n <= l.height
    ensures y * l.Stride() <= (y + n) * l.Stride() <= l.height * l.Stride()
    ensures (y + n) * l.Stride() == y * l.Stride() + n * l.Stride()
  {
    assert (y + n) * l.Stride() == y * l.Stride() + n * l.Stride();
    assert l.height * l.Stride() == (y + n) * l.Stride() + (l.height - (y + n)) * l.Stride();
  }

  lemma BandByte(l: Layout, font: Font, cmds: seq<PaintCmd>, band: seq<bv8>, frame: seq<bv8>, r: nat, c: nat)
    requires r < l.bandHeight && l.bandStart + r < l.height && c < l.Stride()
    requires Shows(l, font, cmds, band) && Shows(FullFrame(l), font, cmds, frame)
    ensures band[ByteIndex(l, r, c)] == frame[ByteIndex(FullFrame(l), l.bandStart + r, c)]
  {
    var py := l.bandStart + r;
    forall px | 0 <= px < l.width ensures Pixel(l, band, px, py) == Pixel(FullFrame(l), frame, px, py) {
      SceneInAnyBand(l, font, cmds, l.Logical(px, py));
    }
    SameRow(l, band, FullFrame(l), frame, py, c);
  }

  lemma BandAt(l: Layout, font: Font, cmds: seq<PaintCmd>, band: seq<bv8>, frame: seq<bv8>, used: nat, k: nat)
    requires used <= l.bandHeight && l.bandStart + used <= l.height && k < used * l.Stride()
    requires Shows(l, font, cmds, band) && Shows(FullFrame(l), font, cmds, frame)
    ensures k < |band| && l.bandStart * l.Stride() + k < |frame| && band[k] == frame[l.bandStart * l.Stride() + k]
  {
    var r, c := RowAndByte(l.Stride(), used, k);
    BandByte(l, font, cmds, band, frame, r, c);
    assert (l.bandStart + r) * l.Stride() == l.bandStart * l.Stride() + r * l.Stride();
  }

  /** For every direction, scan mode and band height: the used rows of a band buffer are, byte for byte,
      the rows of the full-frame buffer with the same strings. */
  lemma BandIsSlice(l: Layout, font: Font, cmds: seq<PaintCmd>, band: seq<bv8>, frame: seq<bv8>, used: nat)
    requires l.bandHeight >= 1 && used <= l.bandHeight && l.bandStart + used <= l.height
    requires Shows(l, font, cmds, band) && Shows(FullFrame(l), font, cmds, frame)
    ensures used * l.Stride() <= |band|
    ensures band[..used * l.Stride()] == RowsOf(l, frame, l.bandStart, used)
  {
    RowSpan(l, l.bandStart, used);
    RowSpan(l.(height := l.bandHeight), 0, used);
    var rows, n, at := RowsOf(l, frame, l.bandStart, used), used * l.Stride(), l.bandStart * l.Stride();
    assert |rows| == n && |band[..n]| == n;
    forall k: nat | k < n ensures band[..n][k] == rows[k] {
      BandAt(l, font, cmds, band, frame, used, k);
      assert rows[k] == frame[at + k];
    }
  }

  /** Used rows of the band that starts at row y. */
  function Used(l: Layout, y: nat): nat
    requires y <= l.height
  {
    if y + l.bandHeight <= l.height then l.bandHeight else l.height - y
  }

  /** The used rows of consecutive bands, from row y on, joined. */
  function Joined(l: Layout, bands: seq<seq<bv8>>, y: nat): seq<bv8>
    requires l.bandHeight >= 1 && y <= l.height
    requires forall b | b in bands :: |b| == l.bandHeight * l.Stride()
    decreases l.height - y
  {
    if y == l.height || bands == [] then []
    else
      RowSpanUsed(l, y);
      bands[0][..Used(l, y) * l.Stride()] + Joined(l, bands[1..], y + Used(l, y))
  }

  lemma RowSpanUsed(l: Layout, y: nat)
    requires y <= l.height
    ensures Used(l, y) * l.Stride() <= l.bandHeight * l.Stride()
  {
    assert l.bandHeight * l.Stride() == Used(l, y) * l.Stride() + (l.bandHeight - Used(l, y)) * l.Stride();
  }

  /** The band starting at row y and all later ones, each drawn through the band buffer. */
  ghost predicate BandsShow(l: Layout, font: Font, cmds: seq<PaintCmd>, bands: seq<seq<bv8>>, y: nat)
    requires l.bandHeight >= 1 && y <= l.height
    decreases l.height - y
  {
    if y == l.height then bands == []
    else
      && bands != [] && Shows(l.(bandStart := y), font, cmds, bands[0])
      && BandsShow(l, font, cmds, bands[1..], y + Used(l, y))
  }

  lemma {:induction false} BandsAreSized(l: Layout, font: Font, cmds: seq<PaintCmd>, bands: seq<seq<bv8>>, y: nat)
    requires l.bandHeight >= 1 && y <= l.height && BandsShow(l, font, cmds, bands, y)
    ensures forall b | b in bands :: |b| == l.bandHeight * l.Stride()
    decreases l.height - y
  {
    if y != l.height {
      BandsAreSized(l, font, cmds, bands[1..], y + Used(l, y));
      assert bands == [bands[0]] + bands[1..];
    }
  }

  lemma ShownLength(l: Layout, font: Font, cmds: seq<PaintCmd>, buf: seq<bv8>)
    requires Shows(l, font, cmds, buf)
    ensures |buf| == l.Size()
  {
  }

  /** Rendering band by band and joining the used rows gives the full-frame buffer with the same strings. */
  lemma {:induction false} BandsMakeTheFrame(l: Layout, font: Font, cmds: seq<PaintCmd>, bands: seq<seq<bv8>>,
                                             frame: seq<bv8>, y: nat)
    requires l.bandHeight >= 1 && y <= l.height
    requires BandsShow(l, font, cmds, bands, y) && Shows(FullFrame(l), font, cmds, frame)
    ensures forall b | b in bands :: |b| == l.bandHeight * l.Stride()
    ensures Joined(l, bands, y) == RowsOf(l, frame, y, l.height - y)
    ensures y == 0 ==> Joined(l, bands, 0) == frame
    decreases l.height - y
  {
    hide Shows;
    BandsAreSized(l, font, cmds, bands, y);
    ShownLength(FullFrame(l), font, cmds, frame);
    if y != l.height {
      var n := Used(l, y);
      BandsMakeTheFrame(l, font, cmds, bands[1..], frame, y + n);
      BandIsSlice(l.(bandStart := y), font, cmds, bands[0], frame, n);
      RowsJoin(l, frame, y, n, l.height - (y + n));
    }
  }

  // ---------- the panel after one band is written ----------

  /** Rows [y, y + n) of the frame memory replaced. */
  function Written(l: Layout, panel: seq<bv8>, y: nat, n: nat, data: seq<bv8>): (after: seq<bv8>)
    requires |panel| == l.height * l.Stride() && y + n <= l.height && |data| == n * l.Stride()
    ensures |after| == |panel|
  {
    RowSpan(l, y, n);
    panel[..y * l.Stride()] + data + panel[(y + n) * l.Stride()..]
  }

  lemma SplicedByte(panel: seq<bv8>, at: nat, data: seq<bv8>, k: nat)
    requires at + |data| <= |panel| && k < |panel|
    ensures (panel[..at] + data + panel[at + |data|..])[k] == if at <= k < at + |data| then data[k - at] else panel[k]
  {
  }

  /** Byte c of row py, against the rows from y on. */
  lemma RowOffset(stride: nat, y: nat, n: nat, py: nat, c: nat)
    requires c < stride
    ensures y <= py < y + n <==> y * stride <= py * stride + c < y * stride + n * stride
    ensures y <= py ==> py * stride == y * stride + (py - y) * stride
  {
    RowsApart(stride, py, c, y);
    if y <= py {
      assert py * stride == y * stride + (py - y) * stride;
      RowsApart(stride, py - y, c, n);
      if n <= py - y {
        assert (py - y) * stride == n * stride + (py - y - n) * stride;
      }
    }
  }

  lemma WrittenByte(l: Layout, panel: seq<bv8>, y: nat, n: nat, data: seq<bv8>, py: nat, c: nat)
    requires |panel| == l.height * l.Stride() && y + n <= l.height && |data| == n * l.Stride()
    requires py < l.height && c < l.Stride()
    ensures var k := ByteIndex(FullFrame(l), py, c);
            Written(l, panel, y, n, data)[k] ==
              if y <= py < y + n then data[ByteIndex(l.(bandHeight := n, bandStart := y), py - y, c)] else panel[k]
  {
    RowSpan(l, y, n);
    RowOffset(l.Stride(), y, n, py, c);
    SplicedByte(panel, y * l.Stride(), data, ByteIndex(FullFrame(l), py, c));
  }

  /** The first `done` rows show the strings; the others are as they were. */
  ghost predicate Rendered(l: Layout, font: Font, cmds: seq<PaintCmd>, before: seq<bv8>, panel: seq<bv8>, done: nat) {
    var full := FullFrame(l);
    && Fits(full, before) && Fits(full, panel)
    && forall px, py | InBuffer(full, px, py) ::
         Pixel(full, panel, px, py) ==
         if py < done then SceneCovers(full, font, cmds, full.Logical(px, py)) else Pixel(full, before, px, py)
  }

  lemma {:induction false} OneMoreBand(l: Layout, font: Font, cmds: seq<PaintCmd>, before: seq<bv8>, panel: seq<bv8>,
                                       band: seq<bv8>, n: nat)
    requires n <= l.bandHeight && l.bandStart + n <= l.height && l.bandHeight >= 1
    requires Rendered(l, font, cmds, before, panel, l.bandStart)
    requires Shows(l, font, cmds, band) && n * l.Stride() <= |band|
    ensures Rendered(l, font, cmds, before, Written(l, panel, l.bandStart, n, band[..n * l.Stride()]), l.bandStart + n)
  {
    var full, y, data := FullFrame(l), l.bandStart, band[..n * l.Stride()];
    var after := Written(l, panel, y, n, data);
    forall px, py | InBuffer(full, px, py)
      ensures Pixel(full, after, px, py) ==
              if py < y + n then SceneCovers(full, font, cmds, full.Logical(px, py)) else Pixel(full, before, px, py)
    {
      WrittenByte(l, panel, y, n, data, py, px / 8);
      if y <= py < y + n {
        SceneInAnyBand(l, font, cmds, l.Logical(px, py));
        assert Pixel(l, band, px, py) == Pixel(full, after, px, py);
      } else {
        assert Pixel(full, after, px, py) == Pixel(full, panel, px, py);
      }
    }
  }

  /** Fill the canvas with white and replay the strings, as each band's inner loop does. The canvas may
      have bands of any height, or none: then the buffer is the full frame. */
  method DrawScene(canvas: Canvas, font: Font, scene: seq<PaintCmd>)
    requires canvas.Valid() && SceneOk(font, scene)
    modifies canvas.buffer
    ensures canvas.Valid() && Shows(canvas.L(), font, scene, canvas.Bytes())
  {
    canvas.Fill(White);
    ghost var l, white := canvas.L(), canvas.Bytes();
    ghost var drawn: (int, int) -> bool := (px, py) => false;
    for i := 0 to |scene|
      invariant canvas.Valid() && canvas.L() == l && Painted(l, white, canvas.Bytes(), true, drawn)
      invariant forall px, py :: drawn(px, py) == SceneCovers(l, font, scene[..i], l.Logical(px, py))
    {
      var cmd := scene[i];
      ghost var (most, drawn') := (canvas.Bytes(), drawn);
      canvas.DrawString(cmd.text, font, Black, cmd.x, cmd.y);
      drawn := (px, py) => drawn'(px, py) || TextCovers(l, font, cmd.text, cmd.x, cmd.y, l.Logical(px, py));
      PaintedThen(l, white, most, canvas.Bytes(), true, drawn',
        (px, py) => TextCovers(l, font, cmd.text, cmd.x, cmd.y, l.Logical(px, py)), drawn);
      assert scene[..i + 1][..i] == scene[..i];
    }
    assert scene[..|scene|] == scene;
  }

  class Shield {
    const canvas: Canvas
    const font: Font
    var cmds: seq<PaintCmd>  // paint_cmds[..paint_cmd_count]
    var panel: seq<bv8>      // frame memory behind display_write

    ghost function L(): Layout
      reads this, canvas
    {
      canvas.L()
    }

    ghost predicate Valid()
      reads this, canvas
    {
      && canvas.Valid() && canvas.bandHeight == PAINT_BAND_ROWS
      && Fits(FullFrame(L()), panel)
      && SceneOk(font, cmds) && |cmds| <= PAINT_CMD_MAX
    }

    constructor (canvas: Canvas, font: Font, panel: seq<bv8>)
      requires canvas.Valid() && canvas.bandHeight == PAINT_BAND_ROWS && Fits(FullFrame(canvas.L()), panel)
      ensures Valid() && this.canvas == canvas && this.font == font && cmds == [] && this.panel == panel
    {
      this.canvas, this.font, this.panel, cmds := canvas, font, panel, [];
    }

    /** display_print_paint: queue a string, cut to 63 characters; the queue holds 8 */
    method PrintPaint(text: seq<int>, x: nat, y: nat) returns (err: int)
      requires Valid() && text != [] && Printable(font, text)
      modifies `cmds
      ensures Valid()
      ensures err == if |old(cmds)| < PAINT_CMD_MAX then 0 else ENOMEM
      ensures cmds == if |old(cmds)| < PAINT_CMD_MAX
                      then old(cmds) + [PaintCmd(if |text| > TEXT_MAX then text[..TEXT_MAX] else text, x, y)]
                      else old(cmds)
    {
      if |cmds| >= PAINT_CMD_MAX {
        return ENOMEM;
      }
      var kept := if |text| > TEXT_MAX then text[..TEXT_MAX] else text;
      cmds := cmds + [PaintCmd(kept, x, y)];
      err := 0;
    }

    /** display_write of the band buffer's used rows */
    method WriteBand(bandY: nat, rows: nat, ghost scene: seq<PaintCmd>, ghost before: seq<bv8>)
      requires Valid() && bandY == L().bandStart && rows <= PAINT_BAND_ROWS && bandY + rows <= canvas.height
      requires Shows(L(), font, scene, canvas.Bytes()) && Rendered(L(), font, scene, before, panel, bandY)
      modifies `panel
      ensures Valid() && Rendered(L(), font, scene, before, panel, bandY + rows)
    {
      hide Rendered, Shows, SceneCovers;
      var stride := canvas.width / 8;
      RowSpan(L().(height := PAINT_BAND_ROWS), 0, rows);
      OneMoreBand(L(), font, scene, before, panel, canvas.Bytes(), rows);
      assert canvas.buffer[..rows * stride] == canvas.Bytes()[..rows * stride];
      DisplayWrite(bandY, rows, canvas.buffer[..rows * stride]);
    }

    /** display_write of the panel driver */
    method DisplayWrite(y: nat, n: nat, data: seq<bv8>)
      requires Valid() && y + n <= canvas.height && |data| == n * (canvas.width / 8)
      modifies `panel
      ensures Valid() && panel == Written(L(), old(panel), y, n, data)
    {
      RowSpan(L(), y, n);
      var stride := canvas.width / 8;
      panel := panel[..y * stride] + data + panel[(y + n) * stride..];
    }

    /** The band loop of display_update_paint, display_clear_paint and display_unassociated. `fault(y)` is
        what display_write returns for the band at row y; the loop stops at the first error. */
    method RenderBands(scene: seq<PaintCmd>, fault: nat -> int) returns (err: int, ghost done: nat)
      requires Valid() && SceneOk(font, scene) && canvas.height + PAINT_BAND_ROWS <= 0x1_0000
      modifies `panel, canvas`bandStart, canvas.buffer
      ensures Valid() && cmds == old(cmds) && FullFrame(L()) == old(FullFrame(L()))
      ensures done <= canvas.height && Rendered(L(), font, scene, old(panel), panel, done)
      ensures if err == 0 then done == canvas.height && Shows(FullFrame(L()), font, scene, panel)
              else done < canvas.height && err == fault(done)
    {
      err, done := 0, 0;
      var bandY: nat := 0;
      while bandY < canvas.height
        invariant Valid() && cmds == old(cmds) && FullFrame(L()) == old(FullFrame(L()))
        invariant err == 0 && done == if bandY < canvas.height then bandY else canvas.height
        invariant Rendered(L(), font, scene, old(panel), panel, done)
      {
        var rows := if bandY + PAINT_BAND_ROWS <= canvas.height then PAINT_BAND_ROWS else canvas.height - bandY;
        canvas.SetBand(bandY);
        DrawScene(canvas, font, scene);
        err := fault(bandY);
        if err != 0 {
          break;
        }
        WriteBand(bandY, rows, scene, old(panel));
        done := done + rows;
        bandY := bandY + PAINT_BAND_ROWS;
      }
    }

    /** display_update_paint */
    method UpdatePaint(fault: nat -> int) returns (err: int, ghost done: nat)
      requires Valid() && canvas.height + PAINT_BAND_ROWS <= 0x1_0000
      modifies `panel, canvas`bandStart, canvas.buffer
      ensures Valid() && cmds == old(cmds)
      ensures done <= canvas.height && Rendered(L(), font, cmds, old(panel), panel, done)
      ensures if err == 0 then Shows(FullFrame(L()), font, cmds, panel) else done < canvas.height && err == fault(done)
    {
      err, done := RenderBands(cmds, fault);
    }

    /** display_clear_paint */
    method ClearPaint(fault: nat -> int) returns (err: int, ghost done: nat)
      requires Valid() && canvas.height + PAINT_BAND_ROWS <= 0x1_0000
      modifies `cmds, `panel, canvas`bandStart, canvas.buffer
      ensures Valid() && cmds == []
      ensures done <= canvas.height && Rendered(L(), font, [], old(panel), panel, done)
      ensures if err == 0 then Shows(FullFrame(L()), font, [], panel) else done < canvas.height && err == fault(done)
    {
      cmds := [];
      err, done := RenderBands([], fault);
    }

    /** display_unassociated, given its six strings */
    method Unassociated(lines: seq<seq<int>>, fault: nat -> int) returns (err: int, ghost done: nat)
      requires Valid() && canvas.height + PAINT_BAND_ROWS <= 0x1_0000
      requires |lines| == 6 && forall s | s in lines :: s != [] && Printable(font, s)
      modifies `panel, canvas`bandStart, canvas.buffer
      ensures Valid() && cmds == old(cmds)
      ensures var scene := seq(6, i requires 0 <= i < 6 => PaintCmd(lines[i], 10, 10 + 20 * i));
              && done <= canvas.height && Rendered(L(), font, scene, old(panel), panel, done)
              && if err == 0 then Shows(FullFrame(L()), font, scene, panel)
                 else done < canvas.height && err == fault(done)
    {
      var scene := seq(6, i requires 0 <= i < 6 => PaintCmd(lines[i], 10, 10 + 20 * i));
      forall cmd | cmd in scene ensures cmd.text != [] && Printable(font, cmd.text) {
        assert cmd.text in lines;
      }
      err, done := RenderBands(scene, fault);
    }
  }
}
