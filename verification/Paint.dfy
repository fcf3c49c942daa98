/** The paint library (paint.c): points, rectangles, glyphs and strings on a one-bit framebuffer that
    may hold only a band of the panel. */
module Paint {
  import opened PaintSpec

  datatype Rect = Rect(x: nat, y: nat, width: nat, height: nat)

  /** One bitmap font: glyphs of printable characters, from ' ' on, rows padded to whole bytes. */
  datatype Font = Font(table: seq<bv8>, width: nat, height: nat) {
    function RowBytes(): nat { (width + 7) / 8 }
    function GlyphBytes(): nat { height * RowBytes() }
    predicate Has(c: int) { ' ' as int <= c && 0 <= Offset(c) && Offset(c) + GlyphBytes() <= |table| }
    function Offset(c: int): int { (c - ' ' as int) * GlyphBytes() }
  }

  predicate Printable(font: Font, s: seq<int>) { forall c | c in s :: font.Has(c) }

  // ---------- regions covered by the drawing operations, in logical coordinates ----------

  predicate InRect(rect: Rect, p: (int, int)) {
    rect.x <= p.0 < rect.x + rect.width && rect.y <= p.1 < rect.y + rect.height
  }

  predicate RectFits(l: Layout, rect: Rect) {
    rect.x + rect.width <= l.XEnd() && rect.y + rect.height <= l.YEnd()
  }

  /** Byte of the font table that holds dot (i, j) of a glyph. */
  function GlyphByte(font: Font, c: int, i: nat, j: nat): int {
    font.Offset(c) + j * font.RowBytes() + i / 8
  }

  lemma GlyphByteInside(font: Font, c: int, i: nat, j: nat)
    requires font.Has(c) && i < font.width && j < font.height
    ensures font.Offset(c) <= GlyphByte(font, c, i, j) < font.Offset(c) + font.GlyphBytes()
  {
    RowsApart(font.RowBytes(), j, i / 8, font.height);
  }

  predicate GlyphDot(font: Font, c: int, i: nat, j: nat)
    requires font.Has(c) && i < font.width && j < font.height
  {
    GlyphByteInside(font, c, i, j);
    BitAt(font.table[GlyphByte(font, c, i, j)], 7 - i % 8)
  }

  predicate CharFits(l: Layout, font: Font, x: int, y: int) {
    x + font.width <= l.XEnd() && y + font.height <= l.YEnd()
  }

  predicate CharCovers(l: Layout, font: Font, c: int, x: int, y: int, p: (int, int)) {
    && font.Has(c) && CharFits(l, font, x, y)
    && x <= p.0 < x + font.width && y <= p.1 < y + font.height
    && GlyphDot(font, c, p.0 - x, p.1 - y)
  }

  /** The dots of a glyph drawn before dot (i, j), row by row. */
  predicate GlyphSoFar(l: Layout, font: Font, c: int, x: int, y: int, i: int, j: int, p: (int, int)) {
    CharCovers(l, font, c, x, y, p) && (p.1 - y < j || (p.1 - y == j && p.0 - x < i))
  }

  ghost predicate GlyphPainted(l: Layout, before: seq<bv8>, after: seq<bv8>, black: bool,
                               font: Font, c: int, x: int, y: int, i: int, j: int) {
    Painted(l, before, after, black, (px, py) => GlyphSoFar(l, font, c, x, y, i, j, l.Logical(px, py)))
  }

  lemma GlyphGrows(l: Layout, before: seq<bv8>, most: seq<bv8>, after: seq<bv8>, black: bool,
                   font: Font, c: int, x: nat, y: nat, i: nat, j: nat)
    requires font.Has(c) && CharFits(l, font, x, y) && i < font.width && j < font.height
    requires GlyphPainted(l, before, most, black, font, c, x, y, i, j)
    requires if GlyphDot(font, c, i, j) then PointPainted(l, most, after, black, x + i, y + j) else after == most
    ensures GlyphPainted(l, before, after, black, font, c, x, y, i + 1, j)
  {
    var dot := GlyphDot(font, c, i, j);
    var new_ := (px, py) => dot && PointHits(l, x + i, y + j, px, py);
    if dot {
      PaintedAlike(l, most, after, black, (px, py) => PointHits(l, x + i, y + j, px, py), new_);
    }
    forall px, py | InBuffer(l, px, py)
      ensures GlyphSoFar(l, font, c, x, y, i + 1, j, l.Logical(px, py)) ==
              (GlyphSoFar(l, font, c, x, y, i, j, l.Logical(px, py)) || new_(px, py))
    {
      l.PlaceLogical(x + i, y + j, px, py);
    }
    PaintedThen(l, before, most, after, black, (px, py) => GlyphSoFar(l, font, c, x, y, i, j, l.Logical(px, py)),
      new_, (px, py) => GlyphSoFar(l, font, c, x, y, i + 1, j, l.Logical(px, py)));
  }

  lemma RowAfter(j: nat, n: nat)
    ensures (j + 1) * n == j * n + n
  {
  }

  lemma GlyphRowDone(l: Layout, before: seq<bv8>, after: seq<bv8>, black: bool, font: Font, c: int, x: nat, y: nat,
                     j: nat)
    requires GlyphPainted(l, before, after, black, font, c, x, y, font.width, j)
    ensures GlyphPainted(l, before, after, black, font, c, x, y, 0, j + 1)
  {
    PaintedAlike(l, before, after, black, (px, py) => GlyphSoFar(l, font, c, x, y, font.width, j, l.Logical(px, py)),
      (px, py) => GlyphSoFar(l, font, c, x, y, 0, j + 1, l.Logical(px, py)));
  }

  /** A string runs to the right until a character would pass the right edge. */
  predicate TextCovers(l: Layout, font: Font, s: seq<int>, x: int, y: int, p: (int, int)) {
    s != [] && x + font.width <= l.XEnd() &&
    (CharCovers(l, font, s[0], x, y, p) || TextCovers(l, font, s[1..], x + font.width, y, p))
  }

  /** Dot (i, j) of a glyph is bit 7 - i mod 8 of its byte; glyphs start with that of the space and have their rows
      padded to whole bytes. */
  lemma GlyphDotIs(font: Font, c: int, i: nat, j: nat)
    requires font.Has(c) && i < font.width && j < font.height
    ensures var stride := (font.width + 7) / 8;
            var k := (c - 32) * (font.height * stride) + j * stride + i / 8;
            0 <= k < |font.table| && (GlyphDot(font, c, i, j) <==> (font.table[k] >> (7 - i % 8)) & 1 == 1)
  {
    GlyphByteInside(font, c, i, j);
    BitIs(font.table[GlyphByte(font, c, i, j)], 7 - i % 8);
  }

  /** Where the k-th character of a string at x begins. */
  function CharAt(font: Font, x: int, k: nat): int { x + k * font.width }

  lemma CharsOn(font: Font, x: int, k: nat)
    ensures CharAt(font, x + font.width, k) == CharAt(font, x, k + 1) == CharAt(font, x, k) + font.width
    ensures CharAt(font, x, 0) == x
  {
  }

  /** A dot of the string: that of the character whose cell it lies in, when that cell and so all before it end on the
      panel. */
  predicate TextDot(l: Layout, font: Font, s: seq<int>, x: int, y: int, k: nat, p: (int, int))
    requires k < |s|
  {
    var at := CharAt(font, x, k);
    && font.Has(s[k]) && at + font.width <= l.XEnd() && y + font.height <= l.YEnd()
    && at <= p.0 < at + font.width && y <= p.1 < y + font.height
    && GlyphDot(font, s[k], p.0 - at, p.1 - y)
  }

  lemma {:induction false} TextIs(l: Layout, font: Font, s: seq<int>, x: int, y: int, p: (int, int))
    ensures TextCovers(l, font, s, x, y, p) <==> exists k: nat :: k < |s| && TextDot(l, font, s, x, y, k, p)
  {
    if s != [] {
      var rest, next := s[1..], x + font.width;
      TextIs(l, font, rest, next, y, p);
      hide GlyphDot;
      CharsOn(font, x, 0);
      forall k: nat | k < |rest|
        ensures TextDot(l, font, rest, next, y, k, p) == TextDot(l, font, s, x, y, k + 1, p) {
        CharsOn(font, x, k);
        assert rest[k] == s[k + 1];
      }
      assert CharCovers(l, font, s[0], x, y, p) == TextDot(l, font, s, x, y, 0, p);
      if k: nat :| k < |s| && TextDot(l, font, s, x, y, k, p) {
        Beyond(font, x, k);
        if k > 0 {
          assert TextDot(l, font, rest, next, y, k - 1, p);
        }
      }
      if k: nat :| k < |rest| && TextDot(l, font, rest, next, y, k, p) {
        assert TextDot(l, font, s, x, y, k + 1, p);
      }
    }
  }

  lemma Beyond(font: Font, x: int, k: nat)
    ensures x <= CharAt(font, x, k)
  {
  }

  // ---------- the buffer after one point, and after every point of a rectangle ----------

  lemma AllPrintable(font: Font, s: seq<int>)
    requires Printable(font, s)
    ensures forall k | 0 <= k < |s| :: font.Has(s[k])
  {
    forall k | 0 <= k < |s| ensures font.Has(s[k]) {
      assert s[k] in s;
    }
  }

  lemma PaintedNothing(l: Layout, buf: seq<bv8>, black: bool)
    requires Fits(l, buf)
    ensures Painted(l, buf, buf, black, (px, py) => false)
  {
  }

  lemma TextUnfolds(l: Layout, font: Font, s: seq<int>, k: nat, at: int, y: int)
    requires k <= |s|
    ensures forall p :: TextCovers(l, font, s[k..], at, y, p) <==>
              k < |s| && at + font.width <= l.XEnd()
              && (CharCovers(l, font, s[k], at, y, p) || TextCovers(l, font, s[k + 1..], at + font.width, y, p))
  {
    hide CharCovers;
    if k < |s| {
      assert s[k..][0] == s[k] && s[k..][1..] == s[k + 1..];
    }
  }

  ghost predicate PointHits(l: Layout, x: int, y: int, px: int, py: int) {
    l.Visible(x, y) && l.Place(x, y) == (px, py)
  }

  ghost predicate PointPainted(l: Layout, before: seq<bv8>, after: seq<bv8>, black: bool, x: int, y: int) {
    Painted(l, before, after, black, (px, py) => PointHits(l, x, y, px, py))
  }

  /** What paint_DrawPoint leaves. */
  function Plotted(l: Layout, buf: seq<bv8>, black: bool, x: nat, y: nat): (after: seq<bv8>)
    requires Fits(l, buf)
    ensures PointPainted(l, buf, after, black, x, y)
  {
    var (px, py) := l.Place(x, y);
    if l.Visible(x, y) && InBuffer(l, px, py) then
      var k := ByteIndex(l, py - l.Top(), px / 8);
      PlottedBit(l, buf, black, px, py, x, y);
      buf[k := Tinted(l, buf[k], Mask(l, px), black)]
    else
      buf
  }

  lemma PlottedValue(l: Layout, buf: seq<bv8>, black: bool, x: nat, y: nat)
    requires Fits(l, buf)
    ensures var (px, py) := l.Place(x, y);
            Plotted(l, buf, black, x, y) ==
              if l.Visible(x, y) && InBuffer(l, px, py)
              then var k := ByteIndex(l, py - l.Top(), px / 8); buf[k := Tinted(l, buf[k], Mask(l, px), black)]
              else buf
  {
  }

  lemma PlottedBit(l: Layout, buf: seq<bv8>, black: bool, px: int, py: int, x: nat, y: nat)
    requires Fits(l, buf) && l.Visible(x, y) && l.Place(x, y) == (px, py) && InBuffer(l, px, py)
    ensures var k := ByteIndex(l, py - l.Top(), px / 8);
            Painted(l, buf, buf[k := Tinted(l, buf[k], Mask(l, px), black)], black,
                    (qx, qy) => PointHits(l, x, y, qx, qy))
  {
    forall qx, qy | InBuffer(l, qx, qy)
      ensures PointHits(l, x, y, qx, qy) ==
              (qy == py && qx / 8 == px / 8 && BitAt(Mask(l, px), BitIndex(l, qx)))
    {
      MaskBit(l, px, qx);
    }
    PaintedByte(l, buf, black, py - l.Top(), px / 8, Mask(l, px), (qx, qy) => PointHits(l, x, y, qx, qy));
  }

  lemma MaskBit(l: Layout, px: nat, qx: nat)
    ensures BitAt(Mask(l, px), BitIndex(l, qx)) == (px % 8 == qx % 8)
  {
  }

  function PlottedRow(l: Layout, buf: seq<bv8>, black: bool, x: nat, y: nat, w: nat): (after: seq<bv8>)
    requires Fits(l, buf)
    ensures Painted(l, buf, after, black, (px, py) => PointsOfRect(l, Rect(x, y, w, 1), px, py))
    decreases w
  {
    if w == 0 then
      buf
    else
      var most := PlottedRow(l, buf, black, x, y, w - 1);
      var all := Plotted(l, most, black, x + w - 1, y);
      PointAndRest(l, Rect(x, y, w - 1, 1), x + w - 1, y, Rect(x, y, w, 1));
      PaintedThen(l, buf, most, all, black,
        (px, py) => PointsOfRect(l, Rect(x, y, w - 1, 1), px, py), (px, py) => PointHits(l, x + w - 1, y, px, py),
        (px, py) => PointsOfRect(l, Rect(x, y, w, 1), px, py));
      all
  }

  /** paint_DrawPoint on every point of a rectangle, row by row. */
  function PlottedRect(l: Layout, buf: seq<bv8>, black: bool, rect: Rect): (after: seq<bv8>)
    requires Fits(l, buf)
    ensures Painted(l, buf, after, black, (px, py) => PointsOfRect(l, rect, px, py))
    decreases rect.height
  {
    if rect.height == 0 then
      buf
    else
      var above := rect.(height := rect.height - 1);
      var last := Rect(rect.x, rect.y + rect.height - 1, rect.width, 1);
      var most := PlottedRect(l, buf, black, above);
      var all := PlottedRow(l, most, black, last.x, last.y, last.width);
      PaintedThen(l, buf, most, all, black,
        (px, py) => PointsOfRect(l, above, px, py), (px, py) => PointsOfRect(l, last, px, py),
        (px, py) => PointsOfRect(l, rect, px, py));
      all
  }

  /** Panel pixels shown by some visible point of the rectangle. */
  predicate PointsOfRect(l: Layout, rect: Rect, px: int, py: int) {
    var p := l.Logical(px, py);
    l.Visible(p.0, p.1) && InRect(rect, p)
  }

  lemma PointAndRest(l: Layout, most: Rect, x: nat, y: nat, all: Rect)
    requires forall p :: InRect(all, p) == (InRect(most, p) || p == (x, y))
    ensures forall px, py ::
              PointsOfRect(l, all, px, py) == (PointsOfRect(l, most, px, py) || PointHits(l, x, y, px, py))
  {
    forall px, py
      ensures PointsOfRect(l, all, px, py) == (PointsOfRect(l, most, px, py) || PointHits(l, x, y, px, py))
    {
      l.PlaceLogical(x, y, px, py);
      assert InRect(all, l.Logical(px, py)) == (InRect(most, l.Logical(px, py)) || l.Logical(px, py) == (x, y));
    }
  }

  // ---------- what paint_FillRect covers ----------

  /** Start column, start row, run length and number of runs that paint_FillRect computes. At 90 degrees
      the start column uses the rectangle's width where its height is meant. */
  function Runs(l: Layout, rect: Rect): (int, int, nat, nat) {
    match l.dir
    case Rot0 => (rect.x, rect.y, rect.width, rect.height)
    case Rot90 => (l.width - (rect.y + rect.width), rect.x, rect.height, rect.width)
    case Rot180 => (l.width - (rect.x + rect.width), l.height - (rect.y + rect.height), rect.width, rect.height)
    case Rot270 => (rect.y, l.height - (rect.x + rect.width), rect.height, rect.width)
  }

  function Flip(l: Layout, row: int): int { if l.bottomUp then l.height - row - 1 else row }

  predicate RowsCovered(l: Layout, x: int, y: int, w: int, h: int, px: int, py: int) {
    x <= px < x + w && y <= Flip(l, py) < y + h
  }

  predicate FillCovers(l: Layout, rect: Rect, px: int, py: int) {
    var (x, y, w, h) := Runs(l, rect);
    RectFits(l, rect) && RowsCovered(l, x, y, w, h, px, py)
  }

  /** paint_FillRect's guard keeps every run inside its row, except at 90 degrees, where it does so only
      under this condition, or when the rectangle has no width and so no runs. (Runs of no pixels, of a
      rectangle without height, still need a start column on the panel: with one to the left of it, the
      byte loop's bound wraps around and the loop writes.) */
  predicate RunsStayInRow(l: Layout, rect: Rect) {
    l.dir == Rot90 && RectFits(l, rect) && rect.width > 0 ==> rect.height <= rect.y + rect.width <= l.width
  }

  lemma RunsStayInRowIff(l: Layout, rect: Rect)
    requires RectFits(l, rect)
    ensures var (x, y, w, h) := Runs(l, rect);
            && ((h > 0 ==> 0 <= x && x + w <= l.width) <==> RunsStayInRow(l, rect))
            && (h == 0 ==> 0 <= x) && 0 <= y && y + h <= l.height
  {
    match l.dir
    case Rot0 =>
    case Rot90 =>
    case Rot180 =>
    case Rot270 =>
  }

  /** When a filled rectangle is the same as its points: it fits (otherwise nothing at all is filled, while
      points would be clipped one by one), and at 90 degrees it is square; or it has no visible points. */
  predicate FillIsExact(l: Layout, rect: Rect) {
    if RectFits(l, rect) then
      l.dir != Rot90 || rect.width == rect.height || rect.width == 0 || rect.height == 0
    else
      rect.width == 0 || rect.height == 0 || rect.x >= l.XEnd() || rect.y >= l.YEnd()
  }

  lemma ExactAtPixel(l: Layout, rect: Rect, px: int, py: int)
    requires FillIsExact(l, rect) && l.OnPanel(px, py)
    ensures FillCovers(l, rect, px, py) == PointsOfRect(l, rect, px, py)
  {
    match l.dir
    case Rot0 =>
    case Rot90 =>
    case Rot180 =>
    case Rot270 =>
  }

  /** Rows of a band past the bottom of the panel are never touched. */
  lemma OffPanel(l: Layout, rect: Rect, px: int, py: int)
    requires 0 <= px < l.width && py >= l.height
    requires RunsStayInRow(l, rect)
    ensures !FillCovers(l, rect, px, py) && !PointsOfRect(l, rect, px, py)
  {
    match l.dir
    case Rot0 =>
    case Rot90 =>
    case Rot180 =>
    case Rot270 =>
  }

  /** Where the condition holds, filling is drawing every point, in any band. */
  lemma FilledIsPlotted(l: Layout, before: seq<bv8>, after: seq<bv8>, black: bool, rect: Rect)
    requires FillIsExact(l, rect)
    requires RunsStayInRow(l, rect)
    requires Painted(l, before, after, black, (px, py) => FillCovers(l, rect, px, py))
    ensures after == PlottedRect(l, before, black, rect)
  {
    forall px, py | InBuffer(l, px, py) ensures FillCovers(l, rect, px, py) == PointsOfRect(l, rect, px, py) {
      if py < l.height {
        ExactAtPixel(l, rect, px, py);
      } else {
        OffPanel(l, rect, px, py);
      }
    }
    PaintedUnique(l, before, after, PlottedRect(l, before, black, rect), black,
      (px, py) => FillCovers(l, rect, px, py), (px, py) => PointsOfRect(l, rect, px, py));
  }

  /** A pixel that the filled rectangle and its points disagree on. */
  lemma InexactPixel(l: Layout, rect: Rect) returns (px: int, py: int)
    requires !FillIsExact(l, rect)
    ensures l.OnPanel(px, py) && FillCovers(l, rect, px, py) != PointsOfRect(l, rect, px, py)
  {
    if RectFits(l, rect) {
      px := if rect.width > rect.height then l.width - rect.y - 1 else l.width - (rect.y + rect.height);
      py := Flip(l, rect.x);
    } else {
      var p := l.Place(rect.x, rect.y);
      px, py := p.0, p.1;
      l.PlaceLogical(rect.x, rect.y, px, py);
    }
  }

  /** Where it does not hold, the two buffers differ, on a full frame that has none of the color yet. */
  lemma InexactShows(l: Layout, before: seq<bv8>, after: seq<bv8>, black: bool, rect: Rect)
    requires !FillIsExact(l, rect) && l.bandHeight == 0
    requires Painted(l, before, after, black, (px, py) => FillCovers(l, rect, px, py))
    requires forall px, py | InBuffer(l, px, py) :: Pixel(l, before, px, py) != black
    ensures after != PlottedRect(l, before, black, rect)
  {
    var px, py := InexactPixel(l, rect);
    var plotted := PlottedRect(l, before, black, rect);
    assert InBuffer(l, px, py);
    assert Pixel(l, after, px, py) != Pixel(l, plotted, px, py);
  }

  lemma FilledAgainstPlotted(l: Layout, before: seq<bv8>, after: seq<bv8>, black: bool, rect: Rect, clean: bool)
    requires RunsStayInRow(l, rect) && Painted(l, before, after, black, (px, py) => FillCovers(l, rect, px, py))
    requires clean ==> forall px, py | InBuffer(l, px, py) :: Pixel(l, before, px, py) != black
    ensures FillIsExact(l, rect) ==> after == PlottedRect(l, before, black, rect)
    ensures !FillIsExact(l, rect) && l.bandHeight == 0 && clean ==> after != PlottedRect(l, before, black, rect)
  {
    if FillIsExact(l, rect) {
      FilledIsPlotted(l, before, after, black, rect);
    } else if l.bandHeight == 0 && clean {
      InexactShows(l, before, after, black, rect);
    }
  }

  /** The condition is exact, on a panel of any size and for every rectangle, for the pixels of the runs that
      are computed; where a run leaves its row they are not the pixels that are written. */
  lemma FillExactIff(l: Layout, rect: Rect)
    ensures FillIsExact(l, rect) <==>
            forall px, py | l.OnPanel(px, py) :: FillCovers(l, rect, px, py) == PointsOfRect(l, rect, px, py)
  {
    if FillIsExact(l, rect) {
      forall px, py | l.OnPanel(px, py) ensures FillCovers(l, rect, px, py) == PointsOfRect(l, rect, px, py) {
        ExactAtPixel(l, rect, px, py);
      }
    } else {
      var px, py := InexactPixel(l, rect);
    }
  }

  // ---------- runs of pixels in one row ----------

  /** Pixels [x, x + n) of the panel row that row y of the scan order is kept in. */
  predicate RunCovers(l: Layout, x: int, y: int, n: int, px: int, py: int) {
    py == Flip(l, y) && x <= px < x + n
  }

  ghost predicate RunPainted(l: Layout, before: seq<bv8>, after: seq<bv8>, black: bool, x: int, y: int, n: int) {
    Painted(l, before, after, black, (px, py) => RunCovers(l, x, y, n, px, py))
  }

  lemma RunEmpty(l: Layout, buf: seq<bv8>, black: bool, x: int, y: int)
    requires Fits(l, buf)
    ensures RunPainted(l, buf, buf, black, x, y, 0)
  {
  }

  /** Byte c of a row, masked, is exactly the columns [from, to). */
  ghost predicate MaskIs(l: Layout, c: nat, mask: bv8, from: int, to: int) {
    forall px: nat :: (px / 8 == c && BitAt(mask, BitIndex(l, px))) == (from <= px < to)
  }

  lemma MaskAt(l: Layout, c: nat, mask: bv8, from: int, to: int, px: nat)
    requires MaskIs(l, c, mask, from, to)
    ensures (px / 8 == c && BitAt(mask, BitIndex(l, px))) == (from <= px < to)
  {
    var k := BitIndex(l, px);
    assert BitAt(mask, k) == BitAt(mask, BitIndex(l, px));
  }

  /** A run of n pixels grows to m by one masked write, when the mask holds exactly the new pixels. */
  lemma RunGrows(l: Layout, before: seq<bv8>, buf: seq<bv8>, black: bool, x: nat, y: int, n: nat, m: nat, c: nat,
                 mask: bv8)
    requires c < l.Stride() && n <= m && l.Top() <= Flip(l, y) < l.Top() + l.Rows()
    requires RunPainted(l, before, buf, black, x, y, n)
    requires MaskIs(l, c, mask, x + n, x + m)
    ensures var k := ByteIndex(l, Flip(l, y) - l.Top(), c);
            RunPainted(l, before, buf[k := Tinted(l, buf[k], mask, black)], black, x, y, m)
  {
    hide Pixel, Tinted, MaskIs, BitAt, BitIndex;
    var r := Flip(l, y) - l.Top();
    var k := ByteIndex(l, r, c);
    var after := buf[k := Tinted(l, buf[k], mask, black)];
    var added := (px, py) => RunCovers(l, x + n, y, m - n, px, py);
    forall px, py | InBuffer(l, px, py)
      ensures added(px, py) == (py == l.Top() + r && px / 8 == c && BitAt(mask, BitIndex(l, px)))
    {
      MaskAt(l, c, mask, x + n, x + m, px);
    }
    PaintedByte(l, buf, black, r, c, mask, added);
    PaintedThen(l, before, buf, after, black,
      (px, py) => RunCovers(l, x, y, n, px, py), added, (px, py) => RunCovers(l, x, y, m, px, py));
  }

  lemma ByteBoundary(i: nat)
    ensures (8 + (i - i % 8)) % 8 == 0 && (i % 8 == 0 ==> (i + 8) % 8 == 0)
  {
  }

  lemma OnePixelMask(l: Layout, i: nat)
    ensures MaskIs(l, i / 8, Mask(l, i), i, i + 1)
  {
    forall px: nat
      ensures (px / 8 == i / 8 && BitAt(Mask(l, i), BitIndex(l, px))) == (i <= px < i + 1)
    {
      MaskBit(l, i, px);
    }
  }

  lemma WholeByteMask(l: Layout, i: nat)
    requires i % 8 == 0
    ensures MaskIs(l, i / 8, 0xff, i, i + 8)
  {
    forall px: nat
      ensures (px / 8 == i / 8 && BitAt(0xff, BitIndex(l, px))) == (i <= px < i + 8)
    {
      WholeByte(BitIndex(l, px));
    }
  }

  /** paint_obj_t. The buffer may be longer than buffer_size; only the first buffer_size bytes are used. */
  class Canvas {
    var bottomUp: bool
    var direction: Direction
    const width: nat
    const height: nat
    var xEnd: nat
    var yEnd: nat
    const buffer: array<bv8>
    var bufferSize: nat
    const bandHeight: nat
    var bandStart: nat
    const msbFirst: bool
    const blackBit: bool

    ghost function L(): Layout
      reads this
    {
      Layout(width, height, direction, bottomUp, bandHeight, bandStart, msbFirst, blackBit)
    }

    ghost predicate Valid()
      reads this
    {
      && width % 8 == 0
      && bufferSize == L().Size() <= buffer.Length
      && xEnd == L().XEnd() && yEnd == L().YEnd()
    }

    ghost function Bytes(): (b: seq<bv8>)
      reads this, buffer
      requires Valid()
      ensures Fits(L(), b)
    {
      buffer[..bufferSize]
    }

    /** paint_Init, on an object whose other fields the caller has filled in */
    constructor (width: nat, height: nat, direction: Direction, bottomUp: bool, bandHeight: nat,
                 msbFirst: bool, blackBit: bool, buffer: array<bv8>)
      requires width % 8 == 0
      requires buffer.Length >= (if bandHeight != 0 then bandHeight else height) * (width / 8)
      ensures Valid() && this.buffer == buffer
      ensures L() == Layout(width, height, direction, bottomUp, bandHeight, 0, msbFirst, blackBit)
    {
      this.width, this.height, this.bandHeight := width, height, bandHeight;
      this.direction, this.bottomUp := direction, bottomUp;
      this.msbFirst, this.blackBit, this.buffer := msbFirst, blackBit, buffer;
      if direction == Rot90 || direction == Rot270 {
        xEnd, yEnd := height, width;
      } else {
        xEnd, yEnd := width, height;
      }
      bandStart := 0;
      bufferSize := (if bandHeight != 0 then bandHeight else height) * (width / 8);
    }

    /** paint_SetBand */
    method SetBand(y: nat)
      requires Valid()
      modifies `bandStart
      ensures Valid() && L() == old(L()).(bandStart := y)
    {
      bandStart := y;
    }

    /** paint_SetDirection */
    method SetDirection(d: Direction)
      requires Valid()
      modifies `direction, `xEnd, `yEnd
      ensures Valid() && L() == old(L()).(dir := d)
    {
      direction := d;
      if d == Rot90 || d == Rot270 {
        xEnd, yEnd := height, width;
      } else {
        xEnd, yEnd := width, height;
      }
    }

    /** paint_Fill */
    method Fill(color: Color)
      requires Valid()
      modifies buffer
      ensures Valid()
      ensures forall px, py | InBuffer(L(), px, py) :: Pixel(L(), Bytes(), px, py) == (color == Black)
    {
      var wb: bv8 := if (color == Black) == blackBit then 0xff else 0x00;
      for i := 0 to bufferSize
        invariant forall k | 0 <= k < i :: buffer[k] == wb
      {
        buffer[i] := wb;
      }
    }

    /** setcolor */
    method SetColor(index: nat, color: Color, mask: bv8)
      requires Valid() && index < bufferSize
      modifies buffer
      ensures Valid() && Bytes() == old(Bytes())[index := Tinted(L(), old(Bytes())[index], mask, color == Black)]
    {
      if (color == Black) == blackBit {
        buffer[index] := buffer[index] | mask;
      } else {
        buffer[index] := buffer[index] & !mask;
      }
    }

    /** The switch over directions and the scan mode at the head of paint_DrawPoint */
    method ToPanel(x: nat, y: nat) returns (px: nat, py: nat)
      requires Valid() && x < xEnd && y < yEnd
      ensures (px, py) == L().Place(x, y) && L().OnPanel(px, py)
    {
      match direction {
        case Rot0 => px, py := x, y;
        case Rot90 => px, py := width - y - 1, x;
        case Rot180 => px, py := width - x - 1, height - y - 1;
        case Rot270 => px, py := y, height - x - 1;
      }
      if bottomUp {
        py := height - py - 1;
      }
    }

    /** paint_DrawPoint */
    method DrawPoint(color: Color, x: nat, y: nat)
      requires Valid()
      modifies buffer
      ensures Valid() && Bytes() == Plotted(L(), old(Bytes()), color == Black, x, y)
    {
      hide Plotted, PointPainted, Painted;
      PlottedValue(L(), Bytes(), color == Black, x, y);
      if x >= xEnd || y >= yEnd {
        return;
      }
      var px, row := ToPanel(x, y);
      var r := row;
      if bandHeight != 0 {
        if row < bandStart || row >= bandStart + bandHeight {
          return;
        }
        r := row - bandStart;
      }
      assert L().Visible(x, y) && InBuffer(L(), px, row) && r == row - L().Top();
      SetColor(r * (width / 8) + px / 8, color, OneBit(if msbFirst then 7 - px % 8 else px % 8));
    }

    /** One setcolor of a run: it had n pixels in buffer row r and has m afterwards. */
    method ExtendRun(color: Color, r: nat, c: nat, mask: bv8, ghost before: seq<bv8>, ghost x: nat, ghost y: int,
                     ghost n: nat, ghost m: nat)
      requires Valid() && r < L().Rows() && r == Flip(L(), y) - L().Top() && c < L().Stride() && n <= m
      requires RunPainted(L(), before, Bytes(), color == Black, x, y, n)
      requires MaskIs(L(), c, mask, x + n, x + m)
      modifies buffer
      ensures Valid() && RunPainted(L(), before, Bytes(), color == Black, x, y, m)
    {
      hide RunPainted, MaskIs;
      assert r * (width / 8) + c == ByteIndex(L(), r, c);
      RunGrows(L(), before, Bytes(), color == Black, x, y, n, m, c, mask);
      SetColor(r * (width / 8) + c, color, mask);
    }

    /** First loop of drawHline: single bits up to the next byte boundary */
    method RunHead(color: Color, x: nat, r: nat, w: nat, ghost y: int) returns (i: nat)
      requires Valid() && r < L().Rows() && r == Flip(L(), y) - L().Top() && x + w <= width
      modifies buffer
      ensures Valid() && x <= i <= x + w && (i < x + w ==> i % 8 == 0)
      ensures RunPainted(L(), old(Bytes()), Bytes(), color == Black, x, y, i - x)
    {
      hide RunPainted, MaskIs;
      ghost var before := Bytes();
      RunEmpty(L(), before, color == Black, x, y);
      i := x;
      while i < 8 + (x - x % 8)
        invariant x <= i <= 8 + (x - x % 8) && i <= x + w
        invariant RunPainted(L(), before, Bytes(), color == Black, x, y, i - x)
      {
        if i >= x + w {
          return;
        }
        OnePixelMask(L(), i);
        ExtendRun(color, r, x / 8, OneBit(if msbFirst then 7 - i % 8 else i % 8), before, x, y, i - x, i + 1 - x);
        i := i + 1;
      }
      ByteBoundary(x);
    }

    /** Second loop of drawHline: whole bytes */
    method RunWholeBytes(color: Color, ghost x: nat, from: nat, r: nat, end: nat, ghost y: int, ghost before: seq<bv8>)
      returns (i: nat)
      requires Valid() && r < L().Rows() && r == Flip(L(), y) - L().Top() && x <= from <= end <= width
      requires from < end ==> from % 8 == 0
      requires RunPainted(L(), before, Bytes(), color == Black, x, y, from - x)
      modifies buffer
      ensures Valid() && x <= i <= end
      ensures RunPainted(L(), before, Bytes(), color == Black, x, y, i - x)
    {
      hide RunPainted, MaskIs;
      i := from;
      while i + 8 < end
        invariant x <= i <= end && (i < end ==> i % 8 == 0)
        invariant RunPainted(L(), before, Bytes(), color == Black, x, y, i - x)
      {
        WholeByteMask(L(), i);
        ByteBoundary(i);
        ExtendRun(color, r, i / 8, 0xff, before, x, y, i - x, i + 8 - x);
        i := i + 8;
      }
    }

    /** Third loop of drawHline: the remaining bits */
    method RunTail(color: Color, ghost x: nat, from: nat, r: nat, end: nat, ghost y: int, ghost before: seq<bv8>)
      requires Valid() && r < L().Rows() && r == Flip(L(), y) - L().Top() && x <= from <= end <= width
      requires RunPainted(L(), before, Bytes(), color == Black, x, y, from - x)
      modifies buffer
      ensures Valid() && RunPainted(L(), before, Bytes(), color == Black, x, y, end - x)
    {
      hide RunPainted, MaskIs;
      var i := from;
      while i < end
        invariant x <= i <= end
        invariant RunPainted(L(), before, Bytes(), color == Black, x, y, i - x)
      {
        OnePixelMask(L(), i);
        ExtendRun(color, r, i / 8, OneBit(if msbFirst then 7 - i % 8 else i % 8), before, x, y, i - x, i + 1 - x);
        i := i + 1;
      }
    }

    /** drawHline */
    method DrawHline(color: Color, x: nat, y: nat, w: nat)
      requires Valid() && y < height && x + w <= width
      modifies buffer
      ensures Valid() && RunPainted(L(), old(Bytes()), Bytes(), color == Black, x, y, w)
    {
      var r := y;
      if bottomUp {
        r := height - r - 1;
      }
      if bandHeight != 0 {
        if r < bandStart || r >= bandStart + bandHeight {
          return;
        }
        r := r - bandStart;
      }
      ghost var before := Bytes();
      var i := RunHead(color, x, r, w, y);
      i := RunWholeBytes(color, x, i, r, x + w, y, before);
      RunTail(color, x, i, r, x + w, y, before);
    }

    /** The loop of paint_FillRect: one run per row */
    method FillRows(color: Color, x: nat, y: nat, w: nat, h: nat)
      requires Valid() && (h > 0 ==> x + w <= width) && y + h <= height
      modifies buffer
      ensures Valid()
      ensures var l := L();
              Painted(l, old(Bytes()), Bytes(), color == Black, (px, py) => RowsCovered(l, x, y, w, h, px, py))
    {
      ghost var l, before, black := L(), Bytes(), color == Black;
      var i := y;
      while i < y + h
        invariant y <= i <= y + h
        invariant Painted(l, before, Bytes(), black, (px, py) => RowsCovered(l, x, y, w, i - y, px, py))
      {
        ghost var most := Bytes();
        DrawHline(color, x, i, w);
        PaintedThen(l, before, most, Bytes(), black, (px, py) => RowsCovered(l, x, y, w, i - y, px, py),
          (px, py) => RunCovers(l, x, i, w, px, py), (px, py) => RowsCovered(l, x, y, w, i + 1 - y, px, py));
        i := i + 1;
      }
    }

    /** The switch of paint_FillRect */
    method ToRuns(rect: Rect) returns (x: nat, y: nat, w: nat, h: nat)
      requires Valid() && RectFits(L(), rect) && RunsStayInRow(L(), rect)
      ensures (x, y, w, h) == Runs(L(), rect) && (h > 0 ==> x + w <= width) && y + h <= height
    {
      RunsStayInRowIff(L(), rect);
      match direction
      case Rot0 => x, y, w, h := rect.x, rect.y, rect.width, rect.height;
      case Rot90 => x, y, w, h := width - (rect.y + rect.width), rect.x, rect.height, rect.width;
      case Rot180 =>
        x, y, w, h := width - (rect.x + rect.width), height - (rect.y + rect.height), rect.width, rect.height;
      case Rot270 => x, y, w, h := rect.y, height - (rect.x + rect.width), rect.height, rect.width;
    }

    /** paint_FillRect. Callers must keep the runs inside a row at 90 degrees. */
    method FillRect(color: Color, rect: Rect)
      requires Valid() && RunsStayInRow(L(), rect)
      modifies buffer
      ensures Valid()
      ensures var l := L(); Painted(l, old(Bytes()), Bytes(), color == Black, (px, py) => FillCovers(l, rect, px, py))
      ensures FillIsExact(L(), rect) ==> Bytes() == PlottedRect(L(), old(Bytes()), color == Black, rect)
      ensures !FillIsExact(L(), rect) && bandHeight == 0
              && old(forall px, py | InBuffer(L(), px, py) :: Pixel(L(), Bytes(), px, py) != (color == Black)) ==>
                Bytes() != PlottedRect(L(), old(Bytes()), color == Black, rect)
    {
      hide Runs, RunsStayInRow, FillIsExact, PlottedRect, RowsCovered, Pixel;
      ghost var l, before, black := L(), Bytes(), color == Black;
      ghost var clean := forall px, py | InBuffer(l, px, py) :: Pixel(l, before, px, py) != black;
      if rect.x + rect.width > xEnd || rect.y + rect.height > yEnd {
        FilledAgainstPlotted(l, before, Bytes(), black, rect, clean);
        return;
      }
      var x, y, w, h := ToRuns(rect);
      FillRows(color, x, y, w, h);
      PaintedAlike(l, before, Bytes(), black,
        (px, py) => RowsCovered(l, x, y, w, h, px, py), (px, py) => FillCovers(l, rect, px, py));
      FilledAgainstPlotted(l, before, Bytes(), black, rect, clean);
    }

    /** One dot of a glyph, read through ptr */
    method DrawDot(c: int, font: Font, color: Color, x: nat, y: nat, i: nat, j: nat, ptr: nat, ghost before: seq<bv8>)
      requires Valid() && font.Has(c) && CharFits(L(), font, x, y) && i < font.width && j < font.height
      requires ptr == GlyphByte(font, c, i, j)
      requires GlyphPainted(L(), before, Bytes(), color == Black, font, c, x, y, i, j)
      modifies buffer
      ensures Valid()
      ensures GlyphPainted(L(), before, Bytes(), color == Black, font, c, x, y, i + 1, j)
    {
      hide Plotted, PointHits;
      ghost var l, most, black := L(), Bytes(), color == Black;
      GlyphByteInside(font, c, i, j);
      if font.table[ptr] & OneBit(7 - i % 8) != 0 {
        DrawPoint(color, x + i, y + j);
      }
      GlyphGrows(l, before, most, Bytes(), black, font, c, x, y, i, j);
    }

    /** One row of paint_DrawFont's loops: the inner loop, and the step over the padding of the row */
    method DrawGlyphRow(c: int, font: Font, color: Color, x: nat, y: nat, j: nat, start: nat, ghost before: seq<bv8>)
      returns (ptr: nat)
      requires Valid() && font.Has(c) && CharFits(L(), font, x, y) && j < font.height
      requires start == font.Offset(c) + j * font.RowBytes()
      requires GlyphPainted(L(), before, Bytes(), color == Black, font, c, x, y, 0, j)
      modifies buffer
      ensures Valid() && ptr == start + font.RowBytes()
      ensures GlyphPainted(L(), before, Bytes(), color == Black, font, c, x, y, 0, j + 1)
    {
      ptr := start;
      for i := 0 to font.width
        invariant ptr == start + i / 8
        invariant GlyphPainted(L(), before, Bytes(), color == Black, font, c, x, y, i, j)
      {
        DrawDot(c, font, color, x, y, i, j, ptr, before);
        if i % 8 == 7 {
          ptr := ptr + 1;
        }
      }
      if font.width % 8 != 0 {
        ptr := ptr + 1;
      }
      GlyphRowDone(L(), before, Bytes(), color == Black, font, c, x, y, j);
    }

    /** paint_DrawFont: ptr walks the glyph's bytes row by row */
    method DrawFont(c: int, font: Font, color: Color, x: nat, y: nat)
      requires Valid() && font.Has(c)
      modifies buffer
      ensures Valid()
      ensures var l := L();
              Painted(l, old(Bytes()), Bytes(), color == Black,
                      (px, py) => CharCovers(l, font, c, x, y, l.Logical(px, py)))
    {
      ghost var before := Bytes();
      if x + font.width > xEnd || y + font.height > yEnd {
        return;
      }
      var ptr := (c - ' ' as int) * (font.height * ((font.width + 7) / 8));
      for j := 0 to font.height
        invariant ptr == font.Offset(c) + j * font.RowBytes()
        invariant GlyphPainted(L(), before, Bytes(), color == Black, font, c, x, y, 0, j)
      {
        ptr := DrawGlyphRow(c, font, color, x, y, j, ptr, before);
        RowAfter(j, font.RowBytes());
      }
      ghost var l := L();
      PaintedAlike(l, before, Bytes(), color == Black,
        (px, py) => GlyphSoFar(l, font, c, x, y, 0, font.height, l.Logical(px, py)),
        (px, py) => CharCovers(l, font, c, x, y, l.Logical(px, py)));
    }

    /** paint_DrawString */
    method DrawString(s: seq<int>, font: Font, color: Color, x: nat, y: nat)
      requires Valid() && s != [] && Printable(font, s)
      modifies buffer
      ensures Valid()
      ensures var l := L();
              Painted(l, old(Bytes()), Bytes(), color == Black,
                      (px, py) => TextCovers(l, font, s, x, y, l.Logical(px, py)))
    {
      hide Painted, TextCovers, CharCovers, Printable;
      ghost var l, before, black := L(), Bytes(), color == Black;
      AllPrintable(font, s);
      PaintedNothing(l, before, black);
      var at: nat, k := x, 0;
      ghost var drawn: (int, int) -> bool := (px, py) => false;
      assert s[0..] == s;
      while k < |s|
        invariant k <= |s|
        invariant Painted(l, before, Bytes(), black, drawn)
        invariant forall px, py :: TextCovers(l, font, s, x, y, l.Logical(px, py)) ==
                                   (drawn(px, py) || TextCovers(l, font, s[k..], at, y, l.Logical(px, py)))
      {
        TextUnfolds(l, font, s, k, at, y);
        if at + font.width <= xEnd {
          ghost var (most, drawn') := (Bytes(), drawn);
          DrawFont(s[k], font, color, at, y);
          drawn := (px, py) => drawn'(px, py) || CharCovers(l, font, s[k], at, y, l.Logical(px, py));
          PaintedThen(l, before, most, Bytes(), black, drawn',
            (px, py) => CharCovers(l, font, s[k], at, y, l.Logical(px, py)), drawn);
          at := at + font.width;
          k := k + 1;
        } else {
          break;
        }
      }
      TextUnfolds(l, font, s, k, at, y);
      PaintedAlike(l, before, Bytes(), black, drawn, (px, py) => TextCovers(l, font, s, x, y, l.Logical(px, py)));
    }
  }
}
