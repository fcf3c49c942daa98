/** What the one-bit framebuffer means: panels, pixels, and the regions that drawing covers.

    Coordinates come in two kinds. Logical ones are what callers draw in; physical ones are panel
    columns and rows, after the rotation and the scan mode. A buffer holds `Rows()` physical rows
    starting at row `Top()`: the whole panel, or one band of it. */
module PaintSpec {

  datatype Direction = Rot0 | Rot90 | Rot180 | Rot270

  datatype Color = White | Black | Red

  datatype Layout = Layout(
    width: nat,
    height: nat,
    dir: Direction,
    bottomUp: bool,    // PAINT_SCAN_MODE_2
    bandHeight: nat,   // 0 means the full frame
    bandStart: nat,
    msbFirst: bool,    // CONFIG_PAINT_MSB_FIRST
    blackBit: bool     // CONFIG_PAINT_WB_ON
  ) {
    function Stride(): nat { width / 8 }
    function Rows(): nat { if bandHeight != 0 then bandHeight else height }
    function Top(): nat { if bandHeight != 0 then bandStart else 0 }
    function XEnd(): nat { if dir == Rot90 || dir == Rot270 then height else width }
    function YEnd(): nat { if dir == Rot90 || dir == Rot270 then width else height }
    function Size(): nat { Rows() * Stride() }

    predicate OnPanel(px: int, py: int) { 0 <= px < width && 0 <= py < height }

    predicate Visible(x: int, y: int) { 0 <= x < XEnd() && 0 <= y < YEnd() }

    /** Physical column and row of a logical point. */
    function Place(x: int, y: int): (int, int) {
      var (px, py) := match dir
        case Rot0 => (x, y)
        case Rot90 => (width - y - 1, x)
        case Rot180 => (width - x - 1, height - y - 1)
        case Rot270 => (y, height - x - 1);
      (px, if bottomUp then height - py - 1 else py)
    }

    /** Logical point shown at a physical column and row. */
    function Logical(px: int, py: int): (int, int) {
      var row := if bottomUp then height - 1 - py else py;
      match dir
      case Rot0 => (px, row)
      case Rot90 => (row, width - 1 - px)
      case Rot180 => (width - 1 - px, height - 1 - row)
      case Rot270 => (height - 1 - row, px)
    }

    /** The two maps are inverse bijections between the visible points and the panel. */
    lemma PlaceLogical(x: int, y: int, px: int, py: int)
      ensures Place(x, y) == (px, py) <==> Logical(px, py) == (x, y)
      ensures Place(x, y) == (px, py) ==> (Visible(x, y) <==> OnPanel(px, py))
    {
    }
  }

  /** A quarter turn clockwise that ends in a frame of this width. */
  function Turned(width: nat, p: (int, int)): (int, int) { (width - 1 - p.1, p.0) }

  /** A direction is so many quarter turns clockwise; the second scan mode then turns the panel upside down. */
  lemma PlaceIsTurning(l: Layout, x: int, y: int)
    ensures var turned := match l.dir
              case Rot0 => (x, y)
              case Rot90 => Turned(l.width, (x, y))
              case Rot180 => Turned(l.width, Turned(l.height, (x, y)))
              case Rot270 => Turned(l.width, Turned(l.height, Turned(l.width, (x, y))));
            l.Place(x, y) == if l.bottomUp then (turned.0, l.height - 1 - turned.1) else turned
  {
  }

  // ---------- bits of a byte ----------

  function OneBit(k: nat): bv8
    requires k < 8
  {
    if k == 0 then 0x01 else if k == 1 then 0x02 else if k == 2 then 0x04 else if k == 3 then 0x08
    else if k == 4 then 0x10 else if k == 5 then 0x20 else if k == 6 then 0x40 else 0x80
  }

  predicate BitAt(b: bv8, k: nat)
    requires k < 8
  {
    b & OneBit(k) != 0
  }

  lemma WholeByte(k: nat)
    requires k < 8
    ensures BitAt(0xff, k) && !BitAt(0, k)
  {
  }

  lemma SameBits(a: bv8, b: bv8)
    requires forall k: nat | k < 8 :: BitAt(a, k) == BitAt(b, k)
    ensures a == b
  {
    assert BitAt(a, 0) == BitAt(b, 0) && BitAt(a, 1) == BitAt(b, 1);
    assert BitAt(a, 2) == BitAt(b, 2) && BitAt(a, 3) == BitAt(b, 3);
    assert BitAt(a, 4) == BitAt(b, 4) && BitAt(a, 5) == BitAt(b, 5);
    assert BitAt(a, 6) == BitAt(b, 6) && BitAt(a, 7) == BitAt(b, 7);
  }

  // ---------- pixels of a buffer ----------

  function BitIndex(l: Layout, px: nat): (k: nat)
    ensures k < 8
  {
    if l.msbFirst then 7 - px % 8 else px % 8
  }

  function Mask(l: Layout, px: nat): bv8 { OneBit(BitIndex(l, px)) }

  /** A byte with some of its pixels (those in `mask`) given a color. Only black differs from white on
      this plane: the source's switch sends red to its default branch. */
  function Tinted(l: Layout, b: bv8, mask: bv8, black: bool): bv8 {
    if black == l.blackBit then b | mask else b & !mask
  }

  predicate Dark(l: Layout, b: bv8, px: nat) {
    BitAt(b, BitIndex(l, px)) == l.blackBit
  }

  /** The leftmost of the eight pixels of a byte is its highest bit, or its lowest when bits are not sent first to last;
      a pixel is black when its bit is the one configured for black. */
  lemma DarkIs(l: Layout, b: bv8, px: nat)
    ensures Dark(l, b, px) <==> (((b >> (if l.msbFirst then 7 - px % 8 else px % 8)) & 1 == 1) == l.blackBit)
  {
    BitIs(b, BitIndex(l, px));
  }

  lemma BitIs(b: bv8, k: nat)
    requires k < 8
    ensures BitAt(b, k) <==> (b >> k) & 1 == 1
  {
    if k == 0 {
    } else if k == 1 {
    } else if k == 2 {
    } else if k == 3 {
    } else if k == 4 {
    } else if k == 5 {
    } else if k == 6 {
    } else {
    }
  }

  ghost predicate Fits(l: Layout, buf: seq<bv8>) {
    l.width % 8 == 0 && |buf| == l.Size()
  }

  /** Rows do not overlap. */
  lemma RowsApart(stride: nat, r: nat, c: int, r': nat)
    ensures r < r' && c < stride ==> r * stride + c < r' * stride
  {
    if r < r' {
      assert (r + 1) * stride <= r' * stride;
    }
  }

  /** Byte c of buffer row r. */
  function ByteIndex(l: Layout, r: nat, c: nat): (k: nat)
    requires r < l.Rows() && c < l.Stride()
    ensures k < l.Size()
  {
    RowsApart(l.Stride(), r, c, l.Rows());
    r * l.Stride() + c
  }

  lemma ByteIndexInjective(l: Layout, r: nat, c: nat, r': nat, c': nat)
    requires r < l.Rows() && c < l.Stride() && r' < l.Rows() && c' < l.Stride()
    requires ByteIndex(l, r, c) == ByteIndex(l, r', c')
    ensures r == r' && c == c'
  {
    RowsApart(l.Stride(), r, c, r');
    RowsApart(l.Stride(), r', c', r);
  }

  lemma RowAndByte(stride: nat, rows: nat, k: nat) returns (r: nat, c: nat)
    requires k < rows * stride
    ensures r < rows && c < stride && k == r * stride + c
  {
    r, c := k / stride, k % stride;
    RowsApart(stride, rows - 1, stride - 1, r);
  }

  /** Every byte belongs to one row. */
  lemma ByteIndexOnto(l: Layout, k: nat) returns (r: nat, c: nat)
    requires k < l.Size()
    ensures r < l.Rows() && c < l.Stride() && ByteIndex(l, r, c) == k
  {
    r, c := RowAndByte(l.Stride(), l.Rows(), k);
  }

  /** Is a panel column inside the buffer's rows? */
  predicate InBuffer(l: Layout, px: int, py: int) {
    0 <= px < l.width && l.Top() <= py < l.Top() + l.Rows()
  }

  /** Is the pixel at this panel column and row black? */
  ghost predicate Pixel(l: Layout, buf: seq<bv8>, px: int, py: int)
    requires Fits(l, buf) && InBuffer(l, px, py)
  {
    Dark(l, buf[ByteIndex(l, py - l.Top(), px / 8)], px)
  }

  /** Pixels determine the buffer. */
  lemma SamePixels(l: Layout, a: seq<bv8>, b: seq<bv8>)
    requires Fits(l, a) && Fits(l, b)
    requires forall px, py | InBuffer(l, px, py) :: Pixel(l, a, px, py) == Pixel(l, b, px, py)
    ensures a == b
  {
    forall k: nat | k < |a| ensures a[k] == b[k] {
      var r, c := ByteIndexOnto(l, k);
      forall j: nat | j < 8 ensures BitAt(a[k], j) == BitAt(b[k], j) {
        var px := 8 * c + if l.msbFirst then 7 - j else j;
        assert px / 8 == c && BitIndex(l, px) == j && InBuffer(l, px, l.Top() + r);
        assert Pixel(l, a, px, l.Top() + r) == Pixel(l, b, px, l.Top() + r);
      }
      SameBits(a[k], b[k]);
    }
  }

  // ---------- regions ----------

  /** The pixels under `hit` (given by panel column and row) turned black or white, all others kept. */
  ghost predicate Painted(l: Layout, before: seq<bv8>, after: seq<bv8>, black: bool, hit: (int, int) -> bool) {
    && Fits(l, before) && Fits(l, after)
    && forall px, py | InBuffer(l, px, py) ::
         Pixel(l, after, px, py) == if hit(px, py) then black else Pixel(l, before, px, py)
  }

  lemma PaintedUnique(l: Layout, before: seq<bv8>, a: seq<bv8>, b: seq<bv8>, black: bool,
                      hit: (int, int) -> bool, hit': (int, int) -> bool)
    requires Painted(l, before, a, black, hit) && Painted(l, before, b, black, hit')
    requires forall px, py | InBuffer(l, px, py) :: hit(px, py) == hit'(px, py)
    ensures a == b
  {
    SamePixels(l, a, b);
  }

  /** The same change, described by another region that agrees on the buffer's pixels. */
  lemma PaintedAlike(l: Layout, before: seq<bv8>, after: seq<bv8>, black: bool,
                     hit: (int, int) -> bool, hit': (int, int) -> bool)
    requires Painted(l, before, after, black, hit)
    requires forall px, py | InBuffer(l, px, py) :: hit(px, py) == hit'(px, py)
    ensures Painted(l, before, after, black, hit')
  {
  }

  lemma PaintedThen(l: Layout, a: seq<bv8>, b: seq<bv8>, c: seq<bv8>, black: bool,
                    h1: (int, int) -> bool, h2: (int, int) -> bool, h: (int, int) -> bool)
    requires Painted(l, a, b, black, h1) && Painted(l, b, c, black, h2)
    requires forall px, py | InBuffer(l, px, py) :: h(px, py) == (h1(px, py) || h2(px, py))
    ensures Painted(l, a, c, black, h)
  {
  }

  /** One byte of one row rewritten with a mask: the pixels of the mask change. */
  lemma PaintedByte(l: Layout, buf: seq<bv8>, black: bool, r: nat, c: nat, mask: bv8, hit: (int, int) -> bool)
    requires Fits(l, buf) && r < l.Rows() && c < l.Stride()
    requires forall px, py | InBuffer(l, px, py) ::
      hit(px, py) == (py == l.Top() + r && px / 8 == c && BitAt(mask, BitIndex(l, px)))
    ensures var k := ByteIndex(l, r, c);
            Painted(l, buf, buf[k := Tinted(l, buf[k], mask, black)], black, hit)
  {
    var k := ByteIndex(l, r, c);
    var after := buf[k := Tinted(l, buf[k], mask, black)];
    forall px, py | InBuffer(l, px, py)
      ensures Pixel(l, after, px, py) == if hit(px, py) then black else Pixel(l, buf, px, py)
    {
      if ByteIndex(l, py - l.Top(), px / 8) == k {
        ByteIndexInjective(l, py - l.Top(), px / 8, r, c);
        TintedBit(l, buf[k], mask, black, BitIndex(l, px));
      }
    }
  }

  lemma TintedBit(l: Layout, b: bv8, mask: bv8, black: bool, j: nat)
    requires j < 8
    ensures BitAt(Tinted(l, b, mask, black), j) == if BitAt(mask, j) then black == l.blackBit else BitAt(b, j)
  {
  }

  // ---------- addressing ----------

  /** Byte index as paint_DrawPoint computes it, whatever the width. */
  function RawByte(width: nat, r: nat, px: nat): nat { r * (width / 8) + px / 8 }

  /** Every pixel of every row lands inside buffer_size exactly when the width is a multiple of 8. */
  lemma {:induction false} AddressesInsideIff(width: nat, rows: nat)
    requires width > 0 && rows > 0
    ensures (forall r: nat, px: nat | r < rows && px < width :: RawByte(width, r, px) < rows * (width / 8))
            <==> width % 8 == 0
  {
    if width % 8 == 0 {
      forall r: nat, px: nat | r < rows && px < width ensures RawByte(width, r, px) < rows * (width / 8) {
        RowsApart(width / 8, r, px / 8, rows);
      }
    } else {
      var stride := width / 8;
      assert (rows - 1) * stride + stride == rows * stride;
      assert RawByte(width, rows - 1, width - 1) == rows * stride;
    }
  }

  /** Two different visible points that fall inside the buffer are kept in different bits. */
  lemma {:induction false} DistinctBits(l: Layout, x: int, y: int, x': int, y': int)
    requires l.width % 8 == 0
    requires l.Visible(x, y) && l.Visible(x', y') && (x, y) != (x', y')
    requires InBuffer(l, l.Place(x, y).0, l.Place(x, y).1) && InBuffer(l, l.Place(x', y').0, l.Place(x', y').1)
    ensures var (px, py), (px', py') := l.Place(x, y), l.Place(x', y');
            (ByteIndex(l, py - l.Top(), px / 8), BitIndex(l, px)) != (ByteIndex(l, py' - l.Top(), px' / 8),
                                                                      BitIndex(l, px'))
  {
    var ((px, py), (px', py')) := (l.Place(x, y), l.Place(x', y'));
    l.PlaceLogical(x, y, px, py);
    l.PlaceLogical(x', y', px', py');
    if ByteIndex(l, py - l.Top(), px / 8) == ByteIndex(l, py' - l.Top(), px' / 8) {
      ByteIndexInjective(l, py - l.Top(), px / 8, py' - l.Top(), px' / 8);
      assert px % 8 != px' % 8;
    }
  }
}
