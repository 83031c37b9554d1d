/** main.c: the palette Mandelval2Color, the header field values SavePic
    assigns, and the loop that fills the pixel buffer. */
module SaveBmp {
  import opened MandelH
  import opened ColorSample
  import GridArith

  /** COLORSUSED and MAXCOLORVAL. */
  const ColorsUsed: int := 200
  const MaxColorVal: int := 255

  // ---------------------------------------------------------------------
  // The palette
  // ---------------------------------------------------------------------

  /** The colour index after the spread step. The spread factor is the
      integer quotient MAXCOLORVAL / COLORSUSED, which is 1, so the index is
      just the residue of the count modulo the palette size. */
  function ColorIndex(pixval: PixelVal): (ci: int)
    ensures ci == pixval as int % ColorsUsed
    ensures 0 <= ci < ColorsUsed
  {
    (pixval as int % ColorsUsed) * (MaxColorVal / ColorsUsed)
  }

  /** The triangle rule applied to an index for each channel: indexes above
      MAXCOLORVAL / 2 are folded back down. Every index the palette passes is
      below MAXCOLORVAL, so the level never exceeds MAXCOLORVAL / 2, and it
      is zero only for index zero. */
  function Level(ci: int): (v: int)
    requires 0 <= ci < MaxColorVal
    ensures 0 <= v <= MaxColorVal / 2
    ensures v == 0 <==> ci == 0
  {
    if ci > MaxColorVal / 2 then MaxColorVal - ci % MaxColorVal else ci % MaxColorVal
  }

  /** Advancing an index by a third of the colour span. */
  function Advance(ci: int): (n: int)
    requires 0 <= ci
    ensures 0 <= n < MaxColorVal
  {
    (ci + MaxColorVal / 3) % MaxColorVal
  }

  /** The blue, green and red indexes the three channel levels come from. */
  function Indexes(pixval: PixelVal): (int, int, int)
  {
    var b := ColorIndex(pixval);
    var g := Advance(b);
    (b, g, Advance(g))
  }

  /** The channels as assigned before the final doubling. Each assignment
      of an `int` to a U8 field truncates to 8 bits, but every level fits, so
      each channel is exactly the triangle level of its index. */
  function Undoubled(pixval: PixelVal): (c: Color24)
    ensures c.blue as int == Level(Indexes(pixval).0) <= 127
    ensures c.green as int == Level(Indexes(pixval).1) <= 127
    ensures c.red as int == Level(Indexes(pixval).2) <= 127
  {
    var (b, g, r) := Indexes(pixval);
    LevelStored(b);
    LevelStored(g);
    LevelStored(r);
    Color24(ToU8(Level(b)), ToU8(Level(g)), ToU8(Level(r)))
  }

  /** `U8 *= 2`: the product is computed in `int` and stored back modulo 2^8.
      The stored value is always even, and it is the exact product for a
      value of at most 127. */
  function Doubled(v: u8): (r: u8)
    ensures r as int % 2 == 0
    ensures v <= 127 ==> r as int == 2 * v as int
  {
    ToU8(2 * v as int)
  }

  /** Mandelval2Color: black for zero, otherwise the doubled triangle levels;
      the doubling of a nonzero count's channels is exact. */
  function Mandelval2Color(pixval: PixelVal): (c: Color24)
    ensures pixval == 0 ==> c == Black
    ensures pixval != 0 ==>
      && c.blue as int == 2 * Level(Indexes(pixval).0)
      && c.green as int == 2 * Level(Indexes(pixval).1)
      && c.red as int == 2 * Level(Indexes(pixval).2)
  {
    if pixval == 0 then Black
    else
      var c := Undoubled(pixval);
      Color24(Doubled(c.blue), Doubled(c.green), Doubled(c.red))
  }

  /** Zero, the value for points in the set, is black. */
  lemma ZeroIsBlack()
    ensures Mandelval2Color(0) == Black
  {
  }

  /** The green index is the blue index plus 85 and the red index the blue
      index plus 170, both modulo 255. */
  lemma IndexesArePhaseShifted(pixval: PixelVal)
    ensures Indexes(pixval).0 == pixval as int % 200
    ensures Indexes(pixval).1 == (Indexes(pixval).0 + 85) % 255
    ensures Indexes(pixval).2 == (Indexes(pixval).0 + 170) % 255
  {
    var b := ColorIndex(pixval);
    var g := Advance(b);
    if b < 85 {
      ModSmall(b + 85, 255);
      ModSmall(b + 170, 255);
    } else if b < 170 {
      ModSmall(b + 85, 255);
      ModOnce(b + 170, 255);
    } else {
      ModOnce(b + 85, 255);
      ModSmall(g + 85, 255);
      ModOnce(b + 170, 255);
    }
  }

  /** Reduction of a value already below the modulus. */
  lemma ModSmall(a: int, m: int)
    requires 0 <= a < m
    ensures a % m == a
  {
  }

  /** Reduction of a value between one and two moduli. */
  lemma ModOnce(a: int, m: int)
    requires 0 < m <= a < 2 * m
    ensures a % m == a - m
  {
    assert a - m == (a - m) % m;
  }

  /** Doubling a level of at most 127 does not wrap. */
  lemma DoubledExact(v: u8)
    requires v <= 127
    ensures Doubled(v) as int == 2 * v as int
    ensures Doubled(v) as int % 2 == 0 && Doubled(v) <= 254
  {
  }

  /** A triangle level fits the channel it is stored in. */
  lemma LevelStored(ci: int)
    requires 0 <= ci < MaxColorVal
    ensures ToU8(Level(ci)) as int == Level(ci) <= 127
  {
  }

  /** Before doubling no channel exceeds 127, so the truncating stores are
      exact; after doubling every channel of a nonzero count is even, at most
      254, and exactly twice its undoubled level: the doubling never wraps. */
  lemma ChannelsEvenAndBounded(pixval: PixelVal)
    requires pixval != 0
    ensures var u := Undoubled(pixval);
      u.blue <= 127 && u.green <= 127 && u.red <= 127
    ensures var c, u := Mandelval2Color(pixval), Undoubled(pixval);
      && c.blue as int == 2 * u.blue as int
      && c.green as int == 2 * u.green as int
      && c.red as int == 2 * u.red as int
    ensures var c := Mandelval2Color(pixval);
      && c.blue as int % 2 == 0 && c.blue <= 254
      && c.green as int % 2 == 0 && c.green <= 254
      && c.red as int % 2 == 0 && c.red <= 254
  {
    var (b, g, r) := Indexes(pixval);
    LevelStored(b);
    LevelStored(g);
    LevelStored(r);
    var u := Undoubled(pixval);
    assert u == Color24(ToU8(Level(b)), ToU8(Level(g)), ToU8(Level(r)));
    DoubledExact(u.blue);
    DoubledExact(u.green);
    DoubledExact(u.red);
    assert Mandelval2Color(pixval) == Color24(Doubled(u.blue), Doubled(u.green), Doubled(u.red));
  }

  /** For every nonzero count the colour depends only on the count modulo 200. */
  lemma ColorIsPeriodic(n: PixelVal, m: PixelVal)
    requires n != 0 && m != 0
    requires n as int % ColorsUsed == m as int % ColorsUsed
    ensures Mandelval2Color(n) == Mandelval2Color(m)
  {
  }

  /** In particular colour(n) == colour(n + 200) for every nonzero n. */
  lemma ColorPeriod200(n: PixelVal)
    requires n != 0 && n as int + ColorsUsed < 0x1_0000_0000
    ensures Mandelval2Color(n) == Mandelval2Color((n as int + ColorsUsed) as PixelVal)
  {
    ColorIsPeriodic(n, (n as int + ColorsUsed) as PixelVal);
  }

  /** The period does not extend to zero: 200 is coloured (0, 170, 170). */
  lemma ZeroBreaksThePeriod()
    ensures Mandelval2Color(200) == Color24(0, 170, 170)
    ensures Mandelval2Color(200) != Mandelval2Color(0)
  {
    assert ColorIndex(200) == 0;
    assert Advance(0) == 85 && Advance(85) == 170;
    assert Level(0) == 0 && Level(85) == 85 && Level(170) == 85;
    assert Undoubled(200) == Color24(0, 85, 85);
  }

  /** Only zero is black. Blue is zero only for colour index zero, and then
      green is 2 * 85 = 170. */
  lemma OnlyZeroIsBlack(pixval: PixelVal)
    ensures Mandelval2Color(pixval) == Black <==> pixval == 0
    ensures Mandelval2Color(pixval).blue == 0 <==> pixval as int % ColorsUsed == 0
    ensures pixval != 0 && Mandelval2Color(pixval).blue == 0 ==> Mandelval2Color(pixval).green == 170
  {
    if pixval != 0 {
      var ci := ColorIndex(pixval);
      if ci == 0 {
        assert Advance(ci) == 85;
      }
    }
  }

  // ---------------------------------------------------------------------
  // The headers
  // ---------------------------------------------------------------------

  /** BMPFILEHEADER (14 bytes on the wire). */
  datatype FileHeader = FileHeader(
    fileType: u16, fileSize: u32, reserved1: u16, reserved2: u16, bitmapOffset: u32)

  /** BITMAPHEADER (40 bytes on the wire). */
  datatype BitmapHeader = BitmapHeader(
    size: u32, width: u32, height: u32, planes: u16, bitsPerPixel: u16,
    compression: u32, sizeOfBitmap: u32, horzResolution: u32,
    vertResolution: u32, colorsUsed: u32, colorsImportant: u32)

  /** `54 + 3 * width * height` is evaluated in C `int` as
      `54 + (3 * width) * height`, so SavePic needs neither that sum nor the
      intermediate `3 * width` to overflow; width and height are C `int`s
      and sizes are non-negative. */
  predicate ValidSize(width: int, height: int)
  {
    && 0 <= width <= Int32Max && 0 <= height <= Int32Max
    && 3 * width <= Int32Max && 54 + 3 * width * height <= Int32Max
  }

  /** The file header SavePic assigns: the "BM" signature 0x4D42, no
      reserved bits, pixel data at offset 54, and a file size that is
      computed without overflow. */
  function MakeFileHeader(width: int, height: int): (f: FileHeader)
    requires ValidSize(width, height)
    ensures f.fileType == 0x4D42 && f.reserved1 == 0 && f.reserved2 == 0
    ensures f.bitmapOffset == 54
    ensures f.fileSize as int == 54 + 3 * (width * height)
  {
    GridArith.MulLe(0, 3 * width, height);
    FileHeader(0x4D42, (54 + 3 * width * height) as u32, 0, 0, 54)
  }

  /** The bitmap header SavePic assigns: 24 bits per pixel, no compression,
      resolution 1000, no palette. */
  function MakeBitmapHeader(width: int, height: int): (b: BitmapHeader)
    requires ValidSize(width, height)
    ensures b.size == 40 && b.planes == 1 && b.bitsPerPixel == 24 && b.compression == 0
    ensures b.width as int == width && b.height as int == height
    ensures b.sizeOfBitmap as int == 3 * (width * height)
    ensures b.horzResolution == 1000 && b.vertResolution == 1000
    ensures b.colorsUsed == 0 && b.colorsImportant == 0
  {
    GridArith.MulLe(0, 3 * width, height);
    BitmapHeader(40, width as u32, height as u32, 1, 24, 0,
                 (3 * width * height) as u32, 1000, 1000, 0, 0)
  }

  /** The byte counts passed to fwrite for the fields of each header, in
      the order they are written. */
  const FileHeaderWidths: seq<nat> := [2, 4, 2, 2, 4]
  const BitmapHeaderWidths: seq<nat> := [4, 4, 4, 2, 2, 4, 4, 4, 4, 4, 4]

  /** The field values in the same order. */
  function FileHeaderValues(f: FileHeader): seq<int>
  {
    [f.fileType as int, f.fileSize as int, f.reserved1 as int, f.reserved2 as int,
     f.bitmapOffset as int]
  }

  function BitmapHeaderValues(b: BitmapHeader): seq<int>
  {
    [b.size as int, b.width as int, b.height as int, b.planes as int,
     b.bitsPerPixel as int, b.compression as int, b.sizeOfBitmap as int,
     b.horzResolution as int, b.vertResolution as int, b.colorsUsed as int,
     b.colorsImportant as int]
  }

  function Sum(s: seq<nat>): nat
  {
    if s == [] then 0 else s[0] + Sum(s[1..])
  }

  lemma {:induction false} SumAppend(a: seq<nat>, b: seq<nat>)
    ensures Sum(a + b) == Sum(a) + Sum(b)
  {
    if a == [] {
      assert a + b == b;
    } else {
      assert (a + b)[1..] == a[1..] + b;
      SumAppend(a[1..], b);
    }
  }

  function Pow256(n: nat): nat
  {
    if n == 0 then 1 else 0x100 * Pow256(n - 1)
  }

  /** The file size is the 54 header bytes plus the pixel data, which is
      the data offset plus the pixel data size, three bytes per pixel; the
      dimensions are stored unchanged. */
  lemma HeaderSizes(width: int, height: int)
    requires ValidSize(width, height)
    ensures var f, b := MakeFileHeader(width, height), MakeBitmapHeader(width, height);
      && f.fileSize as int == 54 + 3 * (width * height)
      && f.fileSize as int == f.bitmapOffset as int + b.sizeOfBitmap as int
      && b.sizeOfBitmap as int == 3 * (width * height)
      && b.width as int == width && b.height as int == height
  {
    GridArith.MulLe(0, 3 * width, height);
    assert 3 * width * height == 3 * (width * height);
  }

  /** Sixteen fields are written, taking 14 + 40 = 54 bytes: the data offset
      of the file header, and 40 is the second header's own size field. */
  lemma HeaderLayout(width: int, height: int)
    requires ValidSize(width, height)
    ensures var f, b := MakeFileHeader(width, height), MakeBitmapHeader(width, height);
      && |FileHeaderWidths + BitmapHeaderWidths| == 16
      && Sum(FileHeaderWidths) == 14
      && Sum(BitmapHeaderWidths) == 40 == b.size as int
      && Sum(FileHeaderWidths + BitmapHeaderWidths) == 54 == f.bitmapOffset as int
  {
    FileHeaderBytes();
    BitmapHeaderBytes();
    SumAppend(FileHeaderWidths, BitmapHeaderWidths);
  }

  /** The file header takes 14 bytes. */
  lemma FileHeaderBytes()
    ensures Sum(FileHeaderWidths) == 14
  {
  }

  /** The bitmap header takes 40 bytes. */
  lemma BitmapHeaderBytes()
    ensures Sum(BitmapHeaderWidths) == 40
  {
  }

  /** Every value fits the number of bytes it is written with. */
  lemma FieldsFitWidths(f: FileHeader, b: BitmapHeader)
    ensures |FileHeaderValues(f)| == |FileHeaderWidths|
    ensures |BitmapHeaderValues(b)| == |BitmapHeaderWidths|
    ensures forall k :: 0 <= k < 5 ==> 0 <= FileHeaderValues(f)[k] < Pow256(FileHeaderWidths[k])
    ensures forall k :: 0 <= k < 11 ==> 0 <= BitmapHeaderValues(b)[k] < Pow256(BitmapHeaderWidths[k])
  {
    assert Pow256(2) == 0x1_0000;
    assert Pow256(4) == 0x1_0000_0000;
  }

  /** The 1x1 picture: a 57-byte file. */
  lemma OnePixelFileSize()
    ensures MakeFileHeader(1, 1).fileSize == 57
  {
  }

  // ---------------------------------------------------------------------
  // The pixel buffer
  // ---------------------------------------------------------------------

  /** The cell SavePic reads for its loop variables x and y; for x < width
      and y < height it lies inside the grid. */
  function ReadIndex(x: int, y: int, width: int, height: int): (p: int)
    requires 0 <= x < width && 0 <= y < height
    ensures 0 <= p < width * height
  {
    GridArith.LinearInRange(x, y, height, width);
    x * height + y
  }

  /** Distinct (x, y) inside the grid give distinct read indexes. */
  lemma ReadIndexInjective(x1: int, y1: int, x2: int, y2: int, width: int, height: int)
    requires 0 <= x1 < width && 0 <= y1 < height && 0 <= x2 < width && 0 <= y2 < height
    requires ReadIndex(x1, y1, width, height) == ReadIndex(x2, y2, width, height)
    ensures x1 == x2 && y1 == y2
  {
    GridArith.LinearInjective(x1, y1, x2, y2, height);
  }

  /** The three stores of one pixel: blue, green and red go to the next
      three bytes of the buffer, whose position advances past them. */
  method PutColor(data: array<u8>, pdata: int, colorval: Color24) returns (next: int)
    requires 0 <= pdata && pdata + 3 <= data.Length
    modifies data
    ensures next == pdata + 3
    ensures data[pdata] == colorval.blue
    ensures data[pdata + 1] == colorval.green
    ensures data[pdata + 2] == colorval.red
    ensures forall k :: 0 <= k < pdata ==> data[k] == old(data[k])
    ensures forall k :: next <= k < data.Length ==> data[k] == old(data[k])
  {
    data[pdata] := colorval.blue;
    next := pdata + 1;
    data[next] := colorval.green;
    next := next + 1;
    data[next] := colorval.red;
    next := next + 1;
  }

  /** One pass of SavePic's inner loop: the cells of column x, which start
      at cell `column` == x * height and are read at x * height + y for y from
      0, are appended in turn after the cells already converted, which are
      kept. */
  method FillColumn(palette: PixelVal -> Color24, width: int, height: int, x: int,
                    indata: array<PixelVal>, data: array<u8>, pdata: int,
                    column: int, ghost expected: seq<u8>)
    returns (next: int)
    requires ValidSize(width, height) && 0 <= x < width
    requires width * height <= indata.Length
    requires expected == ColorBytes(indata[..width * height], palette)
    requires column == x * height && 0 <= column && column + height <= width * height
    requires pdata == 3 * column && data.Length == |expected|
    modifies data
    ensures next == pdata + 3 * height
    ensures forall k :: 0 <= k < pdata ==> data[k] == old(data[k])
    ensures forall k :: pdata <= k < next ==> data[k] == expected[k]
    ensures forall k :: next <= k < data.Length ==> data[k] == old(data[k])
  {
    next := pdata;
    var y := 0;
    while y < height
      invariant 0 <= y <= height
      invariant next == pdata + 3 * y
      invariant forall k :: 0 <= k < pdata ==> data[k] == old(data[k])
      invariant forall k :: pdata <= k < next ==> data[k] == expected[k]
      invariant forall k :: next <= k < data.Length ==> data[k] == old(data[k])
    {
      var colorval := palette(indata[column + y]);
      ColorBytesAt(indata[..width * height], palette, column + y);
      assert indata[..width * height][column + y] == indata[column + y];
      next := PutColor(data, next, colorval);
      y := y + 1;
    }
  }

  /** The loop of SavePic that converts the grid into the pixel buffer,
      for any colour function: the buffer holds 3 * width * height bytes and,
      since x runs outside, y inside and the bytes are appended in turn while
      cell x * height + y is read, it is the colour stream of the first
      width * height cells in index order. */
  method FillPixels(palette: PixelVal -> Color24, width: int, height: int, indata: array<PixelVal>)
    returns (data: array<u8>)
    requires ValidSize(width, height)
    requires width * height <= indata.Length
    ensures data.Length == 3 * (width * height)
    ensures data[..] == ColorBytes(indata[..width * height], palette)
  {
    ghost var cells := width * height;
    GridArith.MulLe(0, width, height);
    assert 3 * width * height == 3 * cells;
    // The bytes the buffer must end up holding.
    ghost var expected := ColorBytes(indata[..cells], palette);
    data := new u8[3 * width * height];
    var pdata := 0;
    // The first cell of column x.
    var column := 0;
    var x := 0;
    while x < width
      invariant 0 <= x <= width
      invariant column == x * height && column <= cells
      invariant pdata == 3 * column
      invariant forall k :: 0 <= k < pdata ==> data[k] == expected[k]
    {
      GridArith.MulLe(x + 1, width, height);
      pdata := FillColumn(palette, width, height, x, indata, data, pdata, column, expected);
      column := column + height;
      assert column == (x + 1) * height;
      x := x + 1;
    }
    assert column == cells by {
      if width > 0 {
        assert column == width * height;
      }
    }
    assert data[..] == expected;
  }

  /** SavePic's buffer fill, which colours with Mandelval2Color. */
  method FillBitmapData(width: int, height: int, indata: array<PixelVal>) returns (data: array<u8>)
    requires ValidSize(width, height)
    requires width * height <= indata.Length
    ensures data.Length == 3 * (width * height)
    ensures data[..] == ColorBytes(indata[..width * height], Mandelval2Color)
  {
    data := FillPixels(Mandelval2Color, width, height, indata);
  }

  /** In the buffer built from cells `vals`, the three bytes at
      3 * (x * height + y) are the blue, green and red of the colour of cell
      x * height + y. */
  lemma BufferHoldsCellColors(vals: seq<PixelVal>, width: int, height: int, x: int, y: int)
    requires 0 <= x < width && 0 <= y < height && width * height <= |vals|
    ensures var buf, p := ColorBytes(vals[..width * height], Mandelval2Color), ReadIndex(x, y, width, height);
      && |buf| == 3 * (width * height)
      && buf[3 * p] == Mandelval2Color(vals[p]).blue
      && buf[3 * p + 1] == Mandelval2Color(vals[p]).green
      && buf[3 * p + 2] == Mandelval2Color(vals[p]).red
  {
    var p := ReadIndex(x, y, width, height);
    ColorBytesAt(vals[..width * height], Mandelval2Color, p);
    assert vals[..width * height][p] == vals[p];
  }
}
