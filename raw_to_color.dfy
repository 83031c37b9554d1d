/** rawtocolor.c: a second copy of the palette and the loop that turns a
    stream of raw iteration counts into a stream of 3-byte colour samples. */
module RawToColor {
  import opened MandelH
  import opened ColorSample
  import SaveBmp

  /** COLORSUSED and MAXCOLORVAL, defined again by this program. */
  const ColorsUsed: int := 200
  const MaxColorVal: int := 255

  /** This program's own Mandelval2Color, written as straight-line code on
      the running colour index. It agrees with the copy in main.c on every
      count, so everything proved about that one (black only for zero,
      channels even and at most 254, period 200) holds for this one. */
  function Mandelval2Color(pixval: PixelVal): (c: Color24)
    ensures c == SaveBmp.Mandelval2Color(pixval)
  {
    if pixval == 0 then Black
    else
      var c1 := (pixval as int % ColorsUsed) * (MaxColorVal / ColorsUsed);
      var blue := ToU8(if c1 > MaxColorVal / 2 then MaxColorVal - c1 % MaxColorVal else c1 % MaxColorVal);
      var c2 := (c1 + MaxColorVal / 3) % MaxColorVal;
      var green := ToU8(if c2 > MaxColorVal / 2 then MaxColorVal - c2 % MaxColorVal else c2 % MaxColorVal);
      var c3 := (c2 + MaxColorVal / 3) % MaxColorVal;
      var red := ToU8(if c3 > MaxColorVal / 2 then MaxColorVal - c3 % MaxColorVal else c3 % MaxColorVal);
      Color24(ToU8(2 * blue as int), ToU8(2 * green as int), ToU8(2 * red as int))
  }

  // ---------------------------------------------------------------------
  // The stream
  // ---------------------------------------------------------------------

  /** One PIXELVAL as it lies in the input file: four bytes, least
      significant first. Decoding loses nothing: the four bytes are exactly
      the stored form of the value they decode to. */
  function DecodePixelVal(b: seq<u8>): (v: PixelVal)
    requires |b| == 4
    ensures EncodePixelVal(v) == b
  {
    var t2 := b[2] as int + 0x100 * b[3] as int;
    var t1 := b[1] as int + 0x100 * t2;
    DivModUnique(b[0] as int + 0x100 * t1, t1, b[0] as int);
    DivModUnique(t1, t2, b[1] as int);
    DivModUnique(t2, b[3] as int, b[2] as int);
    (b[0] as int + 0x100 * b[1] as int + 0x1_0000 * b[2] as int + 0x100_0000 * b[3] as int) as PixelVal
  }

  /** The four bytes a PIXELVAL is stored as, least significant first: the
      layout DecodePixelVal reads. */
  function EncodePixelVal(v: PixelVal): (b: seq<u8>)
    ensures |b| == 4
  {
    var q1 := v as int / 0x100;
    var q2 := q1 / 0x100;
    [(v as int % 0x100) as u8, (q1 % 0x100) as u8, (q2 % 0x100) as u8, (q2 / 0x100) as u8]
  }

  /** Splitting into bytes and back. */
  lemma DivModUnique(a: int, q: int, r: int)
    requires 0 <= r < 0x100 && a == 0x100 * q + r
    ensures a / 0x100 == q && a % 0x100 == r
  {
  }

  /** Decoding the stored bytes of a value gives back the value. */
  lemma DecodeEncode(v: PixelVal)
    ensures DecodePixelVal(EncodePixelVal(v)) == v
  {
    var q1 := v as int / 0x100;
    var q2 := q1 / 0x100;
    assert v as int == 0x100 * q1 + v as int % 0x100;
    assert q1 == 0x100 * q2 + q1 % 0x100;
    assert q2 == 0x100 * (q2 / 0x100) + q2 % 0x100;
  }

  /** The values of the complete 4-byte records at the front of `input`,
      in order; a trailing fragment shorter than a record yields nothing. */
  function Records(input: seq<u8>): (r: seq<PixelVal>)
    ensures |r| == |input| / 4
  {
    if |input| < 4 then [] else [DecodePixelVal(input[..4])] + Records(input[4..])
  }

  /** The k-th complete record of `input`. */
  function RecordAt(input: seq<u8>, k: int): PixelVal
    requires 0 <= k < |input| / 4
  {
    DecodePixelVal(input[4 * k..4 * k + 4])
  }

  lemma {:induction false} RecordsAt(input: seq<u8>, k: int)
    requires 0 <= k < |input| / 4
    ensures Records(input)[k] == RecordAt(input, k)
  {
    if k > 0 {
      RecordsAt(input[4..], k - 1);
      assert input[4..][4 * (k - 1)..4 * (k - 1) + 4] == input[4 * k..4 * k + 4];
    }
  }

  /** Splitting the input at a record boundary splits the records. */
  lemma {:induction false} RecordsAppend(a: seq<u8>, b: seq<u8>)
    requires |a| % 4 == 0
    ensures Records(a + b) == Records(a) + Records(b)
    decreases |a|
  {
    if |a| == 0 {
      assert a + b == b;
    } else {
      assert (a + b)[..4] == a[..4];
      assert (a + b)[4..] == a[4..] + b;
      RecordsAppend(a[4..], b);
      assert Records(a + b) == [DecodePixelVal(a[..4])] + Records(a[4..] + b);
      assert Records(a) == [DecodePixelVal(a[..4])] + Records(a[4..]);
    }
  }

  /** A trailing fragment shorter than one record adds no record. */
  lemma TrailingFragmentIgnored(a: seq<u8>, fragment: seq<u8>)
    requires |a| % 4 == 0 && |fragment| < 4
    ensures Records(a + fragment) == Records(a)
  {
    RecordsAppend(a, fragment);
  }

  /** The read-convert-write loop of main, for any colour function: each
      read that delivers a whole PIXELVAL is followed by writing its colour
      sample, and the first read that delivers no item ends the loop. The
      output is three bytes per complete record, the k-th triple being the
      colour of the k-th record. */
  method ConvertWith(palette: PixelVal -> Color24, input: seq<u8>) returns (output: seq<u8>)
    ensures output == ColorBytes(Records(input), palette)
    ensures |output| == 3 * (|input| / 4)
    ensures forall k :: 0 <= k < |input| / 4 ==>
      && output[3 * k] == palette(RecordAt(input, k)).blue
      && output[3 * k + 1] == palette(RecordAt(input, k)).green
      && output[3 * k + 2] == palette(RecordAt(input, k)).red
  {
    output := [];
    var pos := 0;
    while true
      invariant 0 <= pos <= |input| && pos % 4 == 0
      invariant output == ColorBytes(Records(input[..pos]), palette)
      decreases |input| - pos
    {
      // fread of one item of four bytes: 1 if four bytes remain, else 0
      var read := if |input| - pos >= 4 then 1 else 0;
      if read == 0 {
        break;
      }
      var pixelval := DecodePixelVal(input[pos..pos + 4]);
      var colorval := palette(pixelval);
      NextRecord(input, pos, palette);
      output := output + Bytes(colorval);
      pos := pos + 4;
    }
    LastRecord(input, pos);
    RecordColors(input, palette);
  }

  /** One more complete record read at `pos` appends its colour. */
  lemma NextRecord(input: seq<u8>, pos: int, palette: PixelVal -> Color24)
    requires 0 <= pos && pos % 4 == 0 && pos + 4 <= |input|
    ensures ColorBytes(Records(input[..pos + 4]), palette)
      == ColorBytes(Records(input[..pos]), palette) + Bytes(palette(DecodePixelVal(input[pos..pos + 4])))
  {
    var pixelval := DecodePixelVal(input[pos..pos + 4]);
    RecordsAppend(input[..pos], input[pos..pos + 4]);
    assert input[..pos] + input[pos..pos + 4] == input[..pos + 4];
    assert Records(input[pos..pos + 4]) == [pixelval];
    ColorBytesSnoc(Records(input[..pos]), pixelval, palette);
  }

  /** When fewer than four bytes remain, the records read so far are all
      the records of the input. */
  lemma LastRecord(input: seq<u8>, pos: int)
    requires 0 <= pos <= |input| && pos % 4 == 0 && |input| - pos < 4
    ensures Records(input[..pos]) == Records(input)
  {
    TrailingFragmentIgnored(input[..pos], input[pos..]);
    assert input[..pos] + input[pos..] == input;
  }

  /** The colour stream of the records of `input`, triple by triple. */
  lemma RecordColors(input: seq<u8>, palette: PixelVal -> Color24)
    ensures |ColorBytes(Records(input), palette)| == 3 * (|input| / 4)
    ensures forall k :: 0 <= k < |input| / 4 ==>
      && ColorBytes(Records(input), palette)[3 * k] == palette(RecordAt(input, k)).blue
      && ColorBytes(Records(input), palette)[3 * k + 1] == palette(RecordAt(input, k)).green
      && ColorBytes(Records(input), palette)[3 * k + 2] == palette(RecordAt(input, k)).red
  {
    forall k | 0 <= k < |input| / 4
      ensures ColorBytes(Records(input), palette)[3 * k] == palette(RecordAt(input, k)).blue
      ensures ColorBytes(Records(input), palette)[3 * k + 1] == palette(RecordAt(input, k)).green
      ensures ColorBytes(Records(input), palette)[3 * k + 2] == palette(RecordAt(input, k)).red
    {
      RecordsAt(input, k);
      ColorBytesAt(Records(input), palette, k);
    }
  }

  /** rawtocolor's conversion, which colours with its own Mandelval2Color. */
  method Convert(input: seq<u8>) returns (output: seq<u8>)
    ensures output == ColorBytes(Records(input), Mandelval2Color)
    ensures |output| == 3 * (|input| / 4)
    ensures forall k :: 0 <= k < |input| / 4 ==>
      && output[3 * k] == Mandelval2Color(RecordAt(input, k)).blue
      && output[3 * k + 1] == Mandelval2Color(RecordAt(input, k)).green
      && output[3 * k + 2] == Mandelval2Color(RecordAt(input, k)).red
  {
    output := ConvertWith(Mandelval2Color, input);
  }

  /** A file holding one zero PIXELVAL converts to three zero bytes. */
  lemma OneZeroValue()
    ensures ColorBytes(Records([0, 0, 0, 0]), Mandelval2Color) == [0, 0, 0]
  {
    var input: seq<u8> := [0, 0, 0, 0];
    assert input[4..] == [];
    assert Records(input) == [0];
    assert ColorBytes([0], Mandelval2Color) == ColorBytes([], Mandelval2Color) + Bytes(Black);
  }

  /** The raw converter and SavePic's buffer fill produce the same bytes for
      the same counts. */
  lemma SameBytesAsSavePic(vals: seq<PixelVal>)
    ensures ColorBytes(vals, Mandelval2Color) == ColorBytes(vals, SaveBmp.Mandelval2Color)
  {
    ColorBytesSamePalette(vals, Mandelval2Color, SaveBmp.Mandelval2Color);
  }
}
