/** COLOR24BIT, the 3-byte colour sample both programs write, and the byte
    stream obtained by colouring a sequence of iteration counts one by one. */
module ColorSample {
  import opened MandelH

  /** Blue, green, red: the field order of COLOR24BIT and so its byte order. */
  datatype Color24 = Color24(blue: u8, green: u8, red: u8)

  const Black := Color24(0, 0, 0)

  /** The three bytes of a sample as they lie in memory. */
  function Bytes(c: Color24): (r: seq<u8>)
    ensures |r| == 3 && r[0] == c.blue && r[1] == c.green && r[2] == c.red
  {
    [c.blue, c.green, c.red]
  }

  /** The bytes emitted when each value of `vals`, in order, is turned into
      one colour sample by `palette` and its three bytes are appended. */
  function ColorBytes(vals: seq<PixelVal>, palette: PixelVal -> Color24): (r: seq<u8>)
    ensures |r| == 3 * |vals|
  {
    if vals == [] then []
    else ColorBytes(vals[..|vals| - 1], palette) + Bytes(palette(vals[|vals| - 1]))
  }

  /** Appending one value appends exactly its three bytes. */
  lemma ColorBytesSnoc(vals: seq<PixelVal>, v: PixelVal, palette: PixelVal -> Color24)
    ensures ColorBytes(vals + [v], palette) == ColorBytes(vals, palette) + Bytes(palette(v))
  {
    assert (vals + [v])[..|vals + [v]| - 1] == vals;
  }

  /** The k-th triple of the stream is the colour of the k-th value: order is kept. */
  lemma {:induction false} ColorBytesAt(vals: seq<PixelVal>, palette: PixelVal -> Color24, k: int)
    requires 0 <= k < |vals|
    ensures |ColorBytes(vals, palette)| == 3 * |vals|
    ensures ColorBytes(vals, palette)[3 * k] == palette(vals[k]).blue
    ensures ColorBytes(vals, palette)[3 * k + 1] == palette(vals[k]).green
    ensures ColorBytes(vals, palette)[3 * k + 2] == palette(vals[k]).red
  {
    var init := vals[..|vals| - 1];
    if k < |vals| - 1 {
      ColorBytesAt(init, palette, k);
      assert init[k] == vals[k];
    }
  }

  /** Colouring is a streaming transform: the stream of a concatenation is
      the concatenation of the streams. */
  lemma {:induction false} ColorBytesAppend(a: seq<PixelVal>, b: seq<PixelVal>, palette: PixelVal -> Color24)
    ensures ColorBytes(a + b, palette) == ColorBytes(a, palette) + ColorBytes(b, palette)
    decreases |b|
  {
    if b == [] {
      assert a + b == a;
    } else {
      var b' := b[..|b| - 1];
      var v := b[|b| - 1];
      assert b == b' + [v];
      assert a + b == (a + b') + [v];
      ColorBytesSnoc(a + b', v, palette);
      ColorBytesAppend(a, b', palette);
      ColorBytesSnoc(b', v, palette);
    }
  }

  /** Two palettes that agree on every value give the same stream. */
  lemma {:induction false} ColorBytesSamePalette(vals: seq<PixelVal>, f: PixelVal -> Color24, g: PixelVal -> Color24)
    requires forall v :: f(v) == g(v)
    ensures ColorBytes(vals, f) == ColorBytes(vals, g)
  {
    if vals != [] {
      ColorBytesSamePalette(vals[..|vals| - 1], f, g);
    }
  }
}
