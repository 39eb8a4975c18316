// The e-paper driver packs a frame into a black and a red bit plane; the
// dashboard's preview paints the same three colours pixel by pixel.
module Epaper {
  import opened Bytes

  const WIDTH: nat := 152
  const HEIGHT: nat := 296
  const STRIDE: nat := 19
  const FRAME_BYTES: nat := 5624

  type Rotation = r: int | r == 0 || r == 90 || r == 180 || r == 270

  datatype Format = Xrgb8888 | Rgb565 | R1

  datatype Framebuffer = Framebuffer(format: Format, bytes: seq<bv8>, pitch: nat)

  datatype Rgb = Rgb(red: u8, green: u8, blue: u8)

  datatype Colour = Black | White | Red

  // ----- geometry -----

  // The size of the frame the compositor draws.
  function LogicalWidth(rotation: Rotation): nat { if rotation == 90 || rotation == 270 then HEIGHT else WIDTH }

  function LogicalHeight(rotation: Rotation): nat { if rotation == 90 || rotation == 270 then WIDTH else HEIGHT }

  function MapPixel(rotation: Rotation, x: nat, y: nat): (nat, nat)
    requires x < WIDTH && y < HEIGHT
  {
    if rotation == 90 then (HEIGHT - 1 - y, x)
    else if rotation == 180 then (WIDTH - 1 - x, HEIGHT - 1 - y)
    else if rotation == 270 then (y, WIDTH - 1 - x)
    else (x, y)
  }

  // Turning the panel by 180 degrees more.
  function Opposite(rotation: Rotation): Rotation { (rotation + 180) % 360 }

  ghost predicate ShownAt(rotation: Rotation, sx: nat, sy: nat, x: nat, y: nat)
  {
    x < WIDTH && y < HEIGHT && MapPixel(rotation, x, y) == (sx, sy)
  }

  // Every physical pixel shows a pixel of the frame.
  lemma MapPixelInBounds(rotation: Rotation, x: nat, y: nat)
    requires x < WIDTH && y < HEIGHT
    ensures MapPixel(rotation, x, y).0 < LogicalWidth(rotation)
    ensures MapPixel(rotation, x, y).1 < LogicalHeight(rotation)
  {
  }

  // Every pixel of the frame is shown at exactly one place.
  lemma MapPixelBijective(rotation: Rotation, sx: nat, sy: nat)
    requires sx < LogicalWidth(rotation) && sy < LogicalHeight(rotation)
    ensures exists x: nat, y: nat :: ShownAt(rotation, sx, sy, x, y)
    ensures forall x: nat, y: nat, x': nat, y': nat ::
      ShownAt(rotation, sx, sy, x, y) && ShownAt(rotation, sx, sy, x', y') ==> x == x' && y == y'
  {
    var (x, y) :=
      if rotation == 90 then (sy, HEIGHT - 1 - sx)
      else if rotation == 180 then (WIDTH - 1 - sx, HEIGHT - 1 - sy)
      else if rotation == 270 then (WIDTH - 1 - sy, sx)
      else (sx, sy);
    assert ShownAt(rotation, sx, sy, x, y);
  }

  // Opposite rotations show the frame upside down.
  lemma OppositeRotation(rotation: Rotation, x: nat, y: nat)
    requires x < WIDTH && y < HEIGHT
    ensures MapPixel(Opposite(rotation), x, y) == MapPixel(rotation, WIDTH - 1 - x, HEIGHT - 1 - y)
  {
  }

  // ----- reading a pixel -----

  // BIT(7 - i)
  function Mask(i: nat): bv8
    requires i < 8
  {
    1 << (7 - i)
  }

  function At(fb: Framebuffer, offset: nat): bv8
    requires offset < |fb.bytes|
  {
    fb.bytes[offset]
  }

  function RowBytes(format: Format, width: nat): nat
  {
    match format
    case Xrgb8888 => 4 * width
    case Rgb565 => 2 * width
    case R1 => (width + 7) / 8
  }

  function RowStart(fb: Framebuffer, y: nat): nat { y * fb.pitch }

  // The buffer holds every row of the frame.
  ghost predicate Covers(fb: Framebuffer, width: nat, height: nat)
  {
    forall y: nat :: y < height ==> RowStart(fb, y) + RowBytes(fb.format, width) <= |fb.bytes|
  }

  function Read16(fb: Framebuffer, offset: nat): u16
    requires offset + 2 <= |fb.bytes|
  {
    At(fb, offset) as int + At(fb, offset + 1) as int * 0x100
  }

  function Read32(fb: Framebuffer, offset: nat): u32
    requires offset + 4 <= |fb.bytes|
  {
    Read16(fb, offset) + Read16(fb, offset + 2) * 0x1_0000
  }

  function ReadRgb(fb: Framebuffer, x: nat, y: nat): Rgb
    requires RowStart(fb, y) + RowBytes(fb.format, x + 1) <= |fb.bytes|
  {
    match fb.format
    case Xrgb8888 =>
      var pixel := Read32(fb, RowStart(fb, y) + 4 * x);
      Rgb(pixel / 0x1_0000 % 0x100, pixel / 0x100 % 0x100, pixel % 0x100)
    case Rgb565 =>
      var pixel := Read16(fb, RowStart(fb, y) + 2 * x);
      Rgb(pixel / 0x800 % 0x20 * 255 / 31, pixel / 0x20 % 0x40 * 255 / 63, pixel % 0x20 * 255 / 31)
    case R1 =>
      var value := if At(fb, RowStart(fb, y) + x / 8) & Mask(x % 8) != 0 then 255 else 0;
      Rgb(value, value, value)
  }

  // ----- the preview -----

  function Luma(p: Rgb): nat { (77 * p.red + 150 * p.green + 29 * p.blue) / 256 }

  predicate Reddish(p: Rgb) { p.red > 127 && p.red > p.green && p.red > p.blue }

  // The colour that the preview paints for a pixel.
  function Classify(p: Rgb): Colour
  {
    if Reddish(p) then Red else if Luma(p) > 127 then White else Black
  }

  // Red is a clear lead of the red channel; of the rest, greys are divided in
  // the middle and a pixel that is no darker in any channel is no darker.
  lemma ClassifyExactly(p: Rgb, q: Rgb, v: u8)
    ensures Classify(p) == Red <==> p.red >= 128 && p.red > p.green && p.red > p.blue
    ensures Classify(p) == Black <==> Classify(p) != Red && 77 * p.red + 150 * p.green + 29 * p.blue < 0x8000
    ensures Classify(Rgb(v, v, v)) == if v >= 128 then White else Black
    ensures p.red <= q.red && p.green <= q.green && p.blue <= q.blue && Classify(p) == White ==> Classify(q) != Black
  {
    assert Classify(q) != Red ==> Luma(q) >= Luma(p) || p.red > q.red || p.green > q.green || p.blue > q.blue;
  }

  function Paint(c: Colour): seq<u8>
  {
    match c
    case Red => [255, 0, 0]
    case White => [255, 255, 255]
    case Black => [0, 0, 0]
  }

  const PPM_HEADER: seq<u8> := [80, 54, 10, 50, 57, 54, 32, 49, 53, 50, 10, 50, 53, 53, 10]

  // The three bytes of pixel i of the picture.
  function PpmPixel(ppm: seq<u8>, i: nat): seq<u8>
    requires |PPM_HEADER| + 3 * i + 3 <= |ppm|
  {
    ppm[|PPM_HEADER| + 3 * i..|PPM_HEADER| + 3 * i + 3]
  }

  method RenderPreview(pixels: seq<Rgb>) returns (ppm: seq<u8>)
    ensures |ppm| == |PPM_HEADER| + 3 * |pixels| && ppm[..|PPM_HEADER|] == PPM_HEADER
    ensures forall i: nat :: i < |pixels| ==> PpmPixel(ppm, i) == Paint(Classify(pixels[i]))
  {
    ppm := PPM_HEADER;
    for index := 0 to |pixels|
      invariant |ppm| == |PPM_HEADER| + 3 * index && ppm[..|PPM_HEADER|] == PPM_HEADER
      invariant forall i: nat :: i < index ==> PpmPixel(ppm, i) == Paint(Classify(pixels[i]))
    {
      var pixel := pixels[index];
      var luma := (77 * pixel.red + 150 * pixel.green + 29 * pixel.blue) / 256;
      var colour: seq<u8> :=
        if pixel.red > 127 && pixel.red > pixel.green && pixel.red > pixel.blue then [255, 0, 0]
        else if luma > 127 then [255, 255, 255]
        else [0, 0, 0];
      ppm := ppm + colour;
    }
  }

  // ----- the planes -----

  type Plane = p: seq<bv8> | |p| == FRAME_BYTES witness seq(FRAME_BYTES, i => 0)

  function Bit(p: Plane, x: nat, y: nat): bool
    requires x < WIDTH && y < HEIGHT
  {
    p[y * STRIDE + x / 8] & Mask(x % 8) != 0
  }

  function Put(p: Plane, x: nat, y: nat): Plane
    requires x < WIDTH && y < HEIGHT
  {
    p[y * STRIDE + x / 8 := p[y * STRIDE + x / 8] | Mask(x % 8)]
  }

  // The colour the panel shows: red wins over white.
  function Shown(black: Plane, red: Plane, x: nat, y: nat): Colour
    requires x < WIDTH && y < HEIGHT
  {
    if Bit(red, x, y) then Red else if Bit(black, x, y) then White else Black
  }

  function Source(fb: Framebuffer, rotation: Rotation, x: nat, y: nat): Rgb
    requires Covers(fb, LogicalWidth(rotation), LogicalHeight(rotation)) && x < WIDTH && y < HEIGHT
  {
    var (sx, sy) := MapPixel(rotation, x, y);
    ReadRgb(fb, sx, sy)
  }

  // Bits (x, y) of the planes agree with one pixel's colour.
  ghost predicate PixelShown(black: Plane, red: Plane, x: nat, y: nat, c: Colour)
    requires x < WIDTH && y < HEIGHT
  {
    Bit(black, x, y) == (c != Black) && Bit(red, x, y) == (c == Red)
  }

  // The colour of pixel (i, j) once every pixel before (x, y) is done.
  function SoFar(fb: Framebuffer, rotation: Rotation, x: nat, y: nat, i: nat, j: nat): Colour
    requires Covers(fb, LogicalWidth(rotation), LogicalHeight(rotation)) && i < WIDTH && j < HEIGHT
  {
    if j < y || (j == y && i < x) then Classify(Source(fb, rotation, i, j)) else Black
  }

  // The planes show the frame before (x, y) in raster order, black after.
  ghost predicate ShownUpTo(black: Plane, red: Plane, fb: Framebuffer, rotation: Rotation, x: nat, y: nat)
    requires Covers(fb, LogicalWidth(rotation), LogicalHeight(rotation))
  {
    forall i: nat, j: nat :: i < WIDTH && j < HEIGHT ==>
      PixelShown(black, red, i, j, SoFar(fb, rotation, x, y, i, j))
  }

  ghost predicate ShowsFrame(black: Plane, red: Plane, fb: Framebuffer, rotation: Rotation)
    requires Covers(fb, LogicalWidth(rotation), LogicalHeight(rotation))
  {
    forall x: nat, y: nat :: x < WIDTH && y < HEIGHT ==>
      PixelShown(black, red, x, y, Classify(Source(fb, rotation, x, y)))
  }

  // Setting a pixel changes that pixel alone.
  lemma PutSetsOne(p: Plane, x: nat, y: nat, i: nat, j: nat)
    requires x < WIDTH && y < HEIGHT && i < WIDTH && j < HEIGHT
    ensures Bit(Put(p, x, y), i, j) == (Bit(p, i, j) || (i == x && j == y))
  {
    if y * STRIDE + x / 8 == j * STRIDE + i / 8 {
      assert j == y;
    }
  }

  function PutIf(p: Plane, x: nat, y: nat, lit: bool): Plane
    requires x < WIDTH && y < HEIGHT
  {
    if lit then Put(p, x, y) else p
  }

  lemma PixelColoured(black: Plane, red: Plane, x: nat, y: nat, i: nat, j: nat, c: Colour, was: Colour)
    requires x < WIDTH && y < HEIGHT && i < WIDTH && j < HEIGHT
    requires PixelShown(black, red, i, j, was) && (i == x && j == y ==> was == Black)
    ensures var now := if i == x && j == y then c else was;
      PixelShown(PutIf(black, x, y, c != Black), PutIf(red, x, y, c == Red), i, j, now)
  {
    PutSetsOne(black, x, y, i, j);
    PutSetsOne(red, x, y, i, j);
  }

  // One more pixel of the frame.
  lemma NextPixel(black: Plane, red: Plane, fb: Framebuffer, rotation: Rotation, x: nat, y: nat, c: Colour)
    requires Covers(fb, LogicalWidth(rotation), LogicalHeight(rotation))
    requires x < WIDTH && y < HEIGHT && ShownUpTo(black, red, fb, rotation, x, y)
    requires c == Classify(Source(fb, rotation, x, y))
    ensures ShownUpTo(PutIf(black, x, y, c != Black), PutIf(red, x, y, c == Red), fb, rotation, x + 1, y)
  {
    var black', red', next := PutIf(black, x, y, c != Black), PutIf(red, x, y, c == Red), x + 1;
    forall i: nat, j: nat | i < WIDTH && j < HEIGHT
      ensures PixelShown(black', red', i, j, SoFar(fb, rotation, next, y, i, j))
    {
      var was := SoFar(fb, rotation, x, y, i, j);
      assert PixelShown(black, red, i, j, was);
      PixelColoured(black, red, x, y, i, j, c, was);
    }
  }

  method Convert(black: array<bv8>, red: array<bv8>, fb: Framebuffer, rotation: Rotation)
    requires black != red && black.Length == FRAME_BYTES && red.Length == FRAME_BYTES
    requires Covers(fb, LogicalWidth(rotation), LogicalHeight(rotation))
    modifies black, red
    ensures ShowsFrame(black[..], red[..], fb, rotation)
  {
    Clear(black);
    Clear(red);
    for y := 0 to HEIGHT
      invariant ShownUpTo(black[..], red[..], fb, rotation, 0, y)
    {
      for x := 0 to WIDTH
        invariant ShownUpTo(black[..], red[..], fb, rotation, x, y)
      {
        ConvertPixel(black, red, fb, rotation, x, y);
      }
      RowDone(black[..], red[..], fb, rotation, y);
    }
    FrameDone(black[..], red[..], fb, rotation);
  }

  // The body of the inner loop.
  method ConvertPixel(black: array<bv8>, red: array<bv8>, fb: Framebuffer, rotation: Rotation, x: nat, y: nat)
    requires black != red && black.Length == FRAME_BYTES && red.Length == FRAME_BYTES
    requires Covers(fb, LogicalWidth(rotation), LogicalHeight(rotation))
    requires x < WIDTH && y < HEIGHT && ShownUpTo(black[..], red[..], fb, rotation, x, y)
    modifies black, red
    ensures ShownUpTo(black[..], red[..], fb, rotation, x + 1, y)
  {
    MapPixelInBounds(rotation, x, y);
    var (sourceX, sourceY) := MapPixel(rotation, x, y);
    var pixel := ReadRgb(fb, sourceX, sourceY);
    NextPixel(black[..], red[..], fb, rotation, x, y, Classify(pixel));
    SetPixel(black, red, pixel, x, y);
  }

  method SetPixel(black: array<bv8>, red: array<bv8>, pixel: Rgb, x: nat, y: nat)
    requires black != red && black.Length == FRAME_BYTES && red.Length == FRAME_BYTES
    requires x < WIDTH && y < HEIGHT
    modifies black, red
    ensures black[..] == PutIf(old(black[..]), x, y, Classify(pixel) != Black)
    ensures red[..] == PutIf(old(red[..]), x, y, Classify(pixel) == Red)
  {
    var luma := (77 * pixel.red + 150 * pixel.green + 29 * pixel.blue) / 256;
    if pixel.red > 127 && pixel.red > pixel.green && pixel.red > pixel.blue {
      SetBit(black, x, y);
      SetBit(red, x, y);
    } else if luma > 127 {
      SetBit(black, x, y);
    }
  }

  method SetBit(plane: array<bv8>, x: nat, y: nat)
    requires plane.Length == FRAME_BYTES && x < WIDTH && y < HEIGHT
    modifies plane
    ensures plane[..] == Put(old(plane[..]), x, y)
  {
    var output, mask := y * STRIDE + x / 8, Mask(x % 8);
    plane[output] := plane[output] | mask;
  }

  method Clear(plane: array<bv8>)
    modifies plane
    ensures forall i :: 0 <= i < plane.Length ==> plane[i] == 0
  {
    for i := 0 to plane.Length
      invariant forall k :: 0 <= k < i ==> plane[k] == 0
    {
      plane[i] := 0;
    }
  }

  lemma RowDone(black: Plane, red: Plane, fb: Framebuffer, rotation: Rotation, y: nat)
    requires Covers(fb, LogicalWidth(rotation), LogicalHeight(rotation))
    requires ShownUpTo(black, red, fb, rotation, WIDTH, y)
    ensures ShownUpTo(black, red, fb, rotation, 0, y + 1)
  {
    var next := y + 1;
    forall i: nat, j: nat | i < WIDTH && j < HEIGHT
      ensures PixelShown(black, red, i, j, SoFar(fb, rotation, 0, next, i, j))
    {
      assert PixelShown(black, red, i, j, SoFar(fb, rotation, WIDTH, y, i, j));
    }
  }

  lemma FrameDone(black: Plane, red: Plane, fb: Framebuffer, rotation: Rotation)
    requires Covers(fb, LogicalWidth(rotation), LogicalHeight(rotation))
    requires ShownUpTo(black, red, fb, rotation, 0, HEIGHT)
    ensures ShowsFrame(black, red, fb, rotation)
  {
    forall x: nat, y: nat | x < WIDTH && y < HEIGHT
      ensures PixelShown(black, red, x, y, Classify(Source(fb, rotation, x, y)))
    {
      assert PixelShown(black, red, x, y, SoFar(fb, rotation, 0, HEIGHT, x, y));
    }
  }

  // ----- what the planes mean -----

  lemma ByteFromBits(a: bv8, b: bv8)
    requires forall i: nat :: i < 8 ==> (a & Mask(i) != 0) == (b & Mask(i) != 0)
    ensures a == b
  {
    assert (a & Mask(0) != 0) == (b & Mask(0) != 0) && (a & Mask(1) != 0) == (b & Mask(1) != 0);
    assert (a & Mask(2) != 0) == (b & Mask(2) != 0) && (a & Mask(3) != 0) == (b & Mask(3) != 0);
    assert (a & Mask(4) != 0) == (b & Mask(4) != 0) && (a & Mask(5) != 0) == (b & Mask(5) != 0);
    assert (a & Mask(6) != 0) == (b & Mask(6) != 0) && (a & Mask(7) != 0) == (b & Mask(7) != 0);
  }

  // Every bit of a plane belongs to a pixel: there are no padding bits.
  lemma PlaneFromBits(p: Plane, q: Plane)
    requires forall x: nat, y: nat :: x < WIDTH && y < HEIGHT ==> Bit(p, x, y) == Bit(q, x, y)
    ensures p == q
  {
    forall k | 0 <= k < FRAME_BYTES ensures p[k] == q[k] {
      forall i: nat | i < 8 ensures (p[k] & Mask(i) != 0) == (q[k] & Mask(i) != 0) {
        var x: nat, y: nat := k % STRIDE * 8 + i, k / STRIDE;
        assert y * STRIDE + x / 8 == k && x % 8 == i;
        assert Bit(p, x, y) == Bit(q, x, y);
      }
      ByteFromBits(p[k], q[k]);
    }
  }

  // The frame determines both planes, byte for byte, whatever they held before.
  lemma PlanesDetermined(black: Plane, red: Plane, black': Plane, red': Plane, fb: Framebuffer, rotation: Rotation)
    requires Covers(fb, LogicalWidth(rotation), LogicalHeight(rotation))
    requires ShowsFrame(black, red, fb, rotation) && ShowsFrame(black', red', fb, rotation)
    ensures black == black' && red == red'
  {
    forall x: nat, y: nat | x < WIDTH && y < HEIGHT
      ensures Bit(black, x, y) == Bit(black', x, y) && Bit(red, x, y) == Bit(red', x, y)
    {
      assert PixelShown(black, red, x, y, Classify(Source(fb, rotation, x, y)));
      assert PixelShown(black', red', x, y, Classify(Source(fb, rotation, x, y)));
    }
    PlaneFromBits(black, black');
    PlaneFromBits(red, red');
  }

  // Red bits are a subset of black bits, in every byte.
  lemma RedWithinBlack(black: Plane, red: Plane, fb: Framebuffer, rotation: Rotation)
    requires Covers(fb, LogicalWidth(rotation), LogicalHeight(rotation)) && ShowsFrame(black, red, fb, rotation)
    ensures forall k :: 0 <= k < FRAME_BYTES ==> red[k] & black[k] == red[k]
  {
    forall k | 0 <= k < FRAME_BYTES ensures red[k] & black[k] == red[k] {
      forall i: nat | i < 8 ensures ((red[k] & black[k]) & Mask(i) != 0) == (red[k] & Mask(i) != 0) {
        var x: nat, y: nat := k % STRIDE * 8 + i, k / STRIDE;
        assert y * STRIDE + x / 8 == k && x % 8 == i;
        assert PixelShown(black, red, x, y, Classify(Source(fb, rotation, x, y)));
      }
      ByteFromBits(red[k] & black[k], red[k]);
    }
  }

  // ----- panel and preview -----

  // The framebuffer holds the pixels the preview rendered, row by row.
  ghost predicate HoldsPixels(fb: Framebuffer, pixels: seq<Rgb>, width: nat, height: nat)
    requires Covers(fb, width, height)
  {
    && fb.format == Xrgb8888 && |pixels| == width * height
    && (forall x: nat, y: nat :: x < width && y < height ==>
      RowIndex(x, y, width) < |pixels| && ReadRgb(fb, x, y) == pixels[RowIndex(x, y, width)])
  }

  function RowIndex(x: nat, y: nat, width: nat): nat { y * width + x }

  // The panel shows, at the one place where it shows pixel (sx, sy), the
  // colour that the preview paints for it.
  lemma PanelMatchesPreview(
    black: Plane, red: Plane, fb: Framebuffer, rotation: Rotation, pixels: seq<Rgb>, ppm: seq<u8>, sx: nat, sy: nat,
    x: nat, y: nat)
    requires Covers(fb, LogicalWidth(rotation), LogicalHeight(rotation)) && ShowsFrame(black, red, fb, rotation)
    requires HoldsPixels(fb, pixels, LogicalWidth(rotation), LogicalHeight(rotation))
    requires |ppm| == |PPM_HEADER| + 3 * |pixels|
    requires forall i: nat :: i < |pixels| ==> PpmPixel(ppm, i) == Paint(Classify(pixels[i]))
    requires sx < LogicalWidth(rotation) && sy < LogicalHeight(rotation) && ShownAt(rotation, sx, sy, x, y)
    ensures RowIndex(sx, sy, LogicalWidth(rotation)) < |pixels|
    ensures Paint(Shown(black, red, x, y)) == PpmPixel(ppm, RowIndex(sx, sy, LogicalWidth(rotation)))
  {
    assert PixelShown(black, red, x, y, Classify(Source(fb, rotation, x, y)));
    assert Source(fb, rotation, x, y) == ReadRgb(fb, sx, sy);
  }

  // A one-bit frame is copied: the black plane is the buffer itself.
  lemma OneBitFrameCopied(black: Plane, red: Plane, fb: Framebuffer)
    requires Covers(fb, WIDTH, HEIGHT) && fb.format == R1 && fb.pitch == STRIDE && |fb.bytes| == FRAME_BYTES
    requires ShowsFrame(black, red, fb, 0)
    ensures black == fb.bytes && forall k :: 0 <= k < FRAME_BYTES ==> red[k] == 0
  {
    var none := seq(FRAME_BYTES, i => 0 as bv8);
    forall x: nat, y: nat | x < WIDTH && y < HEIGHT
      ensures Bit(black, x, y) == Bit(fb.bytes, x, y) && Bit(red, x, y) == Bit(none, x, y)
    {
      assert PixelShown(black, red, x, y, Classify(Source(fb, 0, x, y)));
      assert RowStart(fb, y) == y * STRIDE;
    }
    PlaneFromBits(black, fb.bytes);
    PlaneFromBits(red, none);
  }

  // ----- what a pixel's bytes mean -----

  // XRGB8888 is stored as blue, green, red and an ignored byte.
  lemma Xrgb8888Channels(fb: Framebuffer, x: nat, y: nat)
    requires fb.format == Xrgb8888 && RowStart(fb, y) + 4 * (x + 1) <= |fb.bytes|
    ensures var p, at := ReadRgb(fb, x, y), RowStart(fb, y) + 4 * x;
      p == Rgb(At(fb, at + 2) as int, At(fb, at + 1) as int, At(fb, at) as int)
  {
    var at := RowStart(fb, y) + 4 * x;
    Fields(At(fb, at) as int, At(fb, at + 1) as int, At(fb, at + 2) as int, At(fb, at + 3) as int, Read32(fb, at));
  }

  lemma Fields(a: u8, b: u8, c: u8, d: u8, word: int)
    requires word == a + b * 0x100 + (c + d * 0x100) * 0x1_0000
    ensures word / 0x1_0000 % 0x100 == c && word / 0x100 % 0x100 == b && word % 0x100 == a
  {
    assert word / 0x1_0000 == c + d * 0x100;
    assert word / 0x100 == b + (c + d * 0x100) * 0x100;
  }

  // Scaling RGB565 channels to eight bits loses nothing.
  lemma Rgb565Recoverable(fb: Framebuffer, x: nat, y: nat)
    requires fb.format == Rgb565 && RowStart(fb, y) + 2 * (x + 1) <= |fb.bytes|
    ensures var p := ReadRgb(fb, x, y);
      Shrink(p.red, 31) * 0x800 + Shrink(p.green, 63) * 0x20 + Shrink(p.blue, 31)
      == Read16(fb, RowStart(fb, y) + 2 * x)
  {
    var pixel := Read16(fb, RowStart(fb, y) + 2 * x);
    var high, middle, low := pixel / 0x800 % 0x20, pixel / 0x20 % 0x40, pixel % 0x20;
    ShrinkScaled31(high);
    ShrinkScaled63(middle);
    ShrinkScaled31(low);
    SplitPixel(pixel);
  }

  lemma SplitPixel(pixel: u16)
    ensures pixel / 0x800 % 0x20 * 0x800 + pixel / 0x20 % 0x40 * 0x20 + pixel % 0x20 == pixel
  {
    assert pixel / 0x800 < 0x20;
    assert pixel / 0x20 / 0x40 == pixel / 0x800;
  }

  // Back from eight bits to a channel with the given maximum, rounding up.
  function Shrink(v: u8, max: nat): nat { (v * max + 254) / 255 }

  lemma ShrinkScaled31(v: nat)
    requires v < 32
    ensures v * 255 / 31 < 256 && Shrink(v * 255 / 31, 31) == v
  {
  }

  lemma ShrinkScaled63(v: nat)
    requires v < 64
    ensures v * 255 / 63 < 256 && Shrink(v * 255 / 63, 63) == v
  {
  }
}
