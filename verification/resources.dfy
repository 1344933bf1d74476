/** The sprite resources of the Gamebuino back end (boards/gamebuino.cpp):
    the resource list `add_resource` appends to, the C++ identifier a file
    name becomes (`encode_filename`), the RGB565 packing (`rgb32_to_565`),
    the palette index of an indexed pixel (`findNearestIndex`), and the
    header `encode_file` writes before the pixels. Decoding the image file
    itself belongs to the stb_image library and is a parameter here: the
    header needs only the image's width and height. */
module Resources {
  import opened Wrappers
  import opened Strings
  import Numerals
  import opened Bits

  /** `enum class Format` of globals.h, in declaration order. */
  datatype Format = Rgb565 | Indexed

  /** `std::to_underlying(format)`. */
  function FormatCode(f: Format): nat
  {
    match f
    case Rgb565 => 0
    case Indexed => 1
  }

  /** `struct Resource`: a sprite sheet of `xcount` by `ycount` frames. */
  datatype Resource = Resource(filename: string, format: Format, xcount: int, ycount: int, loop: int)

  /* ---------------------------------------------------------------- */
  /* add_resource                                                     */
  /* ---------------------------------------------------------------- */

  /** `add_resource`: the aggregate initialisation is positional, so the
      `yframes` argument lands in `xcount` and `xframes` in `ycount`. */
  function AddResource(resources: seq<Resource>, filename: string, format: Format, yframes: int, xframes: int, loop: int): (r: seq<Resource>)
    ensures |r| == |resources| + 1 && r[..|resources|] == resources
    ensures r[|resources|].filename == filename && r[|resources|].format == format && r[|resources|].loop == loop
  {
    resources + [Resource(filename, format, yframes, xframes, loop)]
  }

  /* ---------------------------------------------------------------- */
  /* encode_filename                                                  */
  /* ---------------------------------------------------------------- */

  /** What one character of a file name becomes in the identifier. */
  function MangleChar(c: char): char
  {
    if c == '.' || c == '/' then '_' else c
  }

  /** `encode_filename`: every `.`, then every `/`, replaced by `_`. */
  function EncodeFilename(name: string): (r: string)
    ensures |r| == |name|
    ensures forall i :: 0 <= i < |name| ==> r[i] == MangleChar(name[i])
    ensures '.' !in r && '/' !in r
  {
    ReplaceAll(ReplaceAll(name, '.', "_"), '/', "_")
  }

  /** An identifier is left as it is. */
  lemma EncodeFilenameIdempotent(name: string)
    ensures EncodeFilename(EncodeFilename(name)) == EncodeFilename(name)
  {
    var once := EncodeFilename(name);
    var twice := EncodeFilename(once);
    assert forall i :: 0 <= i < |once| ==> twice[i] == MangleChar(once[i]) == once[i];
  }

  /** The C++ element type of a resource array. */
  function ElementType(f: Format): string
  {
    if f == Rgb565 then "uint16_t" else "uint8_t"
  }

  /** The type and identifier of a resource array, as both generated files
      write them. */
  function Stem(res: Resource): string
  {
    "const " + ElementType(res.format) + " " + EncodeFilename(res.filename)
  }

  /** The start of a resource's definition in the generated `.ino` file:
      the elements are 16 bits wide for RGB565 frames and 8 bits otherwise. */
  function Definition(res: Resource): (r: string)
    ensures |r| >= 21 && r[|r| - 7..] == "[] = { "
    ensures res.format == Rgb565 <==> r[6..14] == "uint16_t"
  {
    StemType(res, "[] = { ");
    Stem(res) + "[] = { "
  }

  /** After `const `, a stem followed by anything shows the element type
      and a space: `uint16_t` for RGB565, `uint8_t ` otherwise. */
  lemma StemType(res: Resource, tail: string)
    ensures var s := Stem(res) + tail;
            |s| >= 14 + |tail| && s[6..14] == (if res.format == Rgb565 then "uint16_t" else "uint8_t ")
  {
    var et := ElementType(res.format);
    var head := "const " + et + " ";
    var s := Stem(res) + tail;
    assert s == head + (EncodeFilename(res.filename) + tail);
    assert s[..|head|] == head;
    assert s[6..14] == head[6..14];
  }

  /** The declaration of a resource in the generated header: after
      `extern `, it names the same type and array as the definition. */
  function ExternDeclaration(res: Resource): (r: string)
    ensures |r| >= 10 && r[..7] == "extern " && r[|r| - 3..] == "[];"
    ensures r[7..|r| - 3] == Definition(res)[..|Definition(res)| - 7]
  {
    Slices("extern ", Stem(res), "[];");
    Slices("", Stem(res), "[] = { ");
    assert "" + Stem(res) + "[] = { " == Definition(res);
    "extern " + Stem(res) + "[];"
  }

  /** The three parts of a concatenation are its slices. */
  lemma Slices(a: string, stem: string, b: string)
    ensures var s := a + stem + b;
            && s[..|a|] == a && s[|a|..|s| - |b|] == stem && s[|s| - |b|..] == b
  {
  }

  /** Two files whose names differ only in `.` against `/` (or `_`) share
      an identifier, so the generated file defines the same array twice. */
  lemma EncodeFilenameCollides()
    ensures EncodeFilename("a.png") == EncodeFilename("a/png") == EncodeFilename("a_png")
  {
    var x, y, z := EncodeFilename("a.png"), EncodeFilename("a/png"), EncodeFilename("a_png");
    assert forall i :: 0 <= i < 5 ==> x[i] == y[i] == z[i];
  }

  /* ---------------------------------------------------------------- */
  /* Colours                                                          */
  /* ---------------------------------------------------------------- */

  /** `((r >> 3) << 11) | ((g >> 2) << 5) | (b >> 3)` on bytes (promoted
      to `int`, so nothing is lost before the result is stored in 16 bits). */
  function Pack565(r: nat, g: nat, b: nat): nat
    requires r < 256 && g < 256 && b < 256
  {
    Or(Or(r / 8 * Pow2(11), g / 4 * Pow2(5)), b / 8)
  }

  /** The packing keeps the top five bits of red, six of green and five of
      blue in fields that do not overlap, so it fits in 16 bits. */
  lemma Pack565Fields(r: nat, g: nat, b: nat)
    requires r < 256 && g < 256 && b < 256
    ensures Pack565(r, g, b) == r / 8 * 2048 + g / 4 * 32 + b / 8
    ensures Pack565(r, g, b) < 0x1_0000
  {
    Pack565Sum(r / 8, g / 4, b / 8);
  }

  /** Fields below their widths are packed by addition. */
  lemma Pack565Sum(red: nat, green: nat, blue: nat)
    requires red < 32 && green < 64 && blue < 32
    ensures Or(Or(red * Pow2(11), green * Pow2(5)), blue) == red * 2048 + green * 32 + blue
  {
    FieldShifts();
    OrDisjoint(red, green * 32, 11);
    assert red * 2048 + green * 32 == (red * 64 + green) * 32;
    OrDisjoint(red * 64 + green, blue, 5);
  }

  /** The shifts of the green and red fields. */
  lemma FieldShifts()
    ensures Pow2(5) == 32 && Pow2(11) == 2048
  {
    assert Pow2(5) == 32;
    assert Pow2(6) == 64;
    assert Pow2(11) == 32 * Pow2(6);
  }

  /** `rgb32_to_565`: the colour of an opaque pixel is its channels,
      truncated to five, six and five bits; a pixel less than half opaque
      becomes magenta `0xF81F` whatever its channels. */
  function Rgb32To565(r: nat, g: nat, b: nat, a: nat): (c: nat)
    requires r < 256 && g < 256 && b < 256 && a < 256
    ensures a >= 128 ==> c == r / 8 * 2048 + g / 4 * 32 + b / 8
    ensures a < 128 ==> c == 0xF81F
    ensures c < 0x1_0000
  {
    Pack565Fields(r, g, b);
    Pack565Fields(255, 0, 255);
    if a < 128 then Pack565(255, 0, 255) else Pack565(r, g, b)
  }

  /** `findNearestIndex`: the palette index of a colour. */
  function NearestIndex(colour: nat): (i: nat)
    ensures i < 16 && i == colour % 16
  {
    AndLowBits(colour, 4);
    And(colour, 0xF)
  }

  /** The index is the low four bits of the packed colour: it depends on
      the blue channel alone. */
  lemma NearestIndexIsBlue(r: nat, g: nat, b: nat)
    requires r < 256 && g < 256 && b < 256
    ensures NearestIndex(Pack565(r, g, b)) == b / 8 % 16
  {
    Pack565Fields(r, g, b);
    assert Pack565(r, g, b) == (r / 8 * 128 + g / 4 * 2) * 16 + b / 8;
    ModShift(r / 8 * 128 + g / 4 * 2, b / 8, 16);
  }

  /** Two palette indices written as `0x` and one hexadecimal digit each: one byte
      holding the first pixel in its high nibble. */
  function IndexedEntry(left: nat, right: nat): (s: string)
    ensures |s| == 4 && s[..2] == "0x" && Numerals.AllDigits(s[2..], 16)
    ensures Numerals.FromDigits(s[2..], 16) == NearestIndex(left) * 16 + NearestIndex(right)
  {
    var hi, lo := Numerals.DigitChar(NearestIndex(left)), Numerals.DigitChar(NearestIndex(right));
    assert Numerals.Hex(NearestIndex(left)) == [hi] && Numerals.Hex(NearestIndex(right)) == [lo];
    var s := "0x" + Numerals.Hex(NearestIndex(left)) + Numerals.Hex(NearestIndex(right));
    assert s[2..] == [hi, lo] && [hi, lo][..1] == [hi];
    s
  }

  /** An RGB565 pixel written as `0x` and its hexadecimal digits. */
  function Rgb565Entry(colour: nat): (s: string)
    ensures |s| >= 3 && s[..2] == "0x" && Numerals.AllDigits(s[2..], 16)
    ensures Numerals.FromDigits(s[2..], 16) == colour
  {
    var s := "0x" + Numerals.Hex(colour);
    assert s[2..] == Numerals.Hex(colour);
    Numerals.FromToDigits(colour, 16);
    s
  }

  /* ---------------------------------------------------------------- */
  /* The header of encode_file                                        */
  /* ---------------------------------------------------------------- */

  /** C++ `/` on `int`: the quotient truncated toward zero. */
  function DivTrunc(a: int, b: int): (q: int)
    requires b != 0
    ensures a >= 0 && b > 0 ==> q * b <= a < q * b + b
  {
    var n := if a < 0 then -a else a;
    var d := if b < 0 then -b else b;
    if (a < 0) == (b < 0) then n / d else -(n / d)
  }

  /** The transparent-colour field: `0xFF` for indexed images, the RGB565
      magenta otherwise. */
  function TransparentField(f: Format): string
  {
    if f == Indexed then "0xFF" else "0x" + Numerals.Hex(Rgb32To565(255, 0, 255, 255))
  }

  /** The RGB565 transparent colour is written `0xf81f`. */
  lemma TransparentIsMagenta()
    ensures TransparentField(Rgb565) == "0xf81f"
    ensures TransparentField(Indexed) == "0xFF"
  {
    MagentaValue();
    HexDigits(0xf, 0x8, 0x1, 0xf);
  }

  lemma MagentaValue()
    ensures Rgb32To565(255, 0, 255, 255) == 0xf81f
  {
    Pack565Fields(255, 0, 255);
  }

  /** Four hexadecimal digits, the first not zero. */
  lemma HexDigits(a: nat, b: nat, c: nat, d: nat)
    requires 0 < a < 16 && b < 16 && c < 16 && d < 16
    ensures Numerals.Hex(((a * 16 + b) * 16 + c) * 16 + d)
            == [Numerals.DigitChar(a), Numerals.DigitChar(b), Numerals.DigitChar(c), Numerals.DigitChar(d)]
  {
    var n := ((a * 16 + b) * 16 + c) * 16 + d;
    assert n / 16 == (a * 16 + b) * 16 + c && n % 16 == d;
    assert n / 16 / 16 == a * 16 + b && n / 16 % 16 == c;
    assert n / 16 / 16 / 16 == a && n / 16 / 16 % 16 == b;
    assert Numerals.ToDigits(a, 16) == [Numerals.DigitChar(a)];
    assert Numerals.ToDigits(a * 16 + b, 16) == Numerals.ToDigits(a, 16) + [Numerals.DigitChar(b)];
    assert Numerals.ToDigits((a * 16 + b) * 16 + c, 16) == Numerals.ToDigits(a * 16 + b, 16) + [Numerals.DigitChar(c)];
    assert Numerals.ToDigits(n, 16) == Numerals.ToDigits((a * 16 + b) * 16 + c, 16) + [Numerals.DigitChar(d)];
  }

  /** The frame count of an indexed image: low byte, then high byte
      (`& 0xFF` and an arithmetic `>> 8`). */
  function FrameBytes(count: int): (bytes: (nat, nat))
    ensures bytes.0 < 256 && bytes.1 < 256
    ensures 0 <= count < 0x1_0000 ==> bytes.0 + 256 * bytes.1 == count
  {
    (count % 256, count / 256 % 256)
  }

  /** The numbers `encode_file` writes before the pixels. */
  datatype HeaderValues = HeaderValues(width: int, height: int, frames: seq<int>, loop: int, transparent: string, format: nat)

  /** The header of a resource whose image is `x` by `y` pixels: the frame
      width and height, the frame count (two bytes for an indexed image),
      loop, transparent colour and format. A sheet with no frames in a
      direction divides by zero. */
  function HeaderOf(res: Resource, x: int, y: int): (r: Result<HeaderValues>)
    ensures r.Ok? <==> res.xcount != 0 && res.ycount != 0
    ensures r.Fail? ==> r.error == DivisionByZero
    ensures r.Ok? && x >= 0 && res.xcount > 0 ==> r.value.width * res.xcount <= x < r.value.width * res.xcount + res.xcount
    ensures r.Ok? && y >= 0 && res.ycount > 0 ==> r.value.height * res.ycount <= y < r.value.height * res.ycount + res.ycount
    ensures r.Ok? && res.format == Rgb565 ==> r.value.frames == [res.xcount * res.ycount]
    ensures r.Ok? && res.format == Indexed ==>
              && |r.value.frames| == 2 && 0 <= r.value.frames[0] < 256 && 0 <= r.value.frames[1] < 256
              && (0 <= res.xcount * res.ycount < 0x1_0000 ==> r.value.frames[0] + 256 * r.value.frames[1] == res.xcount * res.ycount)
    ensures r.Ok? ==> r.value.loop == res.loop && r.value.transparent == TransparentField(res.format)
    ensures r.Ok? ==> r.value.format == FormatCode(res.format)
  {
    if res.xcount == 0 || res.ycount == 0 then Fail(DivisionByZero)
    else
      var framesCount := res.xcount * res.ycount;
      var frames :=
        if res.format == Indexed then
          var (lo, hi) := FrameBytes(framesCount);
          [lo, hi]
        else [framesCount];
      Ok(HeaderValues(DivTrunc(x, res.xcount), DivTrunc(y, res.ycount), frames, res.loop,
                      TransparentField(res.format), FormatCode(res.format)))
  }

  /** The header as the fields written to the stream. */
  function Fields(h: HeaderValues): seq<string>
  {
    [Numerals.Decimal(h.width), Numerals.Decimal(h.height)]
    + FrameFields(h.frames)
    + [Numerals.Decimal(h.loop), h.transparent, Numerals.Decimal(h.format)]
  }

  function FrameFields(frames: seq<int>): (r: seq<string>)
    ensures |r| == |frames|
    ensures forall i :: 0 <= i < |frames| ==> r[i] == Numerals.Decimal(frames[i])
  {
    if |frames| == 0 then [] else [Numerals.Decimal(frames[0])] + FrameFields(frames[1..])
  }

  /** Every number of the header reads back from its field. */
  lemma FieldsRoundTrip(h: HeaderValues)
    ensures var fields := Fields(h);
            && |fields| == |h.frames| + 5
            && Numerals.ParseDecimal(fields[0]) == h.width
            && Numerals.ParseDecimal(fields[1]) == h.height
            && (forall i :: 2 <= i < 2 + |h.frames| ==> Numerals.ParseDecimal(fields[i]) == h.frames[i - 2])
            && Numerals.ParseDecimal(fields[|fields| - 3]) == h.loop
            && fields[|fields| - 2] == h.transparent
            && Numerals.ParseDecimal(fields[|fields| - 1]) == h.format
  {
    var fields := Fields(h);
    var n := |h.frames|;
    Numerals.DecimalRoundTrip(h.width);
    Numerals.DecimalRoundTrip(h.height);
    Numerals.DecimalRoundTrip(h.loop);
    Numerals.DecimalRoundTrip(h.format);
    assert fields[n + 2] == Numerals.Decimal(h.loop) && fields[n + 4] == Numerals.Decimal(h.format);
    forall i | 2 <= i < 2 + n
      ensures Numerals.ParseDecimal(fields[i]) == h.frames[i - 2]
    {
      assert fields[i] == FrameFields(h.frames)[i - 2];
      Numerals.DecimalRoundTrip(h.frames[i - 2]);
    }
  }

  /** The header text, its fields separated by `, `. */
  function Header(res: Resource, x: int, y: int): (r: Result<string>)
    ensures r.Ok? <==> HeaderOf(res, x, y).Ok?
  {
    var h :- HeaderOf(res, x, y);
    Ok(Join(Fields(h), ", "))
  }

  /** Through `add_resource`, the frame width divides the image by the
      `yframes` argument and the frame height by `xframes`. */
  lemma AddResourceSwapsFrames(resources: seq<Resource>, filename: string, format: Format, yframes: int, xframes: int, loop: int, x: nat, y: nat)
    requires yframes > 0 && xframes > 0
    ensures var res := AddResource(resources, filename, format, yframes, xframes, loop)[|resources|];
            var h := HeaderOf(res, x, y).value;
            h.width == x / yframes && h.height == y / xframes
  {
  }
}
