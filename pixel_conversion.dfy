/**
 * The BGRA -> RGBA conversion of handle_capture_screen
 * (linux/runner/screen_capture.cc, lines 86-103): each packed 32-bit word
 * 0xXXRRGGBB of the grabbed image becomes the four bytes R, G, B, 0xFF.
 */
module PixelConversion {

  /** Red channel: bits 16-23 of the packed word (line 99). */
  function Red(p: bv32): bv8 {
    ((p >> 16) & 0xFF) as bv8
  }

  /** Green channel: bits 8-15 (line 100). */
  function Green(p: bv32): bv8 {
    ((p >> 8) & 0xFF) as bv8
  }

  /** Blue channel: bits 0-7 (line 101). */
  function Blue(p: bv32): bv8 {
    (p & 0xFF) as bv8
  }

  /** The four output bytes of one pixel; alpha is always opaque (line 102). */
  function PixelToRgba(p: bv32): (r: seq<bv8>)
    ensures |r| == 4 && r[3] == 0xFF
  {
    [Red(p), Green(p), Blue(p), 0xFF]
  }

  /** A packed word built from a padding byte and three colour bytes, 0xXXRRGGBB. */
  function Pack(pad: bv8, red: bv8, green: bv8, blue: bv8): bv32 {
    (pad as bv32 << 24) | (red as bv32 << 16) | (green as bv32 << 8) | blue as bv32
  }

  /** Converting a packed word gives back its colour bytes, whatever the padding byte. */
  lemma PackThenConvert(pad: bv8, red: bv8, green: bv8, blue: bv8)
    ensures PixelToRgba(Pack(pad, red, green, blue)) == [red, green, blue, 0xFF]
  {
  }

  /** The top byte of a word never affects its output bytes. */
  lemma TopByteIgnored(p: bv32, q: bv32)
    requires p & 0x00FF_FFFF == q & 0x00FF_FFFF
    ensures PixelToRgba(p) == PixelToRgba(q)
  {
  }

  /** The example of a packed 0x00112233. */
  lemma ConvertExample()
    ensures PixelToRgba(0x0011_2233) == [0x11, 0x22, 0x33, 0xFF]
  {
  }

  /** The whole converted buffer: the four bytes of each word, in order. */
  function Rgba(words: seq<bv32>): (r: seq<bv8>)
    ensures |r| == 4 * |words|
  {
    if words == [] then [] else PixelToRgba(words[0]) + Rgba(words[1..])
  }

  /** Pixel i occupies bytes 4i..4i+3 as R, G, B, 0xFF. */
  lemma {:induction false} RgbaPixel(words: seq<bv32>, i: nat)
    requires i < |words|
    ensures 4 * i + 3 < |Rgba(words)|
    ensures Rgba(words)[4 * i] == Red(words[i])
    ensures Rgba(words)[4 * i + 1] == Green(words[i])
    ensures Rgba(words)[4 * i + 2] == Blue(words[i])
    ensures Rgba(words)[4 * i + 3] == 0xFF
  {
    if i > 0 {
      RgbaPixel(words[1..], i - 1);
    }
  }

  /** Every alpha byte, at offsets 3, 7, 11, ..., is 0xFF. */
  lemma AlphaOpaque(words: seq<bv32>, k: nat)
    requires k < |Rgba(words)| && k % 4 == 3
    ensures Rgba(words)[k] == 0xFF
  {
    RgbaPixel(words, k / 4);
  }

  /**
   * A pixel's four bytes are its R, G, B and opaque alpha: PixelToRgba(p), stated
   * byte by byte as lines 99-102 write them. The loop invariant of ConvertPixels uses
   * this form because it needs no sequence slice of the array, which keeps the proof
   * of each iteration small.
   */
  predicate PixelWritten(bytes: seq<bv8>, j: nat, p: bv32)
    requires 4 * j + 4 <= |bytes|
  {
    bytes[4 * j] == Red(p) && bytes[4 * j + 1] == Green(p) &&
    bytes[4 * j + 2] == Blue(p) && bytes[4 * j + 3] == 0xFF
  }

  /** A byte of a written group is the converted buffer's byte at the same offset. */
  lemma ByteOfGroup(bytes: seq<bv8>, words: seq<bv32>, j: nat, k: nat)
    requires |bytes| == 4 * |words| && j < |words| && 4 * j <= k < 4 * j + 4
    requires PixelWritten(bytes, j, words[j])
    ensures bytes[k] == Rgba(words)[k]
  {
    RgbaPixel(words, j);
    assert k == 4 * j || k == 4 * j + 1 || k == 4 * j + 2 || k == 4 * j + 3;
  }

  /** A buffer whose every group of four holds its pixel's conversion is the converted buffer. */
  lemma GroupsMakeRgba(bytes: seq<bv8>, words: seq<bv32>)
    requires |bytes| == 4 * |words|
    requires forall j :: 0 <= j < |words| ==> PixelWritten(bytes, j, words[j])
    ensures bytes == Rgba(words)
  {
    forall k | 0 <= k < |bytes|
      ensures bytes[k] == Rgba(words)[k]
    {
      ByteOfGroup(bytes, words, k / 4, k);
    }
  }

  /**
   * The loop of lines 96-103: allocates 4 * numPixels bytes and writes pixel i's four
   * bytes at 4i..4i+3 from the first numPixels words of the image.
   */
  method ConvertPixels(src: seq<bv32>, numPixels: nat) returns (rgba: array<bv8>)
    requires numPixels <= |src|
    ensures fresh(rgba)
    ensures rgba.Length == numPixels * 4
    ensures rgba[..] == Rgba(src[..numPixels])
  {
    rgba := new bv8[numPixels * 4];
    var i := 0;
    while i < numPixels
      invariant 0 <= i <= numPixels
      invariant forall j :: 0 <= j < i ==> PixelWritten(rgba[..], j, src[j])
    {
      var p := src[i];
      rgba[i * 4 + 0] := ((p >> 16) & 0xFF) as bv8;
      rgba[i * 4 + 1] := ((p >> 8) & 0xFF) as bv8;
      rgba[i * 4 + 2] := ((p >> 0) & 0xFF) as bv8;
      rgba[i * 4 + 3] := 0xFF;
      i := i + 1;
    }
    GroupsMakeRgba(rgba[..], src[..numPixels]);
  }
}
