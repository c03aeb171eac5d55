/** `emu_screen_to_texture_data` of src/interface.rs: the screen region of the
    emulator's memory holds one bit per pixel, most significant bit first, and is
    expanded to RGBA8 pixels: white (FF FF FF FF) for a set bit, opaque black
    (00 00 00 FF) for a clear one. The screen's offset and size are constants of a
    module that is not part of this model, so they are parameters here. */
module Interface {
  import opened Wrappers
  import opened Words
  import opened Machine
  import opened Emulator

  /** `(byte >> (7 - k)) & 1`: bit 7 - k of the byte, so k = 0 is the top bit. */
  function Bit(b: u8, k: nat): (r: u8)
    requires k < 8
    ensures r == 0 || r == 1
  {
    Shr(b, 7 - k) % 2
  }

  /** The four bytes `pixels[i .. i + 4]` of one bit. */
  function Pixel(bit: u8): (p: seq<u8>)
    ensures |p| == 4 && p[3] == 0xFF
  {
    if bit > 0 then [0xFF, 0xFF, 0xFF, 0xFF] else [0x00, 0x00, 0x00, 0xFF]
  }

  /** The pixels of the first n bits of a byte, in order. */
  function PixelRow(b: u8, n: nat): (r: seq<u8>)
    requires n <= 8
    ensures |r| == 4 * n
  {
    if n == 0 then [] else PixelRow(b, n - 1) + Pixel(Bit(b, n - 1))
  }

  /** The 32 bytes one screen byte expands to. */
  function Pixels(b: u8): (r: seq<u8>)
    ensures |r| == 32
  {
    PixelRow(b, 8)
  }

  /** The texture of a run of screen bytes: their pixels, concatenated in order. */
  function Texture(bs: seq<u8>): (r: seq<u8>)
    decreases |bs|
  {
    if |bs| == 0 then [] else Texture(bs[..|bs| - 1]) + Pixels(bs[|bs| - 1])
  }

  /** `emu_screen_to_texture_data`: the texture of `memory(offset, size / 8)`, with
      that call's "SEGFAULT" panic when the region is out of range. */
  function ScreenTexture(s: State, offset: u32, size: nat): (r: Result<seq<u8>>)
    requires s.Valid()
    ensures r.Ok? <==> offset + size / 8 <= USER_MEMORY_SIZE
  {
    match Window(s.memory, offset, size / 8)
    case Ok(bs) => Ok(Texture(bs))
    case Panic(e) => Panic(e)
  }

  // ---------------------------------------------------------------------
  // The code, with its two loops over `bit_field` and `pixels`

  /** The closure passed to `map`: fill `bit_field`, then `pixels`. */
  method ExpandByte(b: u8) returns (r: seq<u8>)
    ensures r == Pixels(b)
  {
    var bitField := new u8[8];
    for i := 0 to 8
      invariant forall k :: 0 <= k < i ==> bitField[k] == Bit(b, k)
    {
      bitField[i] := Shr(b, 7 - i) % 2;
    }
    var pixels := new u8[32];
    var i := 0;
    for j := 0 to 8
      invariant i == 4 * j
      invariant forall k :: 0 <= k < 8 ==> bitField[k] == Bit(b, k)
      invariant pixels[..i] == PixelRow(b, j)
    {
      ghost var prefix := pixels[..i];
      ghost var bit := bitField[j];
      assert PixelRow(b, j + 1) == prefix + Pixel(bit);
      if bitField[j] > 0 {
        pixels[i + 0] := 0xFF;
        pixels[i + 1] := 0xFF;
        pixels[i + 2] := 0xFF;
        pixels[i + 3] := 0xFF;
      } else {
        pixels[i + 0] := 0x0;
        pixels[i + 1] := 0x0;
        pixels[i + 2] := 0x0;
        pixels[i + 3] := 0xFF;
      }
      assert pixels[..i + 4] == prefix + Pixel(bit) by {
        assert pixels[..i] == prefix;
        assert pixels[i..i + 4] == Pixel(bit);
        assert pixels[..i + 4] == pixels[..i] + pixels[i..i + 4];
      }
      i := i + 4;
    }
    assert pixels[..] == pixels[..32];
    r := pixels[..];
  }

  /** `emu_screen_to_texture_data(emulator)`: map every screen byte through
      `ExpandByte` and flatten. */
  method ScreenToTextureData(e: Emulator, offset: u32, size: nat) returns (r: Result<seq<u8>>)
    requires e.Valid()
    ensures r == ScreenTexture(e.State(), offset, size)
  {
    var region := e.Memory(offset, size / 8);
    if region.Panic? {
      return Panic(region.reason);
    }
    var bs := region.value;
    var out := [];
    for j := 0 to |bs|
      invariant out == Texture(bs[..j])
    {
      var chunk := ExpandByte(bs[j]);
      assert bs[..j + 1][..j] == bs[..j];
      out := out + chunk;
    }
    assert bs[..|bs|] == bs;
    r := Ok(out);
  }

  // ---------------------------------------------------------------------
  // Properties

  /** The output has 32 bytes, 8 pixels of 4, per input byte. */
  lemma {:induction false} TextureLength(bs: seq<u8>)
    ensures |Texture(bs)| == 32 * |bs|
    decreases |bs|
  {
    if |bs| > 0 {
      TextureLength(bs[..|bs| - 1]);
    }
  }

  /** Chunk j of the output is the expansion of input byte j, and of nothing else. */
  lemma {:induction false} TextureChunk(bs: seq<u8>, j: nat)
    requires j < |bs|
    ensures |Texture(bs)| == 32 * |bs|
    ensures Texture(bs)[32 * j .. 32 * j + 32] == Pixels(bs[j])
    decreases |bs|
  {
    TextureLength(bs);
    var front := bs[..|bs| - 1];
    TextureLength(front);
    if j < |bs| - 1 {
      TextureChunk(front, j);
      assert front[j] == bs[j];
      assert Texture(bs)[32 * j .. 32 * j + 32] == Texture(front)[32 * j .. 32 * j + 32];
    } else {
      assert Texture(bs)[32 * j ..] == Pixels(bs[j]);
    }
  }

  /** Pixel k of a row is the pixel of bit 7 - k. */
  lemma {:induction false} PixelRowChunk(b: u8, n: nat, k: nat)
    requires k < n <= 8
    ensures PixelRow(b, n)[4 * k .. 4 * k + 4] == Pixel(Bit(b, k))
    decreases n
  {
    if k < n - 1 {
      PixelRowChunk(b, n - 1, k);
      assert PixelRow(b, n)[4 * k .. 4 * k + 4] == PixelRow(b, n - 1)[4 * k .. 4 * k + 4];
    } else {
      assert PixelRow(b, n)[4 * k ..] == Pixel(Bit(b, k));
    }
  }

  /** Pixel k of a byte's expansion reflects bit 7 - k: FF FF FF FF when it is set,
      00 00 00 FF when it is clear. */
  lemma PixelOfBit(b: u8, k: nat)
    requires k < 8
    ensures Bit(b, k) == 1 ==> Pixels(b)[4 * k .. 4 * k + 4] == [0xFF, 0xFF, 0xFF, 0xFF]
    ensures Bit(b, k) == 0 ==> Pixels(b)[4 * k .. 4 * k + 4] == [0x00, 0x00, 0x00, 0xFF]
  {
    PixelRowChunk(b, 8, k);
  }

  /** The most significant bit comes first and the least significant last. */
  lemma BitOrder(b: u8)
    ensures Bit(b, 0) == 1 <==> b >= 0x80
    ensures Bit(b, 7) == b % 2
  {
    assert Pow2(7) == 0x80;
    assert Pow2(0) == 1;
    DivModUnique(b, 0x80, if b >= 0x80 then 1 else 0, if b >= 0x80 then b - 0x80 else b);
  }

  /** The alpha byte of every pixel of the output is FF: byte 3 of pixel k of
      chunk j. */
  lemma AlphaIsOpaque(bs: seq<u8>, j: nat, k: nat)
    requires j < |bs| && k < 8
    ensures 32 * j + 4 * k + 3 < |Texture(bs)|
    ensures Texture(bs)[32 * j + 4 * k + 3] == 0xFF
  {
    TextureChunk(bs, j);
    PixelRowChunk(bs[j], 8, k);
    assert Texture(bs)[32 * j + 4 * k + 3] == Texture(bs)[32 * j .. 32 * j + 32][4 * k + 3];
    assert Pixels(bs[j])[4 * k + 3] == Pixels(bs[j])[4 * k .. 4 * k + 4][3];
  }

  // ---------------------------------------------------------------------
  // The expansion loses nothing: the screen bytes can be read back

  /** The byte a row of pixels shows: a bit per pixel, set where the pixel's red
      byte is FF. */
  function RowByte(p: seq<u8>): (r: nat)
    decreases |p|
  {
    if |p| < 4 then 0 else 2 * RowByte(p[..|p| - 4]) + (if p[|p| - 4] == 0xFF then 1 else 0)
  }

  /** The screen bytes a texture shows, 32 bytes per screen byte. */
  function TextureBytes(t: seq<u8>): (r: seq<nat>)
    decreases |t|
  {
    if |t| < 32 then [] else TextureBytes(t[..|t| - 32]) + [RowByte(t[|t| - 32..])]
  }

  /** One more pixel doubles the byte shown so far and adds the pixel's bit. */
  lemma RowByteSnoc(q: seq<u8>, p: seq<u8>)
    requires |p| == 4
    ensures RowByte(q + p) == 2 * RowByte(q) + (if p[0] == 0xFF then 1 else 0)
  {
    var qp := q + p;
    assert qp[..|qp| - 4] == q;
  }

  /** x / p is twice x / 2p plus bit 0 of x / p. */
  lemma HalveAndBit(x: nat, p: nat)
    requires p > 0
    ensures x / p == 2 * (x / (p * 2)) + (x / p) % 2
  {
    DivDiv(x, p, 2);
  }

  /** The first n pixels of a byte show its top n bits. */
  lemma {:induction false} RowByteOfPixelRow(b: u8, n: nat)
    requires n <= 8
    ensures RowByte(PixelRow(b, n)) == b / Pow2(8 - n)
    decreases n
  {
    if n == 0 {
      assert Pow2(8) == 0x100;
      DivModUnique(b, 0x100, 0, b);
    } else {
      RowByteOfPixelRow(b, n - 1);
      RowByteStep(b, n);
    }
  }

  /** One more pixel shows one more bit of the byte. */
  lemma RowByteStep(b: u8, n: nat)
    requires 1 <= n <= 8 && RowByte(PixelRow(b, n - 1)) == b / Pow2(9 - n)
    ensures RowByte(PixelRow(b, n)) == b / Pow2(8 - n)
  {
    var m := n - 1;
    var bit := Bit(b, m);
    var p := Pow2(8 - n);
    assert RowByte(PixelRow(b, n)) == 2 * RowByte(PixelRow(b, m)) + bit by {
      RowByteSnoc(PixelRow(b, m), Pixel(bit));
    }
    assert bit == (b / p) % 2 by {
      assert 7 - m == 8 - n;
    }
    assert Pow2(9 - n) == p * 2 by {
      assert 9 - n - 1 == 8 - n;
    }
    HalveAndBit(b, p);
  }

  /** A byte's expansion shows the byte. */
  lemma RowByteOfPixels(b: u8)
    ensures RowByte(Pixels(b)) == b
  {
    RowByteOfPixelRow(b, 8);
    assert Pow2(0) == 1;
  }

  /** Reading back a texture with one more chunk gives one more byte. */
  lemma TextureBytesSnoc(t: seq<u8>, p: seq<u8>)
    requires |p| == 32
    ensures TextureBytes(t + p) == TextureBytes(t) + [RowByte(p)]
  {
    var tp := t + p;
    assert tp[..|tp| - 32] == t;
    assert tp[|tp| - 32..] == p;
  }

  /** Reading the texture back gives the screen bytes: the expansion is injective. */
  lemma {:induction false} TextureRoundTrip(bs: seq<u8>)
    ensures TextureBytes(Texture(bs)) == bs
    decreases |bs|
  {
    if |bs| > 0 {
      var front, last := bs[..|bs| - 1], bs[|bs| - 1];
      TextureBytesSnoc(Texture(front), Pixels(last));
      TextureRoundTrip(front);
      RowByteOfPixels(last);
      assert bs == front + [last];
    }
  }
}
