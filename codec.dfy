/**
 The pixel codec: one pixel between 8-bit RGBA and 16-bit ARGB-1555.

 An ARGB-1555 word keeps the alpha bit in bit 15 and three 5-bit colour
 fields: red in bits 14-10, green in bits 9-5, blue in bits 4-0.
 Rust's `u8`, `u16` and `u32` are the bounded integer types `uint8`,
 `uint16` and `uint32`: every intermediate value is stored in a variable of
 the Rust type, so the verifier checks that no arithmetic overflows and no
 cast truncates. A right shift by n is division by 2^n, a mask `& (2^k - 1)`
 is the remainder modulo 2^k, and the bitwise or of fields that do not
 overlap is their sum.
 */
module Codec {
  import opened Arithmetic

  type uint8 = x: int | 0 <= x < 0x100
  type uint16 = x: int | 0 <= x < 0x1_0000
  type uint32 = x: int | 0 <= x < 0x1_0000_0000

  /** One 8-bit RGBA pixel, the tuple `(r, g, b, a)` of the tool. */
  datatype Rgba = Rgba(r: uint8, g: uint8, b: uint8, a: uint8)

  /** Quantisation of one 8-bit channel to a 5-bit level, rounding to
      nearest: `(c as u16 * 31 + 127) / 255`. */
  function Quantize(c: uint8): (c5: uint16)
    // the level fits its 5-bit field
    ensures c5 < 32
    // c5 is the 5-bit level nearest to c * 31 / 255
    ensures -127 <= c * 31 - c5 * 255 <= 127
  {
    var scaled: uint16 := c * 31 + 127;
    scaled / 255
  }

  /** Expansion of one 5-bit level back to 8 bits, rounding to nearest:
      `((c5 as u32 * 255 + 15) / 31) as u8`. The quotient is returned as a
      `uint8`, so the cast is proved never to truncate. */
  function Expand(c5: uint16): (c: uint8)
    requires c5 < 32
    // c is the 8-bit value nearest to c5 * 255 / 31
    ensures -15 <= c5 * 255 - c * 31 <= 15
    // the end points of the scale are exact
    ensures c5 == 0 <==> c == 0
    ensures c5 == 31 <==> c == 255
  {
    var scaled: uint32 := c5 * 255 + 15;
    var wide: uint32 := scaled / 31;
    wide
  }

  /** `(w >> 15) & 1`: the alpha bit. */
  function AlphaBit(w: uint16): (b: uint16)
    ensures b < 2
  {
    w / 0x8000 % 2
  }

  /** `(w >> 10) & 0x1F`: the red field. */
  function RedField(w: uint16): (r5: uint16)
    ensures r5 < 32
  {
    w / 0x400 % 0x20
  }

  /** `(w >> 5) & 0x1F`: the green field. */
  function GreenField(w: uint16): (g5: uint16)
    ensures g5 < 32
  {
    w / 0x20 % 0x20
  }

  /** `w & 0x1F`: the blue field. */
  function BlueField(w: uint16): (b5: uint16)
    ensures b5 < 32
  {
    w % 0x20
  }

  /** The word `(a_bit << 15) | (r5 << 10) | (g5 << 5) | b5` that `pack`
      assembles from an alpha bit and three 5-bit levels. The fields do not
      overlap, so the bitwise or is the sum. */
  function Assemble(aBit: uint16, r5: uint16, g5: uint16, b5: uint16): (w: uint16)
    requires aBit < 2 && r5 < 32 && g5 < 32 && b5 < 32
    // the colour fields together stay below bit 15, so bit 15 is the alpha bit
    ensures w >= 0x8000 <==> aBit == 1
  {
    aBit * 0x8000 + r5 * 0x400 + g5 * 0x20 + b5
  }

  /** Each field of an assembled word reads back as the value put into it:
      no field bleeds into another. */
  lemma AssembleReadsBack(aBit: uint16, r5: uint16, g5: uint16, b5: uint16)
    requires aBit < 2 && r5 < 32 && g5 < 32 && b5 < 32
    ensures AlphaBit(Assemble(aBit, r5, g5, b5)) == aBit
    ensures RedField(Assemble(aBit, r5, g5, b5)) == r5
    ensures GreenField(Assemble(aBit, r5, g5, b5)) == g5
    ensures BlueField(Assemble(aBit, r5, g5, b5)) == b5
  {
    var w := Assemble(aBit, r5, g5, b5);
    DivModUnique(w, 0x8000, aBit, r5 * 0x400 + g5 * 0x20 + b5);
    DivModUnique(w, 0x400, aBit * 0x20 + r5, g5 * 0x20 + b5);
    DivModUnique(aBit * 0x20 + r5, 0x20, aBit, r5);
    DivModUnique(w, 0x20, aBit * 0x400 + r5 * 0x20 + g5, b5);
    DivModUnique(aBit * 0x400 + r5 * 0x20 + g5, 0x20, aBit * 0x20 + r5, g5);
  }

  /** Every word is the assembly of its own four fields. */
  lemma WordIsAssembled(w: uint16)
    ensures w == Assemble(AlphaBit(w), RedField(w), GreenField(w), BlueField(w))
  {
    var q1, b5 := w / 0x20, w % 0x20;
    var q2, g5 := q1 / 0x20, q1 % 0x20;
    var aBit, r5 := q2 / 0x20, q2 % 0x20;
    assert w == q1 * 0x20 + b5 && q1 == q2 * 0x20 + g5 && q2 == aBit * 0x20 + r5;
    DivModUnique(w, 0x400, q2, g5 * 0x20 + b5);
    DivModUnique(w, 0x8000, aBit, r5 * 0x400 + g5 * 0x20 + b5);
    assert AlphaBit(w) == aBit && RedField(w) == r5;
    assert GreenField(w) == g5 && BlueField(w) == b5;
  }

  /** Bit 15 is set exactly for the words from 0x8000 up. */
  lemma AlphaBitIsTop(w: uint16)
    ensures AlphaBit(w) == if w >= 0x8000 then 1 else 0
  {
    if w >= 0x8000 {
      DivModUnique(w, 0x8000, 1, w - 0x8000);
    } else {
      DivModUnique(w, 0x8000, 0, w);
    }
  }

  /** A word is determined by its four fields. */
  lemma FieldsDetermineWord(w: uint16, w': uint16)
    requires AlphaBit(w) == AlphaBit(w') && RedField(w) == RedField(w')
    requires GreenField(w) == GreenField(w') && BlueField(w) == BlueField(w')
    ensures w == w'
  {
    WordIsAssembled(w);
    WordIsAssembled(w');
  }

  /** The tool's `pack`: assembles a word from three quantised channels and
      the binarised alpha `a`. */
  function Pack(r: uint8, g: uint8, b: uint8, a: bool): (w: uint16)
    // the word is opaque (from 0x8000 up) exactly when a holds,
    // whatever r, g and b are
    ensures a <==> w >= 0x8000
  {
    var aBit: uint16 := if a then 1 else 0;
    Assemble(aBit, Quantize(r), Quantize(g), Quantize(b))
  }

  /** The fields `pack` writes: bit 15 is `a`, and bits 14-10, 9-5 and 4-0
      hold the quantised red, green and blue. */
  lemma PackFields(r: uint8, g: uint8, b: uint8, a: bool)
    ensures AlphaBit(Pack(r, g, b, a)) == if a then 1 else 0
    ensures RedField(Pack(r, g, b, a)) == Quantize(r)
    ensures GreenField(Pack(r, g, b, a)) == Quantize(g)
    ensures BlueField(Pack(r, g, b, a)) == Quantize(b)
  {
    AssembleReadsBack(if a then 1 else 0, Quantize(r), Quantize(g), Quantize(b));
  }

  /** The tool's `unpack`: splits a word into its fields and expands each. */
  function Unpack(w: uint16): (p: Rgba)
    // alpha is 255 when bit 15 is set and 0 otherwise
    ensures p.a == if w >= 0x8000 then 255 else 0
  {
    AlphaBitIsTop(w);
    var a: uint8 := if AlphaBit(w) == 1 then 255 else 0;
    Rgba(Expand(RedField(w)), Expand(GreenField(w)), Expand(BlueField(w)), a)
  }

  /** The channels `unpack` returns: re-quantising each gives back the
      5-bit field it was expanded from. */
  lemma UnpackFields(w: uint16)
    ensures Quantize(Unpack(w).r) == RedField(w)
    ensures Quantize(Unpack(w).g) == GreenField(w)
    ensures Quantize(Unpack(w).b) == BlueField(w)
  {
    QuantizeExpand(RedField(w));
    QuantizeExpand(GreenField(w));
    QuantizeExpand(BlueField(w));
  }

  /** Re-quantising an expanded level gives the level back, for all 32
      levels: the expansion lands within 15/31 of c5 * 255 / 31, and the
      quantisation rounds that back to c5. */
  lemma QuantizeExpand(c5: uint16)
    requires c5 < 32
    ensures Quantize(Expand(c5)) == c5
  {
    var c := Expand(c5);
    DivModUnique(31 * c + 127, 255, c5, 31 * c + 127 - 255 * c5);
  }

  /** Every 16-bit word survives unpacking and re-packing unchanged, with the
      alpha test `a > 0` that the pack path applies. */
  lemma UnpackPackRoundTrip(w: uint16)
    ensures var p := Unpack(w); Pack(p.r, p.g, p.b, p.a > 0) == w
  {
    var p := Unpack(w);
    UnpackFields(w);
    PackFields(p.r, p.g, p.b, p.a > 0);
    AlphaBitIsTop(w);
    FieldsDetermineWord(Pack(p.r, p.g, p.b, p.a > 0), w);
  }

  /** Packing is idempotent after the first pack: unpacking a packed pixel
      and packing it again reproduces the same word. */
  lemma RepackStable(r: uint8, g: uint8, b: uint8, a: bool)
    ensures var p := Unpack(Pack(r, g, b, a)); Pack(p.r, p.g, p.b, p.a > 0) == Pack(r, g, b, a)
    ensures Unpack(Pack(r, g, b, a)).a == if a then 255 else 0
  {
    UnpackPackRoundTrip(Pack(r, g, b, a));
  }

  /** Quantising then expanding moves a channel value by at most 4. */
  lemma ExpandQuantizeError(c: uint8)
    ensures -4 <= Expand(Quantize(c)) - c <= 4
  {
  }

  /** Packing then unpacking moves no colour channel by more than 4. */
  lemma PackUnpackError(r: uint8, g: uint8, b: uint8, a: bool)
    ensures var p := Unpack(Pack(r, g, b, a));
      -4 <= p.r - r <= 4 && -4 <= p.g - g <= 4 && -4 <= p.b - b <= 4
  {
    PackFields(r, g, b, a);
    ExpandQuantizeError(r);
    ExpandQuantizeError(g);
    ExpandQuantizeError(b);
  }

  /** Quantisation preserves the order of channel values. */
  lemma QuantizeMonotone(c1: uint8, c2: uint8)
    requires c1 <= c2
    ensures Quantize(c1) <= Quantize(c2)
  {
  }

  /** Expansion preserves the order of levels. */
  lemma ExpandMonotone(c1: uint16, c2: uint16)
    requires c1 <= c2 < 32
    ensures Expand(c1) <= Expand(c2)
  {
  }

  /** `pack` is characterised by the fields it writes: the one word whose
      alpha bit is `a` and whose colour fields are the quantised channels. */
  lemma PackUnique(r: uint8, g: uint8, b: uint8, a: bool, w: uint16)
    requires AlphaBit(w) == (if a then 1 else 0)
    requires RedField(w) == Quantize(r) && GreenField(w) == Quantize(g) && BlueField(w) == Quantize(b)
    ensures Pack(r, g, b, a) == w
  {
    PackFields(r, g, b, a);
    FieldsDetermineWord(Pack(r, g, b, a), w);
  }

  /** Opaque full red packs to 0xFC00. */
  lemma PackOpaqueRed()
    ensures Pack(255, 0, 0, true) == 0xFC00
  {
    assert Quantize(255) == 31 && Quantize(0) == 0;
    PackUnique(255, 0, 0, true, 0xFC00);
  }

  /** Transparent full green packs to 0x03E0. */
  lemma PackTransparentGreen()
    ensures Pack(0, 255, 0, false) == 0x03E0
  {
    assert Quantize(255) == 31 && Quantize(0) == 0;
    PackUnique(0, 255, 0, false, 0x03E0);
  }

  /** Transparent black packs to 0. */
  lemma PackTransparentBlack()
    ensures Pack(0, 0, 0, false) == 0
  {
    assert Quantize(0) == 0;
    PackUnique(0, 0, 0, false, 0);
  }

  /** Opaque white packs to 0xFFFF. */
  lemma PackOpaqueWhite()
    ensures Pack(255, 255, 255, true) == 0xFFFF
  {
    assert Quantize(255) == 31;
    PackUnique(255, 255, 255, true, 0xFFFF);
  }
}
