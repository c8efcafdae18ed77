/** The product-line mask rule of `context::combine_device_masks`: the caller's
    mask and the mask from the settings are ANDed, except for the software-only
    bit, which survives when either side asks for it. */
module DeviceMask {

  /** `RS2_PRODUCT_LINE_SW_ONLY`; 0x1fe is `RS2_PRODUCT_LINE_ANY_INTEL | RS2_PRODUCT_LINE_SW_ONLY`
      and 0xfe is `RS2_PRODUCT_LINE_ANY_INTEL`. */
  const SwOnly: bv32 := 0x100
  const AnyIntel: bv32 := 0xfe

  /** The normal bits enable only where both masks enable; the software-only
      bit survives when either side asks for it. */
  function CombineDeviceMasks(requested: bv32, inSettings: bv32): (r: bv32)
    ensures r & SwOnly != 0 <==> requested & SwOnly != 0 || inSettings & SwOnly != 0
    ensures requested & SwOnly == 0 && inSettings & SwOnly == 0 ==> r == requested & inSettings
  {
    var normal := requested & (inSettings & !SwOnly);
    if inSettings & SwOnly != 0 || requested & SwOnly != 0 then normal | SwOnly else normal
  }

  /** Every bit but the software-only one is the AND of the two masks. */
  lemma CombineNormalBits(requested: bv32, inSettings: bv32)
    ensures CombineDeviceMasks(requested, inSettings) & !SwOnly == requested & inSettings & !SwOnly
  {
    var normal := requested & (inSettings & !SwOnly);
    NormalPart(requested, inSettings);
    if inSettings & SwOnly != 0 || requested & SwOnly != 0 {
      SetThenClear(normal);
    }
  }

  lemma NormalPart(a: bv32, b: bv32)
    ensures (a & (b & !SwOnly)) & !SwOnly == a & b & !SwOnly
  {
  }

  lemma SetThenClear(x: bv32)
    ensures (x | SwOnly) & !SwOnly == x & !SwOnly
  {
  }

  lemma CombineCommutes(a: bv32, b: bv32)
    ensures CombineDeviceMasks(a, b) == CombineDeviceMasks(b, a)
  {
  }

  lemma CombineIdempotent(m: bv32)
    ensures CombineDeviceMasks(m, m) == m
  {
  }

  /** A software-only request against a hardware-only setting keeps its
      software-only bit: `0x1fe` against `0xfe` gives `0x1fe`. */
  lemma CombineKeepsSwOnlyExample()
    ensures CombineDeviceMasks(AnyIntel | SwOnly, AnyIntel) == 0x1fe
    ensures CombineDeviceMasks(0x3, 0x100) == 0x100
  {
  }
}
