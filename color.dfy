/// Colour packing (`color565`, `color888`) and the panel's MADCTL byte.
module Color {

  /// `color565(r, g, b)`: the top 5 bits of red, 6 of green and 5 of blue,
  /// packed as RRRRRGGGGGGBBBBB.
  function Color565(r: bv8, g: bv8, b: bv8): (c: bv16)
    ensures c >> 11 == (r >> 3) as bv16
    ensures (c >> 5) & 0x3f == (g >> 2) as bv16
    ensures c & 0x1f == (b >> 3) as bv16
  {
    ((r as bv16 & 0xf8) << 8) | ((g as bv16 & 0xfc) << 3) | (b as bv16 >> 3)
  }

  /// The packed value only depends on the bits it keeps: dropping the low
  /// 3, 2 and 3 bits of the channels does not change it.
  lemma Color565TopBits(r: bv8, g: bv8, b: bv8)
    ensures Color565(r, g, b) == Color565(r & 0xf8, g & 0xfc, b & 0xf8)
  {
  }

  /// `color888(r, g, b)`: the three channels side by side.
  function Color888(r: bv8, g: bv8, b: bv8): (c: bv32)
    ensures c < 0x100_0000
    ensures (c >> 16) & 0xff == r as bv32 && (c >> 8) & 0xff == g as bv32 && c & 0xff == b as bv32
  {
    (r as bv32 << 16) | (g as bv32 << 8) | b as bv32
  }

  function Bit(flag: bool): bv8 { if flag then 1 else 0 }

  /// The MADCTL byte (section 8.2.29 of the ILI9341 datasheet): base 0x80
  /// (row order flipped) or 0x20 (row/column exchange) for a 90-degree
  /// rotation, then `^ flip_h << 7 ^ flip_v << 6 ^ bgr << 3`.
  function Madctl(rotate90: bool, flipH: bool, flipV: bool, bgr: bool): (m: bv8)
    ensures ((m & 0x80) != 0) == (rotate90 == flipH)
    ensures ((m & 0x40) != 0) == flipV
    ensures ((m & 0x20) != 0) == rotate90
    ensures ((m & 0x08) != 0) == bgr
    ensures (m & 0x17) == 0
  {
    var base: bv8 := if rotate90 then 0x20 else 0x80;
    base ^ (Bit(flipH) << 7) ^ (Bit(flipV) << 6) ^ (Bit(bgr) << 3)
  }
}
