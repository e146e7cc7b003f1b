/// The fixed geometry of one driver instance and the pure part of its
/// constructor: colour depth from the colour mode, width and height exchanged
/// by a 90-degree rotation, and the MADCTL byte.
module Panel {
  import opened Builtins
  import Color

  /// `width`, `height`, `color_bytes` and `MAX_BYTES` of a `Display`.
  datatype Panel = Panel(width: int, height: int, colorBytes: nat, maxBytes: nat)

  ghost predicate Valid(p: Panel)
  {
    p.width > 0 && p.height > 0 && (p.colorBytes == 2 || p.colorBytes == 3)
  }

  /// What `__init__` derives from its arguments before bring-up.
  datatype Setup = Setup(panel: Panel, madctl: bv8)

  /// `color_mode` 0 is RGB565 (2 bytes per pixel) and 1 is RGB888 (3 bytes);
  /// any other mode leaves `color_bytes` unset.
  function ColorBytes(colorMode: int): (r: Option<nat>)
    ensures r.Some? <==> colorMode == 0 || colorMode == 1
    ensures r.Some? ==> r.value == 2 + colorMode
  {
    if colorMode == 0 then Some(2)
    else if colorMode == 1 then Some(3)
    else None
  }

  function Configure(width: int, height: int, bytesMax: nat, rotate90: bool,
                     flipH: bool, flipV: bool, colorMode: int, bgr: bool): (r: Option<Setup>)
    ensures r.Some? <==> colorMode == 0 || colorMode == 1
    ensures r.Some? ==>
      var p := r.value.panel;
      p.colorBytes == 2 + colorMode && p.maxBytes == bytesMax &&
      (rotate90 ==> p.width == height && p.height == width) &&
      (!rotate90 ==> p.width == width && p.height == height) &&
      ((r.value.madctl & 0x20) != 0) == rotate90 && ((r.value.madctl & 0x08) != 0) == bgr
    ensures r.Some? ==> r.value.madctl == Color.Madctl(rotate90, flipH, flipV, bgr)
  {
    match ColorBytes(colorMode)
    case None => None
    case Some(cb) =>
      var w, h := if rotate90 then height else width, if rotate90 then width else height;
      Some(Setup(Panel(w, h, cb, bytesMax), Color.Madctl(rotate90, flipH, flipV, bgr)))
  }

  /// `is_off_grid(xmin, ymin, xmax, ymax)`.
  function IsOffGrid(p: Panel, xmin: int, ymin: int, xmax: int, ymax: int): (off: bool)
    ensures !off <==> 0 <= xmin && 0 <= ymin && xmax < p.width && ymax < p.height
  {
    if xmin < 0 then true
    else if ymin < 0 then true
    else if xmax >= p.width then true
    else if ymax >= p.height then true
    else false
  }
}
