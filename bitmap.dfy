/// Reading uncompressed BMP files: `get_image_properties`, `draw_image` and
/// `load_sprite`. A file is its bytes; `f.read(n)` at a position returns the
/// bytes that are there, fewer (or none) near or past the end, and `f.seek`
/// may move past the end.
module Bitmap {
  import opened Builtins
  import opened Bus
  import opened Panel
  import opened Window

  const Signature: seq<byte> := [0x42, 0x4D]   // b"BM"
  const HeaderSize: nat := 0x36               // file header (14) + BITMAPINFOHEADER (40)

  /// The 4-byte little-endian header field at `at`.
  function Field(file: seq<byte>, at: nat): nat
    requires at + 4 <= |file|
  {
    LittleEndian(file[at..at + 4])
  }

  /// What `get_image_properties` returns.
  datatype Props = Props(offset: nat, width: nat, height: nat, bpp: nat, dataSize: nat, padding: nat)

  /// `get_image_properties(path)` on a panel of `colorBytes`-byte pixels. Every
  /// failure is a TypeError: a wrong signature, `ord(b"")` on a header field
  /// cut off by the end of the file, or a depth other than the panel's; the
  /// depth is read as a 4-byte field.
  function ImageProperties(file: seq<byte>, colorBytes: nat): (r: Result<Props>)
    ensures r.Ok? <==> |file| >= 0x26 && file[..2] == Signature && Field(file, 0x1C) / 8 == colorBytes
    ensures r.Err? ==> r.error == TypeError
    ensures r.Ok? ==> r.value.bpp / 8 == colorBytes && r.value.padding == (r.value.width * colorBytes) % 4
  {
    if |file| < 2 || file[..2] != Signature then Err(TypeError)
    else if |file| < 0x20 then Err(TypeError)
    else
      var bpp := Field(file, 0x1C);
      if bpp / 8 != colorBytes then Err(TypeError)
      else if |file| < 0x26 then Err(TypeError)
      else
        var w := Field(file, 0x12);
        Ok(Props(Field(file, 0x0A), w, Field(file, 0x16), bpp, Field(file, 0x22), (w * (bpp / 8)) % 4))
  }

  /// `f.read(n)` at position `pos`.
  function ReadAt(file: seq<byte>, pos: nat, n: nat): (r: seq<byte>)
    ensures |r| <= n
    ensures pos + n <= |file| ==> r == file[pos..pos + n]
    ensures pos >= |file| ==> r == []
    ensures pos <= |file| ==> |r| == Min(n, |file| - pos) && r == file[pos..pos + |r|]
  {
    if pos >= |file| then [] else file[pos..Min(pos + n, |file|)]
  }

  /// The rows read so far and the file position after them.
  datatype Reading = Reading(rows: seq<seq<byte>>, pos: nat)

  /// `count` reads of `n` bytes starting at `pos`, each followed by
  /// `f.seek(skip, 1)`.
  function ReadRows(file: seq<byte>, pos: nat, n: nat, skip: nat, count: nat): (r: Reading)
    ensures |r.rows| == count
  {
    if count == 0 then Reading([], pos)
    else
      var prev := ReadRows(file, pos, n, skip, count - 1);
      var row := ReadAt(file, prev.pos, n);
      Reading(prev.rows + [row], prev.pos + |row| + skip)
  }

  /// Row `k` of a longer reading is the read made where the first `k`
  /// reads left the file position.
  lemma {:induction false} ReadRowAt(file: seq<byte>, pos: nat, n: nat, skip: nat, count: nat, k: nat)
    requires k < count
    ensures ReadRows(file, pos, n, skip, count).rows[k] == ReadAt(file, ReadRows(file, pos, n, skip, k).pos, n)
    decreases count
  {
    if k < count - 1 {
      ReadRowAt(file, pos, n, skip, count - 1, k);
    }
  }

  /// One block per image row: row `k` read from the file goes, byte-reversed,
  /// to panel row `y + k`.
  function ImageBlits(x: int, y: int, w: int, rows: seq<seq<byte>>): (bs: seq<Blit>)
    ensures |bs| == |rows|
  {
    seq(|rows|, k requires 0 <= k < |rows| => Blit(x, y + k, x + w - 1, y + k, Reverse(rows[k])))
  }

  /// Block `k` of an image is the `k`-th read, reversed, on panel row
  /// `y + k`; the read after it starts `skip` bytes past its end.
  lemma ImageBlitAt(file: seq<byte>, pos: nat, n: nat, skip: nat, count: nat, x: int, y: int, w: int, k: nat)
    requires k < count
    ensures var at := ReadRows(file, pos, n, skip, k).pos;
      var row := ReadAt(file, at, n);
      ImageBlits(x, y, w, ReadRows(file, pos, n, skip, count).rows)[k] ==
        Blit(x, y + k, x + w - 1, y + k, Reverse(row)) &&
      ReadRows(file, pos, n, skip, k + 1).pos == at + |row| + skip
  {
    ReadRowAt(file, pos, n, skip, count, k);
  }

  /// `draw_image(path, x, y)`.
  function ImageRun(p: Panel, file: seq<byte>, x: int, y: int): Run
  {
    match ImageProperties(file, p.colorBytes)
    case Err(e) => Fail(e)
    case Ok(pr) =>
      var rows := ReadRows(file, pr.offset, pr.width * (pr.bpp / 8), pr.padding, pr.height).rows;
      BlitsRun(ImageBlits(x, y, pr.width, rows), true, true)
  }

  /// The raw pixel data `load_sprite` returns with the sprite's size.
  datatype Sprite = Sprite(data: seq<byte>, width: nat, height: nat)

  /// `raw_data += bytes(reversed(row))` over the rows read.
  function Unpack(rows: seq<seq<byte>>): seq<byte>
  {
    if rows == [] then [] else Unpack(rows[..|rows| - 1]) + Reverse(rows[|rows| - 1])
  }

  /// One more row read adds its bytes, reversed, at the end.
  lemma UnpackSnoc(rows: seq<seq<byte>>, row: seq<byte>)
    ensures Unpack(rows + [row]) == Unpack(rows) + Reverse(row)
  {
    assert (rows + [row])[..|rows|] == rows;
  }

  /// The depth as `load_sprite` reads it: a 2-byte field.
  function SpriteDepth(hdr: seq<byte>): nat
    requires 0x1E <= |hdr|
  {
    hdr[0x1C] as nat + 256 * hdr[0x1D] as nat
  }

  /// `load_sprite(path)`: the first 0x36 bytes are the header, and indexing a
  /// field past a short header raises IndexError. The loop runs once per
  /// `range(0, data_size, w)` step, so it reads until `data_size` is covered in
  /// steps of `w`, not `h` times; reads past the end of the file add nothing.
  function LoadSprite(p: Panel, file: seq<byte>): (r: Result<Sprite>)
    ensures r.Ok? ==> 1 <= r.value.width <= p.width && 1 <= r.value.height <= p.height
    ensures r.Ok? ==> |r.value.data| % r.value.width == 0 && |r.value.data| % r.value.height == 0
    ensures r.Ok? ==> |file| >= 0x26 && file[..2] == Signature && SpriteDepth(file) / 8 == p.colorBytes
  {
    var hdr := file[..Min(HeaderSize, |file|)];
    if |hdr| < 2 || hdr[..2] != Signature then Err(TypeError)
    else if |hdr| < 0x1A then Err(IndexError)
    else
      var w, h := Field(hdr, 0x12), Field(hdr, 0x16);
      if w > p.width || h > p.height then Err(ValueError)
      else if |hdr| < 0x26 then Err(IndexError)
      else if SpriteDepth(hdr) / 8 != p.colorBytes then Err(TypeError)
      else if w == 0 then Err(ValueError)
      else
        var n := RowBytes(w, p.colorBytes);
        var raw := Unpack(ReadRows(file, Field(hdr, 0x0A), n, n % 4, RangeLen(0, Field(hdr, 0x22), w)).rows);
        if |raw| % w != 0 then Err(UserWarning)
        else if h == 0 then Err(ZeroDivisionError)
        else if |raw| % h != 0 then Err(UserWarning)
        else Ok(Sprite(raw, w, h))
  }

  // ---------------------------------------------------------------------------
  // Files as a BMP writer lays them out, and what the readers make of them.

  /// The bytes in one row of `w` pixels.
  function RowBytes(w: nat, colorBytes: nat): nat
  {
    w * colorBytes
  }

  /// The padding a BMP writer stores after each row so that stored rows are a
  /// multiple of 4 bytes long.
  function StoredPadding(rowBytes: nat): (pad: nat)
    ensures pad < 4 && (rowBytes + pad) % 4 == 0
  {
    (4 - rowBytes % 4) % 4
  }

  /// The padding both readers skip, `(w * bytes) % 4`, is the padding a
  /// writer stores exactly when a row has an even number of bytes: always for
  /// 16-bit pixels, only for even widths with 24-bit pixels.
  lemma PaddingAgrees(rowBytes: nat)
    ensures rowBytes % 4 == StoredPadding(rowBytes) <==> rowBytes % 2 == 0
  {
    var q, r := rowBytes / 4, rowBytes % 4;
    assert rowBytes == 2 * (2 * q) + r;
    assert rowBytes % 2 == r % 2;
  }

  function Zeros(n: nat): (z: seq<byte>)
    ensures |z| == n
  {
    seq(n, _ => 0)
  }

  /// The pixel array: the rows one after another, each followed by `pad` zero bytes.
  function PixelArray(rows: seq<seq<byte>>, pad: nat): seq<byte>
  {
    if rows == [] then [] else PixelArray(rows[..|rows| - 1], pad) + rows[|rows| - 1] + Zeros(pad)
  }

  lemma {:induction false} PixelArrayLength(rows: seq<seq<byte>>, n: nat, pad: nat)
    requires forall k :: 0 <= k < |rows| ==> |rows[k]| == n
    ensures |PixelArray(rows, pad)| == |rows| * (n + pad)
  {
    if rows != [] {
      PixelArrayLength(rows[..|rows| - 1], n, pad);
      assert (|rows| - 1) * (n + pad) + (n + pad) == |rows| * (n + pad);
    }
  }

  lemma {:induction false} PixelArrayAppend(a: seq<seq<byte>>, b: seq<seq<byte>>, pad: nat)
    ensures PixelArray(a + b, pad) == PixelArray(a, pad) + PixelArray(b, pad)
    decreases |b|
  {
    if b == [] {
      assert a + b == a;
    } else {
      assert (a + b)[..|a + b| - 1] == a + b[..|b| - 1];
      PixelArrayAppend(a, b[..|b| - 1], pad);
    }
  }

  /// A 4-byte little-endian field.
  function Le32(v: nat): (bs: seq<byte>)
    requires v < 0x1_0000_0000
    ensures |bs| == 4
  {
    [(v % 0x100) as byte, (v / 0x100 % 0x100) as byte, (v / 0x1_0000 % 0x100) as byte, (v / 0x100_0000) as byte]
  }

  /// A 2-byte little-endian field.
  function Le16(v: nat): (bs: seq<byte>)
    requires v < 0x1_0000
    ensures |bs| == 2
  {
    [(v % 0x100) as byte, (v / 0x100) as byte]
  }

  /// Summing a field's bytes gives back the stored value; the low two bytes
  /// of a 4-byte field give its value modulo 0x10000.
  lemma Le32RoundTrip(v: nat)
    requires v < 0x1_0000_0000
    ensures LittleEndian(Le32(v)) == v
    ensures LittleEndian(Le32(v)[..2]) == v % 0x1_0000
  {
    var bs := Le32(v);
    var lo, hi := v % 0x1_0000, v / 0x1_0000;
    assert LittleEndian(bs[..2]) == lo by {
      LittleEndianTwo(bs[..2]);
      LowHalf(v);
    }
    assert LittleEndian(bs[2..]) == hi by {
      LittleEndianTwo(bs[2..]);
      HighHalf(v);
    }
    assert LittleEndian(bs) == lo + Pow256(2) * hi by {
      assert bs == bs[..2] + bs[2..];
      LittleEndianAppend(bs[..2], bs[2..]);
    }
    assert Pow256(2) == 0x1_0000 by {
      assert Pow256(1) == 256 * Pow256(0);
    }
  }

  /// The low two bytes of `v` make `v % 0x10000`.
  lemma LowHalf(v: nat)
    ensures v % 0x1_0000 == v % 0x100 + 0x100 * (v / 0x100 % 0x100)
  {
    var q, r := v / 0x100, v % 0x100;
    var q2, r2 := q / 0x100, q % 0x100;
    assert v == 0x1_0000 * q2 + (0x100 * r2 + r);
  }

  /// The high two bytes of a 32-bit `v` make `v / 0x10000`.
  lemma HighHalf(v: nat)
    requires v < 0x1_0000_0000
    ensures v / 0x1_0000 == v / 0x1_0000 % 0x100 + 0x100 * (v / 0x100_0000)
  {
    var q, r := v / 0x1_0000, v % 0x1_0000;
    var q2, r2 := q / 0x100, q % 0x100;
    assert v == 0x100_0000 * q2 + (0x1_0000 * r2 + r);
  }

  lemma Le16RoundTrip(v: nat)
    requires v < 0x1_0000
    ensures LittleEndian(Le16(v)) == v
  {
    LittleEndianTwo(Le16(v));
  }

  lemma LittleEndianTwo(bs: seq<byte>)
    requires |bs| == 2
    ensures LittleEndian(bs) == bs[0] as nat + 256 * bs[1] as nat
  {
    assert LittleEndian(bs[1..]) == bs[1] as nat + 256 * LittleEndian(bs[1..][1..]);
    assert bs[1..][1..] == [];
  }

  /// What a BMP writer needs to lay out `rows` as a `w`-pixel-wide image of
  /// `colorBytes`-byte pixels: rows of `w` pixels and sizes that fit the
  /// header's 4-byte fields.
  predicate Writable(w: nat, colorBytes: nat, compression: nat, rows: seq<seq<byte>>)
  {
    (forall k :: 0 <= k < |rows| ==> |rows[k]| == RowBytes(w, colorBytes)) &&
    w < 0x1_0000_0000 && |rows| < 0x1_0000_0000 && 8 * colorBytes < 0x1_0000 &&
    compression < 0x1_0000_0000 &&
    HeaderSize + |PixelArray(rows, StoredPadding(RowBytes(w, colorBytes)))| < 0x1_0000_0000
  }

  /// A 14-byte file header and a 40-byte BITMAPINFOHEADER: signature, file
  /// size, reserved word, pixel-array offset, info size, width, height, one
  /// plane, bits per pixel, compression, pixel-array size, and zeros for
  /// resolution and palette counts.
  function BmpHeader(w: nat, h: nat, bpp: nat, compression: nat, dataSize: nat): (hdr: seq<byte>)
    requires w < 0x1_0000_0000 && h < 0x1_0000_0000 && HeaderSize + dataSize < 0x1_0000_0000
    requires bpp < 0x1_0000 && compression < 0x1_0000_0000
    ensures |hdr| == HeaderSize
  {
    Signature + Le32(HeaderSize + dataSize) + Le32(0) + Le32(HeaderSize) + Le32(40) +
    Le32(w) + Le32(h) + Le16(1) + Le16(bpp) + Le32(compression) + Le32(dataSize) + Zeros(16)
  }

  /// The file a BMP writer produces for `rows`, the stored rows bottom-up as
  /// BMP keeps them, each followed by the writer's padding.
  function BmpFile(w: nat, colorBytes: nat, compression: nat, rows: seq<seq<byte>>): (file: seq<byte>)
    requires Writable(w, colorBytes, compression, rows)
  {
    var pa := PixelArray(rows, StoredPadding(RowBytes(w, colorBytes)));
    BmpHeader(w, |rows|, 8 * colorBytes, compression, |pa|) + pa
  }

  /// The header fields both readers take from a written header.
  lemma {:induction false} BmpHeaderFields(w: nat, h: nat, bpp: nat, compression: nat, dataSize: nat,
                                           rest: seq<byte>)
    requires w < 0x1_0000_0000 && h < 0x1_0000_0000 && HeaderSize + dataSize < 0x1_0000_0000
    requires bpp < 0x1_0000 && compression < 0x1_0000_0000
    ensures var file := BmpHeader(w, h, bpp, compression, dataSize) + rest;
      file[..2] == Signature && file[..HeaderSize] == BmpHeader(w, h, bpp, compression, dataSize) &&
      Field(file, 0x0A) == HeaderSize && Field(file, 0x12) == w && Field(file, 0x16) == h &&
      Field(file, 0x22) == dataSize && SpriteDepth(file) == bpp &&
      Field(file, 0x1C) == bpp + 0x1_0000 * (compression % 0x1_0000)
  {
    var file := BmpHeader(w, h, bpp, compression, dataSize) + rest;
    var a := Signature + Le32(HeaderSize + dataSize) + Le32(0);
    var off, info, ws, hs := Le32(HeaderSize), Le32(40), Le32(w), Le32(h);
    var planes, depth, comp, size := Le16(1), Le16(bpp), Le32(compression), Le32(dataSize);
    assert file == a + off + info + ws + hs + planes + depth + comp + size + Zeros(16) + rest;
    assert Field(file, 0x0A) == HeaderSize by {
      assert file[0x0A..0x0E] == off;
      Le32RoundTrip(HeaderSize);
    }
    assert Field(file, 0x12) == w by {
      assert file[0x12..0x16] == ws;
      Le32RoundTrip(w);
    }
    assert Field(file, 0x16) == h by {
      assert file[0x16..0x1A] == hs;
      Le32RoundTrip(h);
    }
    assert Field(file, 0x22) == dataSize by {
      assert file[0x22..0x26] == size;
      Le32RoundTrip(dataSize);
    }
    assert SpriteDepth(file) == bpp by {
      assert file[0x1C..0x1E] == depth;
      LittleEndianTwo(depth);
      Le16RoundTrip(bpp);
    }
    assert Field(file, 0x1C) == bpp + 0x1_0000 * (compression % 0x1_0000) by {
      assert file[0x1C..0x20] == depth + comp[..2];
      Le32RoundTrip(compression);
      Le16RoundTrip(bpp);
      LittleEndianAppend(depth, comp[..2]);
      assert Pow256(2) == 0x1_0000 by {
        assert Pow256(1) == 256 * Pow256(0);
      }
    }
  }

  /// Reading `k` rows of `n` bytes, skipping `pad` after each, from the start
  /// of a pixel array stored with `pad` bytes of padding gives back the first
  /// `k` stored rows.
  lemma {:induction false} ReadStoredRows(pre: seq<byte>, rows: seq<seq<byte>>, n: nat, pad: nat, k: nat)
    requires forall i :: 0 <= i < |rows| ==> |rows[i]| == n
    requires k <= |rows|
    ensures ReadRows(pre + PixelArray(rows, pad), |pre|, n, pad, k) ==
            Reading(rows[..k], |pre| + Stride(k, n + pad))
  {
    if k == 0 {
      assert rows[..0] == [] && Stride(0, n + pad) == 0;
    } else {
      var file := pre + PixelArray(rows, pad);
      ReadStoredRows(pre, rows, n, pad, k - 1);
      assert ReadAt(file, |pre| + Stride(k - 1, n + pad), n) == rows[k - 1] by {
        StoredRowAt(pre, rows, n, pad, k);
      }
      assert |rows[k - 1]| == n;
      StoredRowStep(file, |pre|, rows, n, pad, k);
    }
  }

  /// Reading row `k - 1` where the first `k - 1` reads left off, and finding
  /// it there, extends the reading by that row.
  lemma StoredRowStep(file: seq<byte>, pos: nat, rows: seq<seq<byte>>, n: nat, pad: nat, k: nat)
    requires 0 < k <= |rows| && |rows[k - 1]| == n
    requires ReadRows(file, pos, n, pad, k - 1) == Reading(rows[..k - 1], pos + Stride(k - 1, n + pad))
    requires ReadAt(file, pos + Stride(k - 1, n + pad), n) == rows[k - 1]
    ensures ReadRows(file, pos, n, pad, k) == Reading(rows[..k], pos + Stride(k, n + pad))
  {
    assert rows[..k - 1] + [rows[k - 1]] == rows[..k];
    assert Stride(k, n + pad) == Stride(k - 1, n + pad) + (n + pad) by {
      MulSucc(k, n + pad);
    }
  }

  /// Stored row `k - 1` starts `(k - 1) * (n + pad)` bytes into the pixel array.
  lemma {:induction false} StoredRowAt(pre: seq<byte>, rows: seq<seq<byte>>, n: nat, pad: nat, k: nat)
    requires forall i :: 0 <= i < |rows| ==> |rows[i]| == n
    requires 0 < k <= |rows|
    ensures var file, at := pre + PixelArray(rows, pad), |pre| + Stride(k - 1, n + pad);
      at + n <= |file| && file[at..at + n] == rows[k - 1]
  {
    var file := pre + PixelArray(rows, pad);
    var before := PixelArray(rows[..k - 1], pad);
    var rest := Zeros(pad) + PixelArray(rows[k..], pad);
    PixelArraySplit(rows, k, pad);
    PixelArrayLength(rows[..k - 1], n, pad);
    assert file == (pre + before) + rows[k - 1] + rest;
    SliceOfConcat(pre + before, rows[k - 1], rest);
  }

  /// Where stored row `j` starts, `j` rows of `stride` bytes in.
  function Stride(j: nat, stride: nat): nat
  {
    j * stride
  }

  lemma MulSucc(k: int, m: int)
    ensures (k - 1) * m + m == k * m
  {
  }

  /// The stored rows before row `k - 1`, that row, and what follows it.
  lemma {:induction false} PixelArraySplit(rows: seq<seq<byte>>, k: nat, pad: nat)
    requires 0 < k <= |rows|
    ensures PixelArray(rows, pad) ==
            PixelArray(rows[..k - 1], pad) + rows[k - 1] + (Zeros(pad) + PixelArray(rows[k..], pad))
  {
    var before, row, after := rows[..k - 1], rows[k - 1], rows[k..];
    assert rows == before + ([row] + after);
    PixelArrayAppend(before, [row] + after, pad);
    PixelArrayAppend([row], after, pad);
    assert PixelArray([row], pad) == row + Zeros(pad) by {
      assert [row][..0] == [];
    }
  }

  lemma SliceOfConcat<T>(a: seq<T>, b: seq<T>, c: seq<T>)
    ensures (a + b + c)[|a|..|a| + |b|] == b
  {
  }

  /// `j` empty rows.
  function Empties(j: nat): (r: seq<seq<byte>>)
    ensures |r| == j
  {
    if j == 0 then [] else Empties(j - 1) + [[]]
  }

  /// Once the position is past the end, further reads add only empty rows,
  /// which add nothing to the unpacked data.
  lemma ReadPastEnd(file: seq<byte>, pos: nat, n: nat, skip: nat, k: nat, m: nat)
    requires k <= m
    requires ReadRows(file, pos, n, skip, k).pos >= |file|
    ensures ReadRows(file, pos, n, skip, m).pos >= |file|
    ensures Unpack(ReadRows(file, pos, n, skip, m).rows) == Unpack(ReadRows(file, pos, n, skip, k).rows)
  {
    var rows := ReadRows(file, pos, n, skip, k).rows;
    PosPastEnd(file, pos, n, skip, k, m);
    assert ReadRows(file, pos, n, skip, m).rows == rows + Empties(m - k) by {
      ReadsPastEnd(file, pos, n, skip, k, m);
    }
    UnpackEmpties(rows, m - k);
  }

  /// Once the position is past the end, it stays there.
  lemma {:induction false} PosPastEnd(file: seq<byte>, pos: nat, n: nat, skip: nat, k: nat, m: nat)
    requires k <= m
    requires ReadRows(file, pos, n, skip, k).pos >= |file|
    ensures ReadRows(file, pos, n, skip, m).pos >= |file|
    decreases m - k
  {
    if m == k {
    } else {
      PosPastEnd(file, pos, n, skip, k, m - 1);
    }
  }

  /// Reads past the end of the file add empty rows.
  lemma {:induction false} ReadsPastEnd(file: seq<byte>, pos: nat, n: nat, skip: nat, k: nat, m: nat)
    requires k <= m
    requires ReadRows(file, pos, n, skip, k).pos >= |file|
    ensures ReadRows(file, pos, n, skip, m).rows == ReadRows(file, pos, n, skip, k).rows + Empties(m - k)
    decreases m - k
  {
    var rows := ReadRows(file, pos, n, skip, k).rows;
    if m == k {
      assert rows + [] == rows;
    } else {
      ReadsPastEnd(file, pos, n, skip, k, m - 1);
      ReadPastEndStep(file, pos, n, skip, k, m);
    }
  }

  lemma ReadPastEndStep(file: seq<byte>, pos: nat, n: nat, skip: nat, k: nat, m: nat)
    requires k < m
    requires ReadRows(file, pos, n, skip, k).pos >= |file|
    requires ReadRows(file, pos, n, skip, m - 1).rows == ReadRows(file, pos, n, skip, k).rows + Empties(m - 1 - k)
    ensures ReadRows(file, pos, n, skip, m).rows == ReadRows(file, pos, n, skip, k).rows + Empties(m - k)
  {
    var rows := ReadRows(file, pos, n, skip, k).rows;
    var prev := ReadRows(file, pos, n, skip, m - 1);
    assert ReadRows(file, pos, n, skip, m).rows == prev.rows + [[]] by {
      PosPastEnd(file, pos, n, skip, k, m - 1);
    }
    assert rows + Empties(m - 1 - k) + [[]] == rows + Empties(m - k);
  }

  /// Empty rows add nothing to the unpacked data.
  lemma {:induction false} UnpackEmpties(rows: seq<seq<byte>>, j: nat)
    ensures Unpack(rows + Empties(j)) == Unpack(rows)
  {
    if j == 0 {
      assert rows + [] == rows;
    } else {
      UnpackEmpties(rows, j - 1);
      assert rows + Empties(j) == (rows + Empties(j - 1)) + [[]];
      UnpackSnoc(rows + Empties(j - 1), []);
      assert Reverse<byte>([]) == [];
      assert Unpack(rows + Empties(j - 1)) + [] == Unpack(rows + Empties(j - 1));
    }
  }

  lemma {:induction false} UnpackLength(rows: seq<seq<byte>>, n: nat)
    requires forall i :: 0 <= i < |rows| ==> |rows[i]| == n
    ensures |Unpack(rows)| == |rows| * n
  {
    if rows != [] {
      UnpackLength(rows[..|rows| - 1], n);
      assert (|rows| - 1) * n + n == |rows| * n;
    }
  }

  /// `get_image_properties` accepts a written file exactly when the low half
  /// of its compression field is 0, because it reads the 2-byte depth
  /// together with the two bytes that follow it; and then it returns the
  /// written geometry.
  lemma {:induction false} ImagePropertiesOfBmp(w: nat, colorBytes: nat, compression: nat, rows: seq<seq<byte>>)
    requires Writable(w, colorBytes, compression, rows)
    ensures var r := ImageProperties(BmpFile(w, colorBytes, compression, rows), colorBytes);
      (r.Ok? <==> compression % 0x1_0000 == 0) &&
      (r.Ok? ==> var pa := PixelArray(rows, StoredPadding(RowBytes(w, colorBytes)));
                 r.value == Props(HeaderSize, w, |rows|, 8 * colorBytes, |pa|, RowBytes(w, colorBytes) % 4))
  {
    var pa := PixelArray(rows, StoredPadding(RowBytes(w, colorBytes)));
    BmpHeaderFields(w, |rows|, 8 * colorBytes, compression, |pa|, pa);
    var m := compression % 0x1_0000;
    assert (8 * colorBytes + 0x1_0000 * m) / 8 == colorBytes + 0x2000 * m;
  }

  /// `draw_image` on a written file whose rows have an even number of bytes
  /// (every 16-bit image, 24-bit images of even width) sends stored row `k`,
  /// byte-reversed, to panel row `y + k`.
  lemma {:induction false} ImageRoundTrip(p: Panel, w: nat, rows: seq<seq<byte>>, x: int, y: int)
    requires Writable(w, p.colorBytes, 0, rows)
    requires RowBytes(w, p.colorBytes) % 2 == 0
    ensures ImageRun(p, BmpFile(w, p.colorBytes, 0, rows), x, y) ==
            BlitsRun(ImageBlits(x, y, w, rows), true, true)
  {
    var cb := p.colorBytes;
    var n := RowBytes(w, cb);
    var pad := StoredPadding(n);
    var file := BmpFile(w, cb, 0, rows);
    var pr := Props(HeaderSize, w, |rows|, 8 * cb, |PixelArray(rows, pad)|, pad);
    assert ImageProperties(file, cb) == Ok(pr) by {
      ImagePropertiesOfBmp(w, cb, 0, rows);
      PaddingAgrees(n);
    }
    assert pr.width * (pr.bpp / 8) == n by {
      assert (8 * cb) / 8 == cb;
    }
    BmpFileRows(w, cb, 0, rows);
  }

  /// Reading a written file's rows from its pixel-array offset, skipping the
  /// stored padding, gives back the stored rows and ends at the end of the file.
  lemma {:induction false} BmpFileRows(w: nat, colorBytes: nat, compression: nat, rows: seq<seq<byte>>)
    requires Writable(w, colorBytes, compression, rows)
    ensures var n := RowBytes(w, colorBytes); var file := BmpFile(w, colorBytes, compression, rows);
      ReadRows(file, HeaderSize, n, StoredPadding(n), |rows|) == Reading(rows, |file|)
  {
    var n := RowBytes(w, colorBytes);
    var pad := StoredPadding(n);
    var pa := PixelArray(rows, pad);
    PixelArrayLength(rows, n, pad);
    var hdr := BmpHeader(w, |rows|, 8 * colorBytes, compression, |pa|);
    var file := BmpFile(w, colorBytes, compression, rows);
    assert file == hdr + pa;
    ReadStoredRows(hdr, rows, n, pad, |rows|);
    assert rows[..|rows|] == rows;
  }

  /// A header field read from the first `k` bytes is the field read from the file.
  lemma PrefixField(file: seq<byte>, k: nat, at: nat)
    requires at + 4 <= k <= |file|
    ensures Field(file[..k], at) == Field(file, at)
  {
    assert file[..k][at..at + 4] == file[at..at + 4];
  }

  /// `range(0, size, w)` has at least `h` steps when `size >= h * w`.
  lemma RangeCovers(size: nat, w: nat, h: nat)
    requires w >= 1 && size >= h * w
    ensures RangeLen(0, size, w) >= h
  {
    var c := RangeLen(0, size, w);
    if c < h {
      MulLe(w, c, h - 1);
    }
  }

  lemma MulLe(a: nat, b: nat, c: nat)
    requires b <= c
    ensures a * b <= a * c
  {
  }

  lemma MultipleMod(a: nat, b: nat)
    requires b >= 1
    ensures (a * b) % b == 0
  {
    var q := (a * b) / b;
    MulSign(a - q, b);
  }

  lemma MulSign(d: int, b: int)
    requires b >= 1
    ensures d >= 1 ==> d * b >= b
    ensures d <= -1 ==> d * b <= -b
  {
  }

  /// `load_sprite` on a written file whose rows have an even number of bytes
  /// and that fits the panel returns the stored rows, each byte-reversed,
  /// one after another: whatever the compression field says, and although
  /// the loop runs once per `w` bytes of the pixel array rather than once per
  /// row, since the extra reads fall past the end of the file.
  lemma {:induction false} SpriteRoundTrip(p: Panel, w: nat, compression: nat, rows: seq<seq<byte>>)
    requires Writable(w, p.colorBytes, compression, rows)
    requires p.colorBytes >= 1 && RowBytes(w, p.colorBytes) % 2 == 0
    requires 1 <= w <= p.width && 1 <= |rows| <= p.height
    ensures LoadSprite(p, BmpFile(w, p.colorBytes, compression, rows)) == Ok(Sprite(Unpack(rows), w, |rows|))
  {
    var cb := p.colorBytes;
    var n := RowBytes(w, cb);
    var file := BmpFile(w, cb, compression, rows);
    var hdr := file[..HeaderSize];
    var count := RangeLen(0, |PixelArray(rows, StoredPadding(n))|, w);
    var raw := Unpack(ReadRows(file, HeaderSize, n, n % 4, count).rows);
    SpriteHeaderFields(w, cb, compression, rows);
    SpriteDataRead(w, cb, compression, rows);
    assert SpriteDepth(hdr) / 8 == cb;
    LoadSpriteAccepts(p, file, w, |rows|, raw);
  }

  /// The header of a written file, as `load_sprite` reads it.
  lemma SpriteHeaderFields(w: nat, cb: nat, compression: nat, rows: seq<seq<byte>>)
    requires Writable(w, cb, compression, rows)
    ensures var pa := PixelArray(rows, StoredPadding(RowBytes(w, cb)));
      var file := BmpFile(w, cb, compression, rows);
      var hdr := file[..HeaderSize];
      |file| >= HeaderSize && hdr[..2] == Signature &&
      Field(hdr, 0x0A) == HeaderSize && Field(hdr, 0x12) == w && Field(hdr, 0x16) == |rows| &&
      Field(hdr, 0x22) == |pa| && SpriteDepth(hdr) == 8 * cb
  {
    var pa := PixelArray(rows, StoredPadding(RowBytes(w, cb)));
    var file := BmpFile(w, cb, compression, rows);
    var hdr := file[..HeaderSize];
    assert hdr == BmpHeader(w, |rows|, 8 * cb, compression, |pa|);
    BmpHeaderFields(w, |rows|, 8 * cb, compression, |pa|, pa);
    PrefixField(file, HeaderSize, 0x0A);
    PrefixField(file, HeaderSize, 0x12);
    PrefixField(file, HeaderSize, 0x16);
    PrefixField(file, HeaderSize, 0x22);
  }

  /// The pixel data of a written file, as `load_sprite` reads it: the rows'
  /// bytes reversed one after another, a whole number of rows of `w` pixels.
  lemma SpriteDataRead(w: nat, cb: nat, compression: nat, rows: seq<seq<byte>>)
    requires Writable(w, cb, compression, rows)
    requires cb >= 1 && RowBytes(w, cb) % 2 == 0 && 1 <= w && 1 <= |rows|
    ensures var n := RowBytes(w, cb);
      var file := BmpFile(w, cb, compression, rows);
      var count := RangeLen(0, |PixelArray(rows, StoredPadding(n))|, w);
      var raw := Unpack(ReadRows(file, HeaderSize, n, n % 4, count).rows);
      raw == Unpack(rows) && |raw| % w == 0 && |raw| % |rows| == 0
  {
    var n := RowBytes(w, cb);
    var pad := StoredPadding(n);
    var pa := PixelArray(rows, pad);
    var file := BmpFile(w, cb, compression, rows);
    assert n % 4 == pad by {
      PaddingAgrees(n);
    }
    var count := RangeLen(0, |pa|, w);
    assert count >= |rows| by {
      RowMultiple(w, cb, |rows|);
      PixelArrayLength(rows, n, pad);
      MulLe(|rows|, w, n + pad);
      RangeCovers(|pa|, w, |rows|);
    }
    assert ReadRows(file, HeaderSize, n, pad, |rows|) == Reading(rows, |file|) by {
      BmpFileRows(w, cb, compression, rows);
    }
    var raw := Unpack(ReadRows(file, HeaderSize, n, pad, count).rows);
    assert raw == Unpack(rows) by {
      ReadPastEnd(file, HeaderSize, n, pad, |rows|, count);
    }
    assert |raw| % w == 0 && |raw| % |rows| == 0 by {
      RowMultiple(w, cb, |rows|);
      UnpackLength(rows, n);
    }
  }

  /// `load_sprite` returns the unpacked rows and the header's size when the
  /// header is complete, carries the signature and the panel's depth, the
  /// size fits the panel, and the data splits evenly by width and height.
  lemma LoadSpriteAccepts(p: Panel, file: seq<byte>, w: nat, h: nat, raw: seq<byte>)
    requires |file| >= HeaderSize
    requires var hdr := file[..HeaderSize];
      hdr[..2] == Signature && Field(hdr, 0x12) == w && Field(hdr, 0x16) == h &&
      SpriteDepth(hdr) / 8 == p.colorBytes
    requires 1 <= w <= p.width && 1 <= h <= p.height
    requires var hdr := file[..HeaderSize];
      var n := RowBytes(w, p.colorBytes);
      raw == Unpack(ReadRows(file, Field(hdr, 0x0A), n, n % 4, RangeLen(0, Field(hdr, 0x22), w)).rows)
    requires |raw| % w == 0 && |raw| % h == 0
    ensures LoadSprite(p, file) == Ok(Sprite(raw, w, h))
  {
    assert Min(HeaderSize, |file|) == HeaderSize;
  }

  /// A row of `w` pixels is at least `w` bytes, and `h` such rows split
  /// evenly both into `w` and into `h` parts.
  lemma RowMultiple(w: nat, colorBytes: nat, h: nat)
    requires w >= 1 && colorBytes >= 1 && h >= 1
    ensures w <= RowBytes(w, colorBytes)
    ensures (h * RowBytes(w, colorBytes)) % w == 0 && (h * RowBytes(w, colorBytes)) % h == 0
  {
    MulLe(w, 1, colorBytes);
    assert h * (w * colorBytes) == (h * colorBytes) * w == (w * colorBytes) * h;
    MultipleMod(h * colorBytes, w);
    MultipleMod(w * colorBytes, h);
  }

  /// A 16-bit BMP written with a non-zero compression code, such as the
  /// bit-field code 3 that RGB565 images carry, is refused by
  /// `get_image_properties` (so by `draw_image`) and accepted by `load_sprite`.
  lemma CompressionSplitsReaders(p: Panel, w: nat, compression: nat, rows: seq<seq<byte>>)
    requires Writable(w, p.colorBytes, compression, rows)
    requires p.colorBytes >= 1 && RowBytes(w, p.colorBytes) % 2 == 0
    requires 1 <= w <= p.width && 1 <= |rows| <= p.height
    requires compression % 0x1_0000 != 0
    ensures ImageProperties(BmpFile(w, p.colorBytes, compression, rows), p.colorBytes) == Err(TypeError)
    ensures LoadSprite(p, BmpFile(w, p.colorBytes, compression, rows)).Ok?
  {
    ImagePropertiesOfBmp(w, p.colorBytes, compression, rows);
    SpriteRoundTrip(p, w, compression, rows);
  }

  lemma PixelOffsets(w: nat, cb: nat, j: nat)
    requires j < w
    ensures (j + 1) * cb == j * cb + cb && (w - j) * cb == (w - 1 - j) * cb + cb
    ensures w * cb == j * cb + cb + (w - 1 - j) * cb
    ensures 0 <= j * cb && 0 <= (w - 1 - j) * cb
  {
    var a: nat := w - 1 - j;
    MulAdd(j, 1, cb);
    MulAdd(a, 1, cb);
    MulAdd(j + 1, a, cb);
    MulNonneg(j, cb);
    MulNonneg(a, cb);
  }

  lemma MulAdd(a: int, b: int, c: int)
    ensures (a + b) * c == a * c + b * c
  {
  }

  /// The `c` items starting at `s` of a reversed sequence are the `c` items
  /// ending `s` from the end, reversed.
  lemma ReverseWindow<T>(r: seq<T>, s: nat, e: nat, c: nat)
    requires s + c + e == |r|
    ensures Reverse(r)[s..s + c] == Reverse(r[e..e + c])
  {
    var x, y := r[..e], r[e..];
    var b, z := y[..c], y[c..];
    assert b == r[e..e + c];
    var rx, rb, rz := Reverse(x), Reverse(b), Reverse(z);
    assert Reverse(r) == rz + rb + rx by {
      assert r == x + y && y == b + z;
      ReverseAppend(x, y);
      ReverseAppend(b, z);
    }
    assert |rz| == s;
    SliceOfConcat(rz, rb, rx);
  }

  /// `draw_image` sends a stored row reversed: pixel `j` of the block is
  /// stored pixel `w - 1 - j`, so the image is mirrored left to right, and
  /// each pixel's little-endian bytes arrive most significant first, the
  /// order the panel expects.
  lemma MirroredPixel(row: seq<byte>, w: nat, colorBytes: nat, j: nat)
    requires |row| == w * colorBytes && j < w
    ensures (j + 1) * colorBytes <= |row| && (w - j) * colorBytes <= |row|
    ensures Reverse(row)[j * colorBytes..(j + 1) * colorBytes] ==
            Reverse(row[(w - 1 - j) * colorBytes..(w - j) * colorBytes])
    ensures FromBigEndian(Reverse(row)[j * colorBytes..(j + 1) * colorBytes]) ==
            LittleEndian(row[(w - 1 - j) * colorBytes..(w - j) * colorBytes])
  {
    var cb := colorBytes;
    PixelOffsets(w, cb, j);
    var s, e := j * cb, (w - 1 - j) * cb;
    ReverseWindow(row, s, e, cb);
    ReverseLittleEndian(row[e..e + cb]);
  }

  /// The order of `load_sprite`'s header checks: the signature first
  /// (TypeError), then the size against the panel (ValueError) before the
  /// depth (TypeError); a header cut short raises IndexError at the first
  /// field it lacks.
  lemma SpriteHeaderChecks(p: Panel, file: seq<byte>)
    ensures |file| < 2 || file[..2] != Signature ==> LoadSprite(p, file) == Err(TypeError)
    ensures 2 <= |file| < 0x1A && file[..2] == Signature ==> LoadSprite(p, file) == Err(IndexError)
    ensures |file| >= 0x1A && file[..2] == Signature &&
            (Field(file, 0x12) > p.width || Field(file, 0x16) > p.height) ==>
            LoadSprite(p, file) == Err(ValueError)
    ensures |file| >= 0x26 && file[..2] == Signature &&
            Field(file, 0x12) <= p.width && Field(file, 0x16) <= p.height &&
            SpriteDepth(file) / 8 != p.colorBytes ==>
            LoadSprite(p, file) == Err(TypeError)
  {
    var k := Min(HeaderSize, |file|);
    if |file| >= 0x1A {
      PrefixField(file, k, 0x12);
      PrefixField(file, k, 0x16);
    }
    if |file| >= 2 {
      assert file[..k][..2] == file[..2];
    }
  }
}
