/// The Python built-ins the driver leans on, with the semantics it relies on:
/// floor division, sequence repetition (`s * n`), clamped slicing, `range`
/// lengths, `bytes(list)`, `int.to_bytes(n, "big")` and little-endian field
/// sums, together with the exceptions they raise.
module Builtins {

  newtype byte = x: int | 0 <= x < 256

  /// The Python exceptions the modelled code can raise.
  datatype Error =
    | ValueError         // bytes() of an out-of-range int, range() with step 0, image too big
    | TypeError          // bad BMP signature or colour depth, ord() of an empty read
    | IndexError         // BMP header shorter than the field being indexed
    | OverflowError      // int.to_bytes of a value that does not fit
    | ZeroDivisionError  // divmod / floor division by zero
    | UserWarning        // decoded sprite does not fit its dimensions

  datatype Option<T> = None | Some(value: T)

  datatype Result<T> = Ok(value: T) | Err(error: Error)

  function Pow256(n: nat): (r: nat)
    ensures r >= 1
  {
    if n == 0 then 1 else 256 * Pow256(n - 1)
  }

  function Abs(a: int): (r: nat)
    ensures r == a || r == -a
  {
    if a < 0 then -a else a
  }

  function Min(a: int, b: int): int { if a < b then a else b }

  function Max(a: int, b: int): int { if a < b then b else a }

  lemma MulNonneg(a: int, b: int)
    requires 0 <= a && 0 <= b
    ensures 0 <= a * b
  {
  }

  /// Python's `a // b`: rounds toward negative infinity for either sign of `b`.
  function FloorDiv(a: int, b: int): (q: int)
    requires b != 0
    ensures b > 0 ==> b * q <= a < b * q + b
    ensures b < 0 ==> b * q + b < a <= b * q
  {
    if b > 0 then a / b else (-a) / (-b)
  }

  /// Python's `a % b`: the remainder takes the sign of the divisor.
  function FloorMod(a: int, b: int): (r: int)
    requires b != 0
    ensures a == b * FloorDiv(a, b) + r
    ensures b > 0 ==> 0 <= r < b
    ensures b < 0 ==> b < r <= 0
  {
    a - b * FloorDiv(a, b)
  }

  /// Python's `s * n` for a sequence: `n` copies of `s`, empty when `n <= 0`.
  function Rep<T>(s: seq<T>, n: int): (r: seq<T>)
    ensures |r| == if n > 0 then n * |s| else 0
    decreases if n > 0 then n else 0
  {
    if n <= 0 then [] else s + Rep(s, n - 1)
  }

  /// Item `i` of copy `j` of a repetition is item `i` of the repeated sequence.
  lemma {:induction false} RepIndex<T>(s: seq<T>, n: int, j: nat, i: nat)
    requires j < n && i < |s|
    ensures j * |s| + i < |Rep(s, n)| && Rep(s, n)[j * |s| + i] == s[i]
    decreases j
  {
    assert Rep(s, n) == s + Rep(s, n - 1);
    if j > 0 {
      RepIndex(s, n - 1, j - 1, i);
      assert j * |s| + i == |s| + ((j - 1) * |s| + i);
    }
  }

  /// Every item of a repeated one-item sequence is that item.
  lemma {:induction false} RepSingle<T>(x: T, n: int)
    ensures forall j :: 0 <= j < |Rep([x], n)| ==> Rep([x], n)[j] == x
    decreases if n > 0 then n else 0
  {
    if n > 0 {
      RepSingle(x, n - 1);
      assert Rep([x], n) == [x] + Rep([x], n - 1);
    }
  }

  /// A repetition of a repetition is the product repetition when both counts are positive.
  lemma {:induction false} RepRep<T>(s: seq<T>, m: int, n: int)
    requires m > 0 && n > 0
    ensures Rep(Rep(s, m), n) == Rep(s, m * n)
    decreases n
  {
    if n > 1 {
      RepRep(s, m, n - 1);
      RepAppend(s, m, m * (n - 1));
      assert m * n == m + m * (n - 1);
    } else {
      assert Rep(Rep(s, m), 0) == [];
    }
  }

  lemma {:induction false} RepAppend<T>(s: seq<T>, m: int, n: int)
    requires m >= 0 && n >= 0
    ensures Rep(s, m) + Rep(s, n) == Rep(s, m + n)
    decreases m
  {
    if m == 0 {
      assert Rep(s, m) == [];
    } else {
      RepAppend(s, m - 1, n);
    }
  }

  /// Normalises one Python slice bound against a sequence length.
  function SliceBound(i: int, len: nat): (r: nat)
    ensures r <= len
    ensures 0 <= i <= len ==> r == i
  {
    if i < 0 then (if i + len < 0 then 0 else i + len)
    else if i > len then len
    else i
  }

  /// Python's `s[a:b]`: negative bounds count from the end, bounds are clamped.
  function Slice<T>(s: seq<T>, a: int, b: int): (r: seq<T>)
    ensures |r| <= |s|
    ensures 0 <= a <= b <= |s| ==> r == s[a..b]
  {
    var i, j := SliceBound(a, |s|), SliceBound(b, |s|);
    if i < j then s[i..j] else []
  }

  /// The clamping of `s[a:b]`: an end past the sequence stops at its end, a
  /// negative start from `-len` counts from the end, and a start at or past
  /// the end gives nothing.
  lemma SliceClamps<T>(s: seq<T>, a: int, b: int)
    ensures 0 <= a <= |s| <= b ==> Slice(s, a, b) == s[a..]
    ensures -|s| <= a < 0 && |s| <= b ==> Slice(s, a, b) == s[|s| + a..]
    ensures |s| <= a ==> Slice(s, a, b) == []
  {
  }

  /// A slice is never longer than the distance between its bounds, negative
  /// bounds included.
  lemma SliceLength<T>(s: seq<T>, a: int, b: int)
    requires a <= b
    ensures |Slice(s, a, b)| <= b - a
  {
  }

  /// Python's `reversed`.
  function Reverse<T>(s: seq<T>): (r: seq<T>)
    ensures |r| == |s|
  {
    if s == [] then [] else Reverse(s[1..]) + [s[0]]
  }

  /// Item `k` of the reversal is item `k` from the end.
  lemma {:induction false} ReverseAt<T>(s: seq<T>, k: nat)
    requires k < |s|
    ensures Reverse(s)[k] == s[|s| - 1 - k]
  {
    if k < |s| - 1 {
      ReverseAt(s[1..], k);
    }
  }

  lemma {:induction false} ReverseAppend<T>(a: seq<T>, b: seq<T>)
    ensures Reverse(a + b) == Reverse(b) + Reverse(a)
  {
    if a == [] {
      assert a + b == b && Reverse(b) + [] == Reverse(b);
    } else {
      assert (a + b)[1..] == a[1..] + b && (a + b)[0] == a[0];
      ReverseAppend(a[1..], b);
    }
  }

  /// The number of elements of `range(start, stop, step)`.
  function RangeLen(start: int, stop: int, step: int): (n: nat)
    requires step != 0
    ensures step > 0 ==> (n == 0 <==> stop <= start)
    ensures step > 0 && n > 0 ==> start + (n - 1) * step < stop <= start + n * step
    ensures step < 0 ==> (n == 0 <==> start <= stop)
    ensures step < 0 && n > 0 ==> start + n * step <= stop < start + (n - 1) * step
  {
    if step > 0 then
      (if stop > start then (stop - start + step - 1) / step else 0)
    else
      (if start > stop then (start - stop - step - 1) / (-step) else 0)
  }

  /// Python's `bytes(xs)` for a list of ints: ValueError unless every item is in 0..255.
  function ToBytes(xs: seq<int>): (r: Option<seq<byte>>)
    ensures r.Some? <==> forall i :: 0 <= i < |xs| ==> 0 <= xs[i] < 256
    ensures r.Some? ==> |r.value| == |xs| && forall i :: 0 <= i < |xs| ==> r.value[i] as int == xs[i]
  {
    if xs == [] then Some([])
    else if !(0 <= xs[0] < 256) then None
    else match ToBytes(xs[1..])
      case None => None
      case Some(rest) => Some([xs[0] as byte] + rest)
  }

  /// The `n`-byte big-endian encoding of `v`.
  function BigEndian(v: nat, n: nat): (r: seq<byte>)
    requires v < Pow256(n)
    ensures |r| == n
  {
    if n == 0 then [] else BigEndian(v / 256, n - 1) + [(v % 256) as byte]
  }

  function FromBigEndian(bs: seq<byte>): nat
  {
    if bs == [] then 0 else FromBigEndian(bs[..|bs| - 1]) * 256 + bs[|bs| - 1] as nat
  }

  /// Python's `v.to_bytes(n, "big")`: OverflowError for a negative value or one wider than `n` bytes.
  function IntToBytes(v: int, n: nat): (r: Option<seq<byte>>)
    ensures r.Some? <==> 0 <= v < Pow256(n)
    ensures r.Some? ==> |r.value| == n && FromBigEndian(r.value) == v
  {
    if 0 <= v < Pow256(n) then BigEndianRoundTrip(v, n); Some(BigEndian(v, n)) else None
  }

  /// Encoding a colour to bytes and decoding it back gives the colour.
  lemma {:induction false} BigEndianRoundTrip(v: nat, n: nat)
    requires v < Pow256(n)
    ensures FromBigEndian(BigEndian(v, n)) == v
  {
    if n > 0 {
      var r := BigEndian(v, n);
      BigEndianRoundTrip(v / 256, n - 1);
      assert r[..|r| - 1] == BigEndian(v / 256, n - 1);
    }
  }

  lemma {:induction false} FromBigEndianBound(bs: seq<byte>)
    ensures FromBigEndian(bs) < Pow256(|bs|)
  {
    if bs != [] {
      FromBigEndianBound(bs[..|bs| - 1]);
    }
  }

  /// Decoding a byte string and encoding it back at the same width gives the bytes.
  lemma {:induction false} BigEndianOfDecoded(bs: seq<byte>)
    ensures FromBigEndian(bs) < Pow256(|bs|)
    ensures BigEndian(FromBigEndian(bs), |bs|) == bs
  {
    FromBigEndianBound(bs);
    if bs != [] {
      var init := bs[..|bs| - 1];
      BigEndianOfDecoded(init);
      var v := FromBigEndian(bs);
      assert v / 256 == FromBigEndian(init);
      assert v % 256 == bs[|bs| - 1] as int;
      assert bs == init + [bs[|bs| - 1]];
    }
  }

  /// The `sum(b[i] * 256 ** i)` of a little-endian field.
  function LittleEndian(bs: seq<byte>): nat
  {
    if bs == [] then 0 else bs[0] as nat + 256 * LittleEndian(bs[1..])
  }

  /// Appending a more significant byte adds it at weight `256 ** |bs|`; this is
  /// what the shift-accumulate loops compute one byte at a time.
  lemma {:induction false} LittleEndianSnoc(bs: seq<byte>, b: byte)
    ensures LittleEndian(bs + [b]) == LittleEndian(bs) + b as nat * Pow256(|bs|)
  {
    if bs != [] {
      var d, lo, p, hi := bs[0] as nat, LittleEndian(bs[1..]), Pow256(|bs| - 1), b as nat;
      assert LittleEndian(bs + [b]) == d + 256 * (lo + p * hi) by {
        assert (bs + [b])[1..] == bs[1..] + [b] && (bs + [b])[0] == bs[0];
        LittleEndianSnoc(bs[1..], b);
      }
      assert LittleEndian(bs) == d + 256 * lo && Pow256(|bs|) == 256 * p;
      ShiftByte(d, lo, p, hi);
    } else {
      assert (bs + [b])[1..] == [];
    }
  }

  /// One more byte below a value: `d + 256 * (lo + p * hi) == (d + 256 * lo) + (256 * p) * hi`.
  lemma ShiftByte(d: int, lo: int, p: int, hi: int)
    ensures d + 256 * (lo + p * hi) == (d + 256 * lo) + (256 * p) * hi
  {
  }

  /// Appending bytes above `a` adds their value at weight `256 ** |a|`.
  lemma {:induction false} LittleEndianAppend(a: seq<byte>, b: seq<byte>)
    ensures LittleEndian(a + b) == LittleEndian(a) + Pow256(|a|) * LittleEndian(b)
  {
    if a != [] {
      assert (a + b)[1..] == a[1..] + b;
      LittleEndianAppend(a[1..], b);
      var lo, p, hi := LittleEndian(a[1..]), Pow256(|a| - 1), LittleEndian(b);
      ShiftByte(a[0] as nat, lo, p, hi);
    } else {
      assert a + b == b;
    }
  }

  /// Reading little-endian bytes back to front is reading them big-endian.
  lemma {:induction false} ReverseLittleEndian(bs: seq<byte>)
    ensures FromBigEndian(Reverse(bs)) == LittleEndian(bs)
  {
    if bs != [] {
      ReverseLittleEndian(bs[1..]);
      var r := Reverse(bs);
      assert r == Reverse(bs[1..]) + [bs[0]];
      assert r[..|r| - 1] == Reverse(bs[1..]);
    }
  }
}
