/// `draw_line` (a Bresenham walk that sends one block per run of pixels on
/// the same minor coordinate) and `draw_any_line`.
///
/// The source decides each step with floating-point arithmetic on the slope
/// `m` and intercept `b`; here the same tests are scaled by `2 * du > 0`,
/// which keeps their sign, and computed exactly on integers.
module Raster {
  import opened Builtins
  import opened Bus
  import opened Panel
  import opened Window
  import opened Fill

  /// A line after `draw_line`'s normalisation: the major axis `u` runs from
  /// `u0` to `u1`, the minor axis `v` from `v0` to `v1`; `steep` records that
  /// x and y were exchanged, `step` is `y_step` and `reverseCheck` is
  /// `reverse_check`.
  datatype Line = Line(steep: bool, u0: int, v0: int, u1: int, v1: int, step: int, reverseCheck: int)

  /// The shape every normalised line has.
  ghost predicate Normal(L: Line)
  {
    L.u0 < L.u1 && L.v0 != L.v1 && Abs(L.v1 - L.v0) <= L.u1 - L.u0 &&
    L.step == (if L.v1 > L.v0 then 1 else -1) && L.reverseCheck == -L.step
  }

  /// A point of the normalised line back in panel coordinates.
  function Point(L: Line, u: int, v: int): (int, int)
  {
    if L.steep then (v, u) else (u, v)
  }

  /// `abs(m) > 1` exchanges x and y; `m > 0` gives `reverse_check = -1`;
  /// `x0 > x1` exchanges the endpoints; `y_step` follows the sign of the
  /// minor difference.
  function Normalise(x0: int, y0: int, x1: int, y1: int): (L: Line)
    requires x0 != x1 && y0 != y1
    ensures Normal(L)
    ensures L.steep <==> Abs(y1 - y0) > Abs(x1 - x0)
    ensures (Point(L, L.u0, L.v0) == (x0, y0) && Point(L, L.u1, L.v1) == (x1, y1)) ||
            (Point(L, L.u0, L.v0) == (x1, y1) && Point(L, L.u1, L.v1) == (x0, y0))
  {
    var steep := Abs(y1 - y0) > Abs(x1 - x0);
    var rc := if (y1 - y0) * (x1 - x0) > 0 then -1 else 1;
    var a0, b0, a1, b1 := if steep then y0 else x0, if steep then x0 else y0,
                          if steep then y1 else x1, if steep then x1 else y1;
    var u0, v0, u1, v1 := if a0 > a1 then a1 else a0, if a0 > a1 then b1 else b0,
                          if a0 > a1 then a0 else a1, if a0 > a1 then b0 else b1;
    SameSign(y1 - y0, x1 - x0);
    Line(steep, u0, v0, u1, v1, if v1 > v0 then 1 else -1, rc)
  }

  lemma SameSign(a: int, b: int)
    requires a != 0 && b != 0
    ensures a * b > 0 <==> (a > 0 <==> b > 0)
  {
    if a > 0 && b < 0 {
      assert a * b == -(a * (-b));
    } else if a < 0 && b > 0 {
      assert a * b == -((-a) * b);
    } else if a < 0 && b < 0 {
      assert a * b == (-a) * (-b);
    }
  }

  /// `D(xi + 1, yi + 0.5 * y_step) * reverse_check < 0`, scaled by `2 * du`.
  function Flush(L: Line, xi: int, yi: int): bool
  {
    var du, dv := L.u1 - L.u0, L.v1 - L.v0;
    (2 * dv * (xi + 1 - L.u0) - 2 * du * (yi - L.v0) - L.step * du) * L.reverseCheck < 0
  }

  /// One run of pixels: it ends at major coordinate `end`, lies on minor
  /// coordinate `minor` and is `len` pixels long (`draw_segment`'s arguments).
  datatype Segment = Segment(end: int, minor: int, len: int)

  function Start(s: Segment): int { s.end - s.len + 1 }

  /// The loop variables of the walk and the segments drawn so far.
  datatype Walk = Walk(yi: int, temp: int, segs: seq<Segment>)

  /// One iteration of `for xi in range(x0, x1 + 1)`.
  function Step(L: Line, xi: int, w: Walk): Walk
  {
    if Flush(L, xi, w.yi) then Walk(w.yi + L.step, 1, w.segs + [Segment(xi, w.yi, w.temp)])
    else Walk(w.yi, w.temp + 1, w.segs)
  }

  /// The walk after its first `n` iterations.
  function WalkTo(L: Line, n: nat): Walk
  {
    if n == 0 then Walk(L.v0, 1, []) else Step(L, L.u0 + n - 1, WalkTo(L, n - 1))
  }

  /// Every segment `draw_line` draws: those of the loop, then the remainder
  /// `temp - 1` if it is not zero.
  function Segments(L: Line): seq<Segment>
    requires L.u0 <= L.u1
  {
    var w := WalkTo(L, L.u1 - L.u0 + 1);
    w.segs + (if w.temp - 1 != 0 then [Segment(L.u1, w.yi, w.temp - 1)] else [])
  }

  /// How far pixel (u, v) lies from the ideal line, in units of `1 / (2 * du)`
  /// pixels, signed so that it grows along the major axis.
  function Err(L: Line, u: int, v: int): int
  {
    L.step * (2 * (L.v1 - L.v0) * (u - L.u0) - 2 * (L.u1 - L.u0) * (v - L.v0))
  }

  lemma ErrMoves(L: Line, u: int, v: int)
    requires Normal(L)
    ensures Err(L, u + 1, v) == Err(L, u, v) + 2 * Abs(L.v1 - L.v0)
    ensures Err(L, u, v + L.step) == Err(L, u, v) - 2 * (L.u1 - L.u0)
  {
    var du, dv := L.u1 - L.u0, L.v1 - L.v0;
    assert dv * (u + 1 - L.u0) == dv * (u - L.u0) + dv;
    assert du * (v + L.step - L.v0) == du * (v - L.v0) + du * L.step;
  }

  /// The scaled test flushes exactly when the error would pass half a pixel.
  lemma FlushIff(L: Line, xi: int, yi: int)
    requires Normal(L)
    ensures Flush(L, xi, yi) <==> Err(L, xi, yi) + 2 * Abs(L.v1 - L.v0) > L.u1 - L.u0
  {
    var du, dv := L.u1 - L.u0, L.v1 - L.v0;
    var t := 2 * dv * (xi + 1 - L.u0) - 2 * du * (yi - L.v0);
    ErrMoves(L, xi, yi);
    assert Err(L, xi + 1, yi) == L.step * t;
  }

  /// Moving `d` pixels along the major axis adds `2 * |dv| * d` to the error.
  lemma ErrShift(L: Line, u: int, v: int, d: int)
    requires Normal(L)
    ensures Err(L, u + d, v) == Err(L, u, v) + 2 * Abs(L.v1 - L.v0) * d
  {
    var du, dv := L.u1 - L.u0, L.v1 - L.v0;
    assert dv * (u + d - L.u0) == dv * (u - L.u0) + dv * d;
    if L.step == 1 {
      assert Abs(dv) == dv;
    } else {
      assert Abs(dv) == -dv;
      assert -(2 * dv * d) == 2 * (-dv) * d;
    }
  }

  /// The run of pixels still pending after `n` iterations starts here.
  function Pending(L: Line, n: nat, w: Walk): int
  {
    L.u0 + n - w.temp + 1
  }

  /// Segments that follow one another from `u0`, on the minor coordinates
  /// `v0`, `v0 + step`, ..., each at least one pixel long, whose first pixel
  /// lies less than half a pixel below the ideal line and whose last pixel
  /// at most half a pixel above it.
  ghost predicate SegsOk(L: Line, segs: seq<Segment>)
  {
    var du := L.u1 - L.u0;
    (|segs| > 0 ==> Start(segs[0]) == L.u0) &&
    (forall j :: 0 <= j < |segs| - 1 ==> Start(segs[j + 1]) == segs[j].end + 1) &&
    (forall j :: 0 <= j < |segs| ==>
       segs[j].minor == L.v0 + L.step * j && segs[j].len >= 1 &&
       -du < Err(L, Start(segs[j]), segs[j].minor) && Err(L, segs[j].end, segs[j].minor) <= du)
  }

  lemma SegsOkAppend(L: Line, segs: seq<Segment>, seg: Segment)
    requires SegsOk(L, segs)
    requires seg.minor == L.v0 + L.step * |segs| && seg.len >= 1
    requires -(L.u1 - L.u0) < Err(L, Start(seg), seg.minor) && Err(L, seg.end, seg.minor) <= L.u1 - L.u0
    requires |segs| == 0 ==> Start(seg) == L.u0
    requires |segs| > 0 ==> Start(seg) == segs[|segs| - 1].end + 1
    ensures SegsOk(L, segs + [seg])
  {
    var all := segs + [seg];
    forall j | 0 <= j < |all| - 1 ensures Start(all[j + 1]) == all[j].end + 1 {
      if j + 1 < |segs| {
        assert all[j + 1] == segs[j + 1] && all[j] == segs[j];
      }
    }
  }

  /// What holds of the walk after `n` iterations: the minor coordinate has
  /// moved once per segment drawn, the segments are SegsOk and end where the
  /// pending run starts, the pending run's first pixel lies less than half a
  /// pixel below the ideal line and the next pixel at most half a pixel above.
  ghost predicate WalkInv(L: Line, n: nat, w: Walk)
  {
    var du, k := L.u1 - L.u0, |w.segs|;
    var next := Pending(L, n, w);
    w.yi == L.v0 + L.step * k && w.temp >= 1 &&
    -du < Err(L, next, w.yi) && Err(L, L.u0 + n, w.yi) <= du &&
    (k == 0 ==> next == L.u0) &&
    (k > 0 ==> w.segs[k - 1].end + 1 == next) &&
    SegsOk(L, w.segs)
  }

  /// Iteration `n - 1`, at `xi = u0 + n - 1`, keeps WalkInv.
  lemma StepKeepsInv(L: Line, n: nat, w: Walk)
    requires Normal(L) && n >= 1 && WalkInv(L, n - 1, w)
    ensures WalkInv(L, n, Step(L, L.u0 + n - 1, w))
  {
    if Flush(L, L.u0 + n - 1, w.yi) {
      FlushKeepsInv(L, n, w);
    } else {
      GrowKeepsInv(L, n, w);
    }
  }

  /// A flushing iteration closes the pending run as a segment and starts a
  /// new one on the next minor coordinate.
  lemma FlushKeepsInv(L: Line, n: nat, w: Walk)
    requires Normal(L) && n >= 1 && WalkInv(L, n - 1, w) && Flush(L, L.u0 + n - 1, w.yi)
    ensures WalkInv(L, n, Walk(w.yi + L.step, 1, w.segs + [Segment(L.u0 + n - 1, w.yi, w.temp)]))
  {
    var xi := L.u0 + n - 1;
    var du, a := L.u1 - L.u0, Abs(L.v1 - L.v0);
    var seg := Segment(xi, w.yi, w.temp);
    var w' := Walk(w.yi + L.step, 1, w.segs + [seg]);
    assert SegsOk(L, w'.segs) by { SegsOkAppend(L, w.segs, seg); }
    assert Err(L, xi, w.yi) + 2 * a > du by { FlushIff(L, xi, w.yi); }
    assert Err(L, xi + 1, w'.yi) == Err(L, xi, w.yi) + 2 * a - 2 * du by {
      ErrMoves(L, xi, w.yi);
      ErrMoves(L, xi + 1, w.yi);
    }
    assert Pending(L, n, w') == xi + 1;
  }

  /// A growing iteration lengthens the pending run by one pixel.
  lemma GrowKeepsInv(L: Line, n: nat, w: Walk)
    requires Normal(L) && n >= 1 && WalkInv(L, n - 1, w) && !Flush(L, L.u0 + n - 1, w.yi)
    ensures WalkInv(L, n, Walk(w.yi, w.temp + 1, w.segs))
  {
    var xi := L.u0 + n - 1;
    var w' := Walk(w.yi, w.temp + 1, w.segs);
    assert Err(L, xi, w.yi) + 2 * Abs(L.v1 - L.v0) <= L.u1 - L.u0 by { FlushIff(L, xi, w.yi); }
    ErrMoves(L, xi, w.yi);
    assert Pending(L, n, w') == Pending(L, n - 1, w);
  }

  lemma WalkStarts(L: Line)
    requires Normal(L)
    ensures WalkInv(L, 0, WalkTo(L, 0))
  {
    assert Err(L, L.u0, L.v0) == 0;
  }

  /// WalkInv holds after every iteration.
  lemma {:induction false} WalkInvariant(L: Line, n: nat)
    requires Normal(L)
    ensures WalkInv(L, n, WalkTo(L, n))
  {
    if n == 0 {
      WalkStarts(L);
    } else {
      WalkInvariant(L, n - 1);
      StepKeepsInv(L, n, WalkTo(L, n - 1));
    }
  }

  lemma HalfBand(du: int, z: int)
    requires du > 0 && -du < 2 * du * z <= du
    ensures z == 0
  {
    if z >= 1 {
      MulMono(1, z, 2 * du);
    } else if z <= -1 {
      MulMono(z, -1, 2 * du);
    }
  }

  /// After `k` segments the last pixel lies `2 * du * (|dv| - k)` from the ideal line.
  lemma ErrAtEnd(L: Line, k: int)
    requires Normal(L)
    ensures Err(L, L.u1, L.v0 + L.step * k) == 2 * (L.u1 - L.u0) * (Abs(L.v1 - L.v0) - k)
  {
    var du, dv := L.u1 - L.u0, L.v1 - L.v0;
    if L.step == 1 {
      assert 2 * dv * du - 2 * du * k == 2 * du * (dv - k);
    } else {
      assert -(2 * dv * du - 2 * du * (-k)) == 2 * du * (-dv - k);
    }
  }

  /// Every pixel of a SegsOk segment lies within half a pixel of the ideal line.
  lemma SegmentPixelsClose(L: Line, segs: seq<Segment>, j: int, u: int)
    requires Normal(L) && SegsOk(L, segs) && 0 <= j < |segs|
    requires Start(segs[j]) <= u <= segs[j].end
    ensures -(L.u1 - L.u0) < Err(L, u, segs[j].minor) <= L.u1 - L.u0
  {
    var a, v, st := Abs(L.v1 - L.v0), segs[j].minor, Start(segs[j]);
    ErrShift(L, st, v, u - st);
    ErrShift(L, u, v, segs[j].end - u);
    MulNonneg(2 * a, u - st);
    MulNonneg(2 * a, segs[j].end - u);
  }

  /// The walk ends with `|dv|` segments before its last iteration.
  lemma WalkCountsMinorSteps(L: Line)
    requires Normal(L)
    ensures |WalkTo(L, L.u1 - L.u0).segs| == Abs(L.v1 - L.v0)
  {
    var du, a := L.u1 - L.u0, Abs(L.v1 - L.v0);
    var w := WalkTo(L, du);
    var k := |w.segs|;
    assert -du < Err(L, L.u1, w.yi) <= du by {
      WalkInvariant(L, du);
      var next := Pending(L, du, w);
      ErrShift(L, next, w.yi, L.u1 - next);
      MulNonneg(2 * a, L.u1 - next);
    }
    assert w.yi == L.v0 + L.step * k by {
      WalkInvariant(L, du);
    }
    ErrAtEnd(L, k);
    HalfBand(du, a - k);
  }

  lemma {:induction false} SegmentsOk(L: Line)
    requires Normal(L)
    ensures var segs, a := Segments(L), Abs(L.v1 - L.v0);
      |segs| == a + 1 && segs[a].end == L.u1 && SegsOk(L, segs)
  {
    var du, a := L.u1 - L.u0, Abs(L.v1 - L.v0);
    var w := WalkTo(L, du);
    var seg := Segment(L.u1, w.yi, w.temp);
    WalkInvariant(L, du);
    assert Segments(L) == w.segs + [seg] by {
      assert WalkTo(L, du + 1) == Step(L, L.u1, w);
    }
    assert |w.segs| == a by {
      WalkCountsMinorSteps(L);
    }
    assert Err(L, L.u1, w.yi) == 0 by {
      ErrAtEnd(L, a);
    }
    SegsOkAppend(L, w.segs, seg);
  }

  /// `draw_line`'s walk draws `|dv| + 1` segments, one per minor coordinate
  /// `v0`, `v0 + step`, ..., `v1`, each at least one pixel long; they start at
  /// `u0`, follow one another with no gap or overlap and end at `u1`, so
  /// every major coordinate gets exactly one pixel; and every pixel lies
  /// within half a pixel of the ideal line through both endpoints
  /// (`|Err| <= du` in units of `1 / (2 * du)` pixels, ties below the line).
  lemma LineWalk(L: Line)
    requires Normal(L)
    ensures var segs, a, du := Segments(L), Abs(L.v1 - L.v0), L.u1 - L.u0;
      |segs| == a + 1 && Start(segs[0]) == L.u0 && segs[a].end == L.u1 &&
      (forall j :: 0 <= j < a ==> Start(segs[j + 1]) == segs[j].end + 1) &&
      (forall j :: 0 <= j <= a ==> segs[j].len >= 1 && segs[j].minor == L.v0 + L.step * j) &&
      segs[a].minor == L.v1 &&
      (forall j, u :: 0 <= j <= a && Start(segs[j]) <= u <= segs[j].end ==>
         -du < Err(L, u, segs[j].minor) <= du)
  {
    var segs, a := Segments(L), Abs(L.v1 - L.v0);
    SegmentsOk(L);
    forall j, u | 0 <= j <= a && Start(segs[j]) <= u <= segs[j].end
      ensures -(L.u1 - L.u0) < Err(L, u, segs[j].minor) <= L.u1 - L.u0
    {
      SegmentPixelsClose(L, segs, j, u);
    }
    if L.step == 1 {
      assert L.v0 + L.step * a == L.v1;
    } else {
      assert L.v0 + L.step * a == L.v1;
    }
  }

  /// Segments run forward from `u0` to `u1`, each one's first pixel after the
  /// previous one's last.
  lemma {:induction false} SegmentsForward(L: Line, j: nat)
    requires Normal(L) && j <= Abs(L.v1 - L.v0)
    ensures j < |Segments(L)| && L.u0 <= Start(Segments(L)[j]) <= Segments(L)[j].end
    decreases j
  {
    LineWalk(L);
    if j > 0 {
      SegmentsForward(L, j - 1);
    }
  }

  lemma {:induction false} SegmentsBackward(L: Line, j: nat)
    requires Normal(L) && j <= Abs(L.v1 - L.v0)
    ensures j < |Segments(L)| && Segments(L)[j].end <= L.u1
    decreases Abs(L.v1 - L.v0) - j
  {
    LineWalk(L);
    if j < Abs(L.v1 - L.v0) {
      SegmentsBackward(L, j + 1);
      SegmentsForward(L, j + 1);
    }
  }

  /// Every segment lies in the box spanned by the two endpoints.
  lemma SegmentsInBox(L: Line)
    requires Normal(L)
    ensures var segs := Segments(L);
      forall j :: 0 <= j < |segs| ==>
        L.u0 <= Start(segs[j]) <= segs[j].end <= L.u1 &&
        (if L.v0 < L.v1 then L.v0 <= segs[j].minor <= L.v1 else L.v1 <= segs[j].minor <= L.v0)
  {
    var segs, a := Segments(L), Abs(L.v1 - L.v0);
    LineWalk(L);
    forall j | 0 <= j < |segs|
      ensures L.u0 <= Start(segs[j]) <= segs[j].end <= L.u1
      ensures if L.v0 < L.v1 then L.v0 <= segs[j].minor <= L.v1 else L.v1 <= segs[j].minor <= L.v0
    {
      SegmentsForward(L, j);
      SegmentsBackward(L, j);
    }
  }

  /// `draw_segment(end_x, end_y, w)`: a run of `w` pixels in a row, or in a
  /// column once x and y have been exchanged.
  function SegmentBlit(L: Line, enc: seq<byte>, seg: Segment): Blit
  {
    if L.steep then Blit(seg.minor, Start(seg), seg.minor, seg.end, Rep(enc, seg.len))
    else Blit(Start(seg), seg.minor, seg.end, seg.minor, Rep(enc, seg.len))
  }

  function SegmentBlits(L: Line, enc: seq<byte>, segs: seq<Segment>): (bs: seq<Blit>)
    ensures |bs| == |segs|
  {
    seq(|segs|, k requires 0 <= k < |segs| => SegmentBlit(L, enc, segs[k]))
  }

  lemma SegmentBlitsSnoc(L: Line, enc: seq<byte>, segs: seq<Segment>, s: Segment)
    ensures SegmentBlits(L, enc, segs + [s]) == SegmentBlits(L, enc, segs) + [SegmentBlit(L, enc, s)]
  {
    assert (segs + [s])[|segs|] == s;
  }

  /// The walk only ever appends segments: those after `k` iterations begin
  /// those after `m >= k` iterations.
  lemma {:induction false} WalkGrows(L: Line, k: nat, m: nat)
    requires k <= m
    ensures |WalkTo(L, k).segs| <= |WalkTo(L, m).segs|
    ensures WalkTo(L, m).segs[..|WalkTo(L, k).segs|] == WalkTo(L, k).segs
    decreases m
  {
    if m > k {
      WalkGrows(L, k, m - 1);
      var a, b, c := WalkTo(L, k).segs, WalkTo(L, m - 1).segs, WalkTo(L, m).segs;
      assert c == b || c == b + [c[|c| - 1]];
      assert c[..|b|] == b;
      assert c[..|a|] == b[..|a|];
    }
  }

  /// The segments `draw_line` draws are those of its loop, then the
  /// remainder segment when `temp - 1` is not zero.
  lemma LineTail(L: Line, enc: seq<byte>)
    requires L.u0 <= L.u1
    ensures var w := WalkTo(L, L.u1 - L.u0 + 1);
      var loop := BlitsRun(SegmentBlits(L, enc, w.segs), false, false);
      var last := SegmentBlit(L, enc, Segment(L.u1, w.yi, w.temp - 1));
      BlitsRun(SegmentBlits(L, enc, Segments(L)), false, false) ==
        if w.temp - 1 != 0 then Then(loop, BlockRun(last, false, false)) else loop
  {
    var w := WalkTo(L, L.u1 - L.u0 + 1);
    if w.temp - 1 != 0 {
      SegmentBlitsSnoc(L, enc, w.segs, Segment(L.u1, w.yi, w.temp - 1));
      BlitsRunSnoc(SegmentBlits(L, enc, w.segs), SegmentBlit(L, enc, Segment(L.u1, w.yi, w.temp - 1)), false, false);
    } else {
      assert w.segs + [] == w.segs;
    }
  }

  /// `draw_line(x0, y0, x1, y1, color)`: a vertical or horizontal line goes
  /// to `draw_vline`/`draw_hline` with length `abs(y1 - y0)`/`abs(x1 - x0)`;
  /// any other line encodes the colour, asserts CS, draws its segments as
  /// blocks that neither select nor deselect, and releases CS.
  function LineRun(p: Panel, x0: int, y0: int, x1: int, y1: int, color: int): Run
  {
    if x0 == x1 then VLineRun(p, x0, if y0 < y1 then y0 else y1, Abs(y1 - y0), color)
    else if y0 == y1 then HLineRun(p, if x0 < x1 then x0 else x1, y0, Abs(x1 - x0), color)
    else match IntToBytes(color, p.colorBytes)
      case None => Fail(OverflowError)
      case Some(enc) =>
        var L := Normalise(x0, y0, x1, y1);
        Then(Emit([CS(Low)]),
             Then(BlitsRun(SegmentBlits(L, enc, Segments(L)), false, false), Emit([CS(High)])))
  }

  /// The vertical and horizontal fast paths draw `abs(y1 - y0)` or
  /// `abs(x1 - x0)` pixels: the block stops one pixel before the larger
  /// endpoint, which is never drawn.
  lemma LineFastPathShort(p: Panel, x0: int, y0: int, x1: int, y1: int, color: int)
    requires 0 <= color < Pow256(p.colorBytes)
    ensures var enc := BigEndian(color, p.colorBytes);
      (x0 == x1 && y0 < y1 ==>
         LineRun(p, x0, y0, x1, y1, color) == BlockRun(Blit(x0, y0, x0, y1 - 1, Rep(enc, y1 - y0)), true, true)) &&
      (x0 == x1 && y1 < y0 ==>
         LineRun(p, x0, y0, x1, y1, color) == BlockRun(Blit(x0, y1, x0, y0 - 1, Rep(enc, y0 - y1)), true, true)) &&
      (y0 == y1 && x0 < x1 ==>
         LineRun(p, x0, y0, x1, y1, color) == BlockRun(Blit(x0, y0, x1 - 1, y0, Rep(enc, x1 - x0)), true, true)) &&
      (y0 == y1 && x1 < x0 ==>
         LineRun(p, x0, y0, x1, y1, color) == BlockRun(Blit(x1, y0, x0 - 1, y0, Rep(enc, x0 - x1)), true, true))
  {
  }

  /// Every segment block of a line whose endpoints are 16-bit coordinates is addressable.
  lemma SegmentBlitsAddressable(x0: int, y0: int, x1: int, y1: int, enc: seq<byte>)
    requires x0 != x1 && y0 != y1
    requires InWord(x0) && InWord(y0) && InWord(x1) && InWord(y1)
    ensures var L := Normalise(x0, y0, x1, y1); var bs := SegmentBlits(L, enc, Segments(L));
      forall i :: 0 <= i < |bs| ==> Addressable(bs[i])
  {
    var L := Normalise(x0, y0, x1, y1);
    var segs := Segments(L);
    var bs := SegmentBlits(L, enc, segs);
    SegmentsInBox(L);
    assert InWord(L.u0) && InWord(L.u1) && InWord(L.v0) && InWord(L.v1);
    forall i | 0 <= i < |bs| ensures Addressable(bs[i]) {
      assert bs[i] == SegmentBlit(L, enc, segs[i]);
    }
  }

  /// A sloped line is drawn in one CS-low span: `draw_line` asserts CS once,
  /// first, and releases it once, last, exactly when every block went
  /// through; a block that raises leaves CS asserted. With 16-bit endpoint
  /// coordinates and a colour that fits, every block goes through.
  lemma LineOneSpan(p: Panel, x0: int, y0: int, x1: int, y1: int, color: int)
    requires x0 != x1 && y0 != y1 && 0 <= color < Pow256(p.colorBytes)
    ensures var r := LineRun(p, x0, y0, x1, y1, color);
      |r.events| > 0 && r.events[0] == CS(Low) && CS(Low) !in r.events[1..] &&
      (CS(High) in r.events <==> r.out == Done) &&
      (r.out == Done ==> r.events[|r.events| - 1] == CS(High)) &&
      (InWord(x0) && InWord(y0) && InWord(x1) && InWord(y1) ==> r.out == Done)
  {
    var enc := BigEndian(color, p.colorBytes);
    var L := Normalise(x0, y0, x1, y1);
    var bs := SegmentBlits(L, enc, Segments(L));
    var b := BlitsRun(bs, false, false);
    BlitsRunKeepsSelect(bs);
    BlitsRunDone(bs, false, false);
    var r := LineRun(p, x0, y0, x1, y1, color);
    if b.out == Done {
      assert r.events == [CS(Low)] + b.events + [CS(High)];
      assert r.events[1..] == b.events + [CS(High)];
    } else {
      assert r.events == [CS(Low)] + b.events;
      assert r.events[1..] == b.events;
    }
    if InWord(x0) && InWord(y0) && InWord(x1) && InWord(y1) {
      SegmentBlitsAddressable(x0, y0, x1, y1, enc);
    }
  }

  /// The line from (0, 0) to (4, 2) is drawn as runs of 2, 2 and 1 pixels on
  /// rows 0, 1 and 2.
  lemma LineExample()
    ensures Segments(Normalise(0, 0, 4, 2)) == [Segment(1, 0, 2), Segment(3, 1, 2), Segment(4, 2, 1)]
  {
    var L := Normalise(0, 0, 4, 2);
    assert L == Line(false, 0, 0, 4, 2, 1, -1);
    assert WalkTo(L, 2) == Walk(1, 1, [Segment(1, 0, 2)]);
    assert WalkTo(L, 5) == Walk(2, 2, [Segment(1, 0, 2), Segment(3, 1, 2)]);
  }

  /// `draw_any_line(x0, y0, x1, y1, color)`: x and y are each put in
  /// increasing order on their own; a line inside the panel goes to
  /// `draw_line`; otherwise the slope `m` is computed, which divides by zero
  /// for a vertical line, and the intersection `-1 * b / m`, which divides by
  /// zero for a horizontal one; any other line draws nothing.
  function AnyLineRun(p: Panel, x0: int, y0: int, x1: int, y1: int, color: int): Run
  {
    var a0, a1 := if x0 > x1 then x1 else x0, if x0 > x1 then x0 else x1;
    var b0, b1 := if y0 > y1 then y1 else y0, if y0 > y1 then y0 else y1;
    if 0 <= a0 < p.width && 0 <= a1 < p.width && 0 <= b0 < p.height && 0 <= b1 < p.height then
      LineRun(p, a0, b0, a1, b1, color)
    else if a0 == a1 then Fail(ZeroDivisionError)
    else if b0 == b1 then Fail(ZeroDivisionError)
    else Emit([])
  }

  /// Sorting x and y apart forgets the slope's sign: a line and its mirror
  /// image (one pair of coordinates exchanged) are drawn alike, so an
  /// on-panel line from lower left to upper right is drawn from upper left
  /// to lower right; and the endpoints' order does not matter.
  lemma AnyLineMirror(p: Panel, x0: int, y0: int, x1: int, y1: int, color: int)
    ensures AnyLineRun(p, x0, y0, x1, y1, color) == AnyLineRun(p, x1, y0, x0, y1, color)
    ensures AnyLineRun(p, x0, y0, x1, y1, color) == AnyLineRun(p, x0, y1, x1, y0, color)
    ensures AnyLineRun(p, x0, y0, x1, y1, color) == AnyLineRun(p, x1, y1, x0, y0, color)
  {
  }

  /// A line with any endpoint off the panel sends nothing: it raises
  /// ZeroDivisionError when it is vertical or horizontal and otherwise
  /// returns without drawing. On the panel, the line drawn is the one from
  /// the lesser to the greater corner.
  lemma AnyLineOffPanel(p: Panel, x0: int, y0: int, x1: int, y1: int, color: int)
    ensures var r := AnyLineRun(p, x0, y0, x1, y1, color);
      var inside := 0 <= x0 < p.width && 0 <= x1 < p.width && 0 <= y0 < p.height && 0 <= y1 < p.height;
      (!inside ==> r.events == [] && (r.out.Raised? <==> x0 == x1 || y0 == y1) &&
                   (r.out.Raised? ==> r.out.error == ZeroDivisionError)) &&
      (inside ==> r == LineRun(p, Min(x0, x1), Min(y0, y1), Max(x0, x1), Max(y0, y1), color))
  {
  }
}
