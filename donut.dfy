/**
 * The ASCII donut renderer: a z-buffer rasteriser over two fixed-size buffers,
 * a row-major serialiser and a frame-rate gate. The torus geometry is outside
 * the model: a frame is driven by the sequence of already-projected samples
 * `(xp, yp, ooz, L)` that the sweep over the two torus angles produces for the
 * current rotation.
 */
module Donut {
  import Arith
  import Shadow
  import opened Options

  // ---------------------------------------------------------------------------
  // Grid size and shading ramp

  /** `dims`: the width and height in characters, never below 24 by 16. */
  function Dims(width: real, height: real): (d: (int, int))
    ensures d.0 >= 24 && d.1 >= 16
  {
    (if 24 >= width.Floor then 24 else width.Floor,
     if 16 >= height.Floor then 16 else height.Floor)
  }

  /** Sizes from 24 by 16 up are taken as whole characters; smaller ones are raised to the minimum. */
  lemma DimsFloor(width: real, height: real)
    ensures var d := Dims(width, height);
      && (width >= 24.0 ==> d.0 as real <= width < d.0 as real + 1.0)
      && (height >= 16.0 ==> d.1 as real <= height < d.1 as real + 1.0)
      && (width < 24.0 ==> d.0 == 24)
      && (height < 16.0 ==> d.1 == 16)
  {
  }

  /** The classic shading ramp, darkest glyph first. */
  const Ramp: string := ".,-~:;=!*#$@"

  /** A ramp the renderer can shade with: non-empty and free of the blank glyph. */
  predicate ValidRamp(ramp: string) {
    |ramp| > 0 && forall i :: 0 <= i < |ramp| ==> ramp[i] != ' '
  }

  /** The ramp reversed, brightest glyph first. */
  const RampReversed: string := "@$#*!=;:~-,."

  /** `RampReversed` is `Ramp` back to front, as `[...charsMap].reverse().join("")` builds it. */
  lemma RampReversedIsReverse()
    ensures |RampReversed| == |Ramp|
    ensures forall i :: 0 <= i < |Ramp| ==> RampReversed[i] == Ramp[|Ramp| - 1 - i]
  {
  }

  /** The ramp in use: as written under a dark colour scheme, reversed otherwise. */
  function RampFor(darkScheme: bool): (ramp: string)
    ensures |ramp| == 12 && ValidRamp(ramp)
  {
    assert ValidRamp(Ramp) && ValidRamp(RampReversed);
    if darkScheme then Ramp else RampReversed
  }

  /** The ramp index for luminance `lum`: `min(n-1, floor(clamp(lum, 0, 1) * n))`. */
  function ShadeIndex(lum: real, n: nat): (k: nat)
    requires n > 0
    ensures k < n
  {
    var l := Shadow.Clamp(lum, 0.0, 1.0);
    var f := (l * n as real).Floor;
    if n - 1 <= f then n - 1 else f
  }

  /** Brighter samples never get an earlier glyph of the ramp. */
  lemma ShadeMonotone(lum1: real, lum2: real, n: nat)
    requires n > 0 && lum1 <= lum2
    ensures ShadeIndex(lum1, n) <= ShadeIndex(lum2, n)
  {
    var l1 := Shadow.Clamp(lum1, 0.0, 1.0);
    var l2 := Shadow.Clamp(lum2, 0.0, 1.0);
    var x1, x2 := l1 * n as real, l2 * n as real;
    assert x2 - x1 == (l2 - l1) * n as real;
    assert x1 <= x2;
    assert x1.Floor <= x2.Floor;
  }

  /** Full light takes the last glyph, no light the first. */
  lemma ShadeExtremes(lum: real, n: nat)
    requires n > 0
    ensures lum >= 1.0 ==> ShadeIndex(lum, n) == n - 1
    ensures lum * n as real < 1.0 ==> ShadeIndex(lum, n) == 0
  {
    if lum >= 1.0 {
      assert Shadow.Clamp(lum, 0.0, 1.0) == 1.0;
      assert (1.0 * n as real).Floor == n;
    }
    if lum * n as real < 1.0 {
      if lum < 0.0 {
        assert Shadow.Clamp(lum, 0.0, 1.0) == 0.0;
      } else if lum <= 1.0 {
        assert Shadow.Clamp(lum, 0.0, 1.0) == lum;
        assert 0.0 <= lum * n as real;
        assert (lum * n as real).Floor == 0;
      } else {
        assert lum * n as real >= n as real;
      }
    }
  }

  /** The glyph drawn for luminance `lum`: never the blank cell. */
  function Glyph(lum: real, ramp: string): (c: char)
    requires ValidRamp(ramp)
    ensures c in ramp && c != ' '
  {
    ramp[ShadeIndex(lum, |ramp|)]
  }

  // ---------------------------------------------------------------------------
  // The z-buffer, as values

  /** One projected torus point: screen cell `(xp, yp)`, inverse depth, luminance. */
  datatype Sample = Sample(xp: int, yp: int, ooz: real, lum: real)

  /** The two buffers: inverse depth and glyph per cell, row-major. */
  datatype Frame = Frame(depth: seq<real>, cells: seq<char>)

  predicate InBounds(s: Sample, w: int, h: int) {
    0 <= s.xp < w && 0 <= s.yp < h
  }

  function Target(s: Sample, w: int): int {
    s.xp + w * s.yp
  }

  /** A sample on screen always addresses a cell of the `w*h` buffers. */
  lemma TargetInRange(s: Sample, w: int, h: int)
    requires InBounds(s, w, h)
    ensures 0 <= Target(s, w) < w * h
  {
    Arith.MulMonotone(h - 1, s.yp, w);
    assert (h - 1) * w + w == h * w;
  }

  /** Sample `s` is on screen, lit, and lands on cell `k`. */
  predicate Hits(s: Sample, k: int, w: int, h: int) {
    InBounds(s, w, h) && s.lum > 0.0 && Target(s, w) == k
  }

  /** Both buffers of a `w*h` grid. */
  predicate Sized(f: Frame, n: int) {
    |f.depth| == n && |f.cells| == n
  }

  /** The cleared buffers every frame starts from: depth 0 and a blank everywhere. */
  function Cleared(n: nat): (f: Frame)
    ensures Sized(f, n)
    ensures forall k :: 0 <= k < n ==> f.depth[k] == 0.0 && f.cells[k] == ' '
  {
    Frame(seq(n, _ => 0.0), seq(n, _ => ' '))
  }

  /**
   * One sample against the buffers: it is dropped when off screen, when unlit,
   * or when it is not strictly nearer than what the cell holds; otherwise it
   * overwrites depth and glyph of its cell.
   */
  function Step(f: Frame, s: Sample, w: int, h: int, ramp: string): (g: Frame)
    requires w > 0 && h > 0 && Sized(f, w * h) && ValidRamp(ramp)
    ensures Sized(g, w * h)
  {
    if !InBounds(s, w, h) then f
    else
      TargetInRange(s, w, h);
      var idx := Target(s, w);
      if s.lum <= 0.0 then f
      else if s.ooz > f.depth[idx] then Frame(f.depth[idx := s.ooz], f.cells[idx := Glyph(s.lum, ramp)])
      else f
  }

  /** The buffers after the samples, in order, starting from `f`. */
  function Fold(f: Frame, samples: seq<Sample>, w: int, h: int, ramp: string): (g: Frame)
    requires w > 0 && h > 0 && Sized(f, w * h) && ValidRamp(ramp)
    ensures Sized(g, w * h)
    decreases |samples|
  {
    if |samples| == 0 then f
    else Step(Fold(f, samples[..|samples| - 1], w, h, ramp), samples[|samples| - 1], w, h, ramp)
  }

  /** Cell `k` is blank exactly at depth 0, and otherwise shows a ramp glyph. */
  predicate CellShape(f: Frame, k: int, ramp: string)
    requires 0 <= k < |f.depth| == |f.cells|
  {
    && f.depth[k] >= 0.0
    && (f.depth[k] == 0.0 <==> f.cells[k] == ' ')
    && (f.cells[k] == ' ' || f.cells[k] in ramp)
  }

  /** The depth of cell `k` is at least that of every sample drawn on it. */
  predicate CellBound(f: Frame, samples: seq<Sample>, k: int, w: int, h: int)
    requires 0 <= k < |f.depth|
  {
    forall j :: 0 <= j < |samples| && Hits(samples[j], k, w, h) ==> samples[j].ooz <= f.depth[k]
  }

  /** Sample `j` is the first one drawn on cell `k` at the depth the cell holds, and its glyph is shown. */
  predicate ShownBy(f: Frame, samples: seq<Sample>, j: int, k: int, w: int, h: int, ramp: string)
    requires 0 <= k < |f.depth| == |f.cells|
    requires ValidRamp(ramp)
  {
    && 0 <= j < |samples| && Hits(samples[j], k, w, h)
    && samples[j].ooz == f.depth[k]
    && f.cells[k] == Glyph(samples[j].lum, ramp)
    && forall i :: 0 <= i < j && Hits(samples[i], k, w, h) ==> samples[i].ooz < f.depth[k]
  }

  /** What a frame rendered from `samples` holds in cell `k`. */
  ghost predicate CellOutcome(f: Frame, samples: seq<Sample>, k: int, w: int, h: int, ramp: string)
    requires 0 <= k < |f.depth| == |f.cells|
    requires ValidRamp(ramp)
  {
    && CellShape(f, k, ramp)
    && CellBound(f, samples, k, w, h)
    && (f.depth[k] > 0.0 ==> exists j :: ShownBy(f, samples, j, k, w, h, ramp))
  }

  /** A sample that passes all three tests on cell `k` takes it over. */
  lemma StepWrites(f: Frame, pre: seq<Sample>, s: Sample, k: int, w: int, h: int, ramp: string)
    requires w > 0 && h > 0 && Sized(f, w * h) && ValidRamp(ramp) && 0 <= k < w * h
    requires CellOutcome(f, pre, k, w, h, ramp)
    requires Hits(s, k, w, h) && s.ooz > f.depth[k]
    ensures CellOutcome(Step(f, s, w, h, ramp), pre + [s], k, w, h, ramp)
  {
    var g := Step(f, s, w, h, ramp);
    var samples := pre + [s];
    assert g.depth[k] == s.ooz && g.cells[k] == Glyph(s.lum, ramp);
    forall j | 0 <= j < |samples| && Hits(samples[j], k, w, h)
      ensures samples[j].ooz <= g.depth[k]
    {
      if j < |pre| {
        assert samples[j] == pre[j];
      }
    }
    forall i | 0 <= i < |pre| && Hits(samples[i], k, w, h)
      ensures samples[i].ooz < g.depth[k]
    {
      assert samples[i] == pre[i];
    }
    assert ShownBy(g, samples, |pre|, k, w, h, ramp);
  }

  /** A sample that fails a test on cell `k`, or lands elsewhere, leaves cell `k` as it was. */
  lemma StepKeeps(f: Frame, pre: seq<Sample>, s: Sample, k: int, w: int, h: int, ramp: string)
    requires w > 0 && h > 0 && Sized(f, w * h) && ValidRamp(ramp) && 0 <= k < w * h
    requires CellOutcome(f, pre, k, w, h, ramp)
    requires !(Hits(s, k, w, h) && s.ooz > f.depth[k])
    ensures CellOutcome(Step(f, s, w, h, ramp), pre + [s], k, w, h, ramp)
  {
    var g := Step(f, s, w, h, ramp);
    var samples := pre + [s];
    if InBounds(s, w, h) {
      TargetInRange(s, w, h);
      if s.lum > 0.0 && s.ooz > f.depth[Target(s, w)] {
        assert Target(s, w) != k;
      }
    }
    assert g.depth[k] == f.depth[k] && g.cells[k] == f.cells[k];
    forall j | 0 <= j < |samples| && Hits(samples[j], k, w, h)
      ensures samples[j].ooz <= g.depth[k]
    {
      if j < |pre| {
        assert samples[j] == pre[j];
      }
    }
    if g.depth[k] > 0.0 {
      var j :| ShownBy(f, pre, j, k, w, h, ramp);
      forall i | 0 <= i < j && Hits(samples[i], k, w, h)
        ensures samples[i].ooz < g.depth[k]
      {
        assert samples[i] == pre[i];
      }
      assert samples[j] == pre[j];
      assert ShownBy(g, samples, j, k, w, h, ramp);
    }
  }

  /**
   * After any sequence of samples, each cell shows the glyph of its nearest lit
   * sample (the first of them on a tie), with that sample's inverse depth; a
   * cell no sample reached with a positive inverse depth stays blank at depth 0.
   */
  lemma {:induction false} RasterizeCell(samples: seq<Sample>, k: int, w: int, h: int, ramp: string)
    requires w > 0 && h > 0 && ValidRamp(ramp) && 0 <= k < w * h
    ensures CellOutcome(Fold(Cleared(w * h), samples, w, h, ramp), samples, k, w, h, ramp)
    decreases |samples|
  {
    var f0 := Cleared(w * h);
    if |samples| == 0 {
      assert Fold(f0, samples, w, h, ramp) == f0;
    } else {
      var m := |samples| - 1;
      var pre := samples[..m];
      var s := samples[m];
      RasterizeCell(pre, k, w, h, ramp);
      var f := Fold(f0, pre, w, h, ramp);
      assert samples == pre + [s];
      if Hits(s, k, w, h) && s.ooz > f.depth[k] {
        StepWrites(f, pre, s, k, w, h, ramp);
      } else {
        StepKeeps(f, pre, s, k, w, h, ramp);
      }
    }
  }

  /** Two lit samples at the same depth on one cell: the first one drawn stays. */
  lemma FirstWriterWins(a: Sample, b: Sample, k: int, w: int, h: int, ramp: string)
    requires w > 0 && h > 0 && ValidRamp(ramp) && 0 <= k < w * h
    requires Hits(a, k, w, h) && Hits(b, k, w, h)
    requires a.ooz == b.ooz > 0.0
    ensures Fold(Cleared(w * h), [a, b], w, h, ramp).cells[k] == Glyph(a.lum, ramp)
  {
    RasterizeCell([a, b], k, w, h, ramp);
  }

  // ---------------------------------------------------------------------------
  // Serialisation

  /** The text of the cells: each cell in order, with a newline after every `w`. */
  function Serialize(cells: seq<char>, w: int): (out: string)
    requires w > 0
    decreases |cells|
  {
    if |cells| == 0 then ""
    else
      var p := |cells| - 1;
      Serialize(cells[..p], w) + [cells[p]] + (if (p + 1) % w == 0 then "\n" else "")
  }

  /** One more cell: the cell itself, then a newline if it completes a row. */
  lemma SerializeSnoc(cells: seq<char>, c: char, w: int)
    requires w > 0
    ensures Serialize(cells + [c], w) == Serialize(cells, w) + [c] + (if (|cells| + 1) % w == 0 then "\n" else "")
  {
    assert (cells + [c])[..|cells|] == cells;
  }

  /** Cells that do not complete a row add no newline. */
  lemma {:induction false} SerializePartialRow(a: seq<char>, row: seq<char>, m: nat, q: nat, w: int)
    requires w > 0 && |a| == q * w && m < w && m <= |row|
    ensures Serialize(a + row[..m], w) == Serialize(a, w) + row[..m]
  {
    if m == 0 {
      assert a + row[..0] == a;
    } else {
      SerializePartialRow(a, row, m - 1, q, w);
      assert a + row[..m] == (a + row[..m - 1]) + [row[m - 1]];
      SerializeSnoc(a + row[..m - 1], row[m - 1], w);
      Arith.DivMod(q, m, w);
      assert row[..m] == row[..m - 1] + [row[m - 1]];
    }
  }

  lemma RowEnd(n: int, q: nat, w: int)
    requires w > 0 && n == q * w
    ensures (n + w) % w == 0
  {
    Arith.DivMod(q + 1, 0, w);
    assert (q + 1) * w == n + w;
  }

  /** A whole row appended after whole rows is written out followed by a newline. */
  lemma SerializeRow(a: seq<char>, row: seq<char>, q: nat, w: int)
    requires w > 0 && |a| == q * w && |row| == w
    ensures Serialize(a + row, w) == Serialize(a, w) + row + "\n"
  {
    var init, last := row[..w - 1], row[w - 1];
    assert row == init + [last];
    assert a + row == (a + init) + [last];
    RowEnd(|a|, q, w);
    calc {
      Serialize(a + row, w);
    == { SerializeSnoc(a + init, last, w); }
      Serialize(a + init, w) + [last] + "\n";
    == { SerializePartialRow(a, row, w - 1, q, w); }
      Serialize(a, w) + init + [last] + "\n";
    }
  }

  /** Appending a cell and a tail after a concatenation regroups freely. */
  lemma SnocAssoc(x: string, y: string, c: char, tail: string)
    ensures (x + y) + [c] + tail == x + (y + [c] + tail)
  {
  }

  /** One more cell after `a + init`, where `a` leaves the row position unchanged. */
  lemma SerializeAfterSnoc(a: seq<char>, init: seq<char>, last: char, w: int)
    requires w > 0 && (|a| + |init| + 1) % w == (|init| + 1) % w
    ensures Serialize(a + (init + [last]), w)
         == Serialize(a + init, w) + [last] + (if (|init| + 1) % w == 0 then "\n" else "")
  {
    assert a + (init + [last]) == (a + init) + [last];
    SerializeSnoc(a + init, last, w);
  }

  /** The step of `SerializeAppend`: the cell and its newline go after the text of `init`. */
  lemma SerializeAppendSnoc(a: seq<char>, init: seq<char>, last: char, w: int)
    requires w > 0 && (|a| + |init| + 1) % w == (|init| + 1) % w
    requires Serialize(a + init, w) == Serialize(a, w) + Serialize(init, w)
    ensures Serialize(a + (init + [last]), w) == Serialize(a, w) + Serialize(init + [last], w)
  {
    var nl: string := if (|init| + 1) % w == 0 then "\n" else "";
    var head, rows := Serialize(a, w), Serialize(init, w);
    SerializeAfterSnoc(a, init, last, w);
    SerializeSnoc(init, last, w);
    SnocAssoc(head, rows, last, nl);
  }

  /** Text of whole rows followed by more cells: the two texts one after the other. */
  lemma {:induction false} SerializeAppend(a: seq<char>, b: seq<char>, q: nat, w: int)
    requires w > 0 && |a| == q * w
    ensures Serialize(a + b, w) == Serialize(a, w) + Serialize(b, w)
    decreases |b|
  {
    if |b| == 0 {
      assert a + b == a;
    } else {
      var m := |b| - 1;
      SerializeAppend(a, b[..m], q, w);
      Arith.ModShift(|a|, q, m + 1, w);
      SerializeAppendSnoc(a, b[..m], b[m], w);
      assert b == b[..m] + [b[m]];
    }
  }

  /**
   * The grid text line by line: `w` cells and a newline per full row, then
   * whatever cells are left over, without a newline.
   */
  function Lines(cells: seq<char>, w: int): string
    requires w > 0
    decreases |cells|
  {
    if |cells| < w then cells else cells[..w] + "\n" + Lines(cells[w..], w)
  }

  /** The serialiser writes the grid line by line. */
  lemma {:induction false} SerializeIsLines(cells: seq<char>, w: int)
    requires w > 0
    ensures Serialize(cells, w) == Lines(cells, w)
    decreases |cells|
  {
    if |cells| < w {
      SerializePartialRow([], cells, |cells|, 0, w);
      assert [] + cells[..|cells|] == cells;
    } else {
      var row, rest := cells[..w], cells[w..];
      assert cells == row + rest;
      SerializeAppend(row, rest, 1, w);
      SerializeRow([], row, 0, w);
      assert [] + row == row;
      SerializeIsLines(rest, w);
    }
  }

  /** An `h`-row grid gives `h` lines of `w + 1` characters. */
  lemma {:induction false} LinesLength(cells: seq<char>, w: int, h: nat)
    requires w > 0 && |cells| == w * h
    ensures |Lines(cells, w)| == h * (w + 1)
    decreases h
  {
    if h > 0 {
      assert w * h == w + w * (h - 1);
      LinesLength(cells[w..], w, h - 1);
    }
  }

  /** Every character of the text is a cell's glyph or a newline. */
  lemma {:induction false} SerializeChars(cells: seq<char>, w: int)
    requires w > 0
    ensures forall i :: 0 <= i < |Serialize(cells, w)| ==> Serialize(cells, w)[i] == '\n' || Serialize(cells, w)[i] in cells
    decreases |cells|
  {
    if |cells| > 0 {
      var p := |cells| - 1;
      SerializeChars(cells[..p], w);
      var out := Serialize(cells, w);
      var pre := Serialize(cells[..p], w);
      assert out == pre + [cells[p]] + (if (p + 1) % w == 0 then "\n" else "");
      forall i | 0 <= i < |out|
        ensures out[i] == '\n' || out[i] in cells
      {
        if i < |pre| {
          assert out[i] == pre[i];
          if pre[i] != '\n' {
            var j :| 0 <= j < p && cells[..p][j] == pre[i];
            assert cells[j] == pre[i];
          }
        } else if i == |pre| {
          assert out[i] == cells[p];
        }
      }
    }
  }

  // ---------------------------------------------------------------------------
  // Frame gate

  /** `1000 / max(1, fps)`: milliseconds between rendered frames. */
  function FrameInterval(fps: real): (r: real)
    ensures 0.0 < r <= 1000.0
  {
    1000.0 / (if 1.0 >= fps then 1.0 else fps)
  }

  /** At `fps` of one or more, `fps` intervals make up one second; below one, a frame a second. */
  lemma FrameIntervalRate(fps: real)
    ensures fps >= 1.0 ==> FrameInterval(fps) * fps == 1000.0
    ensures fps < 1.0 ==> FrameInterval(fps) == 1000.0
  {
  }

  /** A callback at time `t` renders iff the loop is running and a full interval has passed. */
  predicate Renders(running: bool, last: real, t: real, interval: real) {
    running && !(t - last < interval)
  }

  // ---------------------------------------------------------------------------
  // The renderer

  lemma NonnegProduct(a: int, b: int)
    requires a >= 0 && b >= 0
    ensures a * b >= 0
  {
  }

  class Renderer {
    const w: int
    const h: int
    const ramp: string
    const frameInterval: real
    const speed: real
    /** The torus sweep for rotation angles `(A, B)`, already projected. */
    const sweep: (real, real) -> seq<Sample>
    const zbuf: array<real>
    const chars: array<char>
    var A: real
    var B: real
    var last: real
    var running: bool

    ghost predicate Valid()
      reads this
    {
      w >= 24 && h >= 16 && zbuf.Length == w * h && chars.Length == w * h && ValidRamp(ramp)
    }

    /** The current buffers as a `Frame`. */
    function Buffers(): Frame
      reads this, zbuf, chars
    {
      Frame(zbuf[..], chars[..])
    }

    constructor(width: real, height: real, fps: real, speed: real, darkScheme: bool, sweep: (real, real) -> seq<Sample>)
      ensures Valid() && fresh(zbuf) && fresh(chars)
      ensures (w, h) == Dims(width, height)
      ensures ramp == RampFor(darkScheme)
      ensures frameInterval == FrameInterval(fps)
      ensures this.speed == speed && this.sweep == sweep
      ensures A == 0.0 && B == 0.0 && last == 0.0 && running
    {
      var d := Dims(width, height);
      w, h := d.0, d.1;
      ramp := RampFor(darkScheme);
      frameInterval := FrameInterval(fps);
      this.speed := speed;
      this.sweep := sweep;
      var n := d.0 * d.1;
      NonnegProduct(d.0, d.1);
      zbuf := new real[n];
      chars := new char[n];
      A, B, last, running := 0.0, 0.0, 0.0, true;
    }

    /** Clear both buffers: depth 0 and a blank in every cell. */
    method Clear()
      requires Valid()
      modifies zbuf, chars
      ensures Buffers() == Cleared(w * h)
    {
      var i := 0;
      while i < zbuf.Length
        invariant 0 <= i <= zbuf.Length
        invariant forall k :: 0 <= k < i ==> zbuf[k] == 0.0
      {
        zbuf[i] := 0.0;
        i := i + 1;
      }
      i := 0;
      while i < chars.Length
        invariant 0 <= i <= chars.Length
        invariant forall k :: 0 <= k < zbuf.Length ==> zbuf[k] == 0.0
        invariant forall k :: 0 <= k < i ==> chars[k] == ' '
      {
        chars[i] := ' ';
        i := i + 1;
      }
      assert zbuf[..] == Cleared(w * h).depth;
      assert chars[..] == Cleared(w * h).cells;
    }

    /** The bounds, light and depth tests for one sample, and the write when it passes. */
    method Plot(s: Sample)
      requires Valid()
      modifies zbuf, chars
      ensures Buffers() == Step(old(Buffers()), s, w, h, ramp)
    {
      ghost var f := Buffers();
      if s.xp < 0 || s.xp >= w || s.yp < 0 || s.yp >= h {
        return;
      }
      TargetInRange(s, w, h);
      var idx := s.xp + w * s.yp;
      if s.lum <= 0.0 {
        return;
      }
      if s.ooz > zbuf[idx] {
        zbuf[idx] := s.ooz;
        var shade := ShadeIndex(s.lum, |ramp|);
        chars[idx] := ramp[shade];
        assert zbuf[..] == f.depth[idx := s.ooz];
        assert chars[..] == f.cells[idx := Glyph(s.lum, ramp)];
      }
    }

    /** Draw the samples in order onto the current buffers. */
    method Draw(samples: seq<Sample>)
      requires Valid()
      modifies zbuf, chars
      ensures Buffers() == Fold(old(Buffers()), samples, w, h, ramp)
    {
      ghost var f0 := Buffers();
      var i := 0;
      while i < |samples|
        invariant 0 <= i <= |samples|
        invariant Buffers() == Fold(f0, samples[..i], w, h, ramp)
      {
        Plot(samples[i]);
        assert samples[..i + 1][..i] == samples[..i];
        i := i + 1;
      }
      assert samples[..i] == samples;
    }

    /** Serialise the glyph buffer row by row. */
    method Compose() returns (out: string)
      requires Valid()
      ensures out == Serialize(chars[..], w)
    {
      out := "";
      var p := 0;
      while p < chars.Length
        invariant 0 <= p <= chars.Length
        invariant out == Serialize(chars[..p], w)
      {
        out := out + [chars[p]];
        if (p + 1) % w == 0 {
          out := out + "\n";
        }
        assert chars[..p + 1][..p] == chars[..p];
        p := p + 1;
      }
      assert chars[..p] == chars[..];
    }

    /**
     * One animation callback at time `t`. When the gate lets it through it
     * records `t`, renders the sweep for the current angles from cleared
     * buffers, returns the text, and advances the angles; otherwise nothing
     * changes.
     */
    method Tick(t: real) returns (frame: Option<string>)
      requires Valid()
      modifies this`A, this`B, this`last, zbuf, chars
      ensures frame.Some? <==> Renders(old(running), old(last), t, frameInterval)
      ensures frame.Some? ==>
        && Buffers() == Fold(Cleared(w * h), sweep(old(A), old(B)), w, h, ramp)
        && frame.value == Serialize(Buffers().cells, w)
        && last == t && A == old(A) + 0.04 * speed && B == old(B) + 0.02 * speed
      ensures frame.None? ==>
        last == old(last) && A == old(A) && B == old(B) && Buffers() == old(Buffers())
    {
      if !running {
        return None;
      }
      if t - last < frameInterval {
        return None;
      }
      last := t;
      Clear();
      Draw(sweep(A, B));
      var out := Compose();
      A := A + 0.04 * speed;
      B := B + 0.02 * speed;
      return Some(out);
    }

    /** `onVis`: run only while visible; becoming visible restarts the gate. */
    method OnVisibility(visible: bool)
      modifies this`running, this`last
      ensures running == visible
      ensures last == (if visible then 0.0 else old(last))
    {
      running := visible;
      if running {
        last := 0.0;
      }
    }
  }

  /**
   * Any rendered frame is `h` lines of `w` cells and a newline, and every
   * cell is a blank or a glyph of the ramp.
   */
  lemma RenderedFrame(samples: seq<Sample>, w: int, h: int, ramp: string)
    requires w > 0 && h > 0 && ValidRamp(ramp)
    ensures var out := Serialize(Fold(Cleared(w * h), samples, w, h, ramp).cells, w);
      && out == Lines(Fold(Cleared(w * h), samples, w, h, ramp).cells, w)
      && |out| == h * (w + 1)
      && forall i :: 0 <= i < |out| ==> out[i] == '\n' || out[i] == ' ' || out[i] in ramp
  {
    var f := Fold(Cleared(w * h), samples, w, h, ramp);
    var out := Serialize(f.cells, w);
    SerializeIsLines(f.cells, w);
    LinesLength(f.cells, w, h);
    SerializeChars(f.cells, w);
    forall i | 0 <= i < |out|
      ensures out[i] == '\n' || out[i] == ' ' || out[i] in ramp
    {
      if out[i] != '\n' {
        var k :| 0 <= k < |f.cells| && f.cells[k] == out[i];
        RasterizeCell(samples, k, w, h, ramp);
      }
    }
  }
}
