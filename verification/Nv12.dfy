/** NV12 to ARGB conversion, one row range per worker thread. */
module Nv12 {
  import opened Common

  const W: nat := 1280
  const H: nat := 720

  /** The two planes of a picture and how a job reads them. */
  datatype Picture = Picture(y: seq<u8>, uv: seq<u8>, w: nat, ystride: nat, uvstride: nat, bt709: bool)

  function LumaIndex(p: Picture, row: nat, x: nat): nat {
    row * p.ystride + x
  }

  function ChromaIndex(p: Picture, row: nat, x: nat): nat {
    row / 2 * p.uvstride + Even(x)
  }

  /** The samples of a pixel lie inside the planes. */
  predicate Inside(p: Picture, row: nat, x: nat) {
    LumaIndex(p, row, x) < |p.y| && ChromaIndex(p, row, x) + 1 < |p.uv|
  }

  /** So do those of every pixel of the rows below `h`. */
  ghost predicate Covers(p: Picture, h: nat) {
    p.w <= W && forall row: nat, x: nat :: row < h && x < p.w ==> Inside(p, row, x)
  }

  function Even(x: nat): nat {
    x - x % 2
  }

  function Clamp(v: int): u8 {
    if v < 0 then 0 else if v > 255 then 255 else v
  }

  datatype Matrix = Matrix(kr: int, kgu: int, kgv: int, kb: int)

  function Coefficients(bt709: bool): Matrix {
    if bt709 then Matrix(459, 55, 136, 541) else Matrix(409, 100, 208, 516)
  }

  /** The Q8 sums before the shift. */
  function Red(k: Matrix, y: u8, v: u8): int { 298 * (y - 16) + k.kr * (v - 128) + 128 }
  function Green(k: Matrix, y: u8, u: u8, v: u8): int { 298 * (y - 16) - k.kgu * (u - 128) - k.kgv * (v - 128) + 128 }
  function Blue(k: Matrix, y: u8, u: u8): int { 298 * (y - 16) + k.kb * (u - 128) + 128 }

  function Pack(r: u8, g: u8, b: u8): u32 {
    0xff00_0000 + r * 0x1_0000 + g * 0x100 + b
  }

  function Convert(bt709: bool, y: u8, u: u8, v: u8): u32 {
    var k := Coefficients(bt709);
    Pack(Clamp(Red(k, y, v) / 256), Clamp(Green(k, y, u, v) / 256), Clamp(Blue(k, y, u) / 256))
  }

  predicate Fits32(x: int) {
    -0x8000_0000 <= x < 0x8000_0000
  }

  /** Every product and partial sum of the three channels, in the order the code forms them. */
  predicate PartsFit(k: Matrix, y: u8, u: u8, v: u8) {
    var c, d, e := y - 16, u - 128, v - 128;
    && Fits32(298 * c) && Fits32(k.kr * e) && Fits32(k.kgu * d) && Fits32(k.kgv * e) && Fits32(k.kb * d)
    && Fits32(298 * c + k.kr * e) && Fits32(298 * c + k.kb * d)
    && Fits32(298 * c - k.kgu * d) && Fits32(298 * c - k.kgu * d - k.kgv * e)
  }

  /** No intermediate leaves 32 bits, and each channel is the real-valued Q8 formula rounded down and
      clamped, recoverable from the packed word. */
  lemma ConvertIsClampedFloor(bt709: bool, y: u8, u: u8, v: u8)
    ensures var k, p := Coefficients(bt709), Convert(bt709, y, u, v);
            && PartsFit(k, y, u, v)
            && Fits32(Red(k, y, v)) && Fits32(Green(k, y, u, v)) && Fits32(Blue(k, y, u))
            && p / 0x100_0000 == 255
            && p / 0x1_0000 % 0x100 == Clamp((Red(k, y, v) as real / 256.0).Floor)
            && p / 0x100 % 0x100 == Clamp((Green(k, y, u, v) as real / 256.0).Floor)
            && p % 0x100 == Clamp((Blue(k, y, u) as real / 256.0).Floor)
  {
    var k := Coefficients(bt709);
    FloorOfQ8(Red(k, y, v));
    FloorOfQ8(Green(k, y, u, v));
    FloorOfQ8(Blue(k, y, u));
    Unpack(Clamp(Red(k, y, v) / 256), Clamp(Green(k, y, u, v) / 256), Clamp(Blue(k, y, u) / 256));
  }

  lemma FloorOfQ8(x: int)
    ensures (x as real / 256.0).Floor == x / 256
  {
    var q, r := x / 256, x % 256;
    assert x as real == 256.0 * (q as real) + r as real;
    assert x as real / 256.0 == q as real + r as real / 256.0;
  }

  lemma Unpack(r: u8, g: u8, b: u8)
    ensures var p := Pack(r, g, b);
            p / 0x100_0000 == 255 && p / 0x1_0000 % 0x100 == r && p / 0x100 % 0x100 == g && p % 0x100 == b
  {
    var x: int, y: int, z: int := r, g, b;
    Split(0x100, 0x10000 * 255 + 0x100 * x + y, z);
    Split(0x1_0000, 0x100 * 255 + x, 0x100 * y + z);
    Split(0x100_0000, 255, 0x1_0000 * x + 0x100 * y + z);
    Split(0x100, 0x100 * 255 + x, y);
    Split(0x100, 255, x);
  }

  lemma Split(d: int, q: int, r: int)
    requires d > 0 && 0 <= r < d
    ensures (d * q + r) / d == q && (d * q + r) % d == r
  {
    var q', r' := (d * q + r) / d, (d * q + r) % d;
    assert d * (q - q') == r' - r;
    if q != q' {
      Apart(d, q - q');
    }
  }

  lemma Apart(d: int, k: int)
    requires d > 0 && k != 0
    ensures d * k >= d || d * k <= -d
  {
  }

  function PixelAt(p: Picture, row: nat, x: nat): u32
    requires Inside(p, row, x)
  {
    var c := ChromaIndex(p, row, x);
    Convert(p.bt709, p.y[LumaIndex(p, row, x)], p.uv[c], p.uv[c + 1])
  }

  /** A channel is the Q8 sum divided by 256, cut off at 0 and 255. */
  predicate Channel(c: int, sum: int) {
    c == if sum < 0 then 0 else if sum >= 0x1_0000 then 255 else sum / 256
  }

  lemma ClampedChannel(sum: int)
    ensures Channel(Clamp(sum / 256), sum)
  {
  }

  /** A pixel in terms of the bytes of the two planes: luma at its place, U and V next to each other, shared
      by two columns and two rows, and the coefficients of the two standards. */
  lemma PixelBytes(p: Picture, row: nat, x: nat)
    requires Inside(p, row, x)
    ensures var y: int, u: int, v: int := p.y[row * p.ystride + x],
                                          p.uv[row / 2 * p.uvstride + (x - x % 2)],
                                          p.uv[row / 2 * p.uvstride + (x - x % 2) + 1];
            var luma, q := 298 * (y - 16) + 128, PixelAt(p, row, x);
            && q / 0x100_0000 == 255
            && Channel(q / 0x1_0000 % 0x100, luma + (if p.bt709 then 459 else 409) * (v - 128))
            && Channel(q / 0x100 % 0x100,
                       luma - (if p.bt709 then 55 else 100) * (u - 128) - (if p.bt709 then 136 else 208) * (v - 128))
            && Channel(q % 0x100, luma + (if p.bt709 then 541 else 516) * (u - 128))
  {
    var y, u, v := p.y[row * p.ystride + x], p.uv[row / 2 * p.uvstride + (x - x % 2)],
                   p.uv[row / 2 * p.uvstride + (x - x % 2) + 1];
    var k := Coefficients(p.bt709);
    assert PixelAt(p, row, x) == Convert(p.bt709, y, u, v);
    ClampedChannel(Red(k, y, v));
    ClampedChannel(Green(k, y, u, v));
    ClampedChannel(Blue(k, y, u));
    Unpack(Clamp(Red(k, y, v) / 256), Clamp(Green(k, y, u, v) / 256), Clamp(Blue(k, y, u) / 256));
    hide Channel, Clamp, Pack, PixelAt;
  }

  /** Neutral chroma gives grey. */
  lemma NeutralIsGrey(bt709: bool, y: u8)
    ensures var q := Convert(bt709, y, 128, 128);
            q / 0x1_0000 % 0x100 == q / 0x100 % 0x100 == q % 0x100
  {
    var k := Coefficients(bt709);
    Unpack(Clamp(Red(k, y, 128) / 256), Clamp(Green(k, y, 128, 128) / 256), Clamp(Blue(k, y, 128) / 256));
    hide Pack, Clamp;
  }

  // The output is an array of rows of W pixels.
  function Row(i: nat): nat { i / 1280 }
  function Col(i: nat): nat { i % 1280 }
  function At(row: nat, x: nat): nat { row * 1280 + x }

  lemma RowAndCol(row: nat, x: nat)
    requires x < W
    ensures Row(At(row, x)) == row && Col(At(row, x)) == x
  {
  }

  lemma AtRowCol(i: nat)
    ensures At(Row(i), Col(i)) == i && Col(i) < W
  {
  }

  /** Whether pixel `i` belongs to the picture's rows `r0` up to `r1`. */
  predicate InRows(p: Picture, i: nat, r0: nat, r1: nat) {
    r0 <= Row(i) < r1 && Col(i) < p.w
  }

  /** The output after rows `r0` up to `r1` have been converted into it. */
  ghost function ConvertRows(out: seq<u32>, p: Picture, r0: nat, r1: nat): seq<u32>
    requires Covers(p, r1)
  {
    seq(|out|, i requires 0 <= i < |out| =>
      if InRows(p, i, r0, r1) then PixelAt(p, Row(i), Col(i)) else out[i])
  }

  /** conv_worker */
  method ConvWorker(p: Picture, out: array<u32>, row0: nat, row1: nat)
    requires row1 * W <= out.Length && Covers(p, row1)
    modifies out
    ensures out[..] == ConvertRows(old(out[..]), p, row0, row1)
  {
    hide PixelAt, Inside, Row, Col, At;
    var row := row0;
    while row < row1
      invariant row0 <= row <= row1 || row1 < row0 == row
      invariant forall i :: 0 <= i < out.Length ==>
                  out[i] == if InRows(p, i, row0, row1) && Row(i) < row then PixelAt(p, Row(i), Col(i)) else old(out[i])
    {
      ConvertRow(p, out, row);
      row := row + 1;
    }
  }

  /** The inner loop of conv_worker. */
  method ConvertRow(p: Picture, out: array<u32>, row: nat)
    requires (row + 1) * W <= out.Length && Covers(p, row + 1)
    modifies out
    ensures forall i :: 0 <= i < out.Length ==>
              out[i] == if Row(i) == row && Col(i) < p.w then PixelAt(p, Row(i), Col(i)) else old(out[i])
  {
    hide Convert;
    for x := 0 to p.w
      invariant forall i :: 0 <= i < out.Length ==>
                  out[i] == if Row(i) == row && Col(i) < x then PixelAt(p, Row(i), Col(i)) else old(out[i])
    {
      assert Inside(p, row, x);
      RowAndCol(row, x);
      forall i | 0 <= i < out.Length && i != At(row, x) ensures !(Row(i) == row && Col(i) == x) {
        AtRowCol(i);
      }
      var c := ChromaIndex(p, row, x);
      out[At(row, x)] := Convert(p.bt709, p.y[LumaIndex(p, row, x)], p.uv[c], p.uv[c + 1]);
    }
  }

  // ------------------------------------------------------------------
  // Splitting the rows over worker threads

  const MAX_THREADS: nat := 4   // CONV_THREADS_MAX

  function JobStart(n: nat, threads: nat, h: nat): nat
    requires n < threads
  {
    n * (h / threads)
  }

  function JobEnd(n: nat, threads: nat, h: nat): nat
    requires n < threads
  {
    if n == threads - 1 then h else (n + 1) * (h / threads)
  }

  /** The job a row belongs to. */
  function Owner(row: nat, threads: nat, h: nat): (n: nat)
    requires 1 <= threads <= MAX_THREADS
    ensures n < threads
  {
    var rows := h / threads;
    if threads == 1 || row < rows then 0
    else if threads == 2 || row < 2 * rows then 1
    else if threads == 3 || row < 3 * rows then 2
    else 3
  }

  /** The row ranges partition the picture: each row lies in its owner's range and in no other. */
  lemma JobsPartitionRows(row: nat, n: nat, threads: nat, h: nat)
    requires 1 <= threads <= MAX_THREADS && n < threads && row < h
    ensures JobStart(n, threads, h) <= row < JobEnd(n, threads, h) <==> n == Owner(row, threads, h)
    ensures JobStart(n, threads, h) <= JobEnd(n, threads, h) <= h
  {
    JobBounds(n, threads, h);
  }

  lemma JobBounds(n: nat, threads: nat, h: nat)
    requires 1 <= threads <= MAX_THREADS && n < threads
    ensures threads * (h / threads) <= h
    ensures JobStart(n, threads, h) == if n == 0 then 0 else if n == 1 then h / threads
                                       else if n == 2 then 2 * (h / threads) else 3 * (h / threads)
    ensures JobStart(n, threads, h) <= JobEnd(n, threads, h) <= h
  {
    var rows := h / threads;
    if threads == 1 {} else if threads == 2 {} else if threads == 3 {} else {}
    if n == 0 {} else if n == 1 {} else if n == 2 {} else {}
  }

  /** nv12_to_argb when no thread can be created: every job runs inline. */
  method ConvertInline(p: Picture, h: nat, threads: nat, out: array<u32>)
    requires 1 <= threads <= MAX_THREADS && h * W <= out.Length && Covers(p, h)
    modifies out
    ensures out[..] == ConvertRows(old(out[..]), p, 0, h)
  {
    hide PixelAt, Inside, Row, Col;
    for n := 0 to threads
      invariant forall i :: 0 <= i < out.Length ==>
                  out[i] == if InRows(p, i, 0, if n == threads then h else JobStart(n, threads, h))
                            then PixelAt(p, Row(i), Col(i)) else old(out[i])
    {
      JobBounds(n, threads, h);
      if n + 1 < threads {
        JobBounds(n + 1, threads, h);
      }
      ConvWorker(p, out, JobStart(n, threads, h), JobEnd(n, threads, h));
    }
  }

  /** A worker thread's place in its two loops. */
  datatype Worker = Worker(row: nat, x: nat)
  datatype Crew = Crew(out: seq<u32>, workers: seq<Worker>)

  ghost predicate Setup(p: Picture, h: nat, size: nat) {
    h * W <= size && Covers(p, h)
  }

  function Start(out: seq<u32>, threads: nat, h: nat): Crew {
    Crew(out, seq(threads, n requires 0 <= n < threads => Worker(JobStart(n, threads, h), 0)))
  }

  /** The next place in the two loops. */
  function Next(w: Worker, width: nat): Worker {
    if w.x < width then Worker(w.row, w.x + 1) else Worker(w.row + 1, 0)
  }

  /** Worker `n` checks a loop condition and, if there is a pixel to do, writes it. */
  ghost function WorkerStep(c: Crew, p: Picture, h: nat, n: nat): (r: Crew)
    requires Setup(p, h, |c.out|)
    ensures |r.out| == |c.out| && |r.workers| == |c.workers|
  {
    if !(n < |c.workers| <= MAX_THREADS) then c
    else
      var w := c.workers[n];
      JobBounds(n, |c.workers|, h);
      if w.row >= JobEnd(n, |c.workers|, h) then c
      else
        var workers := c.workers[n := Next(w, p.w)];
        if w.x < p.w then
          assert Inside(p, w.row, w.x);
          Crew(c.out[At(w.row, w.x) := PixelAt(p, w.row, w.x)], workers)
        else
          Crew(c.out, workers)
  }

  ghost function CrewRun(c: Crew, p: Picture, h: nat, schedule: seq<nat>): (r: Crew)
    requires Setup(p, h, |c.out|)
    ensures |r.out| == |c.out| && |r.workers| == |c.workers|
  {
    hide *;
    if schedule == [] then c
    else WorkerStep(CrewRun(c, p, h, schedule[..|schedule| - 1]), p, h, schedule[|schedule| - 1])
  }

  predicate Finished(c: Crew, h: nat) {
    forall n :: 0 <= n < |c.workers| ==> c.workers[n].row >= JobEnd(n, |c.workers|, h)
  }

  /** Pixels worker `n` is past. */
  predicate Past(p: Picture, w: Worker, n: nat, threads: nat, h: nat, i: nat)
    requires n < threads
  {
    InRows(p, i, JobStart(n, threads, h), JobEnd(n, threads, h)) &&
    (Row(i) < w.row || (Row(i) == w.row && Col(i) < w.x))
  }

  /** Every pixel is still the old one or already the right one. */
  ghost predicate Sound(c: Crew, out: seq<u32>, p: Picture, h: nat)
    requires Covers(p, h)
  {
    && |c.out| == |out|
    && (forall n :: 0 <= n < |c.workers| ==>
          JobStart(n, |c.workers|, h) <= c.workers[n].row && c.workers[n].x <= p.w)
    && (forall i :: 0 <= i < |out| ==>
          c.out[i] == out[i] || (InRows(p, i, 0, h) && c.out[i] == PixelAt(p, Row(i), Col(i))))
  }

  ghost predicate Progress(c: Crew, out: seq<u32>, p: Picture, h: nat)
    requires Covers(p, h)
  {
    && Sound(c, out, p, h)
    && (forall n, i :: 0 <= n < |c.workers| && 0 <= i < |out| && Past(p, c.workers[n], n, |c.workers|, h, i) ==>
          InRows(p, i, 0, h) && c.out[i] == PixelAt(p, Row(i), Col(i)))
  }

  /** What a step of a worker that is not finished does. */
  lemma StepEffect(c: Crew, out: seq<u32>, p: Picture, h: nat, n: nat)
    requires Setup(p, h, |c.out|) && |c.workers| <= MAX_THREADS && Sound(c, out, p, h)
    requires n < |c.workers| && c.workers[n].row < JobEnd(n, |c.workers|, h)
    ensures var c', w := WorkerStep(c, p, h, n), c.workers[n];
            && c'.workers == c.workers[n := Next(w, p.w)]
            && Sound(c', out, p, h)
            && (w.x < p.w ==>
                  && At(w.row, w.x) < |c.out| && Inside(p, w.row, w.x)
                  && Row(At(w.row, w.x)) == w.row && Col(At(w.row, w.x)) == w.x
                  && InRows(p, At(w.row, w.x), 0, h)
                  && c'.out == c.out[At(w.row, w.x) := PixelAt(p, w.row, w.x)])
            && (w.x >= p.w ==> c'.out == c.out)
  {
    var w := c.workers[n];
    JobBounds(n, |c.workers|, h);
    if w.x < p.w {
      assert Inside(p, w.row, w.x);
      RowAndCol(w.row, w.x);
    }
    hide PixelAt, Inside, Row, Col;
  }

  /** A step adds at most the pixel it writes to what a worker is past. */
  lemma PastNext(p: Picture, w: Worker, n: nat, threads: nat, h: nat, i: nat)
    requires n < threads && w.x <= p.w && Past(p, Next(w, p.w), n, threads, h, i)
    ensures Past(p, w, n, threads, h, i) || (w.x < p.w && i == At(w.row, w.x))
  {
  }

  lemma ProgressStep(c: Crew, out: seq<u32>, p: Picture, h: nat, n: nat)
    requires Setup(p, h, |c.out|) && 1 <= |c.workers| <= MAX_THREADS && Progress(c, out, p, h)
    ensures Progress(WorkerStep(c, p, h, n), out, p, h)
  {
    var c', threads := WorkerStep(c, p, h, n), |c.workers|;
    if n < threads && c.workers[n].row < JobEnd(n, threads, h) {
      var w := c.workers[n];
      assert w.x <= p.w;
      StepEffect(c, out, p, h, n);
      hide WorkerStep, Sound, PixelAt, Inside, Row, Col, JobStart, JobEnd, At, Past;
      forall m, i | 0 <= m < threads && 0 <= i < |out| && Past(p, c'.workers[m], m, threads, h, i)
        ensures InRows(p, i, 0, h) && c'.out[i] == PixelAt(p, Row(i), Col(i))
      {
        if m == n {
          PastNext(p, w, n, threads, h, i);
        }
        assert Past(p, c.workers[m], m, threads, h, i) || (w.x < p.w && i == At(w.row, w.x));
      }
    }
  }

  lemma {:induction false} ProgressRun(c: Crew, out: seq<u32>, p: Picture, h: nat, schedule: seq<nat>)
    requires Setup(p, h, |c.out|) && 1 <= |c.workers| <= MAX_THREADS && Progress(c, out, p, h)
    ensures Progress(CrewRun(c, p, h, schedule), out, p, h)
  {
    hide WorkerStep, Progress;
    if schedule != [] {
      ProgressRun(c, out, p, h, schedule[..|schedule| - 1]);
      ProgressStep(CrewRun(c, p, h, schedule[..|schedule| - 1]), out, p, h, schedule[|schedule| - 1]);
    }
  }

  /** However the worker threads interleave, once all have finished the output is the one of the
      sequential conversion. A thread that could not be created runs as one uninterrupted stretch. */
  lemma ParallelIsSequential(out: seq<u32>, p: Picture, h: nat, threads: nat, schedule: seq<nat>)
    requires 1 <= threads <= MAX_THREADS && Setup(p, h, |out|)
    requires Finished(CrewRun(Start(out, threads, h), p, h, schedule), h)
    ensures CrewRun(Start(out, threads, h), p, h, schedule).out == ConvertRows(out, p, 0, h)
  {
    var c := CrewRun(Start(out, threads, h), p, h, schedule);
    ProgressRun(Start(out, threads, h), out, p, h, schedule);
    hide CrewRun, PixelAt, Row, Col;
    forall i | 0 <= i < |out|
      ensures c.out[i] == if InRows(p, i, 0, h) then PixelAt(p, Row(i), Col(i)) else out[i]
    {
      if InRows(p, i, 0, h) {
        var n := Owner(Row(i), threads, h);
        JobsPartitionRows(Row(i), n, threads, h);
        assert Past(p, c.workers[n], n, threads, h, i);
      }
    }
  }

  // ------------------------------------------------------------------
  // Which schedules finish

  /** Steps worker `n` has left: for each remaining row its pixels and the end of the row. */
  function Left(c: Crew, p: Picture, h: nat, n: nat): int
    requires n < |c.workers|
  {
    var w, end := c.workers[n], JobEnd(n, |c.workers|, h);
    if w.row >= end then 0 else (end - w.row) * (p.w + 1) - w.x
  }

  predicate InRow(c: Crew, p: Picture) {
    forall n :: 0 <= n < |c.workers| ==> c.workers[n].x <= p.w
  }

  lemma OneRowLess(rows: int, width: int)
    ensures rows * (width + 1) - width == (rows - 1) * (width + 1) + 1
  {
  }

  lemma SomeLeft(rows: int, width: int, x: int)
    requires 1 <= rows && 0 <= x <= width
    ensures rows * (width + 1) - x > 0
  {
    assert rows * (width + 1) >= width + 1;
  }

  /** A step takes one off the steps of its own worker, if it has any, and no other's. */
  lemma StepLeft(c: Crew, p: Picture, h: nat, n: nat, m: nat)
    requires Setup(p, h, |c.out|) && |c.workers| <= MAX_THREADS && InRow(c, p) && m < |c.workers|
    ensures InRow(WorkerStep(c, p, h, n), p)
    ensures Left(c, p, h, m) >= 0 && (Left(c, p, h, m) == 0 <==> c.workers[m].row >= JobEnd(m, |c.workers|, h))
    ensures Left(WorkerStep(c, p, h, n), p, h, m) ==
            Left(c, p, h, m) - (if n == m && Left(c, p, h, m) > 0 then 1 else 0)
  {
    hide PixelAt, Inside, At, JobEnd;
    var w, end := c.workers[m], JobEnd(m, |c.workers|, h);
    OneRowLess(end - w.row, p.w);
    if w.row < end {
      SomeLeft(end - w.row, p.w, w.x);
    }
  }

  function Turns(schedule: seq<nat>, n: nat): nat {
    if schedule == [] then 0
    else Turns(schedule[..|schedule| - 1], n) + (if schedule[|schedule| - 1] == n then 1 else 0)
  }

  lemma {:induction false} LeftAfter(c: Crew, p: Picture, h: nat, schedule: seq<nat>, m: nat)
    requires Setup(p, h, |c.out|) && |c.workers| <= MAX_THREADS && InRow(c, p) && m < |c.workers|
    ensures InRow(CrewRun(c, p, h, schedule), p)
    ensures var left := Left(c, p, h, m) - Turns(schedule, m);
            Left(CrewRun(c, p, h, schedule), p, h, m) == if left >= 0 then left else 0
  {
    hide WorkerStep, Left, InRow;
    StepLeft(c, p, h, 0, m);
    if schedule != [] {
      var init, n := schedule[..|schedule| - 1], schedule[|schedule| - 1];
      LeftAfter(c, p, h, init, m);
      StepLeft(CrewRun(c, p, h, init), p, h, n, m);
    }
  }

  /** A schedule finishes the picture exactly if it gives every worker at least the turns it needs. */
  lemma FinishedIffEnoughTurns(c: Crew, p: Picture, h: nat, schedule: seq<nat>)
    requires Setup(p, h, |c.out|) && |c.workers| <= MAX_THREADS && InRow(c, p)
    ensures Finished(CrewRun(c, p, h, schedule), h) <==>
            forall m :: 0 <= m < |c.workers| ==> Turns(schedule, m) >= Left(c, p, h, m)
  {
    hide CrewRun, Left, InRow, Turns, JobEnd;
    var r := CrewRun(c, p, h, schedule);
    forall m: nat | m < |c.workers|
      ensures r.workers[m].row >= JobEnd(m, |r.workers|, h) <==> Turns(schedule, m) >= Left(c, p, h, m)
    {
      LeftAfter(c, p, h, schedule, m);
      StepLeft(r, p, h, 0, m);
    }
  }
}
