/**
 The vertical pass of the image resampler: input scanlines are decoded once into
 a ring of buffers and every output row is gathered from the lines in the ring,
 eight at a time. Samples are exact reals.
 */
module VerticalGather {
  import opened Common

  type Scanline = seq<real>

  /** The input rows `n0` to `n1` that an output row is made of. */
  datatype Window = Window(n0: int, n1: int) {
    function Count(): int {
      n1 - n0 + 1
    }
  }

  /** One product of the horizontal pass: an input sample and its coefficient. */
  datatype Tap = Tap(at: nat, coeff: real)

  /** What stays fixed during a pass: the image decoded row by row, the horizontal filter and the order of passes. */
  datatype Job = Job(decode: int -> Scanline, width: nat, taps: seq<seq<Tap>>, verticalFirst: bool) {

    ghost predicate Valid() {
      && (forall n :: |decode(n)| == width)
      && (forall o, i :: 0 <= o < |taps| && 0 <= i < |taps[o]| ==> taps[o][i].at < width)
    }

    /** The width of the lines in the ring. */
    function LineWidth(): nat {
      if verticalFirst then width else |taps|
    }

    /** Row `n` as it is kept in the ring. */
    ghost function Line(n: int): (line: Scanline)
      requires Valid()
      ensures |line| == LineWidth()
    {
      if verticalFirst then decode(n) else Horizontal(taps, decode(n))
    }
  }

  function Scaled(sample: real, coeff: real): real {
    sample * coeff
  }

  /** The first `count` products of one horizontal output sample, added up. */
  function TapSum(taps: seq<Tap>, line: Scanline, count: nat): real
    requires count <= |taps|
    requires forall i :: 0 <= i < |taps| ==> taps[i].at < |line|
  {
    if count == 0 then 0.0 else TapSum(taps, line, count - 1) + Scaled(line[taps[count - 1].at], taps[count - 1].coeff)
  }

  /** The horizontal pass on one line. */
  function Horizontal(taps: seq<seq<Tap>>, line: Scanline): (r: Scanline)
    requires forall o, i :: 0 <= o < |taps| && 0 <= i < |taps[o]| ==> taps[o][i].at < |line|
    ensures |r| == |taps|
  {
    seq(|taps|, o requires 0 <= o < |taps| => TapSum(taps[o], line, |taps[o]|))
  }

  /** The weighted sum, at column `x`, of the `count` lines from row `n0` on: what an output row is defined to be. */
  ghost function Blend(job: Job, coeffs: seq<real>, n0: int, count: nat, x: nat): real
    requires job.Valid() && count <= |coeffs| && x < job.LineWidth()
  {
    if count == 0 then 0.0
    else Blend(job, coeffs, n0, count - 1, x) + Scaled(job.Line(n0 + count - 1)[x], coeffs[count - 1])
  }

  /** The first `count` weights added up. */
  function Total(coeffs: seq<real>, count: nat): real
    requires count <= |coeffs|
  {
    if count == 0 then 0.0 else coeffs[count - 1] + Total(coeffs, count - 1)
  }

  lemma ScaledBetween(sample: real, coeff: real, lo: real, hi: real)
    requires lo <= sample <= hi && coeff >= 0.0
    ensures lo * coeff <= Scaled(sample, coeff) <= hi * coeff
  {
    assert (sample - lo) * coeff >= 0.0 && (hi - sample) * coeff >= 0.0;
  }

  lemma {:induction false} BlendBetween(job: Job, coeffs: seq<real>, n0: int, count: nat, x: nat, lo: real, hi: real)
    requires job.Valid() && count <= |coeffs| && x < job.LineWidth()
    requires forall k :: 0 <= k < count ==> coeffs[k] >= 0.0
    requires forall n :: n0 <= n < n0 + count ==> lo <= job.Line(n)[x] <= hi
    ensures lo * Total(coeffs, count) <= Blend(job, coeffs, n0, count, x) <= hi * Total(coeffs, count)
  {
    hide Job.Valid, Job.Line, Scaled;
    if count > 0 {
      BlendBetween(job, coeffs, n0, count - 1, x, lo, hi);
      ScaledBetween(job.Line(n0 + count - 1)[x], coeffs[count - 1], lo, hi);
    }
  }

  /**
   Weights that are not negative and add up to one over the rows of a window never
   overshoot: the sample lies between the least and the greatest of the window's.
   */
  lemma NoOvershoot(job: Job, coeffs: seq<real>, win: Window, x: nat, lo: real, hi: real)
    requires job.Valid() && x < job.LineWidth() && win.n0 <= win.n1 < win.n0 + |coeffs|
    requires forall k :: 0 <= k <= win.n1 - win.n0 ==> coeffs[k] >= 0.0
    requires Total(coeffs, win.n1 - win.n0 + 1) == 1.0
    requires forall n :: win.n0 <= n <= win.n1 ==> lo <= job.Line(n)[x] <= hi
    ensures lo <= Blend(job, coeffs, win.n0, win.Count(), x) <= hi
  {
    hide Job.Valid, Job.Line, Blend, Total;
    BlendBetween(job, coeffs, win.n0, win.Count(), x, lo, hi);
  }

  /** The same for the products of one horizontal output sample. */
  lemma {:induction false} TapsBetween(taps: seq<Tap>, line: Scanline, count: nat, coeffs: seq<real>,
                                       lo: real, hi: real)
    requires count <= |taps| == |coeffs|
    requires forall i :: 0 <= i < |taps| ==> taps[i].at < |line|
    requires forall i :: 0 <= i < count ==> coeffs[i] == taps[i].coeff >= 0.0 && lo <= line[taps[i].at] <= hi
    ensures lo * Total(coeffs, count) <= TapSum(taps, line, count) <= hi * Total(coeffs, count)
  {
    hide Scaled;
    if count > 0 {
      TapsBetween(taps, line, count - 1, coeffs, lo, hi);
      ScaledBetween(line[taps[count - 1].at], taps[count - 1].coeff, lo, hi);
    }
  }

  predicate NearOne(c: real) {
    1.0 - 0.000001 <= c <= 1.0 + 0.000001
  }

  /** The weights a row is really gathered with: a lone weight close to one counts as one. */
  function Weights(coeffs: seq<real>, count: int): (w: seq<real>)
    requires 1 <= count <= |coeffs|
    ensures |w| == |coeffs|
  {
    if count == 1 && NearOne(coeffs[0]) then coeffs[0 := 1.0] else coeffs
  }

  /** The sum of up to eight products, as the unrolled kernels write it. */
  function ChunkSum(coeffs: seq<real>, k: nat, inputs: seq<Scanline>, count: nat, x: nat): real
    requires count <= |inputs| && k + |inputs| <= |coeffs|
    requires forall i :: 0 <= i < |inputs| ==> x < |inputs[i]|
  {
    if count == 0 then 0.0
    else ChunkSum(coeffs, k, inputs, count - 1, x) + Scaled(inputs[count - 1][x], coeffs[k + count - 1])
  }

  /** `inputs` are the lines of the rows from `from` on. */
  ghost predicate Loaded(job: Job, inputs: seq<Scanline>, from: int)
    requires job.Valid()
  {
    && (forall i :: 0 <= i < |inputs| ==> |inputs[i]| == job.LineWidth())
    && (forall i :: 0 <= i < |inputs| ==> inputs[i] == job.Line(from + i))
  }

  /** A chunk continues the weighted sum where the chunks before it stopped. */
  lemma {:induction false} ChunkContinues(job: Job, coeffs: seq<real>, n0: int, k: nat,
                                          inputs: seq<Scanline>, count: nat, x: nat)
    requires job.Valid() && x < job.LineWidth()
    requires count <= |inputs| && k + |inputs| <= |coeffs|
    requires Loaded(job, inputs, n0 + k)
    ensures Blend(job, coeffs, n0, k + count, x)
            == Blend(job, coeffs, n0, k, x) + ChunkSum(coeffs, k, inputs, count, x)
  {
    hide Job.Valid, Job.Line, Scaled;
    if count > 0 {
      ChunkContinues(job, coeffs, n0, k, inputs, count - 1, x);
      assert inputs[count - 1] == job.Line(n0 + k + (count - 1));
      assert n0 + (k + count) - 1 == n0 + k + (count - 1);
    }
  }

  /** The row as gathered so far. */
  ghost predicate Gathered(job: Job, row: seq<real>, coeffs: seq<real>, n0: int, count: nat)
    requires job.Valid() && count <= |coeffs|
  {
    |row| == job.LineWidth() && forall x :: 0 <= x < |row| ==> row[x] == Blend(job, coeffs, n0, count, x)
  }

  /** What one chunk leaves in the buffer. */
  ghost predicate ChunkDone(row0: seq<real>, row: seq<real>, coeffs: seq<real>, k: nat,
                            inputs: seq<Scanline>, cont: bool)
    requires 1 <= |inputs| && k + |inputs| <= |coeffs|
    requires forall i :: 0 <= i < |inputs| ==> |inputs[i]| == |row0|
  {
    && |row| == |row0|
    && (forall x :: 0 <= x < |row| ==>
          row[x] == if !cont && |inputs| == 1 && NearOne(coeffs[k]) then inputs[0][x]
                    else (if cont then row0[x] else 0.0) + ChunkSum(coeffs, k, inputs, |inputs|, x))
  }

  lemma ChunkGathers(job: Job, row0: seq<real>, row: seq<real>, coeffs: seq<real>, n0: int, total: nat, k: nat,
                     inputs: seq<Scanline>)
    requires job.Valid() && |row0| == job.LineWidth()
    requires 1 <= |inputs| && k + |inputs| <= total <= |coeffs| && (k == 0 && |inputs| == 1 ==> total == 1)
    requires Loaded(job, inputs, n0 + k)
    requires ChunkDone(row0, row, coeffs, k, inputs, k > 0)
    requires k > 0 ==> Gathered(job, row0, Weights(coeffs, total), n0, k)
    ensures Gathered(job, row, Weights(coeffs, total), n0, k + |inputs|)
  {
    hide Job.Valid, Job.Line;
    var w := Weights(coeffs, total);
    forall x | 0 <= x < |row|
      ensures row[x] == Blend(job, w, n0, k + |inputs|, x)
    {
      ChunkContinues(job, w, n0, k, inputs, |inputs|, x);
      assert Blend(job, w, n0, 0, x) == 0.0;
      if total == 1 && NearOne(coeffs[0]) {
        assert ChunkSum(w, 0, inputs, 0, x) == 0.0;
        assert ChunkSum(w, 0, inputs, 1, x) == inputs[0][x];
      }
    }
  }

  /** Two different positions less than a turn apart fall into different slots. */
  lemma SlotsDiffer(a: nat, b: nat, m: nat)
    requires a < b < a + m
    ensures a % m != b % m
  {
    if a % m == b % m {
      var qa, qb := a / m, b / m;
      assert a == m * qa + a % m && b == m * qb + b % m;
      assert b - a == m * (qb - qa);
      if qb - qa >= 1 {
        Grows(m, 1, qb - qa);
      } else {
        Grows(m, qb - qa, 0);
      }
    }
  }

  /** One of the up-to-eight-line kernels: overwrites the buffer, or adds to it when `cont`. */
  method GatherChunk(output: array<real>, width: nat, coeffs: seq<real>, k: nat, inputs: seq<Scanline>, cont: bool)
    requires width == output.Length
    requires 1 <= |inputs| <= 8 && k + |inputs| <= |coeffs|
    requires forall i :: 0 <= i < |inputs| ==> |inputs[i]| == width
    modifies output
    ensures ChunkDone(old(output[..]), output[..], coeffs, k, inputs, cont)
  {
    var x := 0;
    var copy := !cont && |inputs| == 1 && NearOne(coeffs[k]);
    while x < width
      invariant 0 <= x <= width
      invariant forall y :: 0 <= y < x ==>
        output[y] == if copy then inputs[0][y]
                     else (if cont then old(output[y]) else 0.0) + ChunkSum(coeffs, k, inputs, |inputs|, y)
      invariant forall y :: x <= y < output.Length ==> output[y] == old(output[y])
    {
      output[x] := if copy then inputs[0][x]
                   else (if cont then output[x] else 0.0) + ChunkSum(coeffs, k, inputs, |inputs|, x);
      x := x + 1;
    }
  }

  /** The slot of the ring in which the `i`-th line since the start is kept. */
  function Slot(i: int, entries: nat): (slot: nat)
    requires 0 <= i && entries > 0
    ensures slot < entries
  {
    i % entries
  }

  /** The slots hold the lines `lo` to `hi`, counted from row `start`. */
  ghost predicate Lines(ring: seq<Scanline>, job: Job, start: int, lo: nat, hi: int)
    requires job.Valid() && |ring| > 0
  {
    forall i :: lo <= i <= hi ==> ring[Slot(i, |ring|)] == job.Line(start + i)
  }

  /** A new line overwrites none of the lines that are still wanted, the oldest being dropped when the ring is full. */
  lemma NextLine(ring: seq<Scanline>, job: Job, start: int, lo: nat, hi: nat)
    requires job.Valid() && |ring| > 0
    requires lo <= hi <= lo + |ring|
    requires Lines(ring, job, start, lo, hi - 1)
    ensures hi % |ring| < |ring|
    ensures job.verticalFirst || forall o, i :: 0 <= o < |job.taps| && 0 <= i < |job.taps[o]| ==>
              job.taps[o][i].at < |job.decode(start + hi)|
    ensures Lines(ring[hi % |ring| := job.Line(start + hi)], job, start, if hi == lo + |ring| then lo + 1 else lo, hi)
  {
    var keep := if hi == lo + |ring| then lo + 1 else lo;
    assert Slot(hi, |ring|) == hi % |ring|;
    forall i | keep <= i < hi
      ensures Slot(i, |ring|) != Slot(hi, |ring|)
    {
      SlotsDiffer(i, hi, |ring|);
    }
  }

  /** The per-split state: the ring of lines and the range of input rows it holds. */
  class Split {
    const job: Job
    const ring: array<Scanline>
    var begin: nat
    var first: int
    var last: int

    constructor (job: Job, entries: nat, n0: int)
      requires entries > 0 && job.Valid()
      ensures this.job == job && ring.Length == entries && fresh(ring)
      ensures first == n0 && last == n0 - 1 && Holds(n0)
    {
      this.job := job;
      ring := new Scanline[entries](_ => []);
      begin, first, last := 0, n0, n0 - 1;
    }

    /**
     The ring holds the rows `first` to `last` and nothing was evicted before the
     ring was full; `start` is the row the split began with.
     */
    ghost predicate Holds(start: int)
      reads this, ring
      ensures Holds(start) ==> job.Valid()
    {
      && job.Valid()
      && ring.Length > 0
      && start <= first <= last + 1 <= first + ring.Length
      && begin == first - start
      && (first == start || last - first + 1 == ring.Length)
      && Lines(ring[..], job, start, begin, last - start)
    }

    /** The line of row `s`, found through the moving begin index. */
    method GetScanline(s: int, ghost start: int) returns (line: Scanline)
      requires Holds(start) && first <= s <= last
      ensures line == job.Line(s)
    {
      var index := (begin + (s - first)) % ring.Length;
      assert index == Slot(s - start, ring.Length);
      line := ring[..][index];
    }

    /** Decodes the next row into the ring, evicting the oldest line when the ring is full. */
    method LoadNext(ghost start: int)
      requires Holds(start)
      modifies this`begin, this`first, this`last, ring
      ensures Holds(start) && last == old(last) + 1
      ensures first == if old(last - first) + 1 == ring.Length then old(first) + 1 else old(first)
    {
      hide Lines, Horizontal, Slot, Job.Valid;
      NextLine(ring[..], job, start, begin, last + 1 - start);
      if last - first + 1 == ring.Length {
        first := first + 1;
        begin := begin + 1;
      }
      last := last + 1;
      var index := (begin + (last - first)) % ring.Length;
      ring[index] := if job.verticalFirst then job.decode(last) else Horizontal(job.taps, job.decode(last));
    }

    /** Gathers one output row out of the ring, at most eight lines at a time. */
    method GatherRow(win: Window, coeffs: seq<real>, buffer: array<real>, ghost start: int)
      requires Holds(start)
      requires first <= win.n0 <= win.n1 <= last && win.Count() <= |coeffs|
      requires buffer.Length == job.LineWidth()
      modifies buffer
      ensures Gathered(job, buffer[..], Weights(coeffs, win.Count()), win.n0, win.Count())
    {
      hide Lines, Job.Valid, Job.Line, Gathered, ChunkDone, Weights, Holds;
      var k, total := 0, win.n1 - win.n0 + 1;
      while total > 0
        invariant 0 <= k && k + total == win.Count() && total >= 0
        invariant k > 0 || total > 0
        invariant k > 0 ==> Gathered(job, buffer[..], Weights(coeffs, win.Count()), win.n0, k)
        decreases total
      {
        var cnt := if total > 8 then 8 else total;
        var inputs := Inputs(win.n0 + k, cnt, start);
        ghost var row0 := buffer[..];
        GatherChunk(buffer, job.LineWidth(), coeffs, k, inputs, k > 0);
        ChunkGathers(job, row0, buffer[..], coeffs, win.n0, win.Count(), k, inputs);
        k := k + cnt;
        total := total - cnt;
      }
    }

    /** The pointers to `cnt` lines of the ring. */
    method Inputs(from: int, cnt: nat, ghost start: int) returns (inputs: seq<Scanline>)
      requires Holds(start)
      requires first <= from && from + cnt - 1 <= last
      ensures |inputs| == cnt && Loaded(job, inputs, from)
    {
      inputs := [];
      for i := 0 to cnt
        invariant |inputs| == i
        invariant forall j :: 0 <= j < i ==> inputs[j] == job.Line(from + j)
      {
        var line := GetScanline(from + i, start);
        inputs := inputs + [line];
      }
    }
  }

  /** The last input row needed by any of the output rows up to `y`. */
  function Reach(wins: seq<Window>, y: nat): int
    requires y < |wins|
  {
    if y == 0 then wins[0].n1
    else if Reach(wins, y - 1) >= wins[y].n1 then Reach(wins, y - 1) else wins[y].n1
  }

  /** No window starts before the first one does, or before a line that has left a ring of `entries` lines. */
  ghost predicate Windowed(wins: seq<Window>, entries: nat) {
    forall y :: 0 <= y < |wins| ==>
      && wins[y].n0 <= wins[y].n1
      && wins[0].n0 <= wins[y].n0
      && Reach(wins, y) - wins[y].n0 < entries
  }

  /** Windows that move forward and are no wider than the ring are never too far behind. */
  lemma {:induction false} ForwardReach(wins: seq<Window>, y: nat)
    requires y < |wins|
    requires forall i, j :: 0 <= i <= j < |wins| ==> wins[i].n1 <= wins[j].n1
    ensures Reach(wins, y) == wins[y].n1
  {
    if y > 0 {
      ForwardReach(wins, y - 1);
    }
  }

  lemma ForwardWindows(wins: seq<Window>, entries: nat)
    requires forall y :: 0 <= y < |wins| ==> wins[y].n0 <= wins[y].n1 && wins[0].n0 <= wins[y].n0
    requires forall y :: 0 <= y < |wins| ==> wins[y].Count() <= entries
    requires forall i, j :: 0 <= i <= j < |wins| ==> wins[i].n1 <= wins[j].n1
    ensures Windowed(wins, entries)
  {
    forall y | 0 <= y < |wins|
      ensures Reach(wins, y) - wins[y].n0 < entries
    {
      ForwardReach(wins, y);
    }
  }

  /** The weighted sum of the lines of a window, column by column. */
  ghost function Blended(job: Job, coeffs: seq<real>, n0: int, count: nat): (row: Scanline)
    requires job.Valid() && count <= |coeffs|
    ensures |row| == job.LineWidth()
    ensures forall x :: 0 <= x < |row| ==> row[x] == Blend(job, coeffs, n0, count, x)
  {
    seq(job.LineWidth(), x requires 0 <= x < job.LineWidth() => Blend(job, coeffs, n0, count, x))
  }

  /** The output row of a window: the weighted sum of its lines, with the horizontal pass applied if it comes second. */
  ghost function Wanted(job: Job, win: Window, coeffs: seq<real>): Scanline
    requires job.Valid() && 1 <= win.Count() <= |coeffs|
  {
    var row := Blended(job, Weights(coeffs, win.Count()), win.n0, win.Count());
    if job.verticalFirst then Horizontal(job.taps, row) else row
  }

  lemma GatheredIsBlended(job: Job, row: seq<real>, coeffs: seq<real>, n0: int, count: nat)
    requires job.Valid() && count <= |coeffs|
    requires Gathered(job, row, coeffs, n0, count)
    ensures row == Blended(job, coeffs, n0, count)
  {
  }

  /** One pass of the outer loop: loads what is missing and gathers the row. */
  method NextRow(split: Split, win: Window, coeffs: seq<real>, buffer: array<real>, ghost start: int)
    returns (row: Scanline)
    requires split.Holds(start)
    requires start <= win.n0 <= win.n1 && win.Count() <= |coeffs|
    requires split.last < win.n0 + split.ring.Length && win.Count() <= split.ring.Length
    requires buffer.Length == split.job.LineWidth()
    modifies split`begin, split`first, split`last, split.ring, buffer
    ensures split.Holds(start)
    ensures split.last == if win.n1 > old(split.last) then win.n1 else old(split.last)
    ensures row == Wanted(split.job, win, coeffs)
  {
    hide Lines, Job.Valid, Gathered, Weights, Horizontal;
    var job := split.job;
    while win.n1 > split.last
      invariant split.Holds(start)
      invariant split.last <= win.n1 || split.last == old(split.last)
      invariant split.last >= old(split.last)
    {
      split.LoadNext(start);
    }
    split.GatherRow(win, coeffs, buffer, start);
    GatheredIsBlended(job, buffer[..], Weights(coeffs, win.Count()), win.n0, win.Count());
    TapsFit(job);
    row := if job.verticalFirst then Horizontal(job.taps, buffer[..]) else buffer[..];
  }

  lemma TapsFit(job: Job)
    requires job.Valid()
    ensures forall o, i :: 0 <= o < |job.taps| && 0 <= i < |job.taps[o]| ==> job.taps[o][i].at < job.width
  {
  }

  /** The vertical pass: each row is exactly the weighted sum over its window, however the ring has turned. */
  method GatherLoop(job: Job, wins: seq<Window>, coeffs: seq<seq<real>>, entries: nat) returns (rows: seq<Scanline>)
    requires job.Valid() && entries > 0
    requires |coeffs| == |wins| && Windowed(wins, entries)
    requires forall y :: 0 <= y < |wins| ==> wins[y].Count() <= |coeffs[y]|
    ensures |rows| == |wins|
    ensures forall y :: 0 <= y < |rows| ==> rows[y] == Wanted(job, wins[y], coeffs[y])
  {
    hide Job.Valid, Lines, Wanted;
    rows := [];
    if wins == [] {
      return;
    }
    ghost var start := wins[0].n0;
    var split := new Split(job, entries, wins[0].n0);
    var buffer := new real[job.LineWidth()];
    var y := 0;
    while y < |wins|
      invariant 0 <= y <= |wins| && |rows| == y
      invariant split.job == job && split.ring.Length == entries && split.Holds(start)
      invariant split.last == if y == 0 then start - 1 else Reach(wins, y - 1)
      invariant fresh(split) && fresh(split.ring) && fresh(buffer) && buffer.Length == job.LineWidth()
      invariant forall i :: 0 <= i < y ==> rows[i] == Wanted(job, wins[i], coeffs[i])
    {
      assert wins[y].n1 <= Reach(wins, y);
      var row := NextRow(split, wins[y], coeffs[y], buffer, start);
      rows := rows + [row];
      y := y + 1;
    }
  }

  /** Coefficients are used as they are, except that a lone one within a millionth of one is taken for one. */
  lemma ExactUnlessLone(job: Job, coeffs: seq<real>, n0: int, count: nat)
    requires job.Valid() && 1 <= count <= |coeffs|
    ensures Blended(job, Weights(coeffs, count), n0, count) == Blended(job, coeffs, n0, count)
            <==> (count == 1 && 0.999999 <= coeffs[0] <= 1.000001 && coeffs[0] != 1.0 ==>
                    forall x :: 0 <= x < job.LineWidth() ==> job.Line(n0)[x] == 0.0)
  {
    hide Job.Valid, Job.Line;
    var w := Weights(coeffs, count);
    if w == coeffs {
      return;
    }
    var exact, snapped := Blended(job, coeffs, n0, 1), Blended(job, w, n0, 1);
    assert coeffs[0] != 1.0;
    forall x | 0 <= x < job.LineWidth()
      ensures exact[x] == job.Line(n0)[x] * coeffs[0] && snapped[x] == job.Line(n0)[x]
      ensures exact[x] == snapped[x] <==> job.Line(n0)[x] == 0.0
    {
      FirstTerm(job, coeffs, n0, x);
      FirstTerm(job, w, n0, x);
      NotOne(job.Line(n0)[x], coeffs[0]);
    }
  }

  lemma FirstTerm(job: Job, coeffs: seq<real>, n0: int, x: nat)
    requires job.Valid() && 1 <= |coeffs| && x < job.LineWidth()
    ensures Blend(job, coeffs, n0, 1, x) == job.Line(n0)[x] * coeffs[0]
  {
    assert Blend(job, coeffs, n0, 0, x) == 0.0;
    assert n0 + 1 - 1 == n0;
  }

  lemma NotOne(v: real, c: real)
    requires c != 1.0
    ensures v * c == v <==> v == 0.0
  {
    assert v * c - v == v * (c - 1.0);
  }

  /** The horizontal sum is linear in the line. */
  lemma {:induction false} TapSumLinear(taps: seq<Tap>, a: Scanline, b: Scanline, c: real, sum: Scanline, count: nat)
    requires count <= |taps| && |a| == |b| == |sum|
    requires forall i :: 0 <= i < |taps| ==> taps[i].at < |a|
    requires forall x :: 0 <= x < |a| ==> sum[x] == a[x] + Scaled(b[x], c)
    ensures TapSum(taps, sum, count) == TapSum(taps, a, count) + Scaled(TapSum(taps, b, count), c)
  {
    if count > 0 {
      TapSumLinear(taps, a, b, c, sum, count - 1);
      var t := taps[count - 1];
      Distribute(a[t.at], b[t.at], c, t.coeff, TapSum(taps, b, count - 1));
    }
  }

  lemma Distribute(a: real, b: real, c: real, t: real, rest: real)
    ensures Scaled(a + Scaled(b, c), t) + Scaled(rest, c) == Scaled(a, t) + Scaled(rest + Scaled(b, t), c)
  {
    assert (a + b * c) * t == a * t + (b * t) * c;
    assert (rest + b * t) * c == rest * c + (b * t) * c;
  }

  lemma {:induction false} TapSumZero(taps: seq<Tap>, line: Scanline, count: nat)
    requires count <= |taps|
    requires forall i :: 0 <= i < |taps| ==> taps[i].at < |line|
    requires forall x :: 0 <= x < |line| ==> line[x] == 0.0
    ensures TapSum(taps, line, count) == 0.0
  {
    if count > 0 {
      TapSumZero(taps, line, count - 1);
    }
  }

  lemma OtherLine(job: Job, n: int, o: nat)
    requires job.Valid() && job.verticalFirst && o < |job.taps|
    ensures job.(verticalFirst := false).Valid()
    ensures |job.Line(n)| == job.width
    ensures job.(verticalFirst := false).Line(n)[o] == TapSum(job.taps[o], job.Line(n), |job.taps[o]|)
  {
  }

  lemma OtherValid(job: Job)
    requires job.Valid()
    ensures job.(verticalFirst := false).Valid()
  {
  }

  /** Summing the lines and then resampling a column equals resampling the lines and then summing. */
  lemma {:induction false} PassesCommute(job: Job, coeffs: seq<real>, n0: int, count: nat, o: nat)
    requires job.Valid() && job.verticalFirst && count <= |coeffs| && o < |job.taps|
    ensures job.(verticalFirst := false).Valid()
    ensures TapSum(job.taps[o], Blended(job, coeffs, n0, count), |job.taps[o]|)
            == Blend(job.(verticalFirst := false), coeffs, n0, count, o)
  {
    hide Scaled, Job.Valid, Job.Line, Horizontal, TapSum;
    var other := job.(verticalFirst := false);
    OtherValid(job);
    TapsFit(job);
    var taps, row := job.taps[o], Blended(job, coeffs, n0, count);
    if count == 0 {
      TapSumZero(taps, row, |taps|);
    } else {
      PassesCommute(job, coeffs, n0, count - 1, o);
      var shorter, line := Blended(job, coeffs, n0, count - 1), job.Line(n0 + count - 1);
      TapSumLinear(taps, shorter, line, coeffs[count - 1], row, |taps|);
      OtherLine(job, n0 + count - 1, o);
    }
  }

  /** Either order of the passes gives the same picture, so the choice is only a matter of speed. */
  lemma OrderIsFree(job: Job, win: Window, coeffs: seq<real>)
    requires job.Valid() && job.verticalFirst && 1 <= win.Count() <= |coeffs|
    ensures job.(verticalFirst := false).Valid()
    ensures Wanted(job, win, coeffs) == Wanted(job.(verticalFirst := false), win, coeffs)
  {
    var other := job.(verticalFirst := false);
    assert other.Valid();
    var w := Weights(coeffs, win.Count());
    forall o | 0 <= o < |job.taps|
      ensures Wanted(job, win, coeffs)[o] == Wanted(other, win, coeffs)[o]
    {
      PassesCommute(job, w, win.n0, win.Count(), o);
    }
  }
}
