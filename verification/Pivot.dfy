/**
 The pivot of the image resampler: filter coefficients computed per output pixel
 (gather) are rearranged per input pixel (scatter), in one pass over the gather
 windows. Input pixels are counted from the left end of the filter margin.
 */
module Pivot {
  import opened Common

  /** A range of pixels that a row of coefficients belongs to; empty when `n0` is past `n1`. */
  datatype Range = Range(n0: int, n1: int) {
    predicate Holds(n: int) {
      n0 <= n <= n1
    }
  }

  const UNUSED: Range := Range(0, -1)

  /** The gather side: for each output pixel the range of input pixels and their coefficients. */
  datatype Gather = Gather(ranges: seq<Range>, coeffs: seq<seq<real>>, inputs: nat) {

    ghost predicate Valid() {
      && |coeffs| == |ranges|
      && (forall n :: 0 <= n < |ranges| ==>
            0 <= ranges[n].n0 && ranges[n].n1 < inputs && ranges[n].n1 - ranges[n].n0 < |coeffs[n]|)
    }

    /** The coefficient of input `i` for output `n`. */
    function At(n: nat, i: int): real
      requires Valid() && n < |ranges|
    {
      if ranges[n].Holds(i) then coeffs[n][i - ranges[n].n0] else 0.0
    }

    /** The coefficient is there and is not skipped. */
    ghost predicate Counts(n: int, i: int)
      requires Valid()
    {
      0 <= n < |ranges| && Significant(At(n, i))
    }
  }

  predicate Significant(c: real) {
    c >= SMALL || c <= -SMALL
  }

  /** A coefficient is skipped when it is smaller in magnitude than 2^-120. */
  lemma SignificantIs(c: real)
    ensures Significant(c) <==> c * 1329227995784915872903807060280344576.0 >= 1.0
                                || c * 1329227995784915872903807060280344576.0 <= -1.0
  {
    SmallIs();
  }

  /** The scatter side while it is being filled; what lies past `highest` is not meaningful. */
  datatype Scatter = Scatter(ranges: seq<Range>, coeffs: seq<seq<real>>, highest: int) {

    predicate Shaped(inputs: nat, width: nat) {
      && |ranges| == |coeffs| == inputs
      && (forall i :: 0 <= i < inputs ==> |coeffs[i]| == width)
      && -1 <= highest < inputs
    }

    /** The coefficient of input `i` for output `n`. */
    function At(i: nat, n: int): real
      requires i < |ranges| == |coeffs|
    {
      if ranges[i].Holds(n) && n - ranges[i].n0 < |coeffs[i]| then coeffs[i][n - ranges[i].n0] else 0.0
    }
  }

  /** `rs` with the ranges from `lo` up to `hi` marked unused. */
  function Cleared(rs: seq<Range>, lo: int, hi: int): (t: seq<Range>)
    requires 0 <= lo && hi <= |rs|
    ensures |t| == |rs|
    ensures forall i :: 0 <= i < |rs| ==> t[i] == if lo <= i < hi then UNUSED else rs[i]
  {
    seq(|rs|, i requires 0 <= i < |rs| => if lo <= i < hi then UNUSED else rs[i])
  }

  /** A row of coefficients with positions from `lo` up to `hi` zeroed. */
  function Zeroed(row: seq<real>, lo: int, hi: int): (t: seq<real>)
    requires 0 <= lo && hi <= |row|
    ensures |t| == |row|
    ensures forall i :: 0 <= i < |row| ==> t[i] == if lo <= i < hi then 0.0 else row[i]
  {
    seq(|row|, i requires 0 <= i < |row| => if lo <= i < hi then 0.0 else row[i])
  }

  /** The coefficient `c` of output `n` is added to a range and its row, if the row is wide enough. */
  function Inserted(r: Range, row: seq<real>, n: int, c: real): (t: (Range, seq<real>))
    requires r.n0 <= r.n1 && r.n1 - r.n0 < |row| && r.n0 <= n
    ensures |t.1| == |row|
  {
    if n <= r.n1 then (r, row[n - r.n0 := row[n - r.n0] + c])
    else if n - r.n0 + 1 <= |row| then
      (r.(n1 := n), Zeroed(row, r.n1 - r.n0 + 1, n - r.n0)[n - r.n0 := c])
    else (r, row)
  }

  /** What a range and its row say of output `m`. */
  function Told(r: Range, row: seq<real>, m: int): real
    requires r.n1 - r.n0 < |row|
  {
    if r.n0 <= m <= r.n1 then row[m - r.n0] else 0.0
  }

  /** An insertion that fits adds `c` to what is said of `n` and changes what is said of no other output. */
  lemma InsertAdds(r: Range, row: seq<real>, n: int, c: real, m: int)
    requires r.n0 <= r.n1 && r.n1 - r.n0 < |row| && r.n0 <= n
    ensures var (r', row') := Inserted(r, row, n, c);
      && r'.n1 - r'.n0 < |row'|
      && (n - r.n0 < |row| ==> Told(r', row', m) == Told(r, row, m) + if m == n then c else 0.0)
      && (n - r.n0 >= |row| ==> Told(r', row', m) == Told(r, row, m))
  {
  }

  /** One pass of the inner loop: output `n` has coefficient `c` for input `i`. */
  function Step(st: Scatter, n: nat, i: nat, c: real): (st': Scatter)
    requires i < |st.ranges| == |st.coeffs| && -1 <= st.highest
    requires |st.coeffs[i]| > 0
    requires i <= st.highest && st.ranges[i].n0 <= st.ranges[i].n1 ==>
               st.ranges[i].n1 - st.ranges[i].n0 < |st.coeffs[i]| && st.ranges[i].n0 <= n
  {
    if !Significant(c) then st
    else if i > st.highest || st.ranges[i].n0 > st.ranges[i].n1 then
      Scatter(Cleared(st.ranges, st.highest + 1, i)[i := Range(n, n)], st.coeffs[i := st.coeffs[i][0 := c]], i)
    else
      var (r, row) := Inserted(st.ranges[i], st.coeffs[i], n, c);
      st.(ranges := st.ranges[i := r], coeffs := st.coeffs[i := row])
  }

  /** The pair comes before `(n, i)` in the order of the two nested loops. */
  predicate Before(n': int, i': int, n: int, i: int) {
    n' < n || (n' == n && i' < i)
  }

  ghost predicate Seen(g: Gather, n': int, i': int, n: int, i: int)
    requires g.Valid()
    ensures Seen(g, n', i', n, i) ==> 0 <= n' < |g.ranges|
  {
    g.Counts(n', i') && Before(n', i', n, i)
  }

  /** An input in the filled part is unused, or its range runs between two outputs that were really seen there. */
  ghost predicate GroundedAt(st: Scatter, g: Gather, width: nat, n: int, i: int, j: nat)
    requires g.Valid() && j < |st.ranges|
  {
    var r := st.ranges[j];
    r == UNUSED || (0 <= r.n0 <= r.n1 && r.n1 - r.n0 < width && Seen(g, r.n0, j, n, i) && Seen(g, r.n1, j, n, i))
  }

  /** Whatever the filled part stores is zero or the coefficient that was seen. */
  ghost predicate CleanAt(st: Scatter, g: Gather, n: int, i: int, j: nat, m: int)
    requires g.Valid() && j < |st.ranges| == |st.coeffs|
  {
    st.At(j, m) == 0.0 || (Seen(g, m, j, n, i) && st.At(j, m) == g.At(m, j))
  }

  /** What every step keeps, before the pair `(n, i)`. */
  ghost predicate Inv(st: Scatter, g: Gather, width: nat, n: int, i: int) {
    && g.Valid() && width > 0 && st.Shaped(g.inputs, width)
    && (forall j :: 0 <= j <= st.highest ==> GroundedAt(st, g, width, n, i, j))
    && (forall j, m :: 0 <= j <= st.highest ==> CleanAt(st, g, n, i, j, m))
  }

  /** Every coefficient seen so far is stored in the filled part. */
  ghost predicate Kept(st: Scatter, g: Gather, n: int, i: int)
    requires g.Valid() && |st.ranges| == |st.coeffs| == g.inputs
  {
    forall n', i' :: Seen(g, n', i', n, i) ==> 0 <= i' <= st.highest && i' < g.inputs && st.At(i', n') == g.At(n', i')
  }

  /** Output `n` cannot be recorded at input `i` without losing something. */
  ghost predicate Violates(g: Gather, width: nat, n: int, i: int)
    requires g.Valid()
  {
    && g.Counts(n, i)
    && (|| ((forall n' :: n' < n ==> !g.Counts(n', i)) && (exists n', i' :: n' < n && i < i' && g.Counts(n', i')))
        || (exists n' :: n' < n && g.Counts(n', i) && n - n' + 1 > width))
  }

  /** A counting coefficient lies inside its range, hence among the inputs. */
  lemma CountsInside(g: Gather, n: int, i: int)
    requires g.Valid() && g.Counts(n, i)
    ensures 0 <= i < g.inputs && g.At(n, i) != 0.0
  {
  }

  /** At a pair not yet seen, the filled part ends strictly before the output. */
  lemma ReadyToStep(st: Scatter, g: Gather, width: nat, n: nat, i: nat)
    requires Inv(st, g, width, n, i) && i < g.inputs
    ensures i <= st.highest && st.ranges[i].n0 <= st.ranges[i].n1 ==>
              0 <= st.ranges[i].n0 && st.ranges[i].n1 < n && st.ranges[i].n1 - st.ranges[i].n0 < width
  {
    if i <= st.highest {
      assert GroundedAt(st, g, width, n, i, i);
    }
  }

  /** The state after the pair `(n, i)`. */
  ghost function Next(st: Scatter, g: Gather, width: nat, n: nat, i: nat): Scatter
    requires Inv(st, g, width, n, i) && n < |g.ranges| && i < g.inputs
  {
    ReadyToStep(st, g, width, n, i);
    Step(st, n, i, g.At(n, i))
  }

  /** What a step leaves at an input: what was there, nothing, the new output alone, or a longer range. */
  lemma StepAt(st: Scatter, g: Gather, width: nat, n: nat, i: nat, j: nat, m: int)
    requires Inv(st, g, width, n, i) && n < |g.ranges| && i < g.inputs && j < g.inputs
    ensures var c := g.At(n, i);
            var r := st.ranges[j];
            var st' := Next(st, g, width, n, i);
            && st'.Shaped(g.inputs, width)
            && (j != i && !(st.highest < j < i && Significant(c)) ==> st'.ranges[j] == r && st'.At(j, m) == st.At(j, m))
            && (j != i && st.highest < j < i && Significant(c) ==> st'.ranges[j] == UNUSED && st'.At(j, m) == 0.0)
            && (j == i && !Significant(c) ==> st' == st)
            && (j == i && Significant(c) && (i > st.highest || r == UNUSED) ==>
                  st'.highest == i && st'.ranges[i] == Range(n, n) && st'.At(i, m) == if m == n then c else 0.0)
            && (j == i && Significant(c) && i <= st.highest && r != UNUSED ==>
                  && st'.highest == st.highest
                  && (n - r.n0 + 1 <= width ==>
                        st'.ranges[i] == Range(r.n0, n) && st'.At(i, m) == if m == n then c else st.At(i, m))
                  && (n - r.n0 + 1 > width ==> st'.ranges[i] == r && st'.At(i, m) == st.At(i, m)))
  {
    ReadyToStep(st, g, width, n, i);
    if i <= st.highest {
      assert GroundedAt(st, g, width, n, i, i);
    }
  }

  lemma SeenLater(g: Gather, n': int, i': int, n: int, i: int)
    requires g.Valid()
    ensures Seen(g, n', i', n, i) ==> Seen(g, n', i', n, i + 1)
    ensures Seen(g, n', i', n, i + 1) <==> Seen(g, n', i', n, i) || (n' == n && i' == i && g.Counts(n, i))
    ensures Seen(g, n', i', n, i) ==> n' < n || i' < i
  {
  }

  lemma StepGrounded(st: Scatter, g: Gather, width: nat, n: nat, i: nat, j: nat)
    requires Inv(st, g, width, n, i) && n < |g.ranges| && i < g.inputs
    requires j <= Next(st, g, width, n, i).highest < g.inputs
    ensures j < |Next(st, g, width, n, i).ranges|
    ensures GroundedAt(Next(st, g, width, n, i), g, width, n, i + 1, j)
  {
    hide Next, Seen, CleanAt, Gather.Valid;
    var r := st.ranges[j];
    StepAt(st, g, width, n, i, j, 0);
    StepAt(st, g, width, n, i, i, 0);
    SeenLater(g, r.n0, j, n, i);
    SeenLater(g, r.n1, j, n, i);
    SeenLater(g, n, i, n, i);
    if j <= st.highest {
      assert GroundedAt(st, g, width, n, i, j);
    }
  }

  lemma StepClean(st: Scatter, g: Gather, width: nat, n: nat, i: nat, j: nat, m: int)
    requires Inv(st, g, width, n, i) && n < |g.ranges| && i < g.inputs
    requires j <= Next(st, g, width, n, i).highest < g.inputs
    ensures j < |Next(st, g, width, n, i).ranges| == |Next(st, g, width, n, i).coeffs|
    ensures CleanAt(Next(st, g, width, n, i), g, n, i + 1, j, m)
  {
    hide Next, Seen, GroundedAt, Gather.Valid, Gather.At, Scatter.At;
    StepAt(st, g, width, n, i, j, m);
    StepAt(st, g, width, n, i, i, m);
    SeenLater(g, m, j, n, i);
    SeenLater(g, n, i, n, i);
    if j <= st.highest {
      assert CleanAt(st, g, n, i, j, m);
    }
  }

  lemma StepInv(st: Scatter, g: Gather, width: nat, n: nat, i: nat)
    requires Inv(st, g, width, n, i) && n < |g.ranges| && i < g.inputs
    ensures Inv(Next(st, g, width, n, i), g, width, n, i + 1)
  {
    hide Next, CleanAt, GroundedAt;
    var st', i' := Next(st, g, width, n, i), i + 1;
    StepAt(st, g, width, n, i, i, 0);
    forall j | 0 <= j <= st'.highest
      ensures GroundedAt(st', g, width, n, i', j)
    {
      StepGrounded(st, g, width, n, i, j);
    }
    forall j, m | 0 <= j <= st'.highest
      ensures CleanAt(st', g, n, i', j, m)
    {
      StepClean(st, g, width, n, i, j, m);
    }
  }

  /** While nothing is lost, an unused input in the filled part has not been seen. */
  lemma UnusedUnseen(st: Scatter, g: Gather, n: int, i: int, n': int, j: nat)
    requires g.Valid() && |st.ranges| == |st.coeffs| == g.inputs && j < g.inputs
    requires Kept(st, g, n, i) && st.ranges[j] == UNUSED
    ensures !Seen(g, n', j, n, i)
  {
    if Seen(g, n', j, n, i) {
      CountsInside(g, n', j);
    }
  }

  /** A harmless pair opens a new input only past all others, and extends a range only within the width. */
  lemma Harmless(st: Scatter, g: Gather, width: nat, n: nat, i: nat, n': int, i': int)
    requires Inv(st, g, width, n, i) && n < |g.ranges| && i < g.inputs
    requires Kept(st, g, n, i) && !Violates(g, width, n, i) && g.Counts(n, i)
    ensures i <= st.highest && st.ranges[i] == UNUSED && Seen(g, n', i', n, i) ==> i' < i
    ensures i <= st.highest && st.ranges[i] != UNUSED ==> n - st.ranges[i].n0 + 1 <= width
  {
    hide Inv, Kept, Gather.Valid, Gather.Counts;
    InvParts(st, g, width, n, i);
    if i <= st.highest {
      if st.ranges[i] == UNUSED {
        forall m | m < n
          ensures !g.Counts(m, i)
        {
          UnusedUnseen(st, g, n, i, m, i);
        }
      }
    }
  }

  lemma InvParts(st: Scatter, g: Gather, width: nat, n: int, i: nat)
    requires Inv(st, g, width, n, i)
    ensures g.Valid() && width > 0 && st.Shaped(g.inputs, width)
    ensures i <= st.highest ==> GroundedAt(st, g, width, n, i, i)
  {
  }

  /** A harmless pair loses nothing. */
  lemma StepKeeps(st: Scatter, g: Gather, width: nat, n: nat, i: nat)
    requires Inv(st, g, width, n, i) && n < |g.ranges| && i < g.inputs
    requires Kept(st, g, n, i) && !Violates(g, width, n, i)
    ensures |Next(st, g, width, n, i).ranges| == |Next(st, g, width, n, i).coeffs| == g.inputs
    ensures Kept(Next(st, g, width, n, i), g, n, i + 1)
  {
    hide Next, Inv, Violates, Seen, Gather.Valid, Gather.At, Scatter.At;
    InvParts(st, g, width, n, i);
    var st', k := Next(st, g, width, n, i), i + 1;
    StepAt(st, g, width, n, i, i, n);
    forall n', i' | Seen(g, n', i', n, k)
      ensures 0 <= i' <= st'.highest && i' < g.inputs && st'.At(i', n') == g.At(n', i')
    {
      SeenCounts(g, n', i', n, i + 1);
      SeenLater(g, n', i', n, i);
      StepAt(st, g, width, n, i, i', n');
      if g.Counts(n, i) {
        Harmless(st, g, width, n, i, n', i');
      }
    }
  }

  lemma SeenCounts(g: Gather, n': int, i': int, n: int, i: int)
    requires g.Valid() && Seen(g, n', i', n, i)
    ensures g.Counts(n', i') && 0 <= n' < |g.ranges| && 0 <= i' < g.inputs && g.At(n', i') != 0.0
  {
    CountsInside(g, n', i');
  }

  /** What has been lost is never found again. */
  lemma StepLoses(st: Scatter, g: Gather, width: nat, n: nat, i: nat)
    requires Inv(st, g, width, n, i) && n < |g.ranges| && i < g.inputs
    requires !Kept(st, g, n, i)
    ensures |Next(st, g, width, n, i).ranges| == |Next(st, g, width, n, i).coeffs| == g.inputs
    ensures !Kept(Next(st, g, width, n, i), g, n, i + 1)
  {
    hide Next, Inv, Seen, Gather.Valid, Gather.At, Scatter.At;
    InvParts(st, g, width, n, i);
    var st' := Next(st, g, width, n, i);
    StepAt(st, g, width, n, i, i, n);
    var n', i' :| Seen(g, n', i', n, i) && !(0 <= i' <= st.highest && i' < g.inputs && st.At(i', n') == g.At(n', i'));
    SeenCounts(g, n', i', n, i);
    SeenLater(g, n', i', n, i);
    StepAt(st, g, width, n, i, i', n');
  }

  /** A harmful pair does lose something. */
  lemma StepHarms(st: Scatter, g: Gather, width: nat, n: nat, i: nat)
    requires Inv(st, g, width, n, i) && n < |g.ranges| && i < g.inputs
    requires Kept(st, g, n, i) && Violates(g, width, n, i)
    ensures |Next(st, g, width, n, i).ranges| == |Next(st, g, width, n, i).coeffs| == g.inputs
    ensures !Kept(Next(st, g, width, n, i), g, n, i + 1)
  {
    hide Next, Inv, Gather.Valid, Gather.At, Scatter.At;
    InvParts(st, g, width, n, i);
    CountsInside(g, n, i);
    StepAt(st, g, width, n, i, i, n);
    SeenLater(g, n, i, n, i);
    if n' :| n' < n && g.Counts(n', i) && n - n' + 1 > width {
      assert Seen(g, n', i, n, i);
      CountsInside(g, n', i);
      InRange(st, i, n');
      InRange(st, i, n);
    } else {
      var n', i' :| n' < n && i < i' && g.Counts(n', i');
      assert Seen(g, n', i', n, i);
      SeenLater(g, n', i', n, i);
    }
  }

  lemma InRange(st: Scatter, i: nat, n: int)
    requires i < |st.ranges| == |st.coeffs|
    ensures st.At(i, n) != 0.0 ==> st.ranges[i].n0 <= n <= st.ranges[i].n1
  {
  }

  /** No pair before `(n, i)` is harmful. */
  ghost predicate NoHarm(g: Gather, width: nat, n: int, i: int)
    requires g.Valid()
  {
    forall n', i' :: Seen(g, n', i', n, i) ==> !Violates(g, width, n', i')
  }

  /** The invariant, and that nothing has been lost exactly when no pair was harmful. */
  ghost predicate Progress(st: Scatter, g: Gather, width: nat, n: int, i: int) {
    Inv(st, g, width, n, i) && (Kept(st, g, n, i) <==> NoHarm(g, width, n, i))
  }

  lemma ProgressStep(st: Scatter, g: Gather, width: nat, n: nat, i: nat)
    requires Progress(st, g, width, n, i) && n < |g.ranges| && i < g.inputs
    ensures Progress(Next(st, g, width, n, i), g, width, n, i + 1)
  {
    hide Next, Inv, Kept;
    InvParts(st, g, width, n, i);
    StepInv(st, g, width, n, i);
    if !Kept(st, g, n, i) {
      StepLoses(st, g, width, n, i);
    } else if Violates(g, width, n, i) {
      StepHarms(st, g, width, n, i);
    } else {
      StepKeeps(st, g, width, n, i);
    }
    NoHarmStep(g, width, n, i);
  }

  lemma NoHarmStep(g: Gather, width: nat, n: nat, i: nat)
    requires g.Valid()
    ensures NoHarm(g, width, n, i + 1) <==> NoHarm(g, width, n, i) && !Violates(g, width, n, i)
  {
    hide Violates, Seen, Gather.Valid;
    var k := i + 1;
    forall n', i'
      ensures Seen(g, n', i', n, k) <==> Seen(g, n', i', n, i) || (n' == n && i' == i && g.Counts(n, i))
    {
      SeenLater(g, n', i', n, i);
    }
    ViolatesCounts(g, width, n, i);
    SeenLater(g, n, i, n, i);
  }

  lemma ViolatesCounts(g: Gather, width: nat, n: int, i: int)
    requires g.Valid()
    ensures Violates(g, width, n, i) ==> g.Counts(n, i)
  {
  }

  /** Two positions with no coefficient between them. */
  ghost predicate SameSeen(g: Gather, n: int, i: int, m: int, k: int)
    requires g.Valid()
  {
    forall n', i' :: Seen(g, n', i', n, i) <==> Seen(g, n', i', m, k)
  }

  lemma ProgressMoves(st: Scatter, g: Gather, width: nat, n: int, i: int, m: int, k: int)
    requires Progress(st, g, width, n, i)
    requires SameSeen(g, n, i, m, k)
    ensures Progress(st, g, width, m, k)
  {
    hide Seen, Gather.Valid, Violates, Scatter.At, Gather.At;
    forall j | 0 <= j <= st.highest
      ensures GroundedAt(st, g, width, m, k, j)
    {
      assert GroundedAt(st, g, width, n, i, j);
    }
    forall j, x | 0 <= j <= st.highest
      ensures CleanAt(st, g, m, k, j, x)
    {
      assert CleanAt(st, g, n, i, j, x);
    }
  }

  /** The inner loop starts at the first input of the range. */
  lemma RowStart(g: Gather, n: nat)
    requires g.Valid() && n < |g.ranges|
    ensures SameSeen(g, n, 0, n, g.ranges[n].n0)
  {
    hide Gather.At, Significant;
    forall n', i'
      ensures Seen(g, n', i', n, 0) <==> Seen(g, n', i', n, g.ranges[n].n0)
    {
      if g.Counts(n', i') {
        CountsInRange(g, n', i');
      }
    }
  }

  /** Past the last input of the range, the next row begins. */
  lemma RowEnd(g: Gather, n: nat, i: int)
    requires g.Valid() && n < |g.ranges| && g.ranges[n].n1 < i
    ensures SameSeen(g, n, i, n + 1, 0)
  {
    hide Gather.At, Significant;
    forall n', i'
      ensures Seen(g, n', i', n, i) <==> Seen(g, n', i', n + 1, 0)
    {
      if g.Counts(n', i') {
        CountsInRange(g, n', i');
      }
    }
  }

  lemma CountsInRange(g: Gather, n: int, i: int)
    requires g.Valid() && g.Counts(n, i)
    ensures 0 <= g.ranges[n].n0 <= i <= g.ranges[n].n1
  {
  }

  /** The scatter side is the transpose of the gather side, skipped coefficients left out. */
  ghost predicate Transposed(st: Scatter, g: Gather)
    requires g.Valid() && |st.ranges| == |st.coeffs| == g.inputs
  {
    forall n, i :: 0 <= n < |g.ranges| && 0 <= i < g.inputs ==>
      st.At(i, n) == if g.Counts(n, i) then g.At(n, i) else 0.0
  }

  /** Each coefficient of 2^-120 or more in magnitude is stored as it is, and each smaller one is zero. */
  ghost predicate Stored(st: Scatter, g: Gather)
    requires g.Valid() && |st.ranges| == |st.coeffs| == g.inputs
  {
    forall n, i :: 0 <= n < |g.ranges| && 0 <= i < g.inputs ==>
      st.At(i, n) == if -1.0 < Scaled(g.At(n, i)) < 1.0 then 0.0 else g.At(n, i)
  }

  /** A coefficient in units of 2^-120. */
  function Scaled(c: real): real {
    c * 1329227995784915872903807060280344576.0
  }

  lemma TransposedIs(st: Scatter, g: Gather)
    requires g.Valid() && |st.ranges| == |st.coeffs| == g.inputs
    ensures Transposed(st, g) <==> Stored(st, g)
  {
    forall n, i | 0 <= n < |g.ranges| && 0 <= i < g.inputs
      ensures g.Counts(n, i) <==> !(-1.0 < Scaled(g.At(n, i)) < 1.0)
    {
      SignificantIs(g.At(n, i));
    }
  }

  /** With every coefficient stored, an input is marked unused exactly when all its coefficients are that small. */
  lemma UnusedIff(st: Scatter, g: Gather, i: nat)
    requires g.Valid() && |st.ranges| == |st.coeffs| == g.inputs && i < g.inputs
    requires Transposed(st, g) && (Idle(g, i) ==> st.ranges[i] == UNUSED)
    ensures st.ranges[i] == Range(0, -1) <==> forall n :: 0 <= n < |g.ranges| ==> -1.0 < Scaled(g.At(n, i)) < 1.0
  {
    forall n | 0 <= n < |g.ranges|
      ensures g.Counts(n, i) <==> !(-1.0 < Scaled(g.At(n, i)) < 1.0)
      ensures st.At(i, n) == if g.Counts(n, i) then g.At(n, i) else 0.0
    {
      SignificantIs(g.At(n, i));
    }
  }

  /** No output uses the input. */
  ghost predicate Idle(g: Gather, i: int)
    requires g.Valid()
  {
    forall n :: !g.Counts(n, i)
  }

  /** After the last row, marking the rest unused gives the transpose exactly when nothing was lost. */
  lemma Finish(st: Scatter, g: Gather, width: nat)
    requires Progress(st, g, width, |g.ranges|, 0)
    ensures var end := Scatter(Cleared(st.ranges, st.highest + 1, g.inputs), st.coeffs, st.highest);
            && (Transposed(end, g) <==> NoHarm(g, width, |g.ranges|, 0))
            && (forall i :: 0 <= i < g.inputs && Idle(g, i) ==> end.ranges[i] == UNUSED)
  {
    var end := Scatter(Cleared(st.ranges, st.highest + 1, g.inputs), st.coeffs, st.highest);
    FinishUnused(st, g, width);
    if Kept(st, g, |g.ranges|, 0) {
      FinishKept(st, g, width);
    } else {
      FinishLost(st, g, width);
    }
  }

  lemma FinishUnused(st: Scatter, g: Gather, width: nat)
    requires Inv(st, g, width, |g.ranges|, 0)
    ensures forall i :: 0 <= i < g.inputs && Idle(g, i) ==>
              Cleared(st.ranges, st.highest + 1, g.inputs)[i] == UNUSED
  {
    forall i | 0 <= i < g.inputs && Idle(g, i)
      ensures Cleared(st.ranges, st.highest + 1, g.inputs)[i] == UNUSED
    {
      if i <= st.highest {
        assert GroundedAt(st, g, width, |g.ranges|, 0, i);
      }
    }
  }

  lemma FinishKept(st: Scatter, g: Gather, width: nat)
    requires Inv(st, g, width, |g.ranges|, 0) && Kept(st, g, |g.ranges|, 0)
    ensures Transposed(Scatter(Cleared(st.ranges, st.highest + 1, g.inputs), st.coeffs, st.highest), g)
  {
    var end := Scatter(Cleared(st.ranges, st.highest + 1, g.inputs), st.coeffs, st.highest);
    forall n, i | 0 <= n < |g.ranges| && 0 <= i < g.inputs
      ensures end.At(i, n) == if g.Counts(n, i) then g.At(n, i) else 0.0
    {
      assert g.Counts(n, i) ==> Seen(g, n, i, |g.ranges|, 0);
      if i <= st.highest {
        assert CleanAt(st, g, |g.ranges|, 0, i, n);
      }
    }
  }

  lemma FinishLost(st: Scatter, g: Gather, width: nat)
    requires Inv(st, g, width, |g.ranges|, 0) && !Kept(st, g, |g.ranges|, 0)
    ensures !Transposed(Scatter(Cleared(st.ranges, st.highest + 1, g.inputs), st.coeffs, st.highest), g)
  {
    var end := Scatter(Cleared(st.ranges, st.highest + 1, g.inputs), st.coeffs, st.highest);
    var n, i :| Seen(g, n, i, |g.ranges|, 0)
                && !(0 <= i <= st.highest && i < g.inputs && st.At(i, n) == g.At(n, i));
    SeenCounts(g, n, i, |g.ranges|, 0);
    assert end.At(i, n) != g.At(n, i);
  }

  /** Marks the inputs from `lo` up to `hi` unused. */
  method ClearRange(ranges: array<Range>, lo: nat, hi: nat)
    requires lo <= ranges.Length && hi <= ranges.Length
    modifies ranges
    ensures ranges[..] == Cleared(old(ranges[..]), lo, hi)
  {
    var j := lo;
    while j < hi
      invariant lo <= j <= ranges.Length && (j <= hi || j == lo)
      invariant ranges[..] == Cleared(old(ranges[..]), lo, j)
    {
      ranges[j] := UNUSED;
      j := j + 1;
    }
    assert Cleared(old(ranges[..]), lo, j) == Cleared(old(ranges[..]), lo, hi);
  }

  /** The source's `stbir__insert_coeff`, for an output not before the range. */
  method InsertCoeff(ranges: array<Range>, coeffs: array<seq<real>>, i: nat, n: int, c: real)
    requires i < ranges.Length == coeffs.Length
    requires ranges[i].n0 <= ranges[i].n1 && ranges[i].n1 - ranges[i].n0 < |coeffs[i]| && ranges[i].n0 <= n
    modifies ranges, coeffs
    ensures var (r, row) := Inserted(old(ranges[i]), old(coeffs[i]), n, c);
            && ranges[..] == old(ranges[..])[i := r]
            && coeffs[..] == old(coeffs[..])[i := row]
  {
    var r, width := ranges[i], |coeffs[i]|;
    if n <= r.n1 {
      coeffs[i] := coeffs[i][n - r.n0 := coeffs[i][n - r.n0] + c];
      assert ranges[..] == old(ranges[..])[i := r];
    } else if n - r.n0 + 1 <= width {
      var e := n - r.n0;
      var j := r.n1 - r.n0 + 1;
      while j < e
        invariant r.n1 - r.n0 + 1 <= j <= e
        invariant coeffs[i] == Zeroed(old(coeffs[i]), r.n1 - r.n0 + 1, j)
        invariant forall k :: 0 <= k < coeffs.Length && k != i ==> coeffs[k] == old(coeffs[k])
        invariant ranges[..] == old(ranges[..])
      {
        coeffs[i] := coeffs[i][j := 0.0];
        assert coeffs[i] == Zeroed(old(coeffs[i]), r.n1 - r.n0 + 1, j + 1);
        j := j + 1;
      }
      coeffs[i] := coeffs[i][e := c];
      ranges[i] := r.(n1 := n);
    } else {
      assert ranges[..] == old(ranges[..])[i := r];
      assert coeffs[..] == old(coeffs[..])[i := coeffs[i]];
    }
  }

  /** The body of the inner loop. */
  method Record(ranges: array<Range>, coeffs: array<seq<real>>, highest: int, n: nat, i: nat, c: real)
    returns (highest': int)
    requires i < ranges.Length == coeffs.Length && -1 <= highest < ranges.Length && |coeffs[i]| > 0
    requires i <= highest && ranges[i].n0 <= ranges[i].n1 ==>
               ranges[i].n1 - ranges[i].n0 < |coeffs[i]| && ranges[i].n0 <= n
    modifies ranges, coeffs
    ensures Scatter(ranges[..], coeffs[..], highest')
            == Step(Scatter(old(ranges[..]), old(coeffs[..]), highest), n, i, c)
  {
    highest' := highest;
    if Significant(c) {
      if i > highest || ranges[i].n0 > ranges[i].n1 {
        ClearRange(ranges, highest + 1, i);
        ranges[i] := Range(n, n);
        coeffs[i] := coeffs[i][0 := c];
        highest' := i;
      } else {
        InsertCoeff(ranges, coeffs, i, n, c);
      }
    }
  }

  /** The inner loop: all coefficients of output `n`. */
  method PivotRow(g: Gather, ranges: array<Range>, coeffs: array<seq<real>>, width: nat, highest0: int, n: nat)
    returns (highest: int)
    requires n < |g.ranges|
    requires Progress(Scatter(ranges[..], coeffs[..], highest0), g, width, n, 0)
    modifies ranges, coeffs
    ensures Progress(Scatter(ranges[..], coeffs[..], highest), g, width, n + 1, 0)
  {
    hide Progress, Inv, Next, Step;
    highest := highest0;
    ghost var st := Scatter(ranges[..], coeffs[..], highest);
    ProgressParts(st, g, width, n, 0);
    RowStart(g, n);
    ProgressMoves(st, g, width, n, 0, n, g.ranges[n].n0);
    var k := g.ranges[n].n0;
    while k <= g.ranges[n].n1
      invariant g.ranges[n].n0 <= k
      invariant g.ranges[n].n0 <= g.ranges[n].n1 ==> k <= g.ranges[n].n1 + 1
      invariant st == Scatter(ranges[..], coeffs[..], highest)
      invariant Progress(st, g, width, n, k)
      decreases g.ranges[n].n1 + 1 - k
    {
      var gc := g.coeffs[n][k - g.ranges[n].n0];
      ReadyForNext(st, g, width, n, k, gc);
      ProgressStep(st, g, width, n, k);
      highest := Record(ranges, coeffs, highest, n, k, gc);
      st := Scatter(ranges[..], coeffs[..], highest);
      k := k + 1;
    }
    RowEnd(g, n, k);
    ProgressMoves(st, g, width, n, k, n + 1, 0);
  }

  lemma ProgressParts(st: Scatter, g: Gather, width: nat, n: int, i: nat)
    requires Progress(st, g, width, n, i)
    ensures g.Valid() && width > 0 && st.Shaped(g.inputs, width)
  {
  }

  lemma ReadyForNext(st: Scatter, g: Gather, width: nat, n: nat, i: nat, c: real)
    requires Progress(st, g, width, n, i) && n < |g.ranges| && i < g.inputs && c == g.At(n, i)
    ensures st.Shaped(g.inputs, width) && width > 0
    ensures i <= st.highest && st.ranges[i].n0 <= st.ranges[i].n1 ==>
              st.ranges[i].n1 - st.ranges[i].n0 < |st.coeffs[i]| && st.ranges[i].n0 <= n
    ensures Next(st, g, width, n, i) == Step(st, n, i, c)
  {
    ReadyToStep(st, g, width, n, i);
  }

  /** `n` is the first output that uses input `i`. */
  ghost predicate First(g: Gather, n: int, i: int)
    requires g.Valid()
  {
    g.Counts(n, i) && forall n' :: n' < n ==> !g.Counts(n', i)
  }

  /** Inputs come into use from left to right: none is first used after one to its right. */
  ghost predicate LeftToRight(g: Gather)
    requires g.Valid()
  {
    forall n, i, n', i' :: First(g, n, i) && g.Counts(n', i') && n' < n ==> i' <= i
  }

  /** The outputs that use one input lie within the scatter width. */
  ghost predicate Narrow(g: Gather, width: nat)
    requires g.Valid()
  {
    forall n, n', i :: g.Counts(n, i) && g.Counts(n', i) && n' < n ==> n - n' + 1 <= width
  }

  lemma HarmlessIff(g: Gather, width: nat)
    requires g.Valid()
    ensures NoHarm(g, width, |g.ranges|, 0) <==> LeftToRight(g) && Narrow(g, width)
  {
    hide Gather.Valid, Gather.Counts;
    if NoHarm(g, width, |g.ranges|, 0) {
      forall n, i, n', i' | First(g, n, i) && g.Counts(n', i') && n' < n
        ensures i' <= i
      {
        AllSeen(g, n, i);
        assert !Violates(g, width, n, i);
      }
      forall n, n', i | g.Counts(n, i) && g.Counts(n', i) && n' < n
        ensures n - n' + 1 <= width
      {
        AllSeen(g, n, i);
        assert !Violates(g, width, n, i);
      }
    }
    if LeftToRight(g) && Narrow(g, width) {
      forall n, i | Seen(g, n, i, |g.ranges|, 0)
        ensures !Violates(g, width, n, i)
      {
        assert g.Counts(n, i);
        if forall n' :: n' < n ==> !g.Counts(n', i) {
          assert First(g, n, i);
        }
      }
    }
  }

  lemma AllSeen(g: Gather, n: int, i: int)
    requires g.Valid() && g.Counts(n, i)
    ensures Seen(g, n, i, |g.ranges|, 0)
  {
  }

  /** Ranges that only move forward, with no coefficient skipped, come into use from left to right. */
  lemma ForwardRanges(g: Gather)
    requires g.Valid()
    requires forall m, n :: 0 <= m < n < |g.ranges| ==> g.ranges[m].n0 <= g.ranges[n].n0
    requires forall n, i :: 0 <= n < |g.ranges| && g.ranges[n].Holds(i) ==> g.Counts(n, i)
    ensures LeftToRight(g)
  {
    hide Gather.Counts;
    forall n, i, n', i' | First(g, n, i) && g.Counts(n', i') && n' < n
      ensures i' <= i
    {
      CountsInRange(g, n, i);
      CountsKnown(g, n', i');
      CountsKnown(g, n, i);
      CountsInRange(g, n', i');
      assert g.ranges[n'].Holds(i) || i' <= i;
    }
  }

  lemma CountsKnown(g: Gather, n: int, i: int)
    requires g.Valid() && g.Counts(n, i)
    ensures 0 <= n < |g.ranges|
  {
  }

  /**
   The pivot. Its result is the transpose of the gather coefficients exactly when
   inputs come into use from left to right and the scatter rows are wide enough;
   unused inputs are marked so in every case.
   */
  method Pivot(g: Gather, ranges: array<Range>, coeffs: array<seq<real>>, width: nat)
    requires g.Valid() && width > 0
    requires ranges.Length == coeffs.Length == g.inputs
    requires forall i :: 0 <= i < coeffs.Length ==> |coeffs[i]| == width
    modifies ranges, coeffs
    ensures Transposed(Scatter(ranges[..], coeffs[..], 0), g) <==> LeftToRight(g) && Narrow(g, width)
    ensures forall i :: 0 <= i < g.inputs && Idle(g, i) ==> ranges[i] == Range(0, -1)
    ensures LeftToRight(g) && Narrow(g, width) ==> Stored(Scatter(ranges[..], coeffs[..], 0), g)
    ensures LeftToRight(g) && Narrow(g, width) ==> forall i :: 0 <= i < g.inputs ==>
      (ranges[i] == Range(0, -1) <==> forall n :: 0 <= n < |g.ranges| ==> -1.0 < Scaled(g.At(n, i)) < 1.0)
  {
    hide Stored, Scaled, Progress, Gather.Valid, LeftToRight, Narrow, NoHarm, Idle, Cleared, Transposed;
    var highest := -1;
    ghost var st := Scatter(ranges[..], coeffs[..], highest);
    Start(st, g, width);
    var n := 0;
    while n < |g.ranges|
      invariant 0 <= n <= |g.ranges|
      invariant st == Scatter(ranges[..], coeffs[..], highest)
      invariant Progress(st, g, width, n, 0)
    {
      highest := PivotRow(g, ranges, coeffs, width, highest, n);
      st := Scatter(ranges[..], coeffs[..], highest);
      n := n + 1;
    }
    ProgressParts(st, g, width, n, 0);
    Finish(st, g, width);
    HarmlessIff(g, width);
    ClearRange(ranges, highest + 1, ranges.Length);
    assert ranges[..] == Cleared(st.ranges, st.highest + 1, g.inputs);
    SameTable(ranges[..], coeffs[..], highest, g);
    st := Scatter(ranges[..], coeffs[..], 0);
    TransposedIs(st, g);
    if LeftToRight(g) && Narrow(g, width) {
      forall i | 0 <= i < g.inputs
        ensures ranges[i] == Range(0, -1) <==> forall n :: 0 <= n < |g.ranges| ==> -1.0 < Scaled(g.At(n, i)) < 1.0
      {
        UnusedIff(st, g, i);
      }
    }
  }

  lemma Start(st: Scatter, g: Gather, width: nat)
    requires g.Valid() && width > 0 && st.Shaped(g.inputs, width) && st.highest == -1
    ensures Progress(st, g, width, 0, 0)
  {
    forall n', i'
      ensures !Seen(g, n', i', 0, 0)
    {
      if g.Counts(n', i') {
        CountsInRange(g, n', i');
      }
    }
  }

  /** How far the table was filled plays no part in what it says. */
  lemma SameTable(ranges: seq<Range>, coeffs: seq<seq<real>>, highest: int, g: Gather)
    requires g.Valid() && |ranges| == |coeffs| == g.inputs
    ensures Transposed(Scatter(ranges, coeffs, highest), g) <==> Transposed(Scatter(ranges, coeffs, 0), g)
  {
    forall i, n | 0 <= i < g.inputs
      ensures Scatter(ranges, coeffs, highest).At(i, n) == Scatter(ranges, coeffs, 0).At(i, n)
    {
    }
  }

  /** Two outputs over three inputs, the first with a zero in the middle. */
  function ZeroInside(): Gather {
    Gather([Range(0, 2), Range(0, 2)], [[1.0, 0.0, 1.0], [1.0, 1.0, 1.0]], 3)
  }

  /**
   A zero coefficient inside a range, with later outputs using the input after all,
   makes the pivot forget coefficients: here output 0's for input 2, which is one.
   */
  lemma InteriorZeroLoses(st: Scatter)
    requires st.Shaped(3, 2) && st.highest == -1
    ensures var g := ZeroInside();
      && g.Valid() && Narrow(g, 2) && !LeftToRight(g) && g.At(0, 2) == 1.0
      && var row0 := Step(Step(Step(st, 0, 0, g.At(0, 0)), 0, 1, g.At(0, 1)), 0, 2, g.At(0, 2));
      && row0.At(2, 0) == 1.0
      && var row1 := Step(Step(Step(row0, 1, 0, g.At(1, 0)), 1, 1, g.At(1, 1)), 1, 2, g.At(1, 2));
      row1.At(2, 0) == 0.0 && row1.At(2, 1) == 1.0
  {
    var g := ZeroInside();
    assert g.Valid();
    assert g.At(0, 0) == 1.0 && g.At(0, 1) == 0.0 && g.At(0, 2) == 1.0;
    assert g.At(1, 0) == 1.0 && g.At(1, 1) == 1.0 && g.At(1, 2) == 1.0;
    assert First(g, 1, 1);
    assert g.Counts(0, 2);
  }
}
