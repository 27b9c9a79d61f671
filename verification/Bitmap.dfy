/**
 The kernel's bitmap scans. A 64-bit word is the sequence of its bits, lowest first.
 */
module Bitmap {

  type Word = w: seq<bool> | |w| == 64 witness seq(64, _ => false)

  /** `~0 >> (64 - n)` */
  function LowMask(n: nat): Word {
    seq(64, p => p < n)
  }

  /** `~(~0 >> n)` */
  function TopMask(n: nat): Word {
    seq(64, p => p >= 64 - n)
  }

  function Not(w: Word): Word {
    seq(64, p requires 0 <= p < 64 => !w[p])
  }

  function And(v: Word, w: Word): Word {
    seq(64, p requires 0 <= p < 64 => v[p] && w[p])
  }

  function Or(v: Word, w: Word): Word {
    seq(64, p requires 0 <= p < 64 => v[p] || w[p])
  }

  /** `w << j` */
  function Shl(w: Word, j: nat): Word {
    seq(64, p requires 0 <= p < 64 => p >= j && w[p - j])
  }

  predicate IsZero(w: Word) {
    forall p :: 0 <= p < 64 ==> !w[p]
  }

  /** The bits `lo` up to `hi` of a word are zero. */
  predicate Free(w: Word, lo: int, hi: int)
    requires hi <= 64
  {
    forall p :: 0 <= p < 64 && lo <= p < hi ==> !w[p]
  }

  predicate Full(w: Word) {
    forall p :: 0 <= p < 64 ==> w[p]
  }

  /** How a scan ends. */
  datatype Scan =
    | NotFound
    | At(pos: nat)
    | Hangs           // it comes back to where it was, for ever
    | Wild            // it reads past the end of the bitmap
    | NullDifference  // it subtracts from a null pointer, which C++ leaves undefined

  /** `__builtin_ctzl`: the lowest one bit of a word that has one. */
  method CountTrailingZeros(w: Word) returns (p: nat)
    requires !IsZero(w)
    ensures p < 64 && w[p] && forall q :: 0 <= q < p ==> !w[q]
  {
    p := 0;
    while !w[p]
      invariant 0 <= p < 64 && forall q :: 0 <= q < p ==> !w[q]
      decreases 64 - p
    {
      p := p + 1;
    }
  }

  /** Bit `v` of the whole bitmap. */
  predicate Bit(words: seq<Word>, v: nat)
    requires v < 64 * |words|
  {
    words[v / 64][v % 64]
  }

  /** Bit `v` is zero and every bit before it is one. */
  ghost predicate FirstZero(words: seq<Word>, v: nat) {
    v < 64 * |words| && !Bit(words, v) && forall u :: 0 <= u < v ==> Bit(words, u)
  }

  /** The position of the first zero bit. */
  method ScanSingleZero(words: seq<Word>) returns (r: Scan)
    ensures r == NotFound || r.At?
    ensures r == NotFound <==> forall v :: 0 <= v < 64 * |words| ==> Bit(words, v)
    ensures r.At? ==> FirstZero(words, r.pos)
  {
    var i := 0;
    while i < |words|
      invariant 0 <= i <= |words|
      invariant forall k :: 0 <= k < i ==> Full(words[k])
    {
      var ul := Not(words[i]);
      if !IsZero(ul) {
        var p := CountTrailingZeros(ul);
        assert !words[i][p] && forall q :: 0 <= q < p ==> ul[q] == !words[i][q];
        assert !Bit(words, 64 * i + p);
        return At(64 * i + p);
      }
      assert forall q :: 0 <= q < 64 ==> ul[q] == !words[i][q];
      i := i + 1;
    }
    r := NotFound;
  }

  /** What the chain scan's test at offset `j` comes to: it looks only at the bits from `64 - n + j` on. */
  predicate Passes(w: Word, n: nat, j: nat)
  {
    Free(w, 64 - n + j, 64)
  }

  lemma ShiftedTest(w: Word, n: nat, j: nat)
    requires n <= 64
    ensures IsZero(And(w, Shl(TopMask(n), j))) <==> Passes(w, n, j)
  {
    var t := And(w, Shl(TopMask(n), j));
    forall p | 0 <= p < 64
      ensures t[p] <==> w[p] && 64 - n + j <= p
    {
    }
  }

  /**
   The inner loop on one word: the first offset that passes, with `n` bits asked for.
   Offsets stop short of `64 - n`.
   */
  method ScanWord(w: Word, n: nat) returns (j: nat, found: bool)
    requires n <= 64
    ensures found ==> j < 64 - n && Passes(w, n, j) && forall k :: 0 <= k < j ==> !Passes(w, n, k)
    ensures !found ==> forall k :: 0 <= k < 64 - n ==> !Passes(w, n, k)
  {
    var mask := TopMask(n);
    j, found := 0, false;
    while j < 64 - n
      invariant 0 <= j <= 64 - n
      invariant forall k :: 0 <= k < j ==> !Passes(w, n, k)
    {
      ShiftedTest(w, n, j);
      if IsZero(And(w, Shl(mask, j))) {
        found := true;
        return;
      }
      j := j + 1;
    }
  }

  /** A word in which the scan of `n` bits stops. */
  predicate Stops(w: Word, n: nat)
    requires n <= 64
  {
    if n == 64 then IsZero(w) else Passes(w, n, 63 - n)
  }

  /** The first word in which the scan stops, or the number of words. */
  function Candidate(words: seq<Word>, n: nat): (k: nat)
    requires n <= 64
    ensures k <= |words|
    ensures k < |words| ==> Stops(words[k], n)
    ensures forall i :: 0 <= i < k ==> !Stops(words[i], n)
  {
    if words == [] then 0
    else if Stops(words[0], n) then 0
    else 1 + Candidate(words[1..], n)
  }

  /** The offset that the scan reports for a word in which it stops. */
  ghost predicate Reported(w: Word, n: nat, j: nat)
    requires n <= 64
  {
    if n == 64 then j == 0 else j < 64 - n && Passes(w, n, j) && forall k :: 0 <= k < j ==> !Passes(w, n, k)
  }

  /** The scan for a run of zero bits, for runs of up to one word. */
  method ScanChain(words: seq<Word>, n: nat) returns (r: Scan)
    requires 2 <= n <= 64 || n == 0
    ensures r == NotFound || r.At?
    ensures r == NotFound <==> Candidate(words, n) == |words|
    ensures r.At? ==> r.pos / 64 == Candidate(words, n) && Reported(words[Candidate(words, n)], n, r.pos % 64)
  {
    var i := 0;
    while i < |words|
      invariant 0 <= i <= |words|
      invariant forall k :: 0 <= k < i ==> !Stops(words[k], n)
    {
      var cur := words[i];
      if n == 64 && IsZero(cur) {
        CandidateIs(words, n, i);
        return At(i * 64);
      }
      var j, found := ScanWord(cur, n);
      if found {
        PassesOn(cur, n, j, 63 - n);
        CandidateIs(words, n, i);
        return At(i * 64 + j);
      }
      i := i + 1;
    }
    r := NotFound;
  }

  lemma PassesOn(w: Word, n: nat, j: nat, k: nat)
    requires j <= k && Passes(w, n, j)
    ensures Passes(w, n, k)
  {
  }

  lemma CandidateIs(words: seq<Word>, n: nat, i: nat)
    requires n <= 64 && i < |words| && Stops(words[i], n)
    requires forall k :: 0 <= k < i ==> !Stops(words[k], n)
    ensures Candidate(words, n) == i
  {
  }

  /** The highest one bit of a word below `k`, or -1 when there is none. */
  function HighestBelow(w: Word, k: nat): (h: int)
    requires k <= 64
    ensures -1 <= h < k && (h >= 0 ==> w[h]) && forall p :: h < p < k ==> !w[p]
  {
    if k == 0 then -1 else if w[k - 1] then k - 1 else HighestBelow(w, k - 1)
  }

  function Highest(w: Word): (h: int)
    ensures -1 <= h < 64 && (h >= 0 ==> w[h]) && forall p :: h < p < 64 ==> !w[p]
  {
    HighestBelow(w, 64)
  }

  /** Only the highest one bit decides whether a word stops the scan and which offset it reports. */
  lemma ReportedIs(w: Word, n: nat, j: nat)
    requires 2 <= n <= 64
    ensures Stops(w, n) <==> if n == 64 then Highest(w) == -1 else Highest(w) <= 126 - 2 * n
    ensures Stops(w, n) ==> (Reported(w, n, j) <==> j == if Highest(w) + n <= 63 then 0 else Highest(w) + n - 63)
  {
    hide HighestBelow, Highest;
    if n < 64 {
      PassesIff(w, n, 63 - n);
      PassesIff(w, n, j);
      if j > 0 {
        PassesIff(w, n, j - 1);
      }
      if Passes(w, n, j) && (j == 0 || !Passes(w, n, j - 1)) {
        forall k | 0 <= k < j
          ensures !Passes(w, n, k)
        {
          PassesIff(w, n, k);
        }
      }
    }
  }

  lemma PassesIff(w: Word, n: nat, j: nat)
    requires 2 <= n <= 64
    ensures Passes(w, n, j) <==> Highest(w) + n < 64 + j
  {
  }

  /** Where the run reported for 2 to 64 bits begins. */
  function RunStart(words: seq<Word>, n: nat): nat
    requires 2 <= n <= 64 && Candidate(words, n) < |words|
  {
    var k := Candidate(words, n);
    64 * k + if Highest(words[k]) + n <= 63 then 0 else Highest(words[k]) + n - 63
  }

  /**
   When a reported run is free. If the highest one bit leaves room for the run above it, the run starts at the
   lowest bit and is free exactly when no bit below `n` is one. Otherwise it starts `63 - n` below the highest one
   bit `h`: it holds `h` when `n` is 32 or more, and lies below `h`, on bits that were not looked at, when it is less.
   */
  lemma ReportedFree(w: Word, n: nat, j: nat)
    requires 2 <= n <= 64 && Stops(w, n) && Reported(w, n, j)
    ensures j + n <= 64
    ensures Highest(w) + n <= 63 ==> (Free(w, j, j + n) <==> Free(w, 0, n))
    ensures Highest(w) + n > 63 && n >= 32 ==> !Free(w, j, j + n)
    ensures Highest(w) + n > 63 && n < 32 ==>
      && (Free(w, j, j + n) <==> Free(w, Highest(w) + n - 63, Highest(w) + 2 * n - 63))
      && Highest(w) + 2 * n - 63 <= Highest(w)
  {
    hide HighestBelow, Highest;
    ReportedIs(w, n, j);
    if Highest(w) + n > 63 && n >= 32 {
      assert j <= Highest(w) < j + n;
    }
  }

  /** From 32 bits on, a word is reported at a free run exactly when it is zero. */
  lemma FreeIffZero(w: Word, n: nat, j: nat)
    requires 32 <= n <= 64 && Stops(w, n) && Reported(w, n, j)
    ensures j + n <= 64
    ensures IsZero(w) <==> Free(w, j, j + n)
    ensures IsZero(w) ==> j == 0
  {
    hide HighestBelow, Highest;
    ReportedFree(w, n, j);
    ReportedIs(w, n, j);
    if Highest(w) >= 0 && Highest(w) + n <= 63 {
      assert w[Highest(w)] && Highest(w) < n;
    }
  }

  /** With one bit set, a scan for two zero bits reports a run over that bit, or one that is free, as the bit lies. */
  lemma ShortRunMisses(w: Word, h: nat)
    requires h < 64 && forall p :: 0 <= p < 64 ==> (w[p] <==> p == h)
    ensures Stops(w, 2) && Reported(w, 2, if h < 62 then 0 else h - 61)
    ensures Free(w, if h < 62 then 0 else h - 61, if h < 62 then 2 else h - 59) <==> h >= 2
  {
    hide HighestBelow, Highest;
    assert Highest(w) == h;
    ReportedIs(w, 2, if h < 62 then 0 else h - 61);
    assert w[h];
  }

  /** The first word that is zero, or the number of words. */
  function ZeroWord(words: seq<Word>): (z: nat)
    ensures z <= |words| && (z < |words| ==> IsZero(words[z])) && forall i :: 0 <= i < z ==> !IsZero(words[i])
  {
    if words == [] || IsZero(words[0]) then 0 else 1 + ZeroWord(words[1..])
  }

  /** How the scan for more than a word ends: all depends on where the first zero word lies. */
  function LongScan(words: seq<Word>, n: nat): (r: Scan)
    ensures r != NotFound && (r.At? ==> r == At(0))
  {
    var needed, z := (n + 63) / 64, ZeroWord(words);
    if z == |words| && z <= needed then Wild
    else if z > needed then NullDifference
    else if z == needed then At(0)
    else Hangs
  }

  /**
   The scan for runs longer than a word. It measures stretches of words that are not
   zero, which is the opposite of what is wanted, and a zero word stops it for good.
   */
  method ScanLong(words: seq<Word>, n: nat) returns (r: Scan)
    requires n > 64 && words != []
    ensures r == LongScan(words, n)
  {
    var needed := (n + 63) / 64;
    if IsZero(words[0]) {
      return Hangs;
    }
    var t := 1;
    while t < needed && t < |words| && !IsZero(words[t])
      invariant 1 <= t <= needed && t <= |words|
      invariant forall i :: 0 <= i < t ==> !IsZero(words[i])
    {
      t := t + 1;
    }
    if t >= |words| {
      return Wild;
    }
    if !IsZero(words[t]) {
      return NullDifference;
    }
    return if t == needed then At(0) else Hangs;
  }

  /** What is reported for more than a word is never free: its words are all in use, each to some extent. */
  lemma LongRunTaken(words: seq<Word>, n: nat)
    requires n > 64
    ensures LongScan(words, n).At? <==>
      && (n + 63) / 64 < |words| && IsZero(words[(n + 63) / 64])
      && forall i :: 0 <= i < (n + 63) / 64 ==> !IsZero(words[i])
    ensures LongScan(words, n) == Hangs <==> exists i :: 0 <= i < |words| && i < (n + 63) / 64 && IsZero(words[i])
    ensures LongScan(words, n) == Wild <==>
      |words| <= (n + 63) / 64 && forall i :: 0 <= i < |words| ==> !IsZero(words[i])
    ensures LongScan(words, n) == NullDifference <==>
      |words| > (n + 63) / 64 && forall i :: 0 <= i <= (n + 63) / 64 ==> !IsZero(words[i])
  {
    var z, needed := ZeroWord(words), (n + 63) / 64;
    if z < needed && z < |words| {
      assert IsZero(words[z]);
    }
  }

  /** `bitmap_scan_chain_zeroes` */
  method ScanChainZeroes(words: seq<Word>, n: nat) returns (r: Scan)
    requires words != []
    ensures n == 1 ==> (r == NotFound && forall v :: 0 <= v < 64 * |words| ==> Bit(words, v))
                       || (r.At? && FirstZero(words, r.pos))
    ensures n == 0 || 2 <= n <= 64 ==>
      if Candidate(words, n) == |words| then r == NotFound
      else r.At? && r.pos / 64 == Candidate(words, n) && Reported(words[Candidate(words, n)], n, r.pos % 64)
    ensures n > 64 ==> r == LongScan(words, n)
  {
    if n == 1 {
      r := ScanSingleZero(words);
    } else if n > 64 {
      r := ScanLong(words, n);
    } else {
      r := ScanChain(words, n);
    }
  }

  function WithBit(words: seq<Word>, v: nat, b: bool): (t: seq<Word>)
    requires v < 64 * |words|
    ensures |t| == |words|
  {
    words[v / 64 := words[v / 64][v % 64 := b]]
  }

  lemma WithBitAt(words: seq<Word>, v: nat, b: bool, u: nat)
    requires v < 64 * |words| && u < 64 * |words|
    ensures Bit(WithBit(words, v, b), u) == if u == v then b else Bit(words, u)
  {
    if u / 64 == v / 64 && u % 64 == v % 64 {
      assert u == v;
    }
  }

  /** `w >> j` */
  function Shr(w: Word, j: nat): Word {
    seq(64, p requires 0 <= p < 64 => p + j < 64 && w[p + j])
  }

  /** The bitmap after `bitmap_set_chain_bits`; a run of no bits is a shift by the word width, left undefined. */
  function ChainSet(words: seq<Word>, pos: nat, n: nat): (t: seq<Word>)
    requires n >= 1 && pos + n <= 64 * |words|
    ensures |t| == |words|
    decreases n
  {
    var k, off := pos / 64, pos % 64;
    if n == 1 then WithBit(words, pos, true)
    else if n >= 64 then
      var first := words[k := Or(words[k], Shl(LowMask(64), off))];
      if n > 64 - off then ChainSet(first, pos + (64 - off), n - (64 - off)) else first
    else
      var first := words[k := Or(words[k], Shl(LowMask(n), off))];
      if off + n > 64 then first[k + 1 := Or(first[k + 1], Shr(LowMask(n), (n + off) % 64))] else first
  }

  /**
   Where the bits set really end: a short run that crosses a word gets as many bits in the
   second word as in the first.
   */
  function SetEnd(pos: nat, n: nat): nat {
    if 2 <= n < 64 && pos % 64 + n > 64 then 64 * (pos / 64 + 1) + (64 - pos % 64) else pos + n
  }

  lemma OrAt(words: seq<Word>, k: nat, mask: Word, lo: nat, hi: nat, u: nat)
    requires k < |words| && u < 64 * |words| && lo <= hi <= 64
    requires forall p :: 0 <= p < 64 ==> (mask[p] <==> lo <= p < hi)
    ensures Bit(words[k := Or(words[k], mask)], u) <==> Bit(words, u) || 64 * k + lo <= u < 64 * k + hi
  {
    if u / 64 == k {
      assert Or(words[k], mask)[u % 64] <==> words[k][u % 64] || mask[u % 64];
    }
  }

  /** The bits set are those from `pos` up to `SetEnd`, and no others. */
  lemma {:induction false} ChainSetAt(words: seq<Word>, pos: nat, n: nat, u: nat)
    requires n >= 1 && pos + n <= 64 * |words| && u < 64 * |words|
    ensures Bit(ChainSet(words, pos, n), u) <==> Bit(words, u) || pos <= u < SetEnd(pos, n)
    decreases n
  {
    hide Bit, Or, WithBit;
    var k, off := pos / 64, pos % 64;
    if n == 1 {
      WithBitAt(words, pos, true, u);
    } else if n >= 64 {
      OrAt(words, k, Shl(LowMask(64), off), off, 64, u);
      if n > 64 - off {
        ChainSetAt(words[k := Or(words[k], Shl(LowMask(64), off))], pos + (64 - off), n - (64 - off), u);
      }
    } else {
      OrAt(words, k, Shl(LowMask(n), off), off, if off + n > 64 then 64 else off + n, u);
      if off + n > 64 {
        var first := words[k := Or(words[k], Shl(LowMask(n), off))];
        assert (n + off) % 64 == n + off - 64;
        OrAt(first, k + 1, Shr(LowMask(n), n + off - 64), 0, 64 - off, u);
      }
    }
  }

  /** The run and nothing else is set. */
  ghost predicate SetExactly(words: seq<Word>, t: seq<Word>, pos: nat, n: nat)
    requires |t| == |words|
  {
    forall u :: 0 <= u < 64 * |words| ==> (Bit(t, u) <==> Bit(words, u) || pos <= u < pos + n)
  }

  /**
   The bits are set as asked exactly when a short run that crosses a word is split in halves,
   or the difference was set already.
   */
  lemma ChainSetExact(words: seq<Word>, pos: nat, n: nat)
    requires n >= 1 && pos + n <= 64 * |words|
    ensures SetExactly(words, ChainSet(words, pos, n), pos, n) <==>
      || n == 1 || n >= 64 || pos % 64 + n <= 64 || 2 * (pos % 64) + n == 128
      || forall u :: 0 <= u < 64 * |words| && (pos + n <= u < SetEnd(pos, n) || SetEnd(pos, n) <= u < pos + n) ==>
           Bit(words, u)
  {
    hide Bit, ChainSet;
    var t := ChainSet(words, pos, n);
    forall u | 0 <= u < 64 * |words|
      ensures Bit(t, u) <==> Bit(words, u) || pos <= u < SetEnd(pos, n)
    {
      ChainSetAt(words, pos, n, u);
    }
  }

  /** Three bits from bit 63 on: the last of them is not set. */
  lemma CrossingRunFalls(words: seq<Word>)
    requires |words| == 4 && !Bit(words, 65)
    ensures !Bit(ChainSet(words, 63, 3), 65)
  {
    ChainSetAt(words, 63, 3, 65);
  }

  /** `bitmap_set_chain_bits` */
  method SetChainBits(bitmap: array<Word>, pos: nat, n: nat)
    requires n >= 1 && pos + n <= 64 * bitmap.Length
    modifies bitmap
    ensures bitmap[..] == ChainSet(old(bitmap[..]), pos, n)
    decreases n
  {
    var ulpos, off := pos / 64, pos % 64;
    if n == 1 {
      bitmap[ulpos] := bitmap[ulpos][off := true];
    } else if n >= 64 {
      var actual := if n < 64 - off then n else 64 - off;
      bitmap[ulpos] := Or(bitmap[ulpos], Shl(LowMask(64), off));
      if n > actual {
        SetChainBits(bitmap, pos + actual, n - actual);
      }
    } else {
      var mask := LowMask(n);
      bitmap[ulpos] := Or(bitmap[ulpos], Shl(mask, off));
      if off + n > 64 {
        bitmap[ulpos + 1] := Or(bitmap[ulpos + 1], Shr(mask, (n + off) % 64));
      }
    }
  }
}
