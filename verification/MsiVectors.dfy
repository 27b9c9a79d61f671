/**
 Allocation of interrupt vectors for message-signalled interrupts: a bitmap of 256
 vectors, of which the first 0x30 are reserved, and one handler slot for each other.
 Calls are taken one at a time. An owner is a nonzero number; zero is the null pointer.
 */
module MsiVectors {
  import opened Bitmap
  import opened Common

  /** A handler slot: who owns it and the vector in its message data. */
  datatype Info = Info(owner: nat, vec: nat)

  function OwnerOf(infos: seq<Info>, v: nat): nat
    requires |infos| == 208 && 48 <= v < 256
  {
    infos[v - 48].owner
  }

  /** The bit of a vector is set exactly when its slot is owned, and then the slot names the vector. */
  predicate SlotOk(words: seq<Word>, infos: seq<Info>, v: nat)
    requires |words| == 4 && |infos| == 208 && 48 <= v < 256
  {
    && (Bit(words, v) <==> OwnerOf(infos, v) != 0)
    && (OwnerOf(infos, v) != 0 ==> infos[v - 48].vec == v)
  }

  ghost predicate Consistent(words: seq<Word>, infos: seq<Info>) {
    && |words| == 4 && |infos| == 208
    && (forall v :: 0 <= v < 48 ==> Bit(words, v))
    && (forall v :: 48 <= v < 256 ==> SlotOk(words, infos, v))
  }

  lemma TakeOne(words: seq<Word>, infos: seq<Info>, v: nat, owner: nat)
    requires Consistent(words, infos) && 48 <= v < 256 && owner != 0
    ensures Consistent(WithBit(words, v, true), infos[v - 48 := Info(owner, v)])
  {
    var words', infos' := WithBit(words, v, true), infos[v - 48 := Info(owner, v)];
    forall u | 0 <= u < 48
      ensures Bit(words', u)
    {
      WithBitAt(words, v, true, u);
    }
    forall u | 48 <= u < 256
      ensures SlotOk(words', infos', u)
    {
      WithBitAt(words, v, true, u);
      assert SlotOk(words, infos, u);
    }
  }

  /** `infos` with the slots of vectors `first` up to `first + n` given to an owner. */
  function Given(infos: seq<Info>, first: nat, n: nat, owner: nat): (t: seq<Info>)
    requires |infos| == 208 && 48 <= first && first + n <= 256
    ensures |t| == 208
  {
    seq(208, i requires 0 <= i < 208 => if first <= i + 48 < first + n then Info(owner, i + 48) else infos[i])
  }

  lemma TakeRun(words: seq<Word>, infos: seq<Info>, first: nat, n: nat, owner: nat)
    requires Consistent(words, infos) && owner != 0
    requires 48 <= first && 1 <= n && first % 64 + n <= 64 && first + n <= 256
    ensures Consistent(ChainSet(words, first, n), Given(infos, first, n, owner))
  {
    var words', infos' := ChainSet(words, first, n), Given(infos, first, n, owner);
    forall u | 0 <= u < 48
      ensures Bit(words', u)
    {
      ChainSetAt(words, first, n, u);
    }
    forall u | 48 <= u < 256
      ensures SlotOk(words', infos', u)
    {
      ChainSetAt(words, first, n, u);
      assert SlotOk(words, infos, u);
    }
  }

  /** What becomes of a request for several vectors. */
  datatype Outcome =
    | Null                    // nothing was found, nothing changed
    | Slots(first: nat)       // the slots of the vectors from `first` on were filled in
    | OffTable(first: nat)    // bits from `first` on were set, and slots past the end of the table were written
    | NoReturn                // the scan runs in a circle
    | Stray                   // the scan reads past the bitmap
    | Undefined               // a shift by the width of a word, or a difference with a null pointer

  /** The scan for `count` vectors finds nothing, or finds a word that is wholly free. */
  predicate SoundRequest(words: seq<Word>, count: nat) {
    || count == 1
    || (2 <= count <= 64 && (Candidate(words, count) == |words| || IsZero(words[Candidate(words, count)])))
  }

  /** The lowest vector from `v` on without an owner. */
  function LowestFree(infos: seq<Info>, v: nat): (r: Option<nat>)
    requires |infos| == 208 && 48 <= v <= 256
    ensures r == None <==> forall u :: v <= u < 256 ==> OwnerOf(infos, u) != 0
    ensures r.Some? ==> v <= r.value < 256 && OwnerOf(infos, r.value) == 0
    ensures r.Some? ==> forall u :: v <= u < r.value ==> OwnerOf(infos, u) != 0
    decreases 256 - v
  {
    if v == 256 then None else if OwnerOf(infos, v) == 0 then Some(v) else LowestFree(infos, v + 1)
  }

  /** Where a sound request is placed: the lowest free vector, or the start of the first free word. */
  function Placement(words: seq<Word>, infos: seq<Info>, count: nat): Option<nat>
    requires |infos| == 208 && 1 <= count <= 64
  {
    if count == 1 then LowestFree(infos, 48)
    else if Candidate(words, count) == |words| then None
    else Some(64 * Candidate(words, count))
  }

  /** What becomes of a request for `count` vectors, whether it is sound or not. */
  function Expected(words: seq<Word>, infos: seq<Info>, count: nat): Outcome
    requires |infos| == 208
  {
    if count == 0 then Undefined
    else if count == 1 then match LowestFree(infos, 48) case None => Null case Some(v) => Slots(v)
    else if count <= 64 then
      if Candidate(words, count) == |words| then Null
      else if RunStart(words, count) < 48 then OffTable(RunStart(words, count))
      else Slots(RunStart(words, count))
    else match LongScan(words, count)
      case At(first) => OffTable(first)
      case Hangs => NoReturn
      case Wild => Stray
      case _ => Undefined
  }

  /** A request for 2 to 31 vectors always begins in the reserved ones. */
  lemma SmallOffTable(words: seq<Word>, infos: seq<Info>, count: nat)
    requires Consistent(words, infos) && 2 <= count < 32
    ensures Expected(words, infos, count).OffTable?
  {
    SmallStops(words, count);
  }

  /** No vector of the run has an owner. */
  ghost predicate Unowned(infos: seq<Info>, first: nat, n: nat)
    requires |infos| == 208 && 48 <= first && first + n <= 256
  {
    forall v :: first <= v < first + n ==> OwnerOf(infos, v) == 0
  }

  /** A candidate word that is not free makes the run begin too early or overlap. */
  lemma WhereItStops(words: seq<Word>, infos: seq<Info>, count: nat, pos: nat)
    requires Consistent(words, infos) && 2 <= count <= 64
    requires Candidate(words, count) < 4 && pos / 64 == Candidate(words, count)
    requires Reported(words[Candidate(words, count)], count, pos % 64)
    ensures pos < 256 && pos % 64 + count <= 64
    ensures pos < 48 ==> !SoundRequest(words, count)
    ensures pos + count <= 256
    ensures pos >= 48 ==> (Unowned(infos, pos, count) <==> SoundRequest(words, count))
    ensures SoundRequest(words, count) ==> pos == 64 * Candidate(words, count)
  {
    var k, j := pos / 64, pos % 64;
    ReportedFree(words[k], count, j);
    if count < 32 {
      SmallStops(words, count);
      assert Passes(words[k], count, count);
    }
    if k == 0 {
      assert Bit(words, 0);
    }
    if pos >= 48 && count >= 32 {
      FreeIffZero(words[k], count, j);
      RunIsFree(words, infos, pos, count);
    }
  }

  lemma RunIsFree(words: seq<Word>, infos: seq<Info>, pos: nat, count: nat)
    requires Consistent(words, infos) && 48 <= pos < 256 && pos % 64 + count <= 64 && pos + count <= 256
    ensures Unowned(infos, pos, count) <==> Free(words[pos / 64], pos % 64, pos % 64 + count)
  {
    var k, j := pos / 64, pos % 64;
    forall v | pos <= v < pos + count
      ensures Bit(words, v) == words[k][v - 64 * k]
      ensures OwnerOf(infos, v) == 0 <==> !words[k][v - 64 * k]
    {
      assert v / 64 == k && v % 64 == v - 64 * k;
      assert SlotOk(words, infos, v);
    }
    if Unowned(infos, pos, count) {
      forall p | 0 <= p < 64 && j <= p < j + count
        ensures !words[k][p]
      {
        assert OwnerOf(infos, 64 * k + p) == 0;
      }
    }
  }

  /** Asking for fewer than 32 vectors always stops the scan in the first word. */
  lemma SmallStops(words: seq<Word>, count: nat)
    requires |words| == 4 && count < 32
    ensures Candidate(words, count) == 0
  {
    assert Stops(words[0], count);
  }

  class InterruptTable {
    const bitmap: array<Word>
    const handlers: array<Info>

    /** The state at start-up: the reserved vectors are taken and no slot is owned. */
    constructor ()
      ensures Valid() && fresh(bitmap) && fresh(handlers)
      ensures forall v :: 48 <= v < 256 ==> OwnerOf(handlers[..], v) == 0
      ensures bitmap[..] == BootWords()
    {
      bitmap := new Word[] [LowMask(48), LowMask(0), LowMask(0), LowMask(0)];
      handlers := new Info[208](_ => Info(0, 0));
      new;
      assert bitmap[..] == BootWords();
      BootConsistent(handlers[..]);
    }

    ghost predicate Valid()
      reads this, bitmap, handlers
    {
      Consistent(bitmap[..], handlers[..])
    }

    /** `allocate_msi_vector`: the lowest free vector, or none when all are taken. */
    method AllocateVector(owner: nat) returns (r: Option<nat>)
      requires Valid() && owner != 0
      modifies bitmap, handlers
      ensures Valid()
      ensures r == None <==> forall v :: 48 <= v < 256 ==> old(OwnerOf(handlers[..], v)) != 0
      ensures r == None ==> handlers[..] == old(handlers[..]) && bitmap[..] == old(bitmap[..])
      ensures r.Some? ==>
        && 48 <= r.value < 256 && old(OwnerOf(handlers[..], r.value)) == 0
        && handlers[..] == Given(old(handlers[..]), r.value, 1, owner)
        && (forall v :: 48 <= v < r.value ==> old(OwnerOf(handlers[..], v)) != 0)
      ensures r == LowestFree(old(handlers[..]), 48)
    {
      ghost var words, infos := bitmap[..], handlers[..];
      var scan := ScanSingleZero(bitmap[..]);
      FirstFree(words, infos, scan);
      if scan == NotFound {
        return None;
      }
      var vec := scan.pos;
      TakeOne(words, infos, vec, owner);
      GivenOne(infos, vec, owner);
      bitmap[vec / 64] := bitmap[vec / 64][vec % 64 := true];
      handlers[vec - 48] := Info(owner, vec);
      assert bitmap[..] == WithBit(words, vec, true);
      assert handlers[..] == infos[vec - 48 := Info(owner, vec)];
      r := Some(vec);
    }

    /**
     `allocate_msi_vectors`. A request is granted a free run of vectors, or refused
     with nothing changed, exactly when it is a sound one. The slot number is eight
     bits wide, so a run that begins in the reserved vectors is written past the table.
     */
    method AllocateVectors(owner: nat, count: nat) returns (r: Outcome)
      requires Valid() && owner != 0 && count < 256
      modifies bitmap, handlers
      ensures r.Null? || r.Slots? ==> Valid()
      ensures r == Expected(old(bitmap[..]), old(handlers[..]), count)
      ensures r.Null? || r.NoReturn? || r.Stray? || r.Undefined? ==> bitmap[..] == old(bitmap[..])
      ensures !r.Slots? ==> handlers[..] == old(handlers[..])
      ensures r.Slots? ==>
        && 48 <= r.first && r.first + count <= 256
        && handlers[..] == Given(old(handlers[..]), r.first, count, owner)
      ensures r.Slots? || r.OffTable? ==>
        count >= 1 && r.first + count <= 256 && bitmap[..] == ChainSet(old(bitmap[..]), r.first, count)
      ensures r.OffTable? ==> r.first < 48
      ensures r.Null? || (r.Slots? && Unowned(old(handlers[..]), r.first, count))
              <==> SoundRequest(old(bitmap[..]), count)
      ensures SoundRequest(old(bitmap[..]), count) ==>
        r == match Placement(old(bitmap[..]), old(handlers[..]), count) case None => Null case Some(v) => Slots(v)
    {
      hide Consistent, Reported, Candidate, Unowned, Bit, ChainSet, FirstZero, LowestFree, LongScan, RunStart, Expected;
      hide SoundRequest, Placement, Given;
      ghost var words, infos := bitmap[..], handlers[..];
      Shape(words, infos);
      var scan := ScanChainZeroes(bitmap[..], count);
      ScanGives(words, infos, count, scan);
      ExpectedSound(words, infos, count);
      match scan
      case NotFound =>
        r := Null;
      case Hangs =>
        r := NoReturn;
      case Wild =>
        r := Stray;
      case NullDifference =>
        r := Undefined;
      case At(ivec) =>
        if count == 0 {
          r := Undefined;
        } else {
          r := Place(ivec, count, owner);
        }
    }

    /** Sets the bits of a run, and fills in its slots if they exist. */
    method Place(ivec: nat, count: nat, owner: nat) returns (r: Outcome)
      requires Valid() && owner != 0 && 1 <= count && ivec + count <= 256
      requires ivec >= 48 ==> ivec % 64 + count <= 64
      modifies bitmap, handlers
      ensures r == if ivec < 48 then OffTable(ivec) else Slots(ivec)
      ensures bitmap[..] == ChainSet(old(bitmap[..]), ivec, count)
      ensures ivec < 48 ==> handlers[..] == old(handlers[..])
      ensures ivec >= 48 ==> Valid() && handlers[..] == Given(old(handlers[..]), ivec, count, owner)
    {
      hide Consistent, ChainSet, Given;
      Shape(bitmap[..], handlers[..]);
      ghost var words, infos := bitmap[..], handlers[..];
      SetChainBits(bitmap, ivec, count);
      var pos := (ivec + 208) % 256;
      if pos >= 208 {
        return OffTable(ivec);
      }
      TakeRun(words, infos, ivec, count, owner);
      FillSlots(ivec, count, owner);
      r := Slots(ivec);
    }

    /** The loop that fills in the slots of a run. */
    method FillSlots(first: nat, count: nat, owner: nat)
      requires handlers.Length == 208 && 48 <= first && first + count <= 256
      modifies handlers
      ensures handlers[..] == Given(old(handlers[..]), first, count, owner)
    {
      var pos, i := first - 48, 0;
      while i < count
        invariant 0 <= i <= count
        invariant handlers[..] == Given(old(handlers[..]), first, i, owner)
      {
        handlers[pos + i] := Info(owner, first + i);
        i := i + 1;
      }
    }

    /** `deregister_owner`: frees the vectors of one owner and no others. */
    method DeregisterOwner(owner: nat)
      requires Valid()
      modifies bitmap, handlers
      ensures Valid()
      ensures owner != 0 ==> handlers[..] == Released(old(handlers[..]), owner, 208)
      ensures owner == 0 ==> handlers[..] == old(handlers[..]) && bitmap[..] == old(bitmap[..])
    {
      if owner != 0 {
        ghost var infos := handlers[..];
        var i := 0;
        while i < 208
          invariant 0 <= i <= 208
          invariant Consistent(bitmap[..], handlers[..])
          invariant handlers[..] == Released(infos, owner, i)
        {
          if handlers[i].owner == owner {
            var vec := handlers[i].vec;
            Release(bitmap[..], handlers[..], i);
            ghost var words := bitmap[..];
            handlers[i] := handlers[i].(owner := 0);
            bitmap[vec / 64] := bitmap[vec / 64][vec % 64 := false];
            assert bitmap[..] == WithBit(words, vec, false);
          }
          i := i + 1;
        }
      }
    }
  }

  /** `infos` with the slots up to `n` taken away from an owner. */
  function Released(infos: seq<Info>, owner: nat, n: nat): (t: seq<Info>)
    requires |infos| == 208
    ensures |t| == 208
  {
    seq(208, i requires 0 <= i < 208 => if i < n && infos[i].owner == owner then infos[i].(owner := 0) else infos[i])
  }

  lemma Release(words: seq<Word>, infos: seq<Info>, i: nat)
    requires Consistent(words, infos) && i < 208 && infos[i].owner != 0
    ensures infos[i].vec == i + 48
    ensures Consistent(WithBit(words, i + 48, false), infos[i := infos[i].(owner := 0)])
  {
    var v := i + 48;
    assert SlotOk(words, infos, v);
    var words', infos' := WithBit(words, v, false), infos[i := infos[i].(owner := 0)];
    forall u | 0 <= u < 48
      ensures Bit(words', u)
    {
      WithBitAt(words, v, false, u);
    }
    forall u | 48 <= u < 256
      ensures SlotOk(words', infos', u)
    {
      WithBitAt(words, v, false, u);
      assert SlotOk(words, infos, u);
    }
  }

  lemma Shape(words: seq<Word>, infos: seq<Info>)
    requires Consistent(words, infos)
    ensures |words| == 4 && |infos| == 208 && !IsZero(words[0])
  {
    assert Bit(words, 0);
  }

  lemma GivenOne(infos: seq<Info>, v: nat, owner: nat)
    requires |infos| == 208 && 48 <= v < 256
    ensures Given(infos, v, 1, owner) == infos[v - 48 := Info(owner, v)]
  {
  }

  /** Where a scan that found something puts the run. */
  lemma Placed(words: seq<Word>, infos: seq<Info>, count: nat, pos: nat)
    requires Consistent(words, infos) && 1 <= count < 256
    requires count == 1 ==> FirstZero(words, pos)
    requires 2 <= count <= 64 ==>
      && Candidate(words, count) != |words| && pos / 64 == Candidate(words, count)
      && Reported(words[Candidate(words, count)], count, pos % 64)
    requires count > 64 ==> pos == 0
    ensures pos + count <= 256
    ensures pos < 48 ==> !SoundRequest(words, count)
    ensures pos >= 48 ==> count <= 64 && pos % 64 + count <= 64
    ensures pos >= 48 ==> (Unowned(infos, pos, count) <==> SoundRequest(words, count))
    ensures SoundRequest(words, count) ==> count <= 64 && Placement(words, infos, count) == Some(pos)
    ensures count == 1 ==> LowestFree(infos, 48) == Some(pos)
    ensures 2 <= count <= 64 ==> pos == RunStart(words, count)
  {
    hide Reported, Candidate;
    if count == 1 {
      FirstFree(words, infos, At(pos));
    } else if count <= 64 {
      WhereItStops(words, infos, count, pos);
      ReportedIs(words[pos / 64], count, pos % 64);
    }
  }

  lemma NonePlaced(words: seq<Word>, infos: seq<Info>, count: nat)
    requires Consistent(words, infos) && count < 256
    requires if count == 1 then forall v :: 0 <= v < 64 * |words| ==> Bit(words, v)
             else count <= 64 && Candidate(words, count) == |words|
    ensures 1 <= count <= 64 && SoundRequest(words, count) && Placement(words, infos, count) == None
  {
    if count < 32 {
      SmallStops(words, count);
    }
    if count == 1 {
      FirstFree(words, infos, NotFound);
    }
  }

  /** What a scan comes to is what becomes of the request. */
  lemma ScanGives(words: seq<Word>, infos: seq<Info>, count: nat, scan: Scan)
    requires Consistent(words, infos) && count < 256
    requires count == 1 ==> (scan == NotFound && forall v :: 0 <= v < 64 * |words| ==> Bit(words, v))
                            || (scan.At? && FirstZero(words, scan.pos))
    requires count == 0 || 2 <= count <= 64 ==>
      if Candidate(words, count) == |words| then scan == NotFound
      else scan.At? && scan.pos / 64 == Candidate(words, count)
           && Reported(words[Candidate(words, count)], count, scan.pos % 64)
    requires count > 64 ==> scan == LongScan(words, count)
    ensures scan.At? && count >= 1 ==> scan.pos + count <= 256 && (scan.pos >= 48 ==> scan.pos % 64 + count <= 64)
    ensures Expected(words, infos, count) == match scan
      case NotFound => Null
      case Hangs => NoReturn
      case Wild => Stray
      case NullDifference => Undefined
      case At(p) => if count == 0 then Undefined else if p < 48 then OffTable(p) else Slots(p)
  {
    hide Reported, Candidate, Unowned, Bit, FirstZero, LowestFree, LongScan, RunStart;
    if scan == NotFound {
      NonePlaced(words, infos, count);
    } else if scan.At? && count >= 1 {
      Placed(words, infos, count, scan.pos);
    }
    if count == 0 {
      SmallStops(words, count);
    }
  }

  /** The sound requests are those that are refused or given vectors without an owner. */
  lemma ExpectedSound(words: seq<Word>, infos: seq<Info>, count: nat)
    requires Consistent(words, infos) && count < 256
    ensures var r := Expected(words, infos, count);
      && (r.Slots? ==> 48 <= r.first && 1 <= count && r.first + count <= 256)
      && (r.OffTable? ==> r.first < 48)
      && (r.Null? || (r.Slots? && Unowned(infos, r.first, count)) <==> SoundRequest(words, count))
      && (SoundRequest(words, count) ==>
            r == match Placement(words, infos, count) case None => Null case Some(v) => Slots(v))
  {
    hide Reported, Candidate, Bit, FirstZero, LowestFree, LongScan;
    Shape(words, infos);
    if count == 1 {
      UnownedLowest(infos);
    } else if 2 <= count <= 64 && Candidate(words, count) < |words| {
      var p := RunStart(words, count);
      RunStartReported(words, count);
      Placed(words, infos, count, p);
    }
  }

  lemma RunStartReported(words: seq<Word>, n: nat)
    requires 2 <= n <= 64 && Candidate(words, n) < |words|
    ensures var p := RunStart(words, n);
      p / 64 == Candidate(words, n) && Reported(words[Candidate(words, n)], n, p % 64)
  {
    hide Reported, Candidate, Highest;
    var k := Candidate(words, n);
    ReportedIs(words[k], n, RunStart(words, n) - 64 * k);
  }

  lemma UnownedLowest(infos: seq<Info>)
    requires |infos| == 208
    ensures LowestFree(infos, 48).Some? ==> Unowned(infos, LowestFree(infos, 48).value, 1)
  {
    hide LowestFree;
  }

  /** The bitmap as it is initialised. */
  function BootWords(): seq<Word> {
    [LowMask(48), LowMask(0), LowMask(0), LowMask(0)]
  }

  lemma BootConsistent(infos: seq<Info>)
    requires |infos| == 208 && forall i :: 0 <= i < 208 ==> infos[i] == Info(0, 0)
    ensures Consistent(BootWords(), infos)
  {
    forall v | 0 <= v < 256
      ensures Bit(BootWords(), v) <==> v < 48
    {
    }
  }

  /** The first zero bit is the lowest vector without an owner. */
  lemma FirstFree(words: seq<Word>, infos: seq<Info>, scan: Scan)
    requires Consistent(words, infos)
    requires scan == NotFound || scan.At?
    requires scan == NotFound ==> forall v :: 0 <= v < 256 ==> Bit(words, v)
    requires scan.At? ==> FirstZero(words, scan.pos)
    ensures scan.At? ==> 48 <= scan.pos < 256
    ensures LowestFree(infos, 48) == if scan.At? then Some(scan.pos) else None
  {
    hide LowestFree, Bit;
    forall v | 48 <= v < 256
      ensures Bit(words, v) <==> OwnerOf(infos, v) != 0
    {
      assert SlotOk(words, infos, v);
    }
  }

  /** As long as the reserved vectors are marked, no request for 2 to 31 vectors is sound. */
  lemma SmallRequestsUnsound(words: seq<Word>, infos: seq<Info>, count: nat)
    requires Consistent(words, infos) && 2 <= count < 32
    ensures !SoundRequest(words, count)
  {
    SmallStops(words, count);
    Shape(words, infos);
  }

  /** At start-up the sound requests are those for one vector and for 40 to 64. */
  lemma SoundAtBoot(count: nat)
    ensures SoundRequest(BootWords(), count) <==> count == 1 || 40 <= count <= 64
  {
    var words := BootWords();
    if 2 <= count <= 64 {
      assert Stops(words[0], count) <==> count < 40 by {
        assert words[0][47] && !words[0][48];
        assert forall p :: 48 <= p < 64 ==> !words[0][p];
      }
      assert Stops(words[1], count);
      assert words[0][0] && IsZero(words[1]);
      if count >= 40 {
        CandidateIs(words, count, 1);
      } else {
        CandidateIs(words, count, 0);
      }
    }
  }

  /** A run of vectors handed to an owner. */
  datatype Grant = Grant(owner: nat, first: nat, count: nat) {
    predicate Covers(v: int) {
      first <= v < first + count
    }
  }

  datatype Op = One(owner: nat) | Many(owner: nat, count: nat) | Drop(owner: nat)

  /** The grants in force are disjoint and account for every owned vector. */
  ghost predicate Ledger(grants: set<Grant>, infos: seq<Info>)
    requires |infos| == 208
  {
    && (forall g :: g in grants ==> g.owner != 0 && 48 <= g.first && g.first + g.count <= 256)
    && (forall g, v :: g in grants && g.Covers(v) ==> OwnerOf(infos, v) == g.owner)
    && (forall g, h, v :: g in grants && h in grants && g.Covers(v) && h.Covers(v) ==> g == h)
    && (forall v :: 48 <= v < 256 && OwnerOf(infos, v) != 0 ==> exists g :: g in grants && g.Covers(v))
  }

  lemma LedgerGrant(grants: set<Grant>, infos: seq<Info>, infos': seq<Info>, g: Grant)
    requires |infos| == |infos'| == 208 && Ledger(grants, infos)
    requires g.owner != 0 && 48 <= g.first && 1 <= g.count && g.first + g.count <= 256
    requires Unowned(infos, g.first, g.count)
    requires forall v :: 48 <= v < 256 ==> OwnerOf(infos', v) == if g.Covers(v) then g.owner else OwnerOf(infos, v)
    ensures Ledger(grants + {g}, infos')
  {
    forall v | 48 <= v < 256 && OwnerOf(infos', v) != 0
      ensures exists h :: h in grants + {g} && h.Covers(v)
    {
      if !g.Covers(v) {
        var h :| h in grants && h.Covers(v);
        assert h in grants + {g};
      } else {
        assert g in grants + {g};
      }
    }
  }

  function Without(grants: set<Grant>, owner: nat): set<Grant> {
    set g | g in grants && g.owner != owner
  }

  lemma LedgerDrop(grants: set<Grant>, infos: seq<Info>, infos': seq<Info>, owner: nat)
    requires |infos| == |infos'| == 208 && Ledger(grants, infos) && owner != 0
    requires forall v :: 48 <= v < 256 ==>
      OwnerOf(infos', v) == if OwnerOf(infos, v) == owner then 0 else OwnerOf(infos, v)
    ensures Ledger(Without(grants, owner), infos')
  {
    forall v | 48 <= v < 256 && OwnerOf(infos', v) != 0
      ensures exists h :: h in Without(grants, owner) && h.Covers(v)
    {
      var h :| h in grants && h.Covers(v);
      assert h in Without(grants, owner);
    }
  }

  /** What a run can see: the bitmap, the slots and the grants in force. */
  datatype State = State(words: seq<Word>, infos: seq<Info>, grants: set<Grant>)

  /** The bits agree with the slots, and the slots with the grants, no two of which share a vector. */
  ghost predicate Good(s: State) {
    Consistent(s.words, s.infos) && Ledger(s.grants, s.infos)
  }

  predicate SoundOp(s: State, op: Op) {
    op.Many? ==> SoundRequest(s.words, op.count)
  }

  /** `first` is none and nothing changes, or the vectors from `first` on had no owner and are granted. */
  ghost predicate Granted(s: State, owner: nat, count: nat, first: Option<nat>, s': State)
    requires |s.infos| == 208
  {
    match first
    case None => s' == s
    case Some(v) =>
      && 48 <= v && v + count <= 256 && Unowned(s.infos, v, count)
      && s'.infos == Given(s.infos, v, count, owner) && s'.grants == s.grants + {Grant(owner, v, count)}
  }

  /** What each sound request does. */
  ghost predicate Step(s: State, op: Op, s': State)
    requires Good(s) && SoundOp(s, op)
  {
    match op
    case One(owner) => Granted(s, owner, 1, LowestFree(s.infos, 48), s')
    case Many(owner, count) => Granted(s, owner, count, Placement(s.words, s.infos, count), s')
    case Drop(owner) => s'.infos == Released(s.infos, owner, 208) && s'.grants == Without(s.grants, owner)
  }

  /** `history` is a run of `ops`, all sound where they were made, each step as it should be. */
  ghost predicate Served(ops: seq<Op>, history: seq<State>) {
    && |history| == |ops| + 1
    && (forall i :: 0 <= i < |history| ==> Good(history[i]))
    && (forall i :: 0 <= i < |ops| ==> SoundOp(history[i], ops[i]) && Step(history[i], ops[i], history[i + 1]))
  }

  lemma ServedMore(ops: seq<Op>, history: seq<State>, n: nat, s: State)
    requires n < |ops| && Served(ops[..n], history) && Good(s)
    requires SoundOp(history[n], ops[n]) && Step(history[n], ops[n], s)
    ensures Served(ops[..n + 1], history + [s])
  {
    hide Good, SoundOp, Step;
  }

  lemma GrantedLedger(s: State, owner: nat, count: nat, v: nat)
    requires |s.infos| == 208 && Ledger(s.grants, s.infos) && owner != 0 && count >= 1
    requires 48 <= v && v + count <= 256 && Unowned(s.infos, v, count)
    ensures Ledger(s.grants + {Grant(owner, v, count)}, Given(s.infos, v, count, owner))
  {
    LedgerGrant(s.grants, s.infos, Given(s.infos, v, count, owner), Grant(owner, v, count));
  }

  /** One request; an unsound one is made too, but then nothing is promised about the table. */
  method ServeOp(table: InterruptTable, op: Op, ghost s: State) returns (ok: bool, ghost s': State)
    requires s.words == table.bitmap[..] && s.infos == table.handlers[..] && Good(s)
    requires op.owner != 0 && (op.Many? ==> op.count < 256)
    modifies table.bitmap, table.handlers
    ensures ok <==> SoundOp(s, op)
    ensures ok ==> s'.words == table.bitmap[..] && s'.infos == table.handlers[..] && Good(s') && Step(s, op, s')
  {
    hide Consistent, Ledger, Unowned, Given, Candidate, LowestFree, Without, Released;
    Shape(table.bitmap[..], table.handlers[..]);
    match op
    case One(owner) =>
      var r := table.AllocateVector(owner);
      ok, s' := true, s;
      if r.Some? {
        UnownedOne(s.infos, r.value);
        GrantedLedger(s, owner, 1, r.value);
        s' := State(table.bitmap[..], table.handlers[..], s.grants + {Grant(owner, r.value, 1)});
      }
    case Many(owner, count) =>
      ok, s' := SoundRequest(table.bitmap[..], count), s;
      var r := table.AllocateVectors(owner, count);
      if ok && r.Slots? {
        GrantedLedger(s, owner, count, r.first);
        s' := State(table.bitmap[..], table.handlers[..], s.grants + {Grant(owner, r.first, count)});
      }
    case Drop(owner) =>
      table.DeregisterOwner(owner);
      ReleasedAll(s.infos, owner);
      LedgerDrop(s.grants, s.infos, table.handlers[..], owner);
      ok, s' := true, State(table.bitmap[..], table.handlers[..], Without(s.grants, owner));
  }

  lemma UnownedOne(infos: seq<Info>, v: nat)
    requires |infos| == 208 && 48 <= v < 256 && OwnerOf(infos, v) == 0
    ensures Unowned(infos, v, 1)
  {
  }

  lemma ReleasedAll(infos: seq<Info>, owner: nat)
    requires |infos| == 208
    ensures forall v :: 48 <= v < 256 ==>
      OwnerOf(Released(infos, owner, 208), v) == if OwnerOf(infos, v) == owner then 0 else OwnerOf(infos, v)
  {
  }

  /**
   Any run of requests, made until one turns out not to be sound: every state on the way is right, and every request
   does exactly what it should.
   */
  method Serve(table: InterruptTable, ops: seq<Op>) returns (done: nat, ghost history: seq<State>)
    requires table.Valid() && forall v :: 48 <= v < 256 ==> OwnerOf(table.handlers[..], v) == 0
    requires forall op :: op in ops ==> op.owner != 0 && (op.Many? ==> op.count < 256)
    modifies table.bitmap, table.handlers
    ensures done <= |ops| && Served(ops[..done], history)
    ensures history[0] == State(old(table.bitmap[..]), old(table.handlers[..]), {})
    ensures done < |ops| ==> !SoundOp(history[done], ops[done])
    ensures done == |ops| ==> table.bitmap[..] == history[done].words && table.handlers[..] == history[done].infos
  {
    hide Consistent, Ledger, SoundOp, Step;
    Shape(table.bitmap[..], table.handlers[..]);
    ghost var s := State(table.bitmap[..], table.handlers[..], {});
    LedgerNone(s.infos);
    done, history := 0, [s];
    while done < |ops|
      invariant 0 <= done <= |ops| && Served(ops[..done], history) && history[done] == s
      invariant history[0] == State(old(table.bitmap[..]), old(table.handlers[..]), {})
      invariant table.bitmap[..] == s.words && table.handlers[..] == s.infos
    {
      var ok;
      ghost var s';
      ok, s' := ServeOp(table, ops[done], s);
      if !ok {
        return;
      }
      ServedMore(ops, history, done, s');
      history, s := history + [s'], s';
      done := done + 1;
    }
  }

  lemma LedgerNone(infos: seq<Info>)
    requires |infos| == 208 && forall v :: 48 <= v < 256 ==> OwnerOf(infos, v) == 0
    ensures Ledger({}, infos)
  {
  }

  /** Over any run a grant stays in force until its owner is dropped, and no other grant ever covers its vectors. */
  lemma {:induction false} GrantLasts(ops: seq<Op>, history: seq<State>, g: Grant, i: nat, j: nat)
    requires Served(ops, history) && i <= j <= |ops| && g in history[i].grants
    requires forall k :: i <= k < j ==> ops[k] != Drop(g.owner)
    ensures g in history[j].grants
    ensures forall h, v :: h in history[j].grants && g.Covers(v) && h.Covers(v) ==> h == g
    decreases j - i
  {
    if i < j {
      GrantLasts(ops, history, g, i, j - 1);
      assert Step(history[j - 1], ops[j - 1], history[j]);
    }
    assert Good(history[j]);
  }
}
