/**
 The loader's condensed memory map: descriptors as the firmware's GetMemoryMap()
 lists them are merged with their neighbours and translated to the kernel's kinds.
 */
module MemoryMap {

  /** A descriptor of the firmware: its type number, first byte and length in pages. */
  datatype Descriptor = Descriptor(efiType: nat, start: nat, pages: nat) {
    function End(): nat {
      start + pages * 4096
    }
  }

  datatype Kind = Available | Reserved | AcpiReclaimable | Nvs | BadRam | Mmio

  /** An entry of the map handed to the kernel. */
  datatype Entry = Entry(addr: nat, len: nat, kind: Kind) {
    function End(): nat {
      addr + len * 4096
    }
  }

  function KindOf(efiType: nat): Kind {
    match efiType
    case 7 => Available
    case 8 => BadRam
    case 9 => AcpiReclaimable
    case 10 => Nvs
    case 11 => Mmio
    case 12 => Mmio
    case _ => Reserved
  }

  function Translated(d: Descriptor): Entry {
    Entry(d.start, d.pages, KindOf(d.efiType))
  }

  function Hits(e: Entry, kind: Kind, x: nat): nat {
    if e.kind == kind && e.addr <= x < e.End() then 1 else 0
  }

  /** How many entries say that byte `x` is of a kind. */
  function Cover(es: seq<Entry>, kind: Kind, x: nat): nat {
    if es == [] then 0 else Cover(es[..|es| - 1], kind, x) + Hits(es[|es| - 1], kind, x)
  }

  /** The descriptors one by one, before any merging. */
  function Plain(ds: seq<Descriptor>): (es: seq<Entry>)
    ensures |es| == |ds|
    ensures forall i :: 0 <= i < |ds| ==> es[i] == Translated(ds[i])
  {
    if ds == [] then [] else Plain(ds[..|ds| - 1]) + [Translated(ds[|ds| - 1])]
  }

  function Pages(es: seq<Entry>): nat {
    if es == [] then 0 else Pages(es[..|es| - 1]) + es[|es| - 1].len
  }

  /** The bytes of the entries of a kind. */
  function Bytes(es: seq<Entry>, kind: Kind): nat {
    if es == [] then 0
    else Bytes(es[..|es| - 1], kind) + if es[|es| - 1].kind == kind then es[|es| - 1].len * 4096 else 0
  }

  /** The pages are those of the six kinds together. */
  lemma {:induction false} PagesByKind(es: seq<Entry>)
    ensures Pages(es) * 4096 == Bytes(es, Available) + Bytes(es, Reserved) + Bytes(es, AcpiReclaimable)
                                + Bytes(es, Nvs) + Bytes(es, BadRam) + Bytes(es, Mmio)
  {
    if es != [] {
      PagesByKind(es[..|es| - 1]);
    }
  }

  /** `top` is the highest end, or zero when there is nothing. */
  ghost predicate Highest(ds: seq<Descriptor>, top: nat) {
    && (forall i :: 0 <= i < |ds| ==> ds[i].End() <= top)
    && (top == 0 || exists i :: 0 <= i < |ds| && ds[i].End() == top)
  }

  /** The same byte-by-byte picture and the same page count. */
  ghost predicate SamePicture(es: seq<Entry>, fs: seq<Entry>) {
    && (forall kind, x: nat :: Cover(es, kind, x) == Cover(fs, kind, x))
    && (forall kind :: Bytes(es, kind) == Bytes(fs, kind))
    && Pages(es) == Pages(fs)
  }

  lemma SameAppend(es: seq<Entry>, fs: seq<Entry>, e: Entry)
    requires SamePicture(es, fs)
    ensures SamePicture(es + [e], fs + [e])
  {
    assert (es + [e])[..|es|] == es;
    assert (fs + [e])[..|fs|] == fs;
    forall kind
      ensures Bytes(es + [e], kind) == Bytes(fs + [e], kind)
    {
      assert Bytes(es, kind) == Bytes(fs, kind);
    }
    assert Pages(es + [e]) == Pages(es) + e.len;
    assert Pages(fs + [e]) == Pages(fs) + e.len;
  }

  /** Lengthening the last entry says the same as adding an entry that starts where it ends. */
  lemma SameExtend(es: seq<Entry>, fs: seq<Entry>, e: Entry)
    requires SamePicture(es, fs)
    requires es != []
    requires es[|es| - 1].kind == e.kind && es[|es| - 1].End() == e.addr
    ensures var last := es[|es| - 1];
            SamePicture(es[|es| - 1 := last.(len := last.len + e.len)], fs + [e])
  {
    var k := |es| - 1;
    var longer := es[k].(len := es[k].len + e.len);
    var es' := es[k := longer];
    assert es'[..k] == es[..k];
    assert (fs + [e])[..|fs|] == fs;
    forall kind, x: nat
      ensures Cover(es', kind, x) == Cover(fs + [e], kind, x)
    {
      assert Hits(longer, kind, x) == Hits(es[k], kind, x) + Hits(e, kind, x);
    }
    forall kind
      ensures Bytes(es', kind) == Bytes(fs + [e], kind)
    {
      assert Bytes(es, kind) == Bytes(fs, kind);
    }
  }

  /** Everything the merge loop keeps about the descriptors it has seen. */
  ghost predicate Merged(ds: seq<Descriptor>, entries: seq<Entry>, totalMemory: nat, top: nat) {
    && SamePicture(entries, Plain(ds))
    && |entries| == Breaks(ds) <= |ds|
    && totalMemory == Bytes(Plain(ds), Available)
    && Highest(ds, top)
    && (ds != [] ==>
          && entries != []
          && entries[|entries| - 1].kind == KindOf(ds[|ds| - 1].efiType)
          && entries[|entries| - 1].End() == ds[|ds| - 1].End())
  }

  /** The descriptor continues the one before it. */
  predicate Continues(prev: Descriptor, d: Descriptor) {
    d.efiType == prev.efiType && prev.End() == d.start
  }

  /** How many descriptors do not continue the one before. */
  function Breaks(ds: seq<Descriptor>): nat {
    if ds == [] then 0
    else Breaks(ds[..|ds| - 1]) + if |ds| > 1 && Continues(ds[|ds| - 2], ds[|ds| - 1]) then 0 else 1
  }

  lemma BreaksNext(ds: seq<Descriptor>, i: nat)
    requires i < |ds|
    ensures Breaks(ds[..i + 1]) == Breaks(ds[..i]) + if i > 0 && Continues(ds[i - 1], ds[i]) then 0 else 1
  {
    assert ds[..i + 1][..i] == ds[..i];
  }

  function WithLast(entries: seq<Entry>, d: Descriptor): seq<Entry>
    requires entries != []
  {
    var last := |entries| - 1;
    entries[last := entries[last].(len := entries[last].len + d.pages)]
  }

  /** One more descriptor, merged or not. */
  lemma MergedNext(ds: seq<Descriptor>, i: nat, entries: seq<Entry>, totalMemory: nat, top: nat, entries': seq<Entry>)
    requires i < |ds|
    requires Merged(ds[..i], entries, totalMemory, top)
    requires if i > 0 && Continues(ds[i - 1], ds[i]) then entries != [] && entries' == WithLast(entries, ds[i])
             else entries' == entries + [Translated(ds[i])]
    ensures Merged(ds[..i + 1], entries',
                   totalMemory + (if ds[i].efiType == 7 then ds[i].pages * 4096 else 0),
                   if ds[i].End() > top then ds[i].End() else top)
  {
    hide SamePicture, Plain, Bytes, Highest, Breaks;
    NextPrefix(ds, i, top);
    BreaksNext(ds, i);
    if i > 0 && Continues(ds[i - 1], ds[i]) {
      SameExtend(entries, Plain(ds[..i]), Translated(ds[i]));
    } else {
      SameAppend(entries, Plain(ds[..i]), Translated(ds[i]));
    }
  }

  /**
   The merge loop. `mmapSize` and `descSize` are the byte sizes the firmware
   reports; `grew` tells whether the map had to be reallocated on the way.
   */
  method Merge(ds: seq<Descriptor>, mmapSize: nat, descSize: nat)
    returns (entries: seq<Entry>, totalMemory: nat, top: nat, grew: bool)
    requires descSize > 0
    requires |ds| * descSize >= mmapSize && (ds != [] ==> (|ds| - 1) * descSize < mmapSize)
    ensures SamePicture(entries, Plain(ds))
    ensures |entries| == Breaks(ds) <= |ds|
    ensures Numbered(ds, entries)
    ensures totalMemory == Bytes(Plain(ds), Available)
    ensures Highest(ds, top)
    ensures mmapSize % descSize == 0 ==> !grew
  {
    hide Merged, SamePicture, Highest, Bytes, Plain, Breaks, Numbered;
    var n, k, i := 0, 0, 0;
    var predicted := mmapSize / descSize;
    entries, totalMemory, top, grew := [], 0, 0, false;
    MergedNone(ds);
    while n < mmapSize
      invariant 0 <= i <= |ds| && n == i * descSize
      invariant k == |entries| <= i && (i > 0 ==> k > 0)
      invariant Merged(ds[..i], entries, totalMemory, top)
      invariant mmapSize % descSize == 0 ==> !grew
      decreases |ds| - i
    {
      InRange(i, |ds|, descSize, mmapSize);
      var d := ds[i];
      ghost var entries0 := entries;
      if i > 0 && d.efiType == ds[i - 1].efiType && ds[i - 1].start + ds[i - 1].pages * 4096 == d.start {
        entries := entries[k - 1 := entries[k - 1].(len := entries[k - 1].len + d.pages)];
      } else {
        grew := grew || k >= predicted;
        entries := entries + [Entry(d.start, d.pages, KindOf(d.efiType))];
        k := k + 1;
      }
      MergedNext(ds, i, entries0, totalMemory, top, entries);
      n := n + descSize;
      if d.efiType == 7 {
        totalMemory := totalMemory + d.pages * 4096;
      }
      var end := d.start + d.pages * 4096;
      if end > top {
        top := end;
      }
      i := i + 1;
    }
    Finished(i, |ds|, descSize, mmapSize);
    assert ds[..i] == ds;
    MergedParts(ds, entries, totalMemory, top);
    AllByNumber(ds, entries);
  }

  lemma MergedNone(ds: seq<Descriptor>)
    ensures Merged(ds[..0], [], 0, 0)
  {
  }

  lemma MergedParts(ds: seq<Descriptor>, entries: seq<Entry>, totalMemory: nat, top: nat)
    requires Merged(ds, entries, totalMemory, top)
    ensures SamePicture(entries, Plain(ds)) && |entries| == Breaks(ds) <= |ds|
    ensures totalMemory == Bytes(Plain(ds), Available) && Highest(ds, top)
  {
  }

  lemma Times(a: nat, b: nat, c: nat)
    requires a <= b
    ensures a * c <= b * c
  {
  }

  lemma InRange(i: nat, count: nat, descSize: nat, mmapSize: nat)
    requires descSize > 0 && i * descSize < mmapSize <= count * descSize
    ensures i < count && (mmapSize % descSize == 0 ==> i < mmapSize / descSize)
  {
    if count <= i {
      Times(count, i, descSize);
    }
    var q := mmapSize / descSize;
    assert mmapSize == q * descSize + mmapSize % descSize;
    if q <= i {
      Times(q, i, descSize);
    }
  }

  lemma Finished(i: nat, count: nat, descSize: nat, mmapSize: nat)
    requires descSize > 0 && i <= count && mmapSize <= i * descSize
    requires count > 0 ==> (count - 1) * descSize < mmapSize
    ensures i == count
  {
    if i < count {
      Times(i, count - 1, descSize);
    }
  }

  lemma NextPrefix(ds: seq<Descriptor>, i: nat, top: nat)
    requires i < |ds|
    requires Highest(ds[..i], top)
    ensures Plain(ds[..i + 1]) == Plain(ds[..i]) + [Translated(ds[i])]
    ensures Bytes(Plain(ds[..i + 1]), Available)
            == Bytes(Plain(ds[..i]), Available) + if ds[i].efiType == 7 then ds[i].pages * 4096 else 0
    ensures Highest(ds[..i + 1], if ds[i].End() > top then ds[i].End() else top)
  {
    hide Bytes, Highest, Descriptor.End, Entry.End;
    assert ds[..i + 1][..i] == ds[..i];
    assert ds[..i + 1][i] == ds[i];
    BytesNext(Plain(ds[..i]), Translated(ds[i]));
    HighestNext(ds, i, top);
  }

  lemma BytesNext(es: seq<Entry>, e: Entry)
    ensures Bytes(es + [e], Available) == Bytes(es, Available) + if e.kind == Available then e.len * 4096 else 0
  {
    assert (es + [e])[..|es|] == es;
  }

  lemma HighestNext(ds: seq<Descriptor>, i: nat, top: nat)
    requires i < |ds| && Highest(ds[..i], top)
    ensures Highest(ds[..i + 1], if ds[i].End() > top then ds[i].End() else top)
  {
    hide Descriptor.End;
    assert ds[..i + 1][i] == ds[i];
    if top > 0 {
      var j :| 0 <= j < i && ds[..i][j].End() == top;
      assert ds[..i + 1][j].End() == top;
    }
  }

  /** Some entry says that byte `x` is of a kind. */
  ghost predicate Says(es: seq<Entry>, kind: Kind, x: nat) {
    exists i :: 0 <= i < |es| && Hits(es[i], kind, x) == 1
  }

  ghost predicate Disjoint(es: seq<Entry>) {
    forall i, j :: 0 <= i < j < |es| ==> es[i].End() <= es[j].addr || es[j].End() <= es[i].addr
  }

  lemma {:induction false} CoverSays(es: seq<Entry>, kind: Kind, x: nat)
    ensures Cover(es, kind, x) > 0 <==> Says(es, kind, x)
  {
    if es != [] {
      var k := |es| - 1;
      CoverSays(es[..k], kind, x);
      if Says(es[..k], kind, x) {
        var i :| 0 <= i < k && Hits(es[..k][i], kind, x) == 1;
        assert Hits(es[i], kind, x) == 1;
      }
      if Says(es, kind, x) && Hits(es[k], kind, x) == 0 {
        var i :| 0 <= i < |es| && Hits(es[i], kind, x) == 1;
        assert Hits(es[..k][i], kind, x) == 1;
      }
    }
  }

  /** The entries give byte `x` the kind that belongs to a type number of the firmware. */
  ghost predicate ByNumber(es: seq<Entry>, efiType: nat, x: nat) {
    && (efiType == 7 ==> Says(es, Available, x))
    && (efiType == 8 ==> Says(es, BadRam, x))
    && (efiType == 9 ==> Says(es, AcpiReclaimable, x))
    && (efiType == 10 ==> Says(es, Nvs, x))
    && (efiType == 11 || efiType == 12 ==> Says(es, Mmio, x))
    && (efiType < 7 || efiType > 12 ==> Says(es, Reserved, x))
  }

  lemma {:induction false} KindsByNumber(ds: seq<Descriptor>, entries: seq<Entry>, i: nat, x: nat)
    requires SamePicture(entries, Plain(ds)) && i < |ds| && ds[i].start <= x < ds[i].End()
    ensures ByNumber(entries, ds[i].efiType, x)
  {
    var kind := KindOf(ds[i].efiType);
    assert Hits(Plain(ds)[i], kind, x) == 1;
    CoverSays(Plain(ds), kind, x);
    CoverSays(entries, kind, x);
  }

  /** Every byte of every descriptor is given the kind that belongs to the descriptor's type number. */
  ghost predicate Numbered(ds: seq<Descriptor>, entries: seq<Entry>) {
    forall i, x: nat :: 0 <= i < |ds| && ds[i].start <= x < ds[i].End() ==> ByNumber(entries, ds[i].efiType, x)
  }

  lemma {:induction false} AllByNumber(ds: seq<Descriptor>, entries: seq<Entry>)
    requires SamePicture(entries, Plain(ds))
    ensures Numbered(ds, entries)
  {
    forall i, x: nat | 0 <= i < |ds| && ds[i].start <= x < ds[i].End()
      ensures ByNumber(entries, ds[i].efiType, x)
    {
      KindsByNumber(ds, entries, i, x);
    }
  }

  /**
   When the firmware's descriptors do not overlap, the merged map gives each byte
   exactly the one kind that its descriptor gives it.
   */
  lemma KindFunctionPreserved(ds: seq<Descriptor>, entries: seq<Entry>, x: nat)
    requires SamePicture(entries, Plain(ds))
    requires Disjoint(Plain(ds))
    ensures forall kind :: Says(entries, kind, x) <==> Says(Plain(ds), kind, x)
    ensures forall kind, kind' :: Says(entries, kind, x) && Says(entries, kind', x) ==> kind == kind'
  {
    forall kind
      ensures Says(entries, kind, x) <==> Says(Plain(ds), kind, x)
    {
      CoverSays(entries, kind, x);
      CoverSays(Plain(ds), kind, x);
    }
    forall kind, kind' | Says(Plain(ds), kind, x) && Says(Plain(ds), kind', x)
      ensures kind == kind'
    {
      var i :| 0 <= i < |ds| && Hits(Plain(ds)[i], kind, x) == 1;
      var j :| 0 <= j < |ds| && Hits(Plain(ds)[j], kind', x) == 1;
      assert i == j;
    }
  }
}
