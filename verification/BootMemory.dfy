/**
 The loader from the firmware's memory map to the page tables: the highest end found while
 merging decides how many pages are mapped to themselves.
 */
module BootMemory {

  import opened MemoryMap
  import P = PageTables

  /** The firmware hands out whole pages. */
  ghost predicate Aligned(ds: seq<Descriptor>) {
    forall i :: 0 <= i < |ds| ==> ds[i].start % 4096 == 0
  }

  lemma TopIsWhole(ds: seq<Descriptor>, top: nat)
    requires Aligned(ds) && Highest(ds, top)
    ensures top / 4096 * 4096 == top
  {
    if top > 0 {
      var i :| 0 <= i < |ds| && ds[i].End() == top;
      assert top == (ds[i].start / 4096 + ds[i].pages) * 4096;
    }
  }

  /** Every byte that the merged map gives a kind is one the page tables map to itself. */
  lemma DescribedIsMapped(ds: seq<Descriptor>, entries: seq<Entry>, top: nat,
                          mem: seq<P.Entry>, base: nat, kind: Kind, x: nat)
    requires Aligned(ds) && SamePicture(entries, Plain(ds)) && Highest(ds, top)
    requires top <= 0x1_0000_0000_0000 && P.IdentityMap(mem, base, top / 4096)
    requires Says(entries, kind, x)
    ensures P.Translate(mem, base, x) == P.Mapped(x)
  {
    CoverSays(entries, kind, x);
    CoverSays(Plain(ds), kind, x);
    var i :| 0 <= i < |ds| && Hits(Plain(ds)[i], kind, x) == 1;
    assert x < ds[i].End() <= top;
    TopIsWhole(ds, top);
  }
}
