/**
 The four-level page tables that the boot loader builds, after section 4.5 of
 volume 3A of the Intel Software Developer's Manual.

 The tables live in one block of frames obtained from the firmware. The block is
 one flat array of entries, as it is for the loader, and a table pointer is the
 number of its frame inside the block; the frame's physical number is `base` more.
 */
module PageTables {
  import opened Common

  /** Pages in a 48-bit address space, and page numbers that the 36-bit field of an entry holds. */
  const MAX_PAGES: nat := 0x10_0000_0000

  datatype Entry = Entry(present: bool, write: bool, user: bool, large: bool, pfn: nat)

  /** What a hardware walk comes to. `Astray` is a walk that leaves the block of tables. */
  datatype Walked = Unmapped | Mapped(pfn: nat) | Large | Astray

  /** The table of a given level (1 is a page table, 4 the root) that covers the `num`-th stretch of its size. */
  datatype Table = Table(level: nat, num: nat)

  const ROOT: Table := Table(4, 0)

  /** The number of pages below one table of a level. */
  function Span(level: nat): (n: nat)
    requires level <= 4
    ensures n > 0
  {
    match level
    case 0 => 1
    case 1 => 0x200
    case 2 => 0x4_0000
    case 3 => 0x800_0000
    case 4 => 0x10_0000_0000
  }

  function Home(level: nat, vpn: nat): (t: Table)
    requires level <= 4
    ensures t.level == level
  {
    Table(level, vpn / Span(level))
  }

  /** The nine index bits of a virtual page number that a level uses. */
  function Slot(level: nat, vpn: nat): (j: nat)
    requires 1 <= level <= 4
    ensures j < 512
  {
    (vpn / Span(level - 1)) % 512
  }

  /** The index fields of a 48-bit address, nine bits each above the twelve of the offset. */
  lemma IndexBits(addr: nat)
    ensures Slot(1, addr / 4096) == addr / 0x1000 % 512
    ensures Slot(2, addr / 4096) == addr / 0x20_0000 % 512
    ensures Slot(3, addr / 4096) == addr / 0x4000_0000 % 512
    ensures Slot(4, addr / 4096) == addr / 0x80_0000_0000 % 512
  {
    DivSpan(addr, 1);
    DivSpan(addr, 2);
    DivSpan(addr, 3);
  }

  lemma DivSpan(addr: nat, level: nat)
    requires level <= 3
    ensures addr / 4096 / Span(level) == addr / (4096 * Span(level))
  {
  }

  function Child(t: Table, j: nat): Table
    requires t.level > 0
  {
    Table(t.level - 1, t.num * 512 + j)
  }

  lemma ChildHome(level: nat, vpn: nat)
    requires 1 <= level <= 4
    ensures Child(Home(level, vpn), Slot(level, vpn)) == Home(level - 1, vpn)
    ensures Home(level, vpn) == Table(level, Home(level - 1, vpn).num / 512)
    ensures level == 1 ==> Home(1, vpn).num * 512 + Slot(1, vpn) == vpn
  {
  }

  /** The processor's walk from the table in `frame`. */
  function Walk(mem: seq<Entry>, base: nat, frame: nat, level: nat, vpn: nat): Walked
    requires 1 <= level <= 4
    decreases level
  {
    if (frame + 1) * 512 > |mem| then Astray
    else
      var e := EntryAt(mem, frame, Slot(level, vpn));
      if !e.present then Unmapped
      else if level == 1 then Mapped(e.pfn)
      else if e.large then Large
      else if e.pfn < base then Astray
      else Walk(mem, base, e.pfn - base, level - 1, vpn)
  }

  /**
   What entry `j` of table `t` has to be when `frames` are the tables in use and `pages` is the
   mapping. The page-size bit is the loader's own only in page directories.
   */
  ghost predicate EntryOk(e: Entry, base: nat, frames: map<Table, nat>, pages: map<nat, nat>, t: Table, j: nat)
    requires t.level > 0
  {
    if t.level == 1 then
      var p := t.num * 512 + j;
      if p in pages then e.present && e.write && !e.user && e.pfn == pages[p] else !e.present
    else
      var c := Child(t, j);
      if c in frames then e.present && e.write && !e.user && (t.level == 2 ==> !e.large) && e.pfn == base + frames[c]
      else !e.present
  }

  function EntryAt(mem: seq<Entry>, frame: nat, j: nat): Entry
    requires (frame + 1) * 512 <= |mem| && j < 512
  {
    mem[frame * 512 + j]
  }

  ghost predicate TableOk(mem: seq<Entry>, base: nat, frames: map<Table, nat>, pages: map<nat, nat>, t: Table)
    requires t in frames && t.level > 0 && (frames[t] + 1) * 512 <= |mem|
  {
    forall j :: 0 <= j < 512 ==> EntryOk(EntryAt(mem, frames[t], j), base, frames, pages, t, j)
  }

  /** `frames` is a tree of tables below the root, each in a frame of its own among the first `used + 1`. */
  ghost predicate Tree(frames: map<Table, nat>, used: nat) {
    && ROOT in frames && frames[ROOT] == 0
    && (forall t :: t in frames ==> 1 <= t.level <= 4 && frames[t] <= used)
    && (forall t :: t in frames && t.level == 4 ==> t == ROOT)
    && (forall t :: t in frames && t.level < 4 ==> Table(t.level + 1, t.num / 512) in frames)
    && (forall t, u :: t in frames && u in frames && t != u ==> frames[t] != frames[u])
  }

  /** The block holds exactly the tables `frames` and they map exactly `pages`. */
  ghost predicate Holds(mem: seq<Entry>, base: nat, frames: map<Table, nat>, used: nat, pages: map<nat, nat>) {
    && Tree(frames, used)
    && (used + 1) * 512 <= |mem|
    && (forall p :: p in pages ==> Home(1, p) in frames)
    && (forall t :: t in frames ==> TableOk(mem, base, frames, pages, t))
    && (forall k :: (used + 1) * 512 <= k < |mem| ==> !mem[k].present)
  }

  /** A mapped page has all its tables. */
  lemma {:induction false} HomesPresent(frames: map<Table, nat>, used: nat, level: nat, vpn: nat)
    requires 1 <= level <= 3
    requires Tree(frames, used)
    requires Home(level, vpn) in frames
    ensures Home(level + 1, vpn) in frames
  {
    ChildHome(level + 1, vpn);
  }

  /** An entry on the way to a page, in the root or a table below it, still has a page-size bit from before. */
  ghost predicate StaleAt(mem: seq<Entry>, frames: map<Table, nat>, level: nat, vpn: nat)
    requires 2 <= level <= 4
  {
    && Home(level, vpn) in frames && Home(level - 1, vpn) in frames && (frames[Home(level, vpn)] + 1) * 512 <= |mem|
    && EntryAt(mem, frames[Home(level, vpn)], Slot(level, vpn)).large
  }

  ghost predicate Blocked(mem: seq<Entry>, frames: map<Table, nat>, level: nat, vpn: nat) {
    (level >= 3 && StaleAt(mem, frames, 3, vpn)) || (level >= 4 && StaleAt(mem, frames, 4, vpn))
  }

  /** The hardware's walk of the block is the mapping, except where a stale page-size bit ends it early. */
  lemma {:induction false} WalkIsMapping(mem: seq<Entry>, base: nat, frames: map<Table, nat>, used: nat,
                                         pages: map<nat, nat>, level: nat, vpn: nat)
    requires Holds(mem, base, frames, used, pages)
    requires 1 <= level <= 4 && Home(level, vpn) in frames
    ensures Walk(mem, base, frames[Home(level, vpn)], level, vpn)
            == if Blocked(mem, frames, level, vpn) then Large else if vpn in pages then Mapped(pages[vpn]) else Unmapped
    decreases level
  {
    hide Holds, Home, Slot, Tree;
    ChildHome(level, vpn);
    EntryFor(mem, base, frames, used, pages, level, vpn);
    if level > 1 {
      if Home(level - 1, vpn) in frames {
        WalkIsMapping(mem, base, frames, used, pages, level - 1, vpn);
      } else {
        NoTableNoPage(mem, base, frames, used, pages, level - 1, vpn);
        HoldsTree(mem, base, frames, used, pages);
        NotBlocked(mem, frames, used, level, vpn);
      }
    }
  }

  lemma NotBlocked(mem: seq<Entry>, frames: map<Table, nat>, used: nat, level: nat, vpn: nat)
    requires Tree(frames, used) && 2 <= level <= 4 && Home(level - 1, vpn) !in frames
    ensures !Blocked(mem, frames, level, vpn)
  {
    if level == 4 && Home(2, vpn) in frames {
      HomesPresent(frames, used, 2, vpn);
    }
  }

  lemma EntryFor(mem: seq<Entry>, base: nat, frames: map<Table, nat>, used: nat,
                 pages: map<nat, nat>, level: nat, vpn: nat)
    requires Holds(mem, base, frames, used, pages)
    requires 1 <= level <= 4 && Home(level, vpn) in frames
    ensures var t := Home(level, vpn);
            && (frames[t] + 1) * 512 <= |mem|
            && EntryOk(EntryAt(mem, frames[t], Slot(level, vpn)), base, frames, pages, t, Slot(level, vpn))
  {
    assert TableOk(mem, base, frames, pages, Home(level, vpn));
  }

  lemma NoTableNoPage(mem: seq<Entry>, base: nat, frames: map<Table, nat>, used: nat,
                      pages: map<nat, nat>, level: nat, vpn: nat)
    requires Holds(mem, base, frames, used, pages)
    requires 1 <= level <= 3 && Home(level, vpn) !in frames
    ensures vpn !in pages
  {
    if vpn in pages {
      if level > 1 {
        HomesPresent(frames, used, 1, vpn);
        if level > 2 {
          HomesPresent(frames, used, 2, vpn);
        }
      }
    }
  }

  /** Writing one entry leaves every other entry of every table alone. */
  lemma OneWrite(mem: seq<Entry>, frame: nat, j: nat, e: Entry, frame': nat, j': nat)
    requires (frame + 1) * 512 <= |mem| && j < 512
    requires (frame' + 1) * 512 <= |mem| && j' < 512
    ensures EntryAt(mem[frame * 512 + j := e], frame', j')
            == if frame' == frame && j' == j then e else EntryAt(mem, frame', j')
  {
  }

  lemma TreeGrows(frames: map<Table, nat>, used: nat, t: Table, j: nat)
    requires Tree(frames, used)
    requires t in frames && t.level > 1 && j < 512 && Child(t, j) !in frames
    ensures Tree(frames[Child(t, j) := used + 1], used + 1)
    ensures forall i :: 0 <= i < 512 && t.level > 2 ==> Child(Child(t, j), i) !in frames
  {
    var c := Child(t, j);
    assert Table(c.level + 1, c.num / 512) == t;
    forall i | 0 <= i < 512 && t.level > 2
      ensures Child(c, i) !in frames
    {
      var g := Child(c, i);
      assert Table(g.level + 1, g.num / 512) == c;
    }
  }

  lemma ChildInjective(t: Table, j: nat, u: Table, i: nat)
    requires t.level > 0 && u.level > 0 && j < 512 && i < 512
    ensures Child(t, j) == Child(u, i) ==> t == u && j == i
  {
  }

  /** Linking a fresh frame into a table adds one empty table and changes no translation. */
  lemma AddTable(mem: seq<Entry>, base: nat, frames: map<Table, nat>, used: nat, pages: map<nat, nat>,
                 t: Table, j: nat, e: Entry)
    requires Holds(mem, base, frames, used, pages)
    requires t in frames && t.level > 1 && j < 512 && Child(t, j) !in frames
    requires (used + 2) * 512 <= |mem|
    requires e.present && e.write && !e.user && (t.level == 2 ==> !e.large) && e.pfn == base + used + 1
    ensures Holds(mem[frames[t] * 512 + j := e], base, frames[Child(t, j) := used + 1], used + 1, pages)
  {
    hide TableOk, Home, Child;
    var c := Child(t, j);
    var mem', frames' := mem[frames[t] * 512 + j := e], frames[c := used + 1];
    TreeGrows(frames, used, t, j);
    assert forall k :: (used + 2) * 512 <= k < |mem| ==> mem'[k] == mem[k];
    forall u | u in frames'
      ensures TableOk(mem', base, frames', pages, u)
    {
      LinkedTable(mem, base, frames, used, pages, t, j, e, u);
    }
  }

  lemma HoldsFrame(mem: seq<Entry>, base: nat, frames: map<Table, nat>, used: nat, pages: map<nat, nat>, u: Table)
    requires Holds(mem, base, frames, used, pages) && u in frames
    ensures 1 <= u.level <= 4 && frames[u] <= used && (frames[u] + 1) * 512 <= |mem|
  {
  }

  lemma LinkedTable(mem: seq<Entry>, base: nat, frames: map<Table, nat>, used: nat, pages: map<nat, nat>,
                    t: Table, j: nat, e: Entry, u: Table)
    requires Holds(mem, base, frames, used, pages)
    requires t in frames && t.level > 1 && j < 512 && Child(t, j) !in frames
    requires (used + 2) * 512 <= |mem|
    requires e.present && e.write && !e.user && (t.level == 2 ==> !e.large) && e.pfn == base + used + 1
    requires u in frames || u == Child(t, j)
    ensures var frames' := frames[Child(t, j) := used + 1];
            && u.level > 0 && (frames'[u] + 1) * 512 <= |mem|
            && TableOk(mem[frames[t] * 512 + j := e], base, frames', pages, u)
  {
    hide EntryOk, EntryAt, Child, Holds;
    ChildLevel(t, j);
    HoldsFrame(mem, base, frames, used, pages, t);
    if u in frames {
      HoldsFrame(mem, base, frames, used, pages, u);
    }
    var mem', frames' := mem[frames[t] * 512 + j := e], frames[Child(t, j) := used + 1];
    forall i | 0 <= i < 512
      ensures EntryOk(EntryAt(mem', frames'[u], i), base, frames', pages, u, i)
    {
      OneWrite(mem, frames[t], j, e, frames'[u], i);
      if u == Child(t, j) {
        FreshEntry(mem, base, frames, used, pages, t, j, i);
      } else {
        OldEntry(mem, base, frames, used, pages, t, j, e, u, i);
      }
    }
  }

  lemma ChildLevel(t: Table, j: nat)
    requires t.level > 1
    ensures Child(t, j).level == t.level - 1
  {
  }

  /** Entries of the tables that were there already, after the link was written. */
  lemma OldEntry(mem: seq<Entry>, base: nat, frames: map<Table, nat>, used: nat, pages: map<nat, nat>,
                 t: Table, j: nat, e: Entry, u: Table, i: nat)
    requires Holds(mem, base, frames, used, pages)
    requires t in frames && t.level > 1 && j < 512 && Child(t, j) !in frames
    requires e.present && e.write && !e.user && (t.level == 2 ==> !e.large) && e.pfn == base + used + 1
    requires u in frames && i < 512
    ensures EntryOk(if frames[u] == frames[t] && i == j then e else EntryAt(mem, frames[u], i),
                    base, frames[Child(t, j) := used + 1], pages, u, i)
  {
    ChildInjective(t, j, u, i);
    assert TableOk(mem, base, frames, pages, u);
    assert EntryOk(EntryAt(mem, frames[u], i), base, frames, pages, u, i);
  }

  /** The entries of a frame not yet in use suit an empty table. */
  lemma FreshEntry(mem: seq<Entry>, base: nat, frames: map<Table, nat>, used: nat, pages: map<nat, nat>,
                   t: Table, j: nat, i: nat)
    requires Holds(mem, base, frames, used, pages)
    requires t in frames && t.level > 1 && j < 512 && i < 512 && Child(t, j) !in frames
    requires (used + 2) * 512 <= |mem|
    ensures EntryOk(EntryAt(mem, used + 1, i), base, frames[Child(t, j) := used + 1], pages, Child(t, j), i)
  {
    hide Holds, Tree, Home;
    var c := Child(t, j);
    FreshIsVacant(mem, base, frames, used, pages, i);
    if t.level == 2 {
      NotMappedYet(mem, base, frames, used, pages, c, i);
    } else {
      NoGrandchild(mem, base, frames, used, pages, t, j, i);
    }
  }

  lemma FreshIsVacant(mem: seq<Entry>, base: nat, frames: map<Table, nat>, used: nat, pages: map<nat, nat>, i: nat)
    requires Holds(mem, base, frames, used, pages)
    requires (used + 2) * 512 <= |mem| && i < 512
    ensures !EntryAt(mem, used + 1, i).present
  {
    assert !mem[(used + 1) * 512 + i].present;
  }

  lemma NotMappedYet(mem: seq<Entry>, base: nat, frames: map<Table, nat>, used: nat, pages: map<nat, nat>,
                     c: Table, i: nat)
    requires Holds(mem, base, frames, used, pages)
    requires c.level == 1 && c !in frames && i < 512
    ensures c.num * 512 + i !in pages
  {
    assert Home(1, c.num * 512 + i) == c;
  }

  lemma NoGrandchild(mem: seq<Entry>, base: nat, frames: map<Table, nat>, used: nat, pages: map<nat, nat>,
                     t: Table, j: nat, i: nat)
    requires Holds(mem, base, frames, used, pages)
    requires t in frames && t.level > 2 && j < 512 && i < 512 && Child(t, j) !in frames
    ensures Child(Child(t, j), i) !in frames && Child(Child(t, j), i) != Child(t, j)
  {
    TreeGrows(frames, used, t, j);
  }

  /** Writing a leaf entry changes the translation of that one page. */
  lemma SetPage(mem: seq<Entry>, base: nat, frames: map<Table, nat>, used: nat, pages: map<nat, nat>,
                p: nat, e: Entry)
    requires Holds(mem, base, frames, used, pages)
    requires Home(1, p) in frames
    requires e.present && e.write && !e.user
    ensures (frames[Home(1, p)] + 1) * 512 <= |mem|
    ensures Holds(mem[frames[Home(1, p)] * 512 + Slot(1, p) := e], base, frames, used, pages[p := e.pfn])
  {
    hide EntryOk, EntryAt, Home, Slot;
    var t, j := Home(1, p), Slot(1, p);
    var mem', pages' := mem[frames[t] * 512 + j := e], pages[p := e.pfn];
    forall u | u in frames
      ensures TableOk(mem', base, frames, pages', u)
    {
      assert TableOk(mem, base, frames, pages, u);
      forall i | 0 <= i < 512
        ensures EntryOk(EntryAt(mem', frames[u], i), base, frames, pages', u, i)
      {
        OneWrite(mem, frames[t], j, e, frames[u], i);
        PageEntry(EntryAt(mem, frames[u], i), base, frames, pages, p, e, u, i);
      }
    }
  }

  lemma PageEntry(was: Entry, base: nat, frames: map<Table, nat>, pages: map<nat, nat>, p: nat,
                  e: Entry, u: Table, i: nat)
    requires u.level > 0 && i < 512
    requires EntryOk(was, base, frames, pages, u, i)
    requires e.present && e.write && !e.user
    ensures EntryOk(if u == Home(1, p) && i == Slot(1, p) then e else was, base, frames, pages[p := e.pfn], u, i)
  {
    ChildHome(1, p);
    ChildInjective(Home(1, p), Slot(1, p), u, i);
  }

  /** The page-size bits of a frame are those of the block before. */
  ghost predicate SameLarge(mem0: seq<Entry>, mem: seq<Entry>, frame: nat)
    requires |mem0| == |mem| && (frame + 1) * 512 <= |mem|
  {
    forall j :: 0 <= j < 512 ==> EntryAt(mem, frame, j).large == EntryAt(mem0, frame, j).large
  }

  /** Nothing clears the page-size bits of the root, of the tables right below it, or of unused frames. */
  ghost predicate LargeKept(mem0: seq<Entry>, mem: seq<Entry>, frames: map<Table, nat>, used: nat) {
    && |mem0| == |mem| && (used + 1) * 512 <= |mem|
    && (forall f :: used < f && (f + 1) * 512 <= |mem| ==> SameLarge(mem0, mem, f))
    && (forall t :: t in frames && t.level >= 3 ==> frames[t] <= used && SameLarge(mem0, mem, frames[t]))
  }

  lemma TreeApart(frames: map<Table, nat>, used: nat, t: Table)
    requires Tree(frames, used) && t in frames
    ensures frames[t] <= used && forall u :: u in frames && u != t ==> frames[u] != frames[t]
  {
  }

  lemma LargeKeptLink(mem0: seq<Entry>, mem: seq<Entry>, frames: map<Table, nat>, used: nat, t: Table, j: nat, e: Entry)
    requires Tree(frames, used) && LargeKept(mem0, mem, frames, used)
    requires t in frames && t.level > 1 && j < 512 && (used + 2) * 512 <= |mem|
    requires t.level >= 3 ==> e.large == EntryAt(mem, frames[t], j).large
    ensures LargeKept(mem0, mem[frames[t] * 512 + j := e], frames[Child(t, j) := used + 1], used + 1)
  {
    hide EntryAt, Child, SameLarge, Tree;
    TreeApart(frames, used, t);
    ChildLevel(t, j);
    var mem' := mem[frames[t] * 512 + j := e];
    forall f: nat | (f + 1) * 512 <= |mem| && f != frames[t] && SameLarge(mem0, mem, f)
      ensures SameLarge(mem0, mem', f)
    {
      SameLargeAfter(mem0, mem, frames[t], j, e, f);
    }
    if t.level >= 3 {
      SameLargeAfter(mem0, mem, frames[t], j, e, frames[t]);
    }
    assert SameLarge(mem0, mem, used + 1);
  }

  lemma SameLargeAfter(mem0: seq<Entry>, mem: seq<Entry>, frame: nat, j: nat, e: Entry, f: nat)
    requires |mem0| == |mem| && (frame + 1) * 512 <= |mem| && j < 512 && (f + 1) * 512 <= |mem|
    requires SameLarge(mem0, mem, f) && (f == frame ==> e.large == EntryAt(mem, frame, j).large)
    ensures SameLarge(mem0, mem[frame * 512 + j := e], f)
  {
    hide EntryAt;
    forall i | 0 <= i < 512
      ensures EntryAt(mem[frame * 512 + j := e], f, i).large == EntryAt(mem0, f, i).large
    {
      OneWrite(mem, frame, j, e, f, i);
    }
  }

  lemma LargeKeptLeaf(mem0: seq<Entry>, mem: seq<Entry>, frames: map<Table, nat>, used: nat, t: Table, j: nat, e: Entry)
    requires Tree(frames, used) && LargeKept(mem0, mem, frames, used) && t in frames && t.level == 1 && j < 512
    ensures LargeKept(mem0, mem[frames[t] * 512 + j := e], frames, used)
  {
    hide EntryAt, SameLarge, Tree;
    TreeApart(frames, used, t);
    var mem' := mem[frames[t] * 512 + j := e];
    forall f: nat | (f + 1) * 512 <= |mem| && f != frames[t] && SameLarge(mem0, mem, f)
      ensures SameLarge(mem0, mem', f)
    {
      SameLargeAfter(mem0, mem, frames[t], j, e, f);
    }
  }

  /** A page of `[v0, v)` lies below the table. */
  predicate Touched(t: Table, v0: nat, v: nat) {
    1 <= t.level <= 3 && v0 < v && v0 / Span(t.level) <= t.num <= (v - 1) / Span(t.level)
  }

  /** How many tables of a level the pages `[v0, v)` need. */
  function Count(level: nat, v0: nat, v: nat): int
    requires level <= 3
  {
    if v <= v0 then 0 else (v - 1) / Span(level) - v0 / Span(level) + 1
  }

  function Total(v0: nat, v: nat): int {
    Count(1, v0, v) + Count(2, v0, v) + Count(3, v0, v)
  }

  /** The pages `[v0, v)` mapped in order to the physical pages from `p0` on. */
  ghost function Mapping(v0: nat, p0: nat, v: nat): (m: map<nat, nat>)
    ensures forall p :: p in m <==> v0 <= p < v
    ensures forall p :: p in m ==> m[p] == p0 + p - v0
  {
    if v <= v0 then map[] else Mapping(v0, p0, v - 1)[v - 1 := p0 + v - 1 - v0]
  }

  ghost predicate Covers(frames: map<Table, nat>, v0: nat, v: nat) {
    && ROOT in frames
    && (forall t :: t in frames ==> t == ROOT || Touched(t, v0, v))
    && (forall t :: Touched(t, v0, v) ==> t in frames)
  }

  lemma CountMonotone(level: nat, v0: nat, v: nat, w: nat)
    requires level <= 3 && v <= w
    ensures 0 <= Count(level, v0, v) <= Count(level, v0, w)
  {
  }

  lemma TotalMonotone(v0: nat, v: nat, w: nat)
    requires v <= w
    ensures 0 <= Total(v0, v) <= Total(v0, w)
  {
    CountMonotone(1, v0, v, w);
    CountMonotone(2, v0, v, w);
    CountMonotone(3, v0, v, w);
  }

  /** One more page needs one more table of a level exactly when its table there is new. */
  lemma CountStep(level: nat, v0: nat, v: nat)
    requires 1 <= level <= 3 && v0 <= v
    ensures Count(level, v0, v + 1) == Count(level, v0, v) + if Touched(Home(level, v), v0, v) then 0 else 1
    ensures Touched(Home(level, v), v0, v) ==> v0 < v && Home(level, v) == Home(level, v - 1)
    ensures Touched(Home(level, v), v0, v + 1)
  {
  }

  lemma TouchedStep(t: Table, v0: nat, v: nat)
    requires v0 <= v
    ensures Touched(t, v0, v + 1) <==> Touched(t, v0, v) || (1 <= t.level <= 3 && t == Home(t.level, v))
  {
  }

  /** The pointers the loop carries: the tables of the page before, or null at the start. */
  ghost predicate Current(frames: map<Table, nat>, cur: int, level: nat, v0: nat, v: nat)
    requires 1 <= level <= 3
  {
    if v == v0 then cur < 0 else v > 0 && Home(level, v - 1) in frames && cur == frames[Home(level, v - 1)]
  }

  /** Marks an entry present, writable, for the supervisor only, and pointing at a frame. */
  function Pointing(e: Entry, pfn: nat): Entry {
    e.(present := true, write := true, user := false, pfn := pfn % MAX_PAGES)
  }

  /**
   One of the three conditionals in the loop: makes sure that the table of `level`
   for page `v` exists, taking the next unused frame when it does not. Only the
   conditional for page tables clears the page-size bit.
   */
  method Descend(mem: array<Entry>, base: nat, level: nat, parent: nat, cur: int, used: nat, v: nat,
                 ghost frames: map<Table, nat>, ghost pages: map<nat, nat>, ghost mem0: seq<Entry>)
    returns (cur': nat, used': nat, ghost frames': map<Table, nat>)
    requires 1 <= level <= 3
    requires Holds(mem[..], base, frames, used, pages) && LargeKept(mem0, mem[..], frames, used)
    requires Home(level + 1, v) in frames && frames[Home(level + 1, v)] == parent
    requires Carried(frames, cur, level, v)
    requires Home(level, v) !in frames ==> (used + 2) * 512 <= mem.Length
    requires base * 512 + mem.Length <= MAX_PAGES * 512
    modifies mem
    ensures Holds(mem[..], base, frames', used', pages) && LargeKept(mem0, mem[..], frames', used')
    ensures Home(level, v) in frames ==> frames' == frames && used' == used
    ensures Home(level, v) !in frames ==> frames' == frames[Home(level, v) := used + 1] && used' == used + 1
    ensures Home(level, v) in frames' && frames'[Home(level, v)] == cur'
  {
    hide *;
    CarriedParts(frames, cur, level, v);
    EntryFor(mem[..], base, frames, used, pages, level + 1, v);
    ChildHome(level + 1, v);
    LinkOk(mem0, mem[..], base, frames, used, pages, level, v);
    var at := parent * 512 + Slot(level + 1, v);
    if cur < 0 || !mem[at].present {
      cur', used' := used + 1, used + 1;
      var e := Pointing(mem[at], base + cur');
      mem[at] := if level == 1 then e.(large := false) else e;
      frames' := frames[Home(level, v) := cur'];
    } else {
      cur', used', frames' := cur, used, frames;
    }
  }

  lemma HoldsTree(mem: seq<Entry>, base: nat, frames: map<Table, nat>, used: nat, pages: map<nat, nat>)
    requires Holds(mem, base, frames, used, pages)
    ensures Tree(frames, used)
  {
  }

  /** What the write in `Descend` achieves. */
  lemma LinkOk(mem0: seq<Entry>, mem: seq<Entry>, base: nat, frames: map<Table, nat>, used: nat,
               pages: map<nat, nat>, level: nat, v: nat)
    requires 1 <= level <= 3
    requires Holds(mem, base, frames, used, pages) && LargeKept(mem0, mem, frames, used)
    requires Home(level + 1, v) in frames
    requires Home(level, v) !in frames ==> (used + 2) * 512 <= |mem|
    requires base * 512 + |mem| <= MAX_PAGES * 512
    ensures var f := frames[Home(level + 1, v)];
            var j := Slot(level + 1, v);
            && j < 512 && (f + 1) * 512 <= |mem|
            && (mem[f * 512 + j].present <==> Home(level, v) in frames)
            && (Home(level, v) !in frames ==>
                  var e := Pointing(mem[f * 512 + j], base + (used + 1));
                  var mem' := mem[f * 512 + j := if level == 1 then e.(large := false) else e];
                  && Holds(mem', base, frames[Home(level, v) := used + 1], used + 1, pages)
                  && LargeKept(mem0, mem', frames[Home(level, v) := used + 1], used + 1))
  {
    hide Holds, Home, Slot, LargeKept, Tree;
    ChildHome(level + 1, v);
    EntryFor(mem, base, frames, used, pages, level + 1, v);
    var t, j := Home(level + 1, v), Slot(level + 1, v);
    if Home(level, v) !in frames {
      var e := Pointing(mem[frames[t] * 512 + j], base + (used + 1));
      AddTable(mem, base, frames, used, pages, t, j, if level == 1 then e.(large := false) else e);
      HoldsTree(mem, base, frames, used, pages);
      LargeKeptLink(mem0, mem, frames, used, t, j, if level == 1 then e.(large := false) else e);
    }
  }

  /** The page's own entry: marked present and pointing at the physical page. */
  method SetLeaf(mem: array<Entry>, ghost base: nat, pt: nat, v: nat, phys: nat,
                 ghost frames: map<Table, nat>, ghost used: nat, ghost pages: map<nat, nat>, ghost mem0: seq<Entry>)
    requires Holds(mem[..], base, frames, used, pages) && LargeKept(mem0, mem[..], frames, used)
    requires Home(1, v) in frames && frames[Home(1, v)] == pt
    requires phys < MAX_PAGES
    modifies mem
    ensures Holds(mem[..], base, frames, used, pages[v := phys]) && LargeKept(mem0, mem[..], frames, used)
  {
    hide *;
    EntryFor(mem[..], base, frames, used, pages, 1, v);
    var at := pt * 512 + Slot(1, v);
    PointingOk(mem[at], phys);
    SetPage(mem[..], base, frames, used, pages, v, Pointing(mem[at], phys));
    HoldsTree(mem[..], base, frames, used, pages);
    LargeKeptLeaf(mem0, mem[..], frames, used, Home(1, v), Slot(1, v), Pointing(mem[at], phys));
    mem[at] := Pointing(mem[at], phys);
  }

  lemma PointingOk(e: Entry, pfn: nat)
    requires pfn < MAX_PAGES
    ensures var r := Pointing(e, pfn); r.present && r.write && !r.user && r.pfn == pfn
  {
  }

  /** The first page of `[v0, ...)` below a table right under the root. */
  function FirstPage(num: nat, v0: nat): nat {
    if num * 0x800_0000 < v0 then v0 else num * 0x800_0000
  }

  /** The frame of such a table: the first one left when its first page was mapped. */
  ghost predicate Placed(frames: map<Table, nat>, v0: nat) {
    forall t :: t in frames && t.level == 3 ==> frames[t] == Total(v0, FirstPage(t.num, v0)) + 1
  }

  lemma PlacedNext(frames0: map<Table, nat>, frames: map<Table, nat>, v0: nat, v: nat, used: nat)
    requires v0 <= v && Covers(frames0, v0, v) && Placed(frames0, v0) && used == Total(v0, v)
    requires forall t :: t in frames && t.level == 3 ==>
      if t in frames0 then frames[t] == frames0[t] else t == Home(3, v) && frames[t] == used + 1
    ensures Placed(frames, v0)
  {
    hide Total;
    if Home(3, v) !in frames0 {
      assert FirstPage(Home(3, v).num, v0) == v;
    }
  }

  /** The state of the loop before page `v`: `[v0, v)` is mapped to the pages from `p0` on, with no table to spare. */
  ghost predicate Built(mem: seq<Entry>, base: nat, frames: map<Table, nat>, used: nat, v0: nat, p0: nat, v: nat,
                           pdpt: int, pd: int, pt: int, mem0: seq<Entry>) {
    && v0 <= v
    && Covers(frames, v0, v) && Placed(frames, v0) && LargeKept(mem0, mem, frames, used)
    && used == Total(v0, v)
    && Holds(mem, base, frames, used, Mapping(v0, p0, v))
    && Current(frames, pdpt, 3, v0, v)
    && Current(frames, pd, 2, v0, v)
    && Current(frames, pt, 1, v0, v)
  }

  lemma BuiltParts(mem: seq<Entry>, base: nat, frames: map<Table, nat>, used: nat, v0: nat, p0: nat, v: nat,
                   pdpt: int, pd: int, pt: int, mem0: seq<Entry>)
    requires Built(mem, base, frames, used, v0, p0, v, pdpt, pd, pt, mem0)
    ensures Covers(frames, v0, v) && Placed(frames, v0) && LargeKept(mem0, mem, frames, used)
    ensures used == Total(v0, v) && Holds(mem, base, frames, used, Mapping(v0, p0, v))
  {
  }

  /** The table of page `v` is either the one in hand or has to be made. */
  lemma InHand(frames: map<Table, nat>, cur: int, level: nat, v0: nat, v: nat)
    requires 1 <= level <= 3 && v0 <= v
    requires Covers(frames, v0, v) && Current(frames, cur, level, v0, v)
    ensures Carried(frames, cur, level, v)
    ensures Count(level, v0, v + 1) == Count(level, v0, v) + if Home(level, v) in frames then 0 else 1
  {
    CountStep(level, v0, v);
    assert Home(level, v) != ROOT;
  }

  lemma CoversStep(frames: map<Table, nat>, frames': map<Table, nat>, v0: nat, v: nat)
    requires v0 <= v
    requires Covers(frames, v0, v)
    requires frames'.Keys == frames.Keys + {Home(3, v), Home(2, v), Home(1, v)}
    ensures Covers(frames', v0, v + 1)
  {
    hide Home, Touched;
    forall t
      ensures t in frames' ==> t == ROOT || Touched(t, v0, v + 1)
      ensures Touched(t, v0, v + 1) ==> t in frames'
    {
      TouchedStep(t, v0, v);
      HomeLevels(t, v);
    }
  }

  lemma RootCovers(v: nat)
    requires v < MAX_PAGES
    ensures Home(4, v) == ROOT
  {
  }

  lemma RootHolds(mem: seq<Entry>, base: nat, frames: map<Table, nat>, used: nat, pages: map<nat, nat>)
    requires Holds(mem, base, frames, used, pages)
    ensures ROOT in frames && frames[ROOT] == 0
  {
  }

  lemma HomeLevels(t: Table, v: nat)
    ensures forall level :: 1 <= level <= 3 && t == Home(level, v) ==> t.level == level
    ensures t.level == 1 || t.level == 2 || t.level == 3 || !(1 <= t.level <= 3)
  {
  }

  /** The tables that page `v` still lacks. */
  ghost function Lacking(frames: map<Table, nat>, v: nat): nat {
    (if Home(3, v) in frames then 0 else 1)
    + (if Home(2, v) in frames then 0 else 1)
    + (if Home(1, v) in frames then 0 else 1)
  }

  /** A pointer carried by the loop is null or, if the table of `v` exists, points at it. */
  ghost predicate Carried(frames: map<Table, nat>, cur: int, level: nat, v: nat)
    requires 1 <= level <= 3
  {
    Home(level, v) in frames ==> cur >= 0 && cur == frames[Home(level, v)]
  }

  lemma CarriedParts(frames: map<Table, nat>, cur: int, level: nat, v: nat)
    requires 1 <= level <= 3 && Carried(frames, cur, level, v)
    ensures Home(level, v) in frames ==> cur >= 0 && cur == frames[Home(level, v)]
  {
  }

  /** The three conditionals and the leaf: all tables of page `v` exist and it is mapped to `phys`. */
  method PlacePage(mem: array<Entry>, base: nat, v: nat, phys: nat, pdpt0: int, pd0: int, pt0: int, used0: nat,
                   ghost frames0: map<Table, nat>, ghost pages: map<nat, nat>, ghost mem0: seq<Entry>)
    returns (pdpt: nat, pd: nat, pt: nat, used: nat, made: bool, ghost frames: map<Table, nat>)
    requires Holds(mem[..], base, frames0, used0, pages) && LargeKept(mem0, mem[..], frames0, used0)
    requires v < MAX_PAGES && phys < MAX_PAGES
    requires Carried(frames0, pdpt0, 3, v) && Carried(frames0, pd0, 2, v) && Carried(frames0, pt0, 1, v)
    requires (used0 + Lacking(frames0, v) + 1) * 512 <= mem.Length
    requires base * 512 + mem.Length <= MAX_PAGES * 512
    modifies mem
    ensures Holds(mem[..], base, frames, used, pages[v := phys]) && LargeKept(mem0, mem[..], frames, used)
    ensures used == used0 + Lacking(frames0, v) && (made <==> Home(1, v) !in frames0)
    ensures frames.Keys == frames0.Keys + {Home(3, v), Home(2, v), Home(1, v)}
    ensures forall t :: t in frames0 ==> frames[t] == frames0[t]
    ensures frames[Home(3, v)] == pdpt && frames[Home(2, v)] == pd && frames[Home(1, v)] == pt
    ensures Home(3, v) !in frames0 ==> pdpt == used0 + 1
  {
    hide Holds, Home, LargeKept;
    RootCovers(v);
    RootHolds(mem[..], base, frames0, used0, pages);
    ghost var f3, f2;
    pdpt, used, f3 := Descend(mem, base, 3, 0, pdpt0, used0, v, frames0, pages, mem0);
    pd, used, f2 := Descend(mem, base, 2, pdpt, pd0, used, v, f3, pages, mem0);
    var before := used;
    pt, used, frames := Descend(mem, base, 1, pd, pt0, used, v, f2, pages, mem0);
    made := used != before;
    SetLeaf(mem, base, pt, v, phys, frames, used, pages, mem0);
  }

  /** The body of the loop: page `v` gets mapped to physical page `phys`. */
  method MapPage(mem: array<Entry>, base: nat, v: nat, phys: nat, pdpt0: int, pd0: int, pt0: int, used0: nat,
                 ghost frames0: map<Table, nat>, ghost v0: nat, ghost p0: nat, ghost mem0: seq<Entry>)
    returns (pdpt: nat, pd: nat, pt: nat, used: nat, made: bool, ghost frames: map<Table, nat>)
    requires Built(mem[..], base, frames0, used0, v0, p0, v, pdpt0, pd0, pt0, mem0)
    requires v < MAX_PAGES && phys == p0 + v - v0 < MAX_PAGES
    requires (Total(v0, v + 1) + 1) * 512 <= mem.Length
    requires base * 512 + mem.Length <= MAX_PAGES * 512
    modifies mem
    ensures Built(mem[..], base, frames, used, v0, p0, v + 1, pdpt, pd, pt, mem0)
    ensures Home(1, v) in frames && frames[Home(1, v)] == pt
    ensures made <==> Home(1, v) !in frames0
    ensures forall t :: t in frames0 ==> t in frames && frames[t] == frames0[t]
  {
    hide Holds, Covers, Home, Count, LargeKept, Placed;
    ghost var pages := Mapping(v0, p0, v);
    InHand(frames0, pdpt0, 3, v0, v);
    InHand(frames0, pd0, 2, v0, v);
    InHand(frames0, pt0, 1, v0, v);
    pdpt, pd, pt, used, made, frames := PlacePage(mem, base, v, phys, pdpt0, pd0, pt0, used0, frames0, pages, mem0);
    MappingNext(v0, p0, v);
    CoversStep(frames0, frames, v0, v);
    PlacedNext(frames0, frames, v0, v, used0);
  }

  lemma MappingNext(v0: nat, p0: nat, v: nat)
    requires v0 <= v
    ensures Mapping(v0, p0, v + 1) == Mapping(v0, p0, v)[v := p0 + v - v0]
  {
  }

  /** The page tables noted so far, from index `v0` on, in the order of the addresses they serve. */
  ghost predicate Saved(saved: map<nat, nat>, frames: map<Table, nat>, v0: nat, v: nat) {
    && (forall k :: k in saved <==> v0 <= k < v0 + Count(1, v0, v))
    && (forall k :: k in saved ==>
          var t := Table(1, v0 / 512 + k - v0);
          t in frames && saved[k] == frames[t])
  }

  lemma SavedStep(saved: map<nat, nat>, frames: map<Table, nat>, frames': map<Table, nat>, v0: nat, v: nat, pt: nat)
    requires v0 <= v
    requires Saved(saved, frames, v0, v) && Covers(frames, v0, v)
    requires forall t :: t in frames ==> t in frames' && frames'[t] == frames[t]
    requires Home(1, v) in frames' && frames'[Home(1, v)] == pt
    ensures Home(1, v) in frames ==> Saved(saved, frames', v0, v + 1)
    ensures Home(1, v) !in frames ==>
              && Count(1, v0, v) >= 0
              && Saved(saved[v0 + Count(1, v0, v) := pt], frames', v0, v + 1)
    ensures Count(1, v0, v + 1) == Count(1, v0, v) + if Home(1, v) in frames then 0 else 1
  {
    CountStep(1, v0, v);
    CountMonotone(1, v0, v, v);
    assert Home(1, v) != ROOT;
    if Home(1, v) !in frames {
      assert Home(1, v).num == v0 / 512 + Count(1, v0, v);
    }
  }

  /** An empty block: just the root, with nothing below it. */
  lemma EmptyBlock(mem: seq<Entry>, base: nat, v0: nat, p0: nat)
    requires 512 <= |mem|
    requires forall k :: 0 <= k < |mem| ==> !mem[k].present
    ensures Progress(mem, base, map[ROOT := 0], v0, p0, v0, Cursor(-1, -1, -1, 0, p0, v0, map[]), mem)
  {
    assert TableOk(mem, base, map[ROOT := 0], Mapping(v0, p0, v0), ROOT);
  }

  /** Everything the loop of `map_some_pages` keeps. */
  ghost predicate Progress(mem: seq<Entry>, base: nat, frames: map<Table, nat>, v0: nat, p0: nat, v: nat, at: Cursor,
                           mem0: seq<Entry>) {
    && Built(mem, base, frames, at.used, v0, p0, v, at.pdpt, at.pd, at.pt, mem0)
    && Saved(at.saved, frames, v0, v)
    && at.ptNum == v0 + Count(1, v0, v)
    && at.phys == p0 + v - v0
  }

  /** The local variables of `map_some_pages`, and the pointers it has saved. */
  datatype Cursor = Cursor(pdpt: int, pd: int, pt: int, used: nat, phys: nat, ptNum: nat, saved: map<nat, nat>)

  /** The block has frames enough for the pages `[v0, v)`, and every page and frame number fits its field. */
  predicate Room(len: nat, base: nat, v0: nat, p0: nat, v: nat) {
    && v <= MAX_PAGES && p0 + v - v0 <= MAX_PAGES
    && (Total(v0, v) + 1) * 512 <= len
    && base * 512 + len <= MAX_PAGES * 512
  }

  lemma RoomShrinks(len: nat, base: nat, v0: nat, p0: nat, v: nat, w: nat)
    requires v <= w && Room(len, base, v0, p0, w)
    ensures Room(len, base, v0, p0, v) && 512 <= len
  {
    TotalMonotone(v0, v, w);
  }

  /** One pass through the loop. */
  method MapNext(mem: array<Entry>, base: nat, v: nat, at: Cursor, ghost frames0: map<Table, nat>,
                 ghost v0: nat, ghost p0: nat, ghost mem0: seq<Entry>)
    returns (next: Cursor, ghost frames: map<Table, nat>)
    requires Progress(mem[..], base, frames0, v0, p0, v, at, mem0)
    requires v0 <= v && Room(mem.Length, base, v0, p0, v + 1)
    modifies mem
    ensures Progress(mem[..], base, frames, v0, p0, v + 1, next, mem0)
  {
    hide Built, Saved, Covers, Total, Count, Home;
    BuiltParts(mem[..], base, frames0, at.used, v0, p0, v, at.pdpt, at.pd, at.pt, mem0);
    var pdpt, pd, pt, used, made;
    pdpt, pd, pt, used, made, frames :=
      MapPage(mem, base, v, at.phys, at.pdpt, at.pd, at.pt, at.used, frames0, v0, p0, mem0);
    SavedStep(at.saved, frames0, frames, v0, v, pt);
    next := Cursor(pdpt, pd, pt, used, at.phys + 1,
                   if made then at.ptNum + 1 else at.ptNum,
                   if made then at.saved[at.ptNum := pt] else at.saved);
  }

  /**
   The loader's `map_some_pages`: on a block with no entry present it maps
   `n` pages from `v0` to the physical pages from `p0`, nothing else, and takes
   exactly as many frames as there are tables above those pages. Page-size bits
   above the page directories stay as they were.
   */
  method MapSomePages(mem: array<Entry>, base: nat, v0: nat, p0: nat, n: nat)
    returns (at: Cursor, ghost frames: map<Table, nat>)
    requires Room(mem.Length, base, v0, p0, v0 + n)
    requires forall k :: 0 <= k < mem.Length ==> !mem[k].present
    modifies mem
    ensures at.used == Total(v0, v0 + n)
    ensures Holds(mem[..], base, frames, at.used, Mapping(v0, p0, v0 + n))
    ensures Covers(frames, v0, v0 + n) && Placed(frames, v0)
    ensures LargeKept(old(mem[..]), mem[..], frames, at.used)
    ensures Saved(at.saved, frames, v0, v0 + n)
  {
    hide *;
    ghost var mem0 := mem[..];
    at, frames := Cursor(-1, -1, -1, 0, p0, v0, map[]), map[ROOT := 0];
    RoomShrinks(mem.Length, base, v0, p0, v0, v0 + n);
    EmptyBlock(mem[..], base, v0, p0);
    var i := 0;
    while i < n
      invariant 0 <= i <= n
      invariant Progress(mem[..], base, frames, v0, p0, v0 + i, at, mem0)
    {
      RoomShrinks(mem.Length, base, v0, p0, v0 + i + 1, v0 + n);
      at, frames := MapNext(mem, base, v0 + i, at, frames, v0, p0, mem0);
      i := i + 1;
    }
    ProgressParts(mem[..], base, frames, v0, p0, v0 + n, at, mem0);
  }

  lemma ProgressParts(mem: seq<Entry>, base: nat, frames: map<Table, nat>, v0: nat, p0: nat, v: nat, at: Cursor,
                      mem0: seq<Entry>)
    requires Progress(mem, base, frames, v0, p0, v, at, mem0)
    ensures Covers(frames, v0, v) && Placed(frames, v0) && LargeKept(mem0, mem, frames, at.used)
    ensures at.used == Total(v0, v) && Holds(mem, base, frames, at.used, Mapping(v0, p0, v))
    ensures Saved(at.saved, frames, v0, v)
  {
  }

  function DivRoundUp(num: nat, denom: nat): nat
    requires denom > 0
  {
    if num % denom == 0 then num / denom else 1 + num / denom
  }

  /** The frames that the loader asks for to map `n` pages from address zero. */
  function RequiredTables(n: nat): nat {
    var pageTables := DivRoundUp(n, 512);
    var pageDirs := DivRoundUp(pageTables, 512);
    var pageDirTables := DivRoundUp(pageDirs, 512);
    pageDirTables + pageDirs + pageTables + 1
  }

  lemma RoundUpTwice(n: nat, level: nat)
    requires 1 <= level <= 3
    ensures Count(level, 0, n) == DivRoundUp(n, Span(level))
    ensures level > 1 ==> DivRoundUp(DivRoundUp(n, Span(level - 1)), 512) == DivRoundUp(n, Span(level))
  {
  }

  /** The request is exact: the root and every table the mapping takes, none missing and none to spare. */
  lemma RequestIsExact(n: nat)
    ensures RequiredTables(n) == Total(0, n) + 1
  {
    RoundUpTwice(n, 1);
    RoundUpTwice(n, 2);
    RoundUpTwice(n, 3);
  }

  /** The physical address that a virtual address comes to, with the page offset kept. */
  function Translate(mem: seq<Entry>, base: nat, addr: nat): Walked {
    match Walk(mem, base, 0, 4, addr / 4096)
    case Mapped(pfn) => Mapped(pfn * 4096 + addr % 4096)
    case other => other
  }

  /** Every address below `n` pages is mapped to itself and every other canonical low address is not mapped. */
  ghost predicate IdentityMap(mem: seq<Entry>, base: nat, n: nat) {
    forall addr: nat :: addr < 0x1_0000_0000_0000 ==>
      Translate(mem, base, addr) == if addr < n * 4096 then Mapped(addr) else Unmapped
  }

  /** The index, in the block, of the entry for page directory `d`, in the table right below the root that covers it. */
  function DirEntry(d: nat): (k: nat)
  {
    TotalMonotone(0, 0, d / 512 * 0x800_0000);
    (Total(0, d / 512 * 0x800_0000) + 1) * 512 + d % 512
  }

  /** No entry on the way to the first `n` pages, above the page directories, has its page-size bit set. */
  ghost predicate Usable(mem: seq<Entry>, n: nat) {
    && (forall q :: 0 <= q < Count(3, 0, n) && q < |mem| ==> !mem[q].large)
    && (forall d :: 0 <= d < Count(2, 0, n) && DirEntry(d) < |mem| ==> !mem[DirEntry(d)].large)
  }

  /** The two entries on the way to a page are where the block says, with the page-size bits it came with. */
  lemma StaleWhere(mem0: seq<Entry>, mem: seq<Entry>, base: nat, frames: map<Table, nat>, used: nat, n: nat, vpn: nat)
    requires Holds(mem, base, frames, used, Mapping(0, 0, n)) && LargeKept(mem0, mem, frames, used)
    requires Covers(frames, 0, n) && Placed(frames, 0) && vpn < MAX_PAGES
    ensures StaleAt(mem, frames, 4, vpn) <==>
      Home(3, vpn) in frames && vpn / 0x800_0000 < |mem0| && mem0[vpn / 0x800_0000].large
    ensures StaleAt(mem, frames, 3, vpn) <==>
      Home(2, vpn) in frames && DirEntry(vpn / 0x4_0000) < |mem0| && mem0[DirEntry(vpn / 0x4_0000)].large
  {
    hide Holds, Tree, Covers, Total;
    RootCovers(vpn);
    RootHolds(mem, base, frames, used, Mapping(0, 0, n));
    HoldsTree(mem, base, frames, used, Mapping(0, 0, n));
    if Home(3, vpn) in frames {
      assert SameLarge(mem0, mem, frames[ROOT]);
    }
    if Home(2, vpn) in frames {
      HomesPresent(frames, used, 2, vpn);
      assert SameLarge(mem0, mem, frames[Home(3, vpn)]);
    }
  }

  /** Tables over the first `n` pages, and no others, are in use. */
  lemma InUse(frames: map<Table, nat>, n: nat, level: nat, vpn: nat)
    requires Covers(frames, 0, n) && 1 <= level <= 3
    ensures Home(level, vpn) in frames <==> vpn / Span(level) < Count(level, 0, n)
  {
    assert Home(level, vpn) in frames <==> Touched(Home(level, vpn), 0, n);
  }

  lemma PageWalk(mem0: seq<Entry>, mem: seq<Entry>, base: nat, frames: map<Table, nat>, used: nat, n: nat, vpn: nat)
    requires Holds(mem, base, frames, used, Mapping(0, 0, n)) && LargeKept(mem0, mem, frames, used)
    requires Covers(frames, 0, n) && Placed(frames, 0) && vpn < MAX_PAGES
    ensures Walk(mem, base, 0, 4, vpn) ==
      if || (vpn / 0x800_0000 < Count(3, 0, n) && vpn / 0x800_0000 < |mem0| && mem0[vpn / 0x800_0000].large)
         || (vpn / 0x4_0000 < Count(2, 0, n)
             && DirEntry(vpn / 0x4_0000) < |mem0| && mem0[DirEntry(vpn / 0x4_0000)].large)
      then Large else if vpn < n then Mapped(vpn) else Unmapped
  {
    hide Holds, Covers, Placed, LargeKept, StaleAt, Walk, Count, Home;
    RootCovers(vpn);
    RootHolds(mem, base, frames, used, Mapping(0, 0, n));
    WalkIsMapping(mem, base, frames, used, Mapping(0, 0, n), 4, vpn);
    StaleWhere(mem0, mem, base, frames, used, n, vpn);
    InUse(frames, n, 3, vpn);
    InUse(frames, n, 2, vpn);
  }

  /** The tables map every page to itself exactly when the block came without page-size bits where they matter. */
  lemma IdentityIff(mem0: seq<Entry>, mem: seq<Entry>, base: nat, frames: map<Table, nat>, used: nat, n: nat)
    requires Holds(mem, base, frames, used, Mapping(0, 0, n)) && LargeKept(mem0, mem, frames, used)
    requires Covers(frames, 0, n) && Placed(frames, 0) && n <= MAX_PAGES
    ensures IdentityMap(mem, base, n) <==> Usable(mem0, n)
  {
    hide Holds, Covers, Placed, LargeKept, Walk, Count, DirEntry;
    if Usable(mem0, n) {
      forall addr: nat | addr < 0x1_0000_0000_0000
        ensures Translate(mem, base, addr) == if addr < n * 4096 then Mapped(addr) else Unmapped
      {
        PageWalk(mem0, mem, base, frames, used, n, addr / 4096);
      }
    } else {
      var vpn := Unusable(mem0, n);
      PageWalk(mem0, mem, base, frames, used, n, vpn);
      assert Translate(mem, base, vpn * 4096) == Large;
    }
  }

  /** A page that a stale bit keeps from being reached. */
  lemma Unusable(mem0: seq<Entry>, n: nat) returns (vpn: nat)
    requires !Usable(mem0, n) && n <= MAX_PAGES
    ensures vpn < n
    ensures
      || (vpn / 0x800_0000 < Count(3, 0, n) && vpn / 0x800_0000 < |mem0| && mem0[vpn / 0x800_0000].large)
      || (vpn / 0x4_0000 < Count(2, 0, n) && DirEntry(vpn / 0x4_0000) < |mem0| && mem0[DirEntry(vpn / 0x4_0000)].large)
  {
    hide DirEntry;
    if q :| 0 <= q < Count(3, 0, n) && q < |mem0| && mem0[q].large {
      vpn := q * 0x800_0000;
    } else {
      var d :| 0 <= d < Count(2, 0, n) && DirEntry(d) < |mem0| && mem0[DirEntry(d)].large;
      vpn := d * 0x4_0000;
    }
  }

  lemma DirEntryLow(d: nat)
    requires d < 512
    ensures DirEntry(d) == 512 + d
  {
    var q := d / 512 * 0x800_0000;
    assert q == 0;
  }

  /** One stale bit in the first entry of the second frame, and the first page is not reached, whatever `n` is. */
  lemma StaleBitBlocks(mem0: seq<Entry>, mem: seq<Entry>, base: nat, frames: map<Table, nat>, used: nat,
                       n: nat, addr: nat)
    requires Holds(mem, base, frames, used, Mapping(0, 0, n)) && LargeKept(mem0, mem, frames, used)
    requires Covers(frames, 0, n) && Placed(frames, 0) && addr < 4096 <= n * 4096
    requires 512 < |mem0| && mem0[512].large
    ensures Translate(mem, base, addr) == Large
  {
    hide Holds, Covers, Placed, LargeKept, Walk, DirEntry;
    var vpn := addr / 4096;
    DirEntryLow(vpn);
    PageWalk(mem0, mem, base, frames, used, n, vpn);
    assert vpn / 0x4_0000 == vpn;
  }

  /** The room for saved table pointers is rounded down, so it is enough exactly for whole page tables. */
  lemma SavedFits(saved: map<nat, nat>, frames: map<Table, nat>, n: nat)
    requires Saved(saved, frames, 0, n)
    ensures (forall k :: k in saved ==> k < n / 512) <==> n % 512 == 0
  {
    RoundUpTwice(n, 1);
    if n % 512 != 0 {
      assert n / 512 in saved;
    }
  }

  /** With one page to map, the single pointer is written past a table that has no room at all. */
  lemma OnePageOverruns(saved: map<nat, nat>, frames: map<Table, nat>)
    requires Saved(saved, frames, 0, 1)
    ensures 1 / 512 == 0 && 0 in saved
  {
  }

  /** The frame of the page table that the processor's walk from the table in `frame` comes through. */
  function PageTableOf(mem: seq<Entry>, base: nat, frame: nat, level: nat, vpn: nat): Option<nat>
    requires 1 <= level <= 4
    decreases level
  {
    if level == 1 then Some(frame)
    else if (frame + 1) * 512 > |mem| then None
    else
      var e := EntryAt(mem, frame, Slot(level, vpn));
      if !e.present || e.large || e.pfn < base then None
      else PageTableOf(mem, base, e.pfn - base, level - 1, vpn)
  }

  lemma {:induction false} TableIsFrame(mem: seq<Entry>, base: nat, frames: map<Table, nat>, used: nat,
                                        pages: map<nat, nat>, level: nat, vpn: nat)
    requires Holds(mem, base, frames, used, pages)
    requires 1 <= level <= 4 && Home(level, vpn) in frames && Home(1, vpn) in frames
    requires !Blocked(mem, frames, level, vpn)
    ensures PageTableOf(mem, base, frames[Home(level, vpn)], level, vpn) == Some(frames[Home(1, vpn)])
    decreases level
  {
    hide Holds, Home, Slot, Tree, StaleAt, EntryAt;
    if level > 1 {
      HoldsTree(mem, base, frames, used, pages);
      HomesAbove(frames, used, level - 1, vpn);
      StepDown(mem, base, frames, used, pages, level, vpn);
      TableIsFrame(mem, base, frames, used, pages, level - 1, vpn);
    }
  }

  /** The entry on the way to a page leads to the next table when no page-size bit is left in it. */
  lemma StepDown(mem: seq<Entry>, base: nat, frames: map<Table, nat>, used: nat,
                 pages: map<nat, nat>, level: nat, vpn: nat)
    requires Holds(mem, base, frames, used, pages)
    requires 2 <= level <= 4 && Home(level, vpn) in frames && Home(level - 1, vpn) in frames
    requires !Blocked(mem, frames, level, vpn)
    ensures (frames[Home(level, vpn)] + 1) * 512 <= |mem|
    ensures var e := EntryAt(mem, frames[Home(level, vpn)], Slot(level, vpn));
      e.present && !e.large && e.pfn == base + frames[Home(level - 1, vpn)]
  {
    hide Holds, Home, Slot, EntryAt;
    ChildHome(level, vpn);
    EntryFor(mem, base, frames, used, pages, level, vpn);
  }

  lemma HomesAbove(frames: map<Table, nat>, used: nat, level: nat, vpn: nat)
    requires Tree(frames, used) && 1 <= level <= 3 && Home(1, vpn) in frames
    ensures Home(level, vpn) in frames
  {
    if level > 1 {
      HomesPresent(frames, used, 1, vpn);
      if level > 2 {
        HomesPresent(frames, used, 2, vpn);
      }
    }
  }

  /** The pointers saved are those of the page tables in the order of the addresses they serve. */
  lemma SavedIsTable(mem0: seq<Entry>, mem: seq<Entry>, base: nat, frames: map<Table, nat>, used: nat, n: nat,
                     saved: map<nat, nat>, k: nat)
    requires Holds(mem, base, frames, used, Mapping(0, 0, n)) && LargeKept(mem0, mem, frames, used)
    requires Covers(frames, 0, n) && Placed(frames, 0) && n <= MAX_PAGES && Usable(mem0, n)
    requires Saved(saved, frames, 0, n) && k in saved
    ensures PageTableOf(mem, base, 0, 4, 512 * k) == Some(saved[k])
  {
    hide Holds, Covers, Placed, LargeKept, Usable, Blocked, PageTableOf, Home, Count, Mapping;
    SavedHome(saved, frames, n, k);
    RootCovers(512 * k);
    RootHolds(mem, base, frames, used, Mapping(0, 0, n));
    Unblocked(mem0, mem, base, frames, used, n, 512 * k);
    TableIsFrame(mem, base, frames, used, Mapping(0, 0, n), 4, 512 * k);
  }

  lemma SavedHome(saved: map<nat, nat>, frames: map<Table, nat>, n: nat, k: nat)
    requires Saved(saved, frames, 0, n) && k in saved
    ensures 512 * k < n && Home(1, 512 * k) in frames && frames[Home(1, 512 * k)] == saved[k]
  {
    assert Home(1, 512 * k) == Table(1, k);
  }

  /** No stale bit stops the walk of a page when the block came usable. */
  lemma Unblocked(mem0: seq<Entry>, mem: seq<Entry>, base: nat, frames: map<Table, nat>, used: nat, n: nat, vpn: nat)
    requires Holds(mem, base, frames, used, Mapping(0, 0, n)) && LargeKept(mem0, mem, frames, used)
    requires Covers(frames, 0, n) && Placed(frames, 0) && vpn < MAX_PAGES && Usable(mem0, n)
    ensures !Blocked(mem, frames, 4, vpn)
  {
    hide Holds, Covers, Placed, LargeKept, StaleAt, Count, Home, DirEntry, Mapping;
    StaleWhere(mem0, mem, base, frames, used, n, vpn);
    InUse(frames, n, 3, vpn);
    InUse(frames, n, 2, vpn);
  }

  datatype Status = Success | NoMemory

  /**
   The loader's `map_id_pages`. The firmware's answer is `block`: null, or as
   many frames as were asked for, here with no entry present.
   */
  method MapIdPages(n: nat, block: array?<Entry>, base: nat)
    returns (status: Status, room: nat, saved: map<nat, nat>)
    requires n <= 0x10_0000_0000
    requires block != null ==>
      && block.Length == RequiredTables(n) * 512
      && base + RequiredTables(n) <= 0x10_0000_0000
      && forall k :: 0 <= k < block.Length ==> !block[k].present
    modifies block
    ensures status == Success <==> block != null
    ensures block != null ==> (IdentityMap(block[..], base, n) <==> Usable(old(block[..]), n))
    ensures block != null ==> ((forall k :: k in saved ==> k < room) <==> n % 512 == 0)
    ensures block != null && Usable(old(block[..]), n) ==>
      forall k :: k in saved ==> PageTableOf(block[..], base, 0, 4, 512 * k) == Some(saved[k])
  {
    hide IdentityMap, Usable, Holds, Covers, Placed, LargeKept, Saved, RequiredTables, Total;
    if block == null {
      return NoMemory, 0, map[];
    }
    RequestIsExact(n);
    room := n / 512;
    ghost var mem0 := block[..];
    ghost var frames;
    var at;
    at, frames := MapSomePages(block, base, 0, 0, n);
    saved := at.saved;
    IdentityIff(mem0, block[..], base, frames, at.used, n);
    SavedFits(saved, frames, n);
    if Usable(mem0, n) {
      forall k | k in saved
        ensures PageTableOf(block[..], base, 0, 4, 512 * k) == Some(saved[k])
      {
        SavedIsTable(mem0, block[..], base, frames, at.used, n, saved, k);
      }
    }
    status := Success;
  }
}
