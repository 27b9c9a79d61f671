/**
 The boot C library's allocation tracker: a table of pointers and sizes kept over
 the firmware's pool, which may refuse any request. Address zero is the null pointer.
 */
module AllocTracker {
  import opened Common

  /** What the caller holds: each live pointer and the bytes behind it. */
  type Heap = map<nat, seq<Byte>>

  /** One entry of the table: two words, a pointer (zero when the entry is free) and a size. */
  datatype Slot = Slot(ptr: nat, size: nat)

  const EMPTY: Slot := Slot(0, 0)

  /** The occupied slots are exactly the live pointers, each once and with its size. */
  ghost predicate Tracks(slots: seq<Slot>, heap: Heap) {
    && (forall i :: 0 <= i < |slots| && slots[i].ptr != 0 ==>
          slots[i].ptr in heap && |heap[slots[i].ptr]| == slots[i].size)
    && (forall p :: p in heap ==> p != 0 && exists i :: 0 <= i < |slots| && slots[i].ptr == p)
    && (forall i, j :: 0 <= i < j < |slots| && slots[i].ptr != 0 ==> slots[i].ptr != slots[j].ptr)
  }

  lemma TracksGrown(slots: seq<Slot>, heap: Heap)
    requires Tracks(slots, heap)
    ensures Tracks(slots + [EMPTY], heap)
  {
    var t := slots + [EMPTY];
    forall p | p in heap
      ensures exists i :: 0 <= i < |t| && t[i].ptr == p
    {
      var i :| 0 <= i < |slots| && slots[i].ptr == p;
      assert t[i].ptr == p;
    }
  }

  /** A free slot that gets no pointer stays free, whatever size is left in it. */
  lemma TracksRefused(slots: seq<Slot>, heap: Heap, i: nat, size: nat)
    requires Tracks(slots, heap) && i < |slots| && slots[i].ptr == 0
    ensures Tracks(slots[i := Slot(0, size)], heap)
  {
    var t := slots[i := Slot(0, size)];
    forall p | p in heap
      ensures exists k :: 0 <= k < |t| && t[k].ptr == p
    {
      var k :| 0 <= k < |slots| && slots[k].ptr == p;
      assert t[k].ptr == p;
    }
  }

  lemma TracksFilled(slots: seq<Slot>, heap: Heap, i: nat, p: nat, data: seq<Byte>)
    requires Tracks(slots, heap) && i < |slots| && slots[i].ptr == 0
    requires p != 0 && p !in heap
    ensures Tracks(slots[i := Slot(p, |data|)], heap[p := data])
  {
    var t := slots[i := Slot(p, |data|)];
    var heap' := heap[p := data];
    forall q | q in heap'
      ensures exists k :: 0 <= k < |t| && t[k].ptr == q
    {
      if q != p {
        var k :| 0 <= k < |slots| && slots[k].ptr == q;
        assert t[k].ptr == q;
      } else {
        assert t[i].ptr == q;
      }
    }
  }

  lemma TracksCleared(slots: seq<Slot>, heap: Heap, i: nat)
    requires Tracks(slots, heap) && i < |slots| && slots[i].ptr != 0
    ensures Tracks(slots[i := EMPTY], heap - {slots[i].ptr})
  {
    var t := slots[i := EMPTY];
    forall p | p in heap - {slots[i].ptr}
      ensures exists k :: 0 <= k < |t| && t[k].ptr == p
    {
      var k :| 0 <= k < |slots| && slots[k].ptr == p;
      assert t[k].ptr == p;
    }
  }

  lemma TracksStored(slots: seq<Slot>, heap: Heap, p: nat, data: seq<Byte>)
    requires Tracks(slots, heap) && p in heap && |data| == |heap[p]|
    ensures Tracks(slots, heap[p := data])
  {
  }

  /** A pointer is live exactly when the table lists it. */
  lemma TracksMember(slots: seq<Slot>, heap: Heap, p: nat, i: nat)
    requires Tracks(slots, heap) && i <= |slots| && p != 0
    requires i < |slots| ==> slots[i].ptr == p
    requires forall k :: 0 <= k < i ==> slots[k].ptr != p
    ensures p in heap <==> i < |slots|
    ensures i < |slots| ==> |heap[p]| == slots[i].size
  {
  }

  lemma TracksNothing()
    ensures Tracks([], map[])
  {
  }

  lemma TracksNone(slots: seq<Slot>, heap: Heap)
    requires Tracks(slots, heap)
    ensures heap == map[] <==> forall i :: 0 <= i < |slots| ==> slots[i].ptr == 0
  {
    if forall i :: 0 <= i < |slots| ==> slots[i].ptr == 0 {
      assert forall p :: p !in heap;
    }
  }

  /** The pool is exactly the live blocks, the table, of `room` bytes, and the earlier tables, all apart. */
  ghost predicate Accounted(blocks: Heap, heap: Heap, forgotten: set<nat>, table: nat, room: nat) {
    && (forall p :: p in heap ==> p in blocks && blocks[p] == heap[p])
    && 0 !in blocks && 0 !in forgotten
    && table !in heap && table !in forgotten && heap.Keys !! forgotten
    && blocks.Keys == heap.Keys + forgotten + (if table == 0 then {} else {table})
    && (table != 0 ==> |blocks[table]| == room)
  }

  lemma AccountedNull(blocks: Heap, heap: Heap, forgotten: set<nat>, table: nat, room: nat)
    requires Accounted(blocks, heap, forgotten, table, room)
    ensures 0 !in blocks && 0 !in heap && (table != 0 ==> table in blocks)
  {
  }

  lemma AccountedGiven(blocks: Heap, heap: Heap, forgotten: set<nat>, table: nat, room: nat, p: nat, data: seq<Byte>)
    requires Accounted(blocks, heap, forgotten, table, room) && p != 0 && p !in blocks
    ensures p !in heap && Accounted(blocks[p := data], heap[p := data], forgotten, table, room)
  {
  }

  lemma AccountedBack(blocks: Heap, heap: Heap, forgotten: set<nat>, table: nat, room: nat, p: nat)
    requires Accounted(blocks, heap, forgotten, table, room) && p in heap
    ensures Accounted(blocks - {p}, heap - {p}, forgotten, table, room)
  {
  }

  lemma AccountedStored(blocks: Heap, heap: Heap, forgotten: set<nat>, table: nat, room: nat, p: nat, data: seq<Byte>)
    requires Accounted(blocks, heap, forgotten, table, room) && p in heap
    ensures p in blocks && blocks[p] == heap[p]
    ensures Accounted(blocks[p := data], heap[p := data], forgotten, table, room)
  {
  }

  /** A larger table takes over and the old one is forgotten. */
  lemma AccountedGrown(blocks: Heap, heap: Heap, forgotten: set<nat>, table: nat, room: nat, t: nat, data: seq<Byte>)
    requires Accounted(blocks, heap, forgotten, table, room) && t != 0 && t !in blocks
    ensures Accounted(blocks[t := data], heap, forgotten + (if table == 0 then {} else {table}), t, |data|)
  {
  }

  lemma AccountedDropped(blocks: Heap, heap: Heap, forgotten: set<nat>, table: nat, room: nat)
    requires Accounted(blocks, heap, forgotten, table, room) && table != 0
    ensures Accounted(blocks - {table}, heap, forgotten, 0, 0)
  {
  }

  /** The contents of a resized block: the common prefix of the old bytes, then zeros. */
  function Resized(bytes: seq<Byte>, size: nat): (s: seq<Byte>)
    ensures |s| == size
    ensures forall k :: 0 <= k < size ==> s[k] == if k < |bytes| then bytes[k] else 0
  {
    if size <= |bytes| then bytes[..size] else bytes + seq(size - |bytes|, _ => 0)
  }

  /** What a caller may ask for; the last is a plain write to memory it holds. */
  datatype Request =
    | Malloc(size: nat)
    | Realloc(ptr: nat, size: nat)
    | Free(ptr: nat)
    | Store(ptr: nat, data: seq<Byte>)

  /** `p` is a block of `size` bytes that was not live, and `h'` adds it and nothing else. */
  ghost predicate Obtained(h: Heap, p: nat, size: nat, h': Heap) {
    p != 0 && p !in h && p in h' && |h'[p]| == size && h' == h[p := h'[p]]
  }

  /** What the C library promises of each request, with answer `r` (zero for none). */
  ghost predicate Promised(h: Heap, q: Request, r: nat, h': Heap) {
    match q
    case Malloc(size) => if r == 0 then h' == h else Obtained(h, r, size, h')
    case Free(p) => r == 0 && h' == h - {p}
    case Store(p, data) => r == 0 && h' == if p in h && |data| == |h[p]| then h[p := data] else h
    case Realloc(p, size) =>
      if p == 0 then (if r == 0 then h' == h else Obtained(h, r, size, h'))
      else if size == 0 then r == 0 && h' == h - {p}
      else if r == 0 then h' == h
      else p in h && r !in h && h' == (h - {p})[r := Resized(h[p], size)]
  }

  /** A first table was obtained for an allocation that was then refused its block. */
  predicate EmptyLeft(table: nat, table': nat, p: nat) {
    table == 0 && table' != 0 && p == 0
  }

  /** The firmware grants the next request; past the end of its answers it refuses. */
  predicate Grants(answers: seq<bool>) {
    answers != [] && answers[0]
  }

  function Later(answers: seq<bool>): seq<bool> {
    if answers == [] then [] else answers[1..]
  }

  predicate Full(slots: seq<Slot>) {
    forall i :: 0 <= i < |slots| ==> slots[i].ptr != 0
  }

  /** What a run shows: the live blocks, where the table is, whether it is full, and what the firmware will say. */
  datatype View = View(heap: Heap, table: nat, full: bool, answers: seq<bool>) {
    /** There is a table and nothing live. */
    predicate Idle() {
      table != 0 && heap == map[]
    }
  }

  /** Nothing is live without a table; one stands idle if it did or was just obtained, and nothing is live now. */
  ghost predicate TableStep(v: View, v': View) {
    && (v.table == 0 ==> v.heap == map[])
    && (v'.table == 0 ==> v'.heap == map[])
    && (v'.Idle() <==> v'.heap == map[] && (v.Idle() || (v.table == 0 && v'.table != 0)))
  }

  /** An allocation: a full table asks for a larger one first, and only a refusal gives null. */
  ghost predicate AllocStep(v: View, r: nat, v': View) {
    if !v.full then
      (r == 0 <==> !Grants(v.answers)) && v'.answers == Later(v.answers) && v'.table == v.table
    else if !Grants(v.answers) then
      r == 0 && v'.answers == Later(v.answers) && v'.table == v.table
    else
      (r == 0 <==> !Grants(Later(v.answers))) && v'.answers == Later(Later(v.answers)) && v'.table != v.table
  }

  /** What each request asks of the firmware, and what its answer has to do with the firmware's. */
  ghost predicate AnswerStep(v: View, q: Request, r: nat, v': View) {
    match q
    case Malloc(_) => AllocStep(v, r, v')
    case Realloc(p, size) =>
      if p == 0 then AllocStep(v, r, v')
      else if size == 0 || p !in v.heap then v'.answers == v.answers
      else (r == 0 <==> !Grants(v.answers)) && v'.answers == Later(v.answers)
    case Free(_) => v'.answers == v.answers
    case Store(_, _) => v'.answers == v.answers
  }

  /** Some address is not in use. */
  lemma Unused(used: set<nat>) returns (p: nat)
    ensures p != 0 && forall q :: q in used ==> q < p
  {
    if used == {} {
      p := 1;
    } else {
      var q :| q in used;
      p := Unused(used - {q});
      assert forall r :: r in used ==> r == q || r in used - {q};
      p := if q < p then p else q + 1;
    }
  }

  class Allocator {
    /** The firmware's pool: what is allocated and what it contains. */
    var blocks: Heap
    /** The housekeeping table and its address in the pool, zero when there is none. */
    var slots: seq<Slot>
    var table: nat
    /** What the firmware will say to the next requests for memory. */
    var answers: seq<bool>
    ghost var heap: Heap
    /** Earlier tables, which stay allocated when the library makes a larger one. */
    ghost var forgotten: set<nat>

    constructor (answers: seq<bool>)
      ensures Valid() && heap == map[] && forgotten == {} && this.answers == answers
    {
      blocks, slots, table, this.answers := map[], [], 0, answers;
      heap, forgotten := map[], {};
    }

    /** The table tells the truth about what is live, and the pool is fully accounted for. */
    ghost predicate Valid()
      reads this
    {
      && Tracks(slots, heap)
      && Accounted(blocks, heap, forgotten, table, 16 * |slots|)
      && (table == 0 <==> slots == [])
    }

    /** There is a table exactly when something is live. */
    ghost predicate Lean()
      reads this
    {
      table == 0 <==> heap == map[]
    }

    ghost function Now(): View
      reads this
    {
      View(heap, table, Full(slots), answers)
    }

    /** The firmware's AllocatePool: fresh memory of any content, or a refusal, as its answers say. */
    method AllocatePool(size: nat) returns (p: nat, ghost junk: seq<Byte>)
      requires 0 !in blocks
      modifies this`blocks, this`answers
      ensures |junk| == size && answers == Later(old(answers))
      ensures p != 0 <==> Grants(old(answers))
      ensures p == 0 ==> blocks == old(blocks)
      ensures p != 0 ==> p !in old(blocks) && blocks == old(blocks)[p := junk]
    {
      var content: seq<Byte> := *;
      if |content| != size {
        content := seq(size, _ => 0);
      }
      junk := content;
      p := 0;
      if Grants(answers) {
        ghost var above := Unused(blocks.Keys);
        assert above !in blocks.Keys;
        p :| p != 0 && p !in blocks.Keys;
        blocks := blocks[p := content];
      }
      answers := Later(answers);
    }

    /** The firmware's FreePool. */
    method FreePool(p: nat)
      modifies this`blocks
      ensures blocks == old(blocks) - {p}
    {
      blocks := blocks - {p};
    }

    /** The index of the first slot holding `p`, or the number of slots. */
    method Find(p: nat) returns (i: nat)
      ensures i <= |slots|
      ensures i < |slots| ==> slots[i].ptr == p
      ensures forall k :: 0 <= k < i ==> slots[k].ptr != p
    {
      i := 0;
      while i < |slots| && slots[i].ptr != p
        invariant i <= |slots|
        invariant forall k :: 0 <= k < i ==> slots[k].ptr != p
      {
        i := i + 1;
      }
    }

    /** Makes a table one slot longer; the old one is copied and never given back. */
    method Grow() returns (done: bool)
      requires Valid()
      modifies this
      ensures Valid() && heap == old(heap)
      ensures !done ==> blocks == old(blocks) && slots == old(slots)
      ensures !done ==> table == old(table) && forgotten == old(forgotten)
      ensures done ==> slots == old(slots) + [EMPTY] && table !in old(blocks)
      ensures done ==> forgotten == old(forgotten) + (if old(table) == 0 then {} else {old(table)})
      ensures answers == Later(old(answers)) && (done <==> Grants(old(answers)))
      ensures done ==> table != old(table)
    {
      hide Tracks, Accounted;
      AccountedNull(blocks, heap, forgotten, table, 16 * |slots|);
      TracksGrown(slots, heap);
      var t, junk := AllocatePool((2 * |slots| + 2) * 8);
      done := t != 0;
      if done {
        AccountedGrown(old(blocks), heap, forgotten, table, 16 * |slots|, t, junk);
        forgotten := forgotten + (if table == 0 then {} else {table});
        slots, table := slots + [EMPTY], t;
      }
    }

    /** The second half of an allocation: ask the pool and note the answer in slot `i`. */
    method Fill(i: nat, size: nat) returns (p: nat)
      requires Valid() && i < |slots| && slots[i].ptr == 0
      modifies this
      ensures Valid() && Promised(old(heap), Request.Malloc(size), p, heap)
      ensures slots == old(slots)[i := Slot(p, size)] && forgotten == old(forgotten) && table == old(table)
      ensures answers == Later(old(answers)) && (p != 0 <==> Grants(old(answers)))
    {
      hide Tracks, Accounted;
      AccountedNull(blocks, heap, forgotten, table, 16 * |slots|);
      ghost var junk;
      p, junk := AllocatePool(size);
      if p == 0 {
        TracksRefused(slots, heap, i, size);
      } else {
        AccountedGiven(old(blocks), heap, forgotten, table, 16 * |slots|, p, junk);
        TracksFilled(slots, heap, i, p, junk);
        heap := heap[p := junk];
      }
      slots := slots[i := Slot(p, size)];
    }

    method Malloc(size: nat) returns (p: nat)
      requires Valid()
      modifies this
      ensures Valid() && Promised(old(heap), Request.Malloc(size), p, heap)
      ensures |old(slots)| <= |slots| <= |old(slots)| + 1
      ensures forgotten == if |slots| == |old(slots)| || old(table) == 0 then old(forgotten)
                           else old(forgotten) + {old(table)}
      ensures |slots| > |old(slots)| ==> forall i :: 0 <= i < |old(slots)| ==> old(slots)[i].ptr != 0
      ensures old(Lean()) ==> (Lean() <==> !EmptyLeft(old(table), table, p))
      ensures AnswerStep(old(Now()), Request.Malloc(size), p, Now())
      ensures TableStep(old(Now()), Now())
    {
      hide Tracks, Accounted;
      TracksNone(slots, heap);
      var i := Find(0);
      if i == |slots| {
        var done := Grow();
        if !done {
          return 0;
        }
      }
      p := Fill(i, size);
    }

    /** Gives back the table once every slot is free; the block last cleared, in `held`, is still in the pool. */
    method Tidy(ghost held: Heap)
      requires Tracks(slots, heap) && Accounted(blocks, held, forgotten, table, 16 * |slots|)
      requires slots != [] && table != 0
      modifies this`blocks, this`slots, this`table
      ensures Tracks(slots, heap) && Accounted(blocks, held, forgotten, table, 16 * |slots|)
      ensures table == 0 <==> slots == []
      ensures table == 0 <==> heap == map[]
    {
      hide Tracks, Accounted;
      TracksNone(slots, heap);
      var i := 0;
      while i < |slots| && slots[i].ptr == 0
        invariant i <= |slots|
        invariant forall k :: 0 <= k < i ==> slots[k].ptr == 0
      {
        i := i + 1;
      }
      if i == |slots| {
        AccountedDropped(blocks, held, forgotten, table, 16 * |slots|);
        FreePool(table);
        slots, table := [], 0;
        TracksNothing();
      }
    }

    method Free(p: nat)
      requires Valid()
      modifies this
      ensures Valid() && Promised(old(heap), Request.Free(p), 0, heap)
      ensures forgotten == old(forgotten)
      ensures p !in old(heap) ==> slots == old(slots) && table == old(table) && blocks == old(blocks)
      ensures p in old(heap) || old(Lean()) ==> Lean()
      ensures AnswerStep(old(Now()), Request.Free(p), 0, Now())
      ensures TableStep(old(Now()), Now())
    {
      hide Tracks, Accounted;
      TracksNone(slots, heap);
      AccountedNull(blocks, heap, forgotten, table, 16 * |slots|);
      if p == 0 {
        return;
      }
      var i := Find(p);
      TracksMember(slots, heap, p, i);
      if i == |slots| {
        return;
      }
      TracksCleared(slots, heap, i);
      slots := slots[i := EMPTY];
      ghost var held := heap;
      heap := heap - {p};
      Tidy(held);
      AccountedBack(blocks, held, forgotten, table, 16 * |slots|, p);
      FreePool(p);
    }

    /** The block of slot `i` is copied to a new one of `size` bytes and given back. */
    method Move(i: nat, size: nat) returns (r: nat)
      requires Valid() && i < |slots| && slots[i].ptr != 0 && slots[i].ptr in heap && size != 0
      modifies this
      ensures Valid() && Promised(old(heap), Request.Realloc(old(slots)[i].ptr, size), r, heap)
      ensures forgotten == old(forgotten) && table == old(table) && heap != map[]
      ensures answers == Later(old(answers)) && (r == 0 <==> !Grants(old(answers)))
    {
      hide Tracks, Accounted;
      AccountedNull(blocks, heap, forgotten, table, 16 * |slots|);
      var p := slots[i].ptr;
      ghost var junk;
      r, junk := AllocatePool(size);
      if r == 0 {
        assert p in heap.Keys;
        return;
      }
      AccountedGiven(old(blocks), heap, forgotten, table, 16 * |slots|, r, junk);
      AccountedStored(blocks, heap[r := junk], forgotten, table, 16 * |slots|, p, heap[p]);
      var bytes := Resized(blocks[p], size);
      AccountedStored(blocks, heap[r := junk], forgotten, table, 16 * |slots|, r, bytes);
      blocks := blocks[r := bytes];
      assert heap[r := junk][r := bytes] == heap[r := bytes];
      AccountedBack(blocks, heap[r := bytes], forgotten, table, 16 * |slots|, p);
      FreePool(p);
      TracksCleared(slots, heap, i);
      TracksFilled(slots[i := EMPTY], heap - {p}, i, r, bytes);
      assert slots[i := Slot(r, size)] == slots[i := EMPTY][i := Slot(r, size)];
      assert heap[r := bytes] - {p} == (heap - {p})[r := bytes];
      slots := slots[i := Slot(r, size)];
      heap := (heap - {p})[r := bytes];
      assert r in heap.Keys;
    }

    method Realloc(p: nat, size: nat) returns (r: nat)
      requires Valid()
      modifies this
      ensures Valid() && Promised(old(heap), Request.Realloc(p, size), r, heap)
      ensures old(forgotten) <= forgotten && (p != 0 ==> forgotten == old(forgotten))
      ensures p != 0 && p !in old(heap) ==> r == 0 && slots == old(slots) && blocks == old(blocks)
      ensures p != 0 && size == 0 && p in old(heap) ==> Lean()
      ensures old(Lean()) ==> (Lean() <==> !(p == 0 && EmptyLeft(old(table), table, r)))
      ensures AnswerStep(old(Now()), Request.Realloc(p, size), r, Now())
      ensures TableStep(old(Now()), Now())
    {
      hide Tracks, Accounted;
      TracksNone(slots, heap);
      if p == 0 {
        r := Malloc(size);
        return;
      }
      if size == 0 {
        Free(p);
        return 0;
      }
      var i := Find(p);
      TracksMember(slots, heap, p, i);
      if i == |slots| {
        return 0;
      }
      r := Move(i, size);
    }

    /** The caller writes to memory that it holds. */
    method Store(p: nat, data: seq<Byte>)
      requires Valid()
      modifies this
      ensures Valid() && Promised(old(heap), Request.Store(p, data), 0, heap)
      ensures forgotten == old(forgotten)
      ensures AnswerStep(old(Now()), Request.Store(p, data), 0, Now())
      ensures TableStep(old(Now()), Now())
    {
      hide Tracks, Accounted;
      TracksNone(slots, heap);
      AccountedNull(blocks, heap, forgotten, table, 16 * |slots|);
      if p != 0 {
        var i := Find(p);
        TracksMember(slots, heap, p, i);
        if i < |slots| && slots[i].size == |data| {
          TracksStored(slots, heap, p, data);
          AccountedStored(blocks, heap, forgotten, table, 16 * |slots|, p, data);
          blocks := blocks[p := data];
          heap := heap[p := data];
        }
      }
    }

    method Serve(q: Request) returns (r: nat)
      requires Valid()
      modifies this
      ensures Valid() && Promised(old(heap), q, r, heap)
      ensures AnswerStep(old(Now()), q, r, Now())
      ensures TableStep(old(Now()), Now())
      ensures old(forgotten) <= forgotten
    {
      hide Tracks, Accounted, Promised;
      match q
      case Malloc(size) => r := Malloc(size);
      case Realloc(p, size) => r := Realloc(p, size);
      case Free(p) => r := 0; Free(p);
      case Store(p, data) => r := 0; Store(p, data);
    }

    /**
     Any requests, answered one after the other: each keeps its promise, the table and the
     pool stay right, and nothing that was left behind is ever reused or given back.
     */
    method Run(qs: seq<Request>) returns (rs: seq<nat>, ghost history: seq<View>)
      requires Valid()
      modifies this
      ensures Valid() && Kept(qs, rs, history)
      ensures history[0] == old(Now()) && history[|qs|] == Now()
      ensures old(forgotten) <= forgotten
    {
      hide Tracks, Accounted, Promised, TableStep, AnswerStep;
      rs, history := [], [Now()];
      for i := 0 to |qs|
        invariant Valid() && Kept(qs[..i], rs, history)
        invariant history[0] == old(Now()) && history[i] == Now()
        invariant old(forgotten) <= forgotten
      {
        var r := Serve(qs[i]);
        assert qs[..i + 1][..i] == qs[..i];
        KeptMore(qs[..i + 1], rs, history, r, Now());
        rs, history := rs + [r], history + [Now()];
      }
      assert qs[..|qs|] == qs;
    }
  }

  /** `history` is a run of `qs` answered by `rs`, every step as promised. */
  ghost predicate Kept(qs: seq<Request>, rs: seq<nat>, history: seq<View>) {
    && |rs| == |qs| && |history| == |qs| + 1
    && (forall i :: 0 <= i < |qs| ==> Promised(history[i].heap, qs[i], rs[i], history[i + 1].heap))
    && (forall i :: 0 <= i < |qs| ==> TableStep(history[i], history[i + 1]))
    && (forall i :: 0 <= i < |qs| ==> AnswerStep(history[i], qs[i], rs[i], history[i + 1]))
  }

  lemma KeptMore(qs: seq<Request>, rs: seq<nat>, history: seq<View>, r: nat, v: View)
    requires |qs| > 0 && Kept(qs[..|qs| - 1], rs, history)
    requires Promised(history[|qs| - 1].heap, qs[|qs| - 1], r, v.heap) && TableStep(history[|qs| - 1], v)
    requires AnswerStep(history[|qs| - 1], qs[|qs| - 1], r, v)
    ensures Kept(qs, rs + [r], history + [v])
  {
    hide Promised, TableStep, AnswerStep;
  }

  /** Step `i` obtained a first table, and nothing has been live from then up to state `n`. */
  ghost predicate IdleFrom(history: seq<View>, i: nat, n: nat) {
    && i < n < |history| && history[i].table == 0 && history[i + 1].table != 0
    && forall k :: i < k <= n ==> history[k].heap == map[]
  }

  /** Over any run there is a table exactly when something is live, except since a first table was obtained in vain. */
  lemma {:induction false} IdleSince(qs: seq<Request>, rs: seq<nat>, history: seq<View>, n: nat)
    requires Kept(qs, rs, history) && n <= |qs| && !history[0].Idle()
    ensures history[n].Idle() <==> exists i: nat :: IdleFrom(history, i, n)
  {
    if n > 0 {
      IdleSince(qs, rs, history, n - 1);
      assert TableStep(history[n - 1], history[n]);
      if history[n].Idle() {
        if history[n - 1].Idle() {
          var i: nat :| IdleFrom(history, i, n - 1);
          assert IdleFrom(history, i, n);
        } else {
          assert IdleFrom(history, n - 1, n);
        }
      }
      forall i: nat | IdleFrom(history, i, n)
        ensures history[n].Idle()
      {
        assert i < n - 1 ==> IdleFrom(history, i, n - 1);
      }
    }
  }

  /** The request gives up or overwrites the block at `p`. */
  predicate Touches(q: Request, p: nat) {
    match q
    case Malloc(_) => false
    case Realloc(ptr, _) => ptr == p
    case Free(ptr) => ptr == p
    case Store(ptr, _) => ptr == p
  }

  /** Over any run, a live block that no request names stays live with its bytes, and is never handed out again. */
  lemma {:induction false} OthersKept(qs: seq<Request>, rs: seq<nat>, history: seq<View>, p: nat, n: nat)
    requires Kept(qs, rs, history) && p != 0 && p in history[0].heap && n <= |qs|
    requires forall i :: 0 <= i < n ==> !Touches(qs[i], p)
    ensures p in history[n].heap && history[n].heap[p] == history[0].heap[p]
    ensures forall i :: 0 <= i < n ==> rs[i] != p
  {
    if n > 0 {
      OthersKept(qs, rs, history, p, n - 1);
      assert Promised(history[n - 1].heap, qs[n - 1], rs[n - 1], history[n].heap);
    }
  }
}
