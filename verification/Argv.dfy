/**
 The start-up code's argument vector: one pool block that holds a table of pointers, a null
 pointer, and the UTF-8 text of every argument with its terminator. A missing argument
 counts as an empty one.
 */
module Argv {

  import opened Common
  import opened Utf8

  /** A 64-bit word in memory, lowest byte first; `k` bytes of it. */
  function Word(v: nat, k: nat): (bytes: seq<Byte>)
    ensures |bytes| == k
  {
    if k == 0 then [] else [v % 256] + Word(v / 256, k - 1)
  }

  function Value(bytes: seq<Byte>): nat {
    if bytes == [] then 0 else bytes[0] + 256 * Value(bytes[1..])
  }

  function Limit(k: nat): (l: nat)
    ensures l > 0
  {
    if k == 0 then 1 else 256 * Limit(k - 1)
  }

  lemma {:induction false} ValueWord(v: nat, k: nat)
    requires v < Limit(k)
    ensures Value(Word(v, k)) == v
  {
    if k > 0 {
      ValueWord(v / 256, k - 1);
      assert Word(v, k)[1..] == Word(v / 256, k - 1);
    }
  }

  /** The bytes of a word are its digits in base 256, from the lowest on. */
  lemma {:induction false} WordAt(v: nat, k: nat, i: nat)
    requires i < k
    ensures Word(v, k)[i] == v / Limit(i) % 256
    decreases k
  {
    if i > 0 {
      WordAt(v / 256, k - 1, i - 1);
      DivTwice(v, Limit(i - 1));
    }
  }

  lemma DivTwice(v: nat, b: nat)
    requires b > 0
    ensures v / 256 / b == v / (256 * b)
  {
    var q := v / 256;
    var p, t := q / b, q % b;
    var z := b * p;
    assert q == z + t;
    Scaled(b, p);
    QuotientOf(v, 256 * b, p, 256 * t + v % 256);
  }

  lemma Scaled(b: nat, p: nat)
    ensures (256 * b) * p == 256 * (b * p)
  {
  }

  lemma QuotientOf(v: nat, m: nat, p: nat, r: nat)
    requires m > 0 && v == m * p + r && r < m
    ensures v / m == p
  {
    var q, t := v / m, v % m;
    assert m * (q - p) == r - t;
    if q > p {
      Grows(m, 1, q - p);
    } else if q < p {
      Grows(m, 1, p - q);
    }
  }

  function Text(arg: seq<Unit>): seq<Byte> {
    Encoded(arg) + [0]
  }

  function Texts(args: seq<seq<Unit>>): seq<Byte> {
    if args == [] then [] else Texts(args[..|args| - 1]) + Text(args[|args| - 1])
  }

  /** The bytes asked for: nine for every argument and the null pointer, and the characters. */
  function Size(args: seq<seq<Unit>>): nat {
    (|args| + 1) * 9 + Letters(args)
  }

  function Letters(args: seq<seq<Unit>>): nat {
    if args == [] then 0 else Letters(args[..|args| - 1]) + |Encoded(args[|args| - 1])|
  }

  lemma {:induction false} TextsLength(args: seq<seq<Unit>>)
    ensures |Texts(args)| == Letters(args) + |args|
  {
    if args != [] {
      TextsLength(args[..|args| - 1]);
    }
  }

  /** Where the text of argument `i` starts. */
  function Offset(args: seq<seq<Unit>>, i: nat): nat
    requires i <= |args|
  {
    8 * (|args| + 1) + |Texts(args[..i])|
  }

  lemma OffsetNext(args: seq<seq<Unit>>, i: nat)
    requires i < |args|
    ensures Texts(args[..i + 1]) == Texts(args[..i]) + Text(args[i])
    ensures Offset(args, i + 1) == Offset(args, i) + |Text(args[i])|
  {
    assert args[..i + 1][..i] == args[..i];
  }

  lemma {:induction false} OffsetsGrow(args: seq<seq<Unit>>, i: nat, j: nat)
    requires i <= j <= |args|
    ensures Texts(args[..i]) <= Texts(args[..j]) && Offset(args, i) <= Offset(args, j)
  {
    if i < j {
      OffsetsGrow(args, i, j - 1);
      OffsetNext(args, j - 1);
    }
  }

  /** All texts together end one byte before the block does. */
  lemma OneByteSpare(args: seq<seq<Unit>>)
    ensures Offset(args, |args|) == Size(args) - 1
  {
    assert args[..|args|] == args;
    TextsLength(args);
  }

  // ---------- Sizing and packing ----------

  method ArgvSize(args: seq<seq<Unit>>) returns (n: nat)
    ensures n == Size(args)
  {
    n := (|args| + 1) * 9;
    for i := 0 to |args|
      invariant n == (|args| + 1) * 9 + Letters(args[..i])
    {
      var arg := args[i];
      ghost var before := n;
      for j := 0 to |arg|
        invariant n == before + |Encoded(arg[..j])|
      {
        EncodedMore(arg, j);
        n := n + if arg[j] < 0x80 then 1 else if arg[j] < 0x800 then 2 else 3;
      }
      assert arg[..|arg|] == arg;
      assert args[..i + 1][..i] == args[..i];
    }
    assert args[..|args|] == args;
  }

  method PackText(a: array<Byte>, at: nat, arg: seq<Unit>) returns (end: nat)
    requires at + |Text(arg)| <= a.Length
    modifies a
    ensures end == at + |Text(arg)| && a[..] == Put(old(a[..]), at, Text(arg))
  {
    hide Encoded, Encode, Put;
    ghost var a0 := a[..];
    end := at;
    PutNothing(a0, at);
    EncodedNone();
    for j := 0 to |arg|
      invariant |Encoded(arg[..j])| <= |Encoded(arg)|
      invariant end == at + |Encoded(arg[..j])| && a[..] == Put(a0, at, Encoded(arg[..j]))
    {
      EncodedMore(arg, j);
      EncodedPrefix(arg, j + 1);
      PutMore(a0, at, Encoded(arg[..j]), Encode(arg[j]));
      var width := WcToMb(a, end, arg[j]);
      end := end + width;
    }
    assert arg[..|arg|] == arg;
    PutMore(a0, at, Encoded(arg), [0]);
    Write(a, end, 0);
    end := end + 1;
  }

  lemma PutNothing(s: seq<Byte>, at: nat)
    requires at <= |s|
    ensures Put(s, at, []) == s
  {
  }

  method WriteWord(a: array<Byte>, at: nat, v: nat)
    requires at + 8 <= a.Length
    modifies a
    ensures a[..] == Put(old(a[..]), at, Word(v, 8))
  {
    var w := Word(v, 8);
    for k := 0 to 8
      invariant a[..] == Put(old(a[..]), at, w[..k])
    {
      PutMore(old(a[..]), at, w[..k], [w[k]]);
      assert w[..k] + [w[k]] == w[..k + 1];
      Write(a, at + k, w[k]);
    }
    assert w[..8] == w;
  }

  lemma PutSlice(s: seq<Byte>, at: nat, bytes: seq<Byte>, lo: nat, hi: nat)
    requires at + |bytes| <= |s| && lo <= hi <= |s|
    ensures hi <= at || at + |bytes| <= lo ==> Put(s, at, bytes)[lo..hi] == s[lo..hi]
    ensures Put(s, at, bytes)[at..at + |bytes|] == bytes
    ensures lo <= at == hi ==> Put(s, at, bytes)[lo..at + |bytes|] == s[lo..at] + bytes
  {
  }

  /** The null pointer is in place, and so are the first `k` pointers and texts. */
  ghost predicate Packed(s: seq<Byte>, base: nat, args: seq<seq<Unit>>, k: nat)
    requires k <= |args|
  {
    var area := 8 * (|args| + 1);
    && |s| == Size(args) && area + |Texts(args[..k])| <= |s|
    && s[8 * |args|..area] == Word(0, 8)
    && s[area..area + |Texts(args[..k])|] == Texts(args[..k])
    && forall i :: 0 <= i < k ==> Pointer(s, args, i) == Word(base + Offset(args, i), 8)
  }

  /** The bytes of pointer `i`. */
  function Pointer(s: seq<Byte>, args: seq<seq<Unit>>, i: nat): seq<Byte>
    requires i <= |args| && 8 * (|args| + 1) <= |s|
  {
    s[8 * i..8 * i + 8]
  }

  lemma TextsInside(args: seq<seq<Unit>>, k: nat)
    requires k <= |args|
    ensures Offset(args, k) == 8 * (|args| + 1) + |Texts(args[..k])| < Size(args)
  {
    OneByteSpare(args);
    OffsetsGrow(args, k, |args|);
  }

  lemma PackedPointer(s: seq<Byte>, base: nat, args: seq<seq<Unit>>, k: nat)
    requires k < |args| && Packed(s, base, args, k)
    ensures var t := Put(s, 8 * k, Word(base + Offset(args, k), 8));
      Packed(t, base, args, k) && Pointer(t, args, k) == Word(base + Offset(args, k), 8)
  {
    hide Texts, Offset, Word, Put, Size;
    var w := Word(base + Offset(args, k), 8);
    var t, area := Put(s, 8 * k, w), 8 * (|args| + 1);
    PutSlice(s, 8 * k, w, 8 * |args|, area);
    PutSlice(s, 8 * k, w, area, area + |Texts(args[..k])|);
    forall i | 0 <= i < k
      ensures Pointer(t, args, i) == Pointer(s, args, i)
    {
      PutSlice(s, 8 * k, w, 8 * i, 8 * i + 8);
    }
  }

  lemma PackedText(s: seq<Byte>, base: nat, args: seq<seq<Unit>>, k: nat)
    requires k < |args| && Packed(s, base, args, k) && Pointer(s, args, k) == Word(base + Offset(args, k), 8)
    ensures Offset(args, k) + |Text(args[k])| <= |s|
    ensures Packed(Put(s, Offset(args, k), Text(args[k])), base, args, k + 1)
  {
    hide Texts, Offset, Word, Put, Size, Text;
    var at, area := Offset(args, k), 8 * (|args| + 1);
    OffsetNext(args, k);
    TextsInside(args, k);
    TextsInside(args, k + 1);
    var t := Put(s, at, Text(args[k]));
    PutSlice(s, at, Text(args[k]), 8 * |args|, area);
    PutSlice(s, at, Text(args[k]), area, at);
    forall i | 0 <= i <= k
      ensures Pointer(t, args, i) == Pointer(s, args, i)
    {
      PutSlice(s, at, Text(args[k]), 8 * i, 8 * i + 8);
    }
  }

  /** Fills a block at address `base`; the size is an `int` in the source. */
  method Pack(base: nat, args: seq<seq<Unit>>) returns (a: array<Byte>, end: nat)
    requires Size(args) < 0x8000_0000
    ensures fresh(a) && Packed(a[..], base, args, |args|)
    ensures end == a.Length - 1
  {
    hide Texts, Offset, Word, Put, Size, Text, Packed;
    var n := ArgvSize(args);
    TextsInside(args, 0);
    a := new Byte[n];
    ghost var s := a[..];
    end := 8 * |args|;
    WriteWord(a, end, 0);
    PackedStart(s, base, args);
    end := end + 8;
    for i := 0 to |args|
      invariant Packed(a[..], base, args, i) && end == Offset(args, i) && a.Length == n
    {
      PackedPointer(a[..], base, args, i);
      WriteWord(a, 8 * i, base + end);
      PackedText(a[..], base, args, i);
      OffsetNext(args, i);
      end := PackText(a, end, args[i]);
    }
    OneByteSpare(args);
  }

  lemma PackedStart(s: seq<Byte>, base: nat, args: seq<seq<Unit>>)
    requires |s| == Size(args)
    ensures Offset(args, 0) == 8 * |args| + 8 <= |s|
    ensures Packed(Put(s, 8 * |args|, Word(0, 8)), base, args, 0)
  {
    assert args[..0] == [];
  }

  lemma PackedValues(s: seq<Byte>, base: nat, args: seq<seq<Unit>>, i: nat)
    requires Packed(s, base, args, |args|) && base + |s| < Limit(8) && i < |args|
    ensures Value(Pointer(s, args, i)) == base + Offset(args, i) && Value(Pointer(s, args, |args|)) == 0
  {
    hide Value, Word, Limit, Offset;
    TextsInside(args, i);
    ValueWord(base + Offset(args, i), 8);
    ValueWord(0, 8);
  }

  lemma Piece(front: seq<Byte>, piece: seq<Byte>, all: seq<Byte>)
    requires front + piece <= all
    ensures all[|front|..|front| + |piece|] == piece
  {
    assert all[..|front| + |piece|] == front + piece;
  }

  lemma SubSlice(s: seq<Byte>, at: nat, t: seq<Byte>, from: nat, to: nat)
    requires at + |t| <= |s| && s[at..at + |t|] == t && from <= to <= |t|
    ensures s[at + from..at + to] == t[from..to]
  {
    forall k | 0 <= k < to - from
      ensures s[at + from..at + to][k] == t[from..to][k]
    {
      assert s[at..at + |t|][from + k] == t[from + k];
    }
  }

  lemma PackedSlice(s: seq<Byte>, base: nat, args: seq<seq<Unit>>, i: nat)
    requires Packed(s, base, args, |args|) && i < |args|
    ensures 8 * (|args| + 1) <= Offset(args, i) && Offset(args, i) + |Text(args[i])| == Offset(args, i + 1) < |s|
    ensures s[Offset(args, i)..Offset(args, i + 1)] == Text(args[i])
  {
    hide Texts, Text, Offset, Size, Word, Pointer;
    assert args[..|args|] == args;
    OffsetNext(args, i);
    OffsetsGrow(args, i + 1, |args|);
    TextsInside(args, i);
    TextsInside(args, i + 1);
    TextsInside(args, |args|);
    var from, to, area := |Texts(args[..i])|, |Texts(args[..i + 1])|, 8 * (|args| + 1);
    Piece(Texts(args[..i]), Text(args[i]), Texts(args));
    SubSlice(s, area, Texts(args), from, to);
  }

  /**
   The finished block: pointer `i` addresses text `i`, which ends in a terminator before the
   next one starts and decodes to argument `i`; the pointers end in null.
   */
  lemma PackedReads(s: seq<Byte>, base: nat, args: seq<seq<Unit>>, i: nat, n: nat)
    requires Packed(s, base, args, |args|) && base + |s| < Limit(8) && i < |args|
    requires NulFree(args[i]) && |args[i]| < n < 0x8000_0000_0000_0000
    ensures Value(Pointer(s, args, i)) == base + Offset(args, i) && Value(Pointer(s, args, |args|)) == 0
    ensures 8 * (|args| + 1) <= Offset(args, i) && Offset(args, i) + |Text(args[i])| == Offset(args, i + 1) < |s|
    ensures s[Offset(args, i)..Offset(args, i + 1)] == Text(args[i])
    ensures var t := s[Offset(args, i)..]; Framed(t, 0) && Decoded(t, 0, 0, n) == Some(args[i])
  {
    hide Texts, Offset, Packed, Value, Limit, Framed, Decoded, Encoded;
    PackedValues(s, base, args, i);
    PackedSlice(s, base, args, i);
    var at, end := Offset(args, i), Offset(args, i + 1);
    DecodedWhole(args[i], s[end..], n);
    assert s[at..] == s[at..end] + s[end..];
  }
}
