/**
 The boot C library's conversions between 16-bit characters and UTF-8. Each unit is encoded
 by itself as section 3 of RFC 3629 lays out one to three bytes; surrogates are not combined.
 */
module Utf8 {
  import opened Common

  type Unit = u: int | 0 <= u < 0x10000

  /** The bytes of one character. */
  function Encode(u: Unit): (bytes: seq<Byte>)
    ensures 1 <= |bytes| <= 3
    ensures u != 0 ==> 0 !in bytes
    ensures |bytes| == (if u < 0x80 then 1 else if u < 0x800 then 2 else 3)
    ensures if |bytes| == 1 then bytes[0] < 0x80
            else if |bytes| == 2 then 0xC2 <= bytes[0] <= 0xDF
            else 0xE0 <= bytes[0] <= 0xEF && (bytes[0] == 0xE0 ==> bytes[1] >= 0xA0)
    ensures forall k :: 1 <= k < |bytes| ==> 0x80 <= bytes[k] <= 0xBF
  {
    if u < 0x80 then [u]
    else if u < 0x800 then [0xC0 + u / 64, 0x80 + u % 64]
    else [0xE0 + u / 4096, 0x80 + u / 64 % 64, 0x80 + u % 64]
  }

  function Encoded(w: seq<Unit>): seq<Byte> {
    if w == [] then [] else Encoded(w[..|w| - 1]) + Encode(w[|w| - 1])
  }

  predicate NulFree(w: seq<Unit>) {
    0 !in w
  }

  /** How many bytes a character takes that starts with `b`; zero if none does. */
  function Width(b: Byte): (k: nat)
    ensures k <= 4
  {
    if b < 128 then 1 else if b / 32 % 2 == 0 then 2 else if b / 16 % 2 == 0 then 3 else if b / 8 % 2 == 0 then 4 else 0
  }

  function Two(b0: int, b1: int): (u: int)
    ensures 0 <= u < 0x800
  {
    b0 % 32 * 64 + b1 % 64
  }

  function Three(b0: int, b1: int, b2: int): (u: int)
    ensures 0 <= u < 0x10000
  {
    b0 % 16 * 4096 + b1 % 64 * 64 + b2 % 64
  }

  function Four(b0: int, b1: int, b2: int, b3: int): int {
    b0 % 8 * 262144 + b1 % 64 * 4096 + b2 % 64 * 64 + b3 % 64
  }

  /** The unit at `i`; a character of four bytes keeps its low 16 bits. */
  function Decode(s: seq<Byte>, i: nat): (u: Unit)
    requires i < |s| && Width(s[i]) >= 1 && i + Width(s[i]) <= |s|
  {
    match Width(s[i])
    case 1 => s[i]
    case 2 => Two(s[i], s[i + 1])
    case 3 => Three(s[i], s[i + 1], s[i + 2])
    case _ => Four(s[i], s[i + 1], s[i + 2], s[i + 3]) % 0x10000
  }

  lemma TwoBytes(u: Unit)
    requires 0x80 <= u < 0x800
    ensures Two(0xC0 + u / 64, 0x80 + u % 64) == u && Width(0xC0 + u / 64) == 2
  {
    assert (0xC0 + u / 64) % 32 == u / 64 && (0xC0 + u / 64) / 32 == 6;
  }

  lemma ThreeBytes(u: Unit)
    requires 0x800 <= u
    ensures Three(0xE0 + u / 4096, 0x80 + u / 64 % 64, 0x80 + u % 64) == u && Width(0xE0 + u / 4096) == 3
  {
    var z, y, x := u / 4096, u / 64 % 64, u % 64;
    assert u / 64 == z * 64 + y;
    assert (0xE0 + z) % 16 == z && (0xE0 + z) / 16 == 14 && (0xE0 + z) / 32 == 7;
    assert (0x80 + y) % 64 == y && (0x80 + x) % 64 == x;
  }

  /** What a first byte says of the width: the leading ones of section 3 of RFC 3629, and the quirks of later bytes. */
  lemma WidthRanges(b: Byte)
    ensures b < 0x80 ==> Width(b) == 1
    ensures 0x80 <= b <= 0x9F || 0xC0 <= b <= 0xDF ==> Width(b) == 2
    ensures 0xA0 <= b <= 0xAF || 0xE0 <= b <= 0xEF ==> Width(b) == 3
    ensures 0xB0 <= b <= 0xB7 || 0xF0 <= b <= 0xF7 ==> Width(b) == 4
    ensures 0xB8 <= b <= 0xBF || 0xF8 <= b ==> Width(b) == 0
  {
  }

  /** A character beyond 16 bits, as section 3 of RFC 3629 encodes it, loses its high bits. */
  lemma FourBytes(v: nat)
    requires 0x10000 <= v < 0x110000
    ensures var s: seq<Byte> := [0xF0 + v / 262144, 0x80 + v / 4096 % 64, 0x80 + v / 64 % 64, 0x80 + v % 64];
      Width(s[0]) == 4 && Decode(s, 0) == v % 0x10000
  {
    hide Width, Four;
    FourParts(v);
    FourLead(v / 262144);
    FourBack(v / 262144, v / 4096 % 64, v / 64 % 64, v % 64);
  }

  lemma FourParts(v: nat)
    requires v < 0x110000
    ensures v / 262144 <= 4
    ensures v == v / 262144 * 262144 + v / 4096 % 64 * 4096 + v / 64 % 64 * 64 + v % 64
  {
    assert v / 4096 == v / 64 / 64 && v / 262144 == v / 64 / 64 / 64;
  }

  lemma FourLead(a: nat)
    requires a <= 4
    ensures Width(0xF0 + a) == 4
  {
    assert (0xF0 + a) / 8 == 30 && (0xF0 + a) / 16 == 15 && (0xF0 + a) / 32 == 7;
  }

  lemma FourBack(a: nat, z: nat, y: nat, x: nat)
    requires a <= 4 && z < 64 && y < 64 && x < 64
    ensures Four(0xF0 + a, 0x80 + z, 0x80 + y, 0x80 + x) == a * 262144 + z * 4096 + y * 64 + x
  {
    assert (0xF0 + a) % 8 == a;
    assert (0x80 + z) % 64 == z && (0x80 + y) % 64 == y && (0x80 + x) % 64 == x;
  }

  /** A character of more than one byte is refused when less than its width minus one may still be stored. */
  lemma AcceptedWidths(n: nat)
    ensures Accepted(1, n) && !Accepted(0, n)
    ensures (Accepted(2, n) <==> n >= 1) && (Accepted(3, n) <==> n >= 2) && (Accepted(4, n) <==> n >= 3)
  {
  }

  /** Decoding one character undoes encoding it, whatever stands before and after. */
  lemma DecodeEncode(s: seq<Byte>, i: nat, u: Unit)
    requires i + |Encode(u)| <= |s| && s[i..i + |Encode(u)|] == Encode(u)
    ensures Width(s[i]) == |Encode(u)| && Decode(s, i) == u
  {
    hide Two, Three, Four, Width;
    var e := Encode(u);
    assert s[i] == e[0];
    assert |e| >= 2 ==> s[i + 1] == e[1];
    assert |e| >= 3 ==> s[i + 2] == e[2];
    if u < 0x80 {
      OneByte(u);
    } else if u < 0x800 {
      TwoBytes(u);
    } else {
      ThreeBytes(u);
    }
  }

  lemma OneByte(u: Unit)
    requires u < 0x80
    ensures Width(u) == 1
  {
  }

  /** Whether a character of `width` bytes is accepted when `n` more may be stored. */
  predicate Accepted(width: nat, n: nat) {
    width == 1 || (width >= 2 && n > width - 2)
  }

  /** From `i` on, the characters follow each other up to a terminator inside `s`. */
  predicate Framed(s: seq<Byte>, i: nat)
    decreases |s| - i
  {
    i < |s| && (s[i] != 0 && Width(s[i]) > 0 ==> i + Width(s[i]) < |s| && Framed(s, i + Width(s[i])))
  }

  /** The room that is left for character `k`: a 64-bit difference, which wraps. */
  function Room(n: nat, k: nat): nat {
    (n - k) % 0x1_0000_0000_0000_0000
  }

  /** What `s` from `i` on says, given that `k` characters out of `n` are stored already. */
  function Decoded(s: seq<Byte>, i: nat, k: nat, n: nat): (r: Option<seq<Unit>>)
    requires Framed(s, i)
    decreases |s| - i
  {
    if s[i] == 0 then Some([])
    else if !Accepted(Width(s[i]), Room(n, k)) then None
    else match Decoded(s, i + Width(s[i]), k + 1, n)
      case None => None
      case Some(us) => Some([Decode(s, i)] + us)
  }

  // ---------- Encoded text, piece by piece ----------

  lemma EncodedMore(w: seq<Unit>, k: nat)
    requires k < |w|
    ensures Encoded(w[..k + 1]) == Encoded(w[..k]) + Encode(w[k])
  {
    assert w[..k + 1][..k] == w[..k];
  }

  lemma {:induction false} EncodedPrefix(w: seq<Unit>, k: nat)
    requires k <= |w|
    ensures Encoded(w[..k]) <= Encoded(w)
    decreases |w| - k
  {
    if k == |w| {
      assert w[..k] == w;
    } else {
      EncodedMore(w, k);
      EncodedPrefix(w, k + 1);
    }
  }

  /** Where character `k` stands in the encoding. */
  lemma EncodedAt(w: seq<Unit>, k: nat)
    requires k < |w|
    ensures var i := |Encoded(w[..k])|;
      i + |Encode(w[k])| == |Encoded(w[..k + 1])| <= |Encoded(w)| && Encoded(w)[i..i + |Encode(w[k])|] == Encode(w[k])
  {
    EncodedMore(w, k);
    EncodedPrefix(w, k + 1);
  }

  /** No character of `w` from `k` on meets the limit `n` with too little room for its bytes. */
  predicate Clear(w: seq<Unit>, n: nat, k: nat) {
    && !(k <= n < |w| && w[n] >= 0x80)
    && !(k < n <= |w| && w[n - 1] >= 0x800)
  }

  lemma AcceptedIff(u: Unit, n: nat, k: nat)
    requires n < 0x1_0000_0000_0000_0000 && k < 0x8000_0000_0000_0000
    ensures Accepted(|Encode(u)|, Room(n, k)) <==> !(k == n && u >= 0x80) && !(k + 1 == n && u >= 0x800)
  {
    assert k <= n ==> Room(n, k) == n - k;
    assert k > n ==> Room(n, k) == n - k + 0x1_0000_0000_0000_0000;
  }

  function Prepended(us: seq<Unit>, r: Option<seq<Unit>>): Option<seq<Unit>> {
    match r
    case None => None
    case Some(v) => Some(us + v)
  }

  /** Reading on over one encoded character. */
  lemma ReadStep(s: seq<Byte>, i: nat, u: Unit, k: nat, n: nat)
    requires u != 0 && i + |Encode(u)| < |s| && s[i..i + |Encode(u)|] == Encode(u) && Framed(s, i + |Encode(u)|)
    ensures Framed(s, i) && Chars(s, i) == 1 + Chars(s, i + |Encode(u)|)
    ensures Decoded(s, i, k, n) ==
      if Accepted(|Encode(u)|, Room(n, k)) then Prepended([u], Decoded(s, i + |Encode(u)|, k + 1, n)) else None
  {
    hide Encode, Decode, Width, Accepted, Room;
    DecodeEncode(s, i, u);
    assert s[i] == Encode(u)[0];
  }

  lemma ReadEnd(s: seq<Byte>, i: nat, k: nat, n: nat)
    requires i < |s| && s[i] == 0
    ensures Framed(s, i) && Chars(s, i) == 0 && Decoded(s, i, k, n) == Some([])
  {
  }

  /** Reading an encoded text from its character `k` on. */
  lemma {:induction false} DecodedEncoded(w: seq<Unit>, rest: seq<Byte>, n: nat, k: nat)
    requires NulFree(w) && k <= |w| < 0x8000_0000_0000_0000 && n < 0x1_0000_0000_0000_0000
    ensures var s, i := Encoded(w) + [0] + rest, |Encoded(w[..k])|;
      Framed(s, i) && Chars(s, i) == |w| - k && Decoded(s, i, k, n) == if Clear(w, n, k) then Some(w[k..]) else None
    decreases |w| - k
  {
    hide Encoded, Encode, Framed, Decoded, Chars, Width, Accepted, Room;
    var s, i := Encoded(w) + [0] + rest, |Encoded(w[..k])|;
    if k == |w| {
      assert w[..k] == w;
      assert w[k..] == [];
      ReadEnd(s, i, k, n);
    } else {
      DecodedEncoded(w, rest, n, k + 1);
      EncodedAt(w, k);
      assert s[i..i + |Encode(w[k])|] == Encode(w[k]);
      assert w[k] in w;
      ReadStep(s, i, w[k], k, n);
      AcceptedIff(w[k], n, k);
      assert [w[k]] + w[k + 1..] == w[k..];
    }
  }

  /** How many characters stand before the terminator. */
  function Chars(s: seq<Byte>, i: nat): nat
    requires Framed(s, i)
    decreases |s| - i
  {
    if s[i] == 0 || Width(s[i]) == 0 then 0 else 1 + Chars(s, i + Width(s[i]))
  }

  // ---------- The conversions ----------

  /** `s` with `bytes` written over it at `at`. */
  function Put<T>(s: seq<T>, at: nat, bytes: seq<T>): (r: seq<T>)
    requires at + |bytes| <= |s|
    ensures |r| == |s|
  {
    s[..at] + bytes + s[at + |bytes|..]
  }

  lemma PutMore<T>(s: seq<T>, at: nat, a: seq<T>, b: seq<T>)
    requires at + |a| + |b| <= |s|
    ensures Put(Put(s, at, a), at + |a|, b) == Put(s, at, a + b)
  {
  }

  lemma PutNone<T>(s: seq<T>)
    ensures Put(s, 0, []) == s
  {
  }

  method Write<T>(a: array<T>, at: nat, x: T)
    requires at < a.Length
    modifies a
    ensures a[..] == Put(old(a[..]), at, [x])
  {
    a[at] := x;
  }

  method WcToMb(a: array<Byte>, at: nat, u: Unit) returns (r: nat)
    requires at + |Encode(u)| <= a.Length
    modifies a
    ensures r == |Encode(u)| && a[..] == Put(old(a[..]), at, Encode(u))
  {
    if u < 0x80 {
      a[at] := u;
      r := 1;
    } else if u < 0x800 {
      a[at] := 0xC0 + u / 64 % 32;
      a[at + 1] := 0x80 + u % 64;
      r := 2;
    } else {
      a[at] := 0xE0 + u / 4096 % 16;
      a[at + 1] := 0x80 + u / 64 % 64;
      a[at + 2] := 0x80 + u % 64;
      r := 3;
    }
  }

  /** After `k` characters the encoder stops: all are done, or four more bytes no longer fit below `n`. */
  predicate Stops(w: seq<Unit>, n: nat, k: nat) {
    && k <= |w|
    && (k < |w| ==> |Encoded(w[..k])| + 4 >= n)
    && (k > 0 ==> |Encoded(w[..k - 1])| + 4 < n)
  }

  /** The stopping point is unique, the terminator then lies inside `n` bytes, and all fits exactly as stated. */
  lemma StopsInside(w: seq<Unit>, n: nat, k: nat)
    requires Stops(w, n, k)
    ensures forall j: nat :: Stops(w, n, j) ==> j == k
    ensures |Encoded(w[..k])| < n <==> n > 0
    ensures k == |w| <==> w == [] || |Encoded(w[..|w| - 1])| + 4 < n
  {
    hide Encoded;
    if k > 0 {
      EncodedMore(w, k - 1);
    } else {
      EncodedNone();
      assert w[..k] == [];
    }
    forall j: nat | Stops(w, n, j)
      ensures j == k
    {
      if j < k {
        LongerLonger(w, j, k - 1);
      } else if j > k {
        LongerLonger(w, k, j - 1);
      }
    }
    if k < |w| {
      LongerLonger(w, k, |w| - 1);
    }
  }

  lemma EncodedNone()
    ensures Encoded([]) == []
  {
  }

  lemma StopsParts(w: seq<Unit>, n: nat, k: nat)
    requires Stops(w, n, k)
    ensures k <= |w|
  {
  }

  lemma LongerLonger(w: seq<Unit>, i: nat, j: nat)
    requires i <= j <= |w|
    ensures |Encoded(w[..i])| <= |Encoded(w[..j])|
  {
    assert w[..j][..i] == w[..i];
    EncodedPrefix(w[..j], i);
  }

  /** Encodes as many whole characters as fit, and a terminator; an empty text writes nothing. */
  method WcsToMbs(a: array<Byte>, w: seq<Unit>, n: nat) returns (r: nat, ghost k: nat)
    requires NulFree(w) && a.Length >= n && a.Length >= 1
    modifies a
    ensures Stops(w, n, k) && r == |Encoded(w[..k])| < a.Length
    ensures a[..] == if w == [] then old(a[..]) else Put(old(a[..]), 0, Encoded(w[..k]) + [0])
  {
    hide Encoded, Encode, Put;
    ghost var a0 := a[..];
    PutNone(a0);
    EncodedNone();
    k := 0;
    if w == [] {
      return 0, 0;
    }
    var i, used := 0, 0;
    while i < |w| && used + 4 < n
      invariant k == i <= |w| && used == |Encoded(w[..i])| < a.Length
      invariant a[..] == Put(a0, 0, Encoded(w[..i]))
      invariant i > 0 ==> |Encoded(w[..i - 1])| + 4 < n
    {
      EncodedMore(w, i);
      PutMore(a0, 0, Encoded(w[..i]), Encode(w[i]));
      var width := WcToMb(a, used, w[i]);
      i, used := i + 1, used + width;
      k := i;
    }
    PutMore(a0, 0, Encoded(w[..i]), [0]);
    Write(a, used, 0);
    r := used;
  }

  /** One step of reading, with what was read before. */
  lemma DecodedMore(s: seq<Byte>, i: nat, k: nat, n: nat, done: seq<Unit>)
    requires i < |s| && Framed(s, i) && s[i] != 0
    ensures Accepted(Width(s[i]), Room(n, k)) ==>
      && Width(s[i]) >= 1 && i + Width(s[i]) < |s|
      && Framed(s, i + Width(s[i])) && Chars(s, i) == 1 + Chars(s, i + Width(s[i]))
      && Prepended(done, Decoded(s, i, k, n)) == Prepended(done + [Decode(s, i)], Decoded(s, i + Width(s[i]), k + 1, n))
    ensures !Accepted(Width(s[i]), Room(n, k)) ==> Prepended(done, Decoded(s, i, k, n)) == None
  {
    if Accepted(Width(s[i]), Room(n, k)) {
      var r := Decoded(s, i + Width(s[i]), k + 1, n);
      assert r.Some? ==> done + [Decode(s, i)] + r.value == done + ([Decode(s, i)] + r.value);
    }
  }

  lemma DecodedDone(s: seq<Byte>, i: nat, k: nat, n: nat, done: seq<Unit>)
    requires i < |s| && Framed(s, i) && s[i] == 0
    ensures Prepended(done, Decoded(s, i, k, n)) == Some(done)
  {
    assert done + [] == done;
  }

  lemma ReadStart(s: seq<Byte>, n: nat)
    requires Framed(s, 0)
    ensures |s| > 0 && Prepended([], Decoded(s, 0, 0, n)) == Decoded(s, 0, 0, n)
  {
    var r := Decoded(s, 0, 0, n);
    assert r.Some? ==> [] + r.value == r.value;
  }

  lemma FramedHere(s: seq<Byte>, i: nat)
    requires Framed(s, i)
    ensures i < |s|
  {
  }

  /** One character; the answer is its width, zero at the terminator, none when it is not accepted. */
  method MbToWc(a: array<Unit>, at: nat, s: seq<Byte>, i: nat, n: nat) returns (r: Option<nat>)
    requires i < |s| && Framed(s, i) && at < a.Length
    modifies a
    ensures s[i] == 0 ==> r == Some(0) && a[..] == old(a[..])
    ensures s[i] != 0 && !Accepted(Width(s[i]), n) ==> r == None && a[..] == old(a[..])
    ensures s[i] != 0 && Accepted(Width(s[i]), n) ==>
      r == Some(Width(s[i])) && a[..] == Put(old(a[..]), at, [Decode(s, i)])
  {
    hide Two, Three, Four;
    if s[i] == 0 {
      return Some(0);
    }
    var arg: Unit := s[i];
    var ret := 1;
    if s[i] / 128 % 2 != 0 {
      if s[i] / 32 % 2 == 0 && n > 0 {
        arg, ret := Two(s[i], s[i + 1]), 2;
      } else if s[i] / 16 % 2 == 0 && n > 1 {
        arg, ret := Three(s[i], s[i + 1], s[i + 2]), 3;
      } else if s[i] / 8 % 2 == 0 && n > 2 {
        arg, ret := Four(s[i], s[i + 1], s[i + 2], s[i + 3]) % 0x10000, 4;
      } else {
        return None;
      }
    }
    a[at] := arg;
    r := Some(ret);
  }

  /** Decodes a text and ends it; an empty text writes nothing. */
  method MbsToWcs(a: array<Unit>, s: seq<Byte>, n: nat) returns (r: Option<nat>)
    requires Framed(s, 0) && a.Length > Chars(s, 0)
    modifies a
    ensures s[0] == 0 ==> r == Some(0) && a[..] == old(a[..])
    ensures s[0] != 0 ==> match Decoded(s, 0, 0, n)
      case None => r == None
      case Some(us) => |us| < a.Length && r == Some(|us|) && a[..] == Put(old(a[..]), 0, us + [0])
  {
    hide Framed, Decoded, Chars, Accepted, Room, Width, Decode, Put;
    ghost var a0 := a[..];
    PutNone(a0);
    ReadStart(s, n);
    if s[0] == 0 {
      return Some(0);
    }
    var i, k := 0, 0;
    ghost var done: seq<Unit> := [];
    while s[i] != 0
      invariant Framed(s, i) && i < |s| && k == |done| && k + Chars(s, i) < a.Length
      invariant Prepended(done, Decoded(s, i, k, n)) == Decoded(s, 0, 0, n)
      invariant a[..] == Put(a0, 0, done)
      decreases |s| - i
    {
      DecodedMore(s, i, k, n, done);
      var width := MbToWc(a, k, s, i, Room(n, k));
      if width.None? {
        return None;
      }
      PutMore(a0, 0, done, [Decode(s, i)]);
      done := done + [Decode(s, i)];
      i, k := i + width.value, k + 1;
      FramedHere(s, i);
    }
    DecodedDone(s, i, k, n, done);
    PutMore(a0, 0, done, [0]);
    Write(a, k, 0);
    r := Some(k);
  }

  lemma DecodedWhole(w: seq<Unit>, rest: seq<Byte>, n: nat)
    requires NulFree(w) && |w| < 0x8000_0000_0000_0000 && n < 0x1_0000_0000_0000_0000
    ensures var s := Encoded(w) + [0] + rest;
      && Framed(s, 0) && Chars(s, 0) == |w| && (s[0] == 0 <==> w == [])
      && Decoded(s, 0, 0, n) == if Clear(w, n, 0) then Some(w) else None
  {
    hide *;
    DecodedEncoded(w, rest, n, 0);
    assert w[..0] == [] && w[0..] == w;
    EncodedNone();
    if w != [] {
      EncodedAt(w, 0);
      assert w[0] in w;
      FirstNotNul(w);
    }
  }

  lemma FirstNotNul(w: seq<Unit>)
    requires NulFree(w) && w != []
    ensures |Encoded(w)| > 0 && Encoded(w)[0] != 0
  {
    assert w[..0] == [];
    EncodedAt(w, 0);
    assert w[0] in w;
    assert Encoded(w)[0] == Encode(w[0])[0];
  }

  /** The buffer then starts with the encoding of some whole characters and a terminator. */
  method WriteOut(bytes: array<Byte>, w: seq<Unit>, n: nat) returns (ghost k: nat, ghost rest: seq<Byte>)
    requires NulFree(w) && bytes.Length >= n && bytes.Length >= 1
    requires w == [] ==> bytes[0] == 0
    modifies bytes
    ensures k <= |w| && bytes[..] == Encoded(w[..k]) + [0] + rest
    ensures k == |w| <==> w == [] || |Encoded(w[..|w| - 1])| + 4 < n
  {
    hide Encoded, Stops;
    ghost var s0 := bytes[..];
    var used;
    used, k := WcsToMbs(bytes, w, n);
    StopsParts(w, n, k);
    StopsInside(w, n, k);
    rest := s0[|Encoded(w[..k])| + 1..];
    EncodedNone();
    assert w == [] ==> w[..k] == [];
  }

  /** Reads back what starts with an encoded text. */
  method ReadBack(units: array<Unit>, s: seq<Byte>, m: nat, ghost w: seq<Unit>, ghost rest: seq<Byte>)
    returns (r: Option<nat>)
    requires NulFree(w) && |w| < 0x8000_0000_0000_0000 && m < 0x1_0000_0000_0000_0000
    requires s == Encoded(w) + [0] + rest && units.Length > |w|
    modifies units
    ensures w == [] ==> r == Some(0)
    ensures w != [] ==>
      if Clear(w, m, 0) then r == Some(|w|) && units[..] == Put(old(units[..]), 0, w + [0]) else r == None
  {
    hide *;
    DecodedWhole(w, rest, m);
    r := MbsToWcs(units, s, m);
  }

  /**
   A text written with room `n` and read back with limit `m` comes back whole exactly when it
   fits and no character meets the limit. An empty text is never written, so for it the buffer
   has to hold a terminator already.
   */
  method RoundTrip(bytes: array<Byte>, units: array<Unit>, w: seq<Unit>, n: nat, m: nat) returns (r: Option<nat>)
    requires NulFree(w) && |w| < 0x8000_0000_0000_0000 && m < 0x1_0000_0000_0000_0000
    requires bytes.Length >= n && bytes.Length >= 1 && units.Length > |w|
    requires w == [] ==> bytes[0] == 0
    modifies bytes, units
    ensures r == Some(|w|) && units[..|w|] == w <==>
            (w == [] || |Encoded(w[..|w| - 1])| + 4 < n) && Clear(w, m, 0)
  {
    hide *;
    ghost var k, rest := WriteOut(bytes, w, n);
    NulFreePart(w, k);
    ghost var u0 := units[..];
    r := ReadBack(units, bytes[..], m, w[..k], rest);
    CameBack(w, k, m, u0, units[..], r);
  }

  lemma NulFreePart(w: seq<Unit>, k: nat)
    requires NulFree(w) && k <= |w|
    ensures NulFree(w[..k]) && |w[..k]| == k
  {
  }

  /** What was read is the whole text exactly when all of it was written and nothing met the limit. */
  lemma CameBack(w: seq<Unit>, k: nat, m: nat, u0: seq<Unit>, u: seq<Unit>, r: Option<nat>)
    requires k <= |w| < |u| == |u0|
    requires k == 0 ==> r == Some(0)
    requires k > 0 ==> if Clear(w[..k], m, 0) then r == Some(k) && u == Put(u0, 0, w[..k] + [0]) else r == None
    ensures r == Some(|w|) && u[..|w|] == w <==> k == |w| && Clear(w, m, 0)
  {
    if k == |w| {
      assert w[..k] == w;
    }
  }
}
