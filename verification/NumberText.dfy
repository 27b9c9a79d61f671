/**
 Numbers as text in the boot C library: the integer conversions of `vsnprintf`, which fill a
 small buffer from its end, and the parsers `strtol` and `atol`. Characters are ASCII codes.
 */
module NumberText {

  type Char = c: int | 0 <= c < 256
  newtype Int64 = x: int | -0x8000_0000_0000_0000 <= x < 0x8000_0000_0000_0000

  const MINUS: Char := 45
  const ZERO: Char := 48
  const LOWER_X: Char := 120

  /** The character of one digit; letters follow the digits, `A` or `a` on. */
  function DigitChar(d: nat, upper: bool): (c: Char)
    requires d < 16
  {
    if d <= 9 then 0x30 + d else if upper then 0x37 + d else 0x57 + d
  }

  /** Positional notation, without leading zeros. */
  function Digits(v: nat, base: nat, upper: bool): (ds: seq<Char>)
    requires 2 <= base <= 16
    ensures |ds| >= 1
    decreases v
  {
    if v < base then [DigitChar(v, upper)] else Digits(v / base, base, upper) + [DigitChar(v % base, upper)]
  }

  function Pow(base: nat, k: nat): nat {
    if k == 0 then 1 else base * Pow(base, k - 1)
  }

  /** Twenty decimal or sixteen hexadecimal digits hold every 64-bit number. */
  lemma WordFits()
    ensures 0x1_0000_0000_0000_0000 <= Pow(10, 20) && 0x1_0000_0000_0000_0000 <= Pow(16, 16)
  {
    Pow4(10, 0);
    Pow4(10, 4);
    Pow4(10, 8);
    Pow4(10, 12);
    Pow4(10, 16);
    Pow4(16, 0);
    Pow4(16, 4);
    Pow4(16, 8);
    Pow4(16, 12);
  }

  lemma Pow4(base: nat, k: nat)
    ensures Pow(base, k + 4) == base * (base * (base * (base * Pow(base, k))))
  {
    assert Pow(base, k + 2) == base * (base * Pow(base, k));
  }

  // ---------- Printing ----------

  /** What is still to be printed of a number whose low digits are done. */
  function Front(v: nat, base: nat, upper: bool): seq<Char>
    requires 2 <= base <= 16
  {
    if v == 0 then [] else Digits(v, base, upper)
  }

  function Quotient(v: nat, base: nat): nat
    requires base >= 2
  {
    v / base
  }

  function Remainder(v: nat, base: nat): (r: nat)
    requires base >= 2
    ensures r < base
  {
    v % base
  }

  lemma DigitsStep(v: nat, base: nat, upper: bool)
    requires 2 <= base <= 16
    ensures Digits(v, base, upper) == Front(Quotient(v, base), base, upper) + [DigitChar(Remainder(v, base), upper)]
  {
    hide DigitChar;
    QuotientZero(v, base);
  }

  lemma QuotientZero(v: nat, base: nat)
    requires base >= 2
    ensures v / base == 0 <==> v < base
    ensures v < base ==> v % base == v
  {
  }

  lemma Scale(base: nat, a: nat, b: nat)
    ensures a >= b ==> base * a >= base * b
  {
  }

  lemma QuotientBelow(v: nat, base: nat, k: nat)
    requires 2 <= base && k > 0 && v < Pow(base, k)
    ensures Quotient(v, base) < Pow(base, k - 1)
  {
    Scale(base, v / base, Pow(base, k - 1));
  }

  lemma PowNone(base: nat)
    ensures Pow(base, 0) == 1
  {
  }

  lemma FrontNone(base: nat, upper: bool)
    requires 2 <= base <= 16
    ensures Front(0, base, upper) == []
  {
  }

  lemma FrontStep(v: nat, base: nat, upper: bool, done: seq<Char>)
    requires 2 <= base <= 16 && v != 0
    ensures Front(v, base, upper) + done
            == Front(Quotient(v, base), base, upper) + ([DigitChar(Remainder(v, base), upper)] + done)
  {
    DigitsStep(v, base, upper);
  }

  /** `s` with `text` standing right before `end`. */
  function Before(s: seq<Char>, text: seq<Char>, end: nat): (r: seq<Char>)
    requires |text| <= end <= |s|
    ensures |r| == |s| && r[end - |text|..end] == text
  {
    s[..end - |text|] + text + s[end..]
  }

  /** One more character in front. */
  method PushFront(tmp: array<Char>, i: nat, c: Char, ghost s: seq<Char>, ghost text: seq<Char>, ghost end: nat)
    requires |text| < end <= tmp.Length == |s| && i == end - |text| && tmp[..] == Before(s, text, end)
    modifies tmp
    ensures tmp[..] == Before(s, [c] + text, end)
  {
    tmp[i - 1] := c;
  }

  /** Stores the digits of `v` before position `end`, last digit first; `room` places suffice. */
  method StoreDigits(tmp: array<Char>, end: nat, v: nat, base: nat, upper: bool, ghost room: nat) returns (i: nat)
    requires 2 <= base <= 16 && 1 <= room <= end <= tmp.Length && v < Pow(base, room)
    modifies tmp
    ensures |Digits(v, base, upper)| <= room && i == end - |Digits(v, base, upper)|
    ensures tmp[..] == Before(old(tmp[..]), Digits(v, base, upper), end)
  {
    hide Digits, Front, Pow, DigitChar, Before, Quotient, Remainder;
    ghost var s := tmp[..];
    BeforeNone(s, end);
    DigitsStep(v, base, upper);
    QuotientBelow(v, base, room);
    var arg: nat := v;
    i := end;
    ghost var done: seq<Char> := [];
    PushFront(tmp, i, DigitChar(Remainder(arg, base), upper), s, done, end);
    done := [DigitChar(Remainder(arg, base), upper)] + done;
    i, arg := i - 1, Quotient(arg, base);
    PowNone(base);
    FrontNone(base, upper);
    while arg != 0 && i > 0
      invariant 1 <= |done| <= room && i == end - |done| && arg < Pow(base, room - |done|)
      invariant Front(arg, base, upper) + done == Digits(v, base, upper)
      invariant tmp[..] == Before(s, done, end)
      decreases i
    {
      assert |done| < room;
      FrontStep(arg, base, upper, done);
      QuotientBelow(arg, base, room - |done|);
      PushFront(tmp, i, DigitChar(Remainder(arg, base), upper), s, done, end);
      done := [DigitChar(Remainder(arg, base), upper)] + done;
      i, arg := i - 1, Quotient(arg, base);
    }
    assert done == Digits(v, base, upper);
  }

  lemma BeforeNone(s: seq<Char>, end: nat)
    requires end <= |s|
    ensures Before(s, [], end) == s
  {
  }

  function Repeat(c: Char, k: nat): (r: seq<Char>)
    ensures |r| == k
  {
    if k == 0 then [] else [c] + Repeat(c, k - 1)
  }

  function Padding(len: nat, limit: nat, width: nat): nat {
    if 0 < len <= limit && len > width then len - width else 0
  }

  /** `text` widened to `len` characters by `pad` in front, for widths up to `limit`. */
  function Padded(text: seq<Char>, len: nat, limit: nat, pad: Char): seq<Char> {
    Repeat(pad, Padding(len, limit, |text|)) + text
  }

  lemma RepeatMore(c: Char, k: nat, text: seq<Char>)
    ensures Repeat(c, k + 1) + text == [c] + (Repeat(c, k) + text)
  {
  }

  /** Pads the text that ends at `end`. */
  method StorePadding(tmp: array<Char>, start: nat, end: nat, len: nat, limit: nat, pad: Char,
                      ghost s: seq<Char>, ghost text: seq<Char>)
    returns (i: nat)
    requires |text| <= end <= tmp.Length == |s| && start == end - |text| && limit <= end
    requires tmp[..] == Before(s, text, end)
    modifies tmp
    ensures |Padded(text, len, limit, pad)| <= end && i == end - |Padded(text, len, limit, pad)|
    ensures tmp[..] == Before(s, Padded(text, len, limit, pad), end)
  {
    hide Before, Repeat;
    i := start;
    RepeatNone(pad, text);
    if 0 < len <= limit {
      ghost var k := 0;
      while i > 0 && i > end - len
        invariant k <= Padding(len, limit, |text|) && i == end - |text| - k
        invariant tmp[..] == Before(s, Repeat(pad, k) + text, end)
        decreases i
      {
        PushFront(tmp, i, pad, s, Repeat(pad, k) + text, end);
        RepeatMore(pad, k, text);
        i, k := i - 1, k + 1;
      }
    }
  }

  lemma RepeatNone(c: Char, text: seq<Char>)
    ensures Repeat(c, 0) + text == text
  {
  }

  /** The text of `%d`, `%i` and `%u`; padding goes in front of a sign. */
  function DecimalText(v: int, signed: bool, len: nat, pad: Char): seq<Char>
    requires !signed ==> v >= 0
  {
    Padded(if v < 0 then [MINUS] + Digits(-v, 10, false) else Digits(v, 10, false), len, 22, pad)
  }

  /** Fills the 24 characters of `tmp` from the end; the text starts at the answer and ends in a terminator. */
  method FormatDecimal(tmp: array<Char>, v: int, signed: bool, len: nat, pad: Char) returns (i: nat)
    requires tmp.Length == 24
    requires if signed then -0x8000_0000_0000_0000 < v < 0x8000_0000_0000_0000 else 0 <= v < 0x1_0000_0000_0000_0000
    modifies tmp
    ensures tmp[23] == 0 && i <= 23 && tmp[i..23] == DecimalText(v, signed, len, pad)
  {
    hide Before, Padded, Digits;
    tmp[23] := 0;
    ghost var s := tmp[..];
    var arg := if v < 0 then -v else v;
    WordFits();
    i := StoreDigits(tmp, 23, arg, 10, false, 20);
    ghost var text := Digits(arg, 10, false);
    if v < 0 {
      PushFront(tmp, i, MINUS, s, text, 23);
      i := i - 1;
      text := [MINUS] + text;
    }
    i := StorePadding(tmp, i, 23, len, 22, pad, s, text);
    BeforeParts(s, DecimalText(v, signed, len, pad), 23);
    assert tmp[23] == tmp[..][23];
    assert tmp[i..23] == tmp[..][i..23];
  }

  lemma BeforeParts(s: seq<Char>, text: seq<Char>, end: nat)
    requires |text| <= end < |s|
    ensures Before(s, text, end)[end] == s[end]
  {
  }

  /** The text of `%x` and `%X`, padded with zeros only. */
  function HexText(u: nat, upper: bool, len: nat): seq<Char> {
    Padded(Digits(u, 16, upper), len, 16, ZERO)
  }

  method FormatHex(tmp: array<Char>, u: nat, upper: bool, len: nat) returns (i: nat)
    requires tmp.Length == 24 && u < 0x1_0000_0000_0000_0000
    modifies tmp
    ensures tmp[16] == 0 && i <= 16 && tmp[i..16] == HexText(u, upper, len)
  {
    hide Before, Padded, Digits;
    tmp[16] := 0;
    ghost var s := tmp[..];
    WordFits();
    i := StoreDigits(tmp, 16, u, 16, upper, 16);
    i := StorePadding(tmp, i, 16, len, 16, ZERO, s, Digits(u, 16, upper));
    BeforeParts(s, HexText(u, upper, len), 16);
    assert tmp[16] == tmp[..][16];
    assert tmp[i..16] == tmp[..][i..16];
  }

  /** Copies number text to the output while two more characters fit before `end`. */
  method CopyString(dst: array<Char>, at: nat, end: nat, text: seq<Char>) returns (n: nat)
    requires end <= dst.Length
    modifies dst
    ensures n == if at + |text| + 2 <= end then |text| else if at + 2 <= end then end - 2 - at else 0
    ensures n > 0 ==> dst[..] == old(dst[..at]) + text[..n] + old(dst[at + n..])
    ensures n == 0 ==> dst[..] == old(dst[..])
  {
    n := 0;
    while n < |text| && at + n + 2 < end
      invariant n <= |text| && (n > 0 ==> at + n + 2 <= end)
      invariant n > 0 ==> dst[..] == old(dst[..at]) + text[..n] + old(dst[at + n..])
      invariant n == 0 ==> dst[..] == old(dst[..])
    {
      dst[at + n] := text[n];
      n := n + 1;
    }
  }

  // ---------- Parsing ----------

  /** The loop of `strtol` goes on: in bases from ten up it takes `A` to `F` and `a` to `f` along. */
  predicate Continues(c: Char, base: nat) {
    c >= 48 && if base < 10 then c < base + 48 else c <= 57 || 65 <= c <= 70 || 97 <= c <= 102
  }

  function DigitValue(c: Char, base: nat): nat {
    if 48 <= c <= (if base < 10 then base + 48 else 57) then c - 48
    else if base == 16 && 97 <= c <= 102 then c - 97 + 10
    else if base == 16 && 65 <= c <= 70 then c - 65 + 10
    else 0
  }

  predicate Terminated(s: seq<Char>) {
    s != [] && s[|s| - 1] == 0
  }

  /** Reading on from `i` with `v` read so far. */
  function Read(s: seq<Char>, i: nat, base: nat, v: nat): nat
    requires Terminated(s) && i < |s|
    decreases |s| - i
  {
    if Continues(s[i], base) then Read(s, i + 1, base, v * base + DigitValue(s[i], base)) else v
  }

  lemma {:induction false} ReadGrows(s: seq<Char>, i: nat, base: nat, v: nat)
    requires Terminated(s) && i < |s| && base >= 1
    ensures Read(s, i, base, v) >= v
    decreases |s| - i
  {
    hide Continues, DigitValue;
    if Continues(s[i], base) {
      StopsAtEnd(s, i, base);
      Scale(v, base, 1);
      ReadGrows(s, i + 1, base, v * base + DigitValue(s[i], base));
    }
  }

  function Parsed(s: seq<Char>, from: nat, base: nat): int
    requires Terminated(s) && from < |s|
  {
    var size: int := Read(s, if s[from] == MINUS then from + 1 else from, base, 0);
    if s[from] == MINUS then -size else size
  }

  predicate Fits(x: int) {
    -0x8000_0000_0000_0000 < x < 0x8000_0000_0000_0000
  }

  method Strtol(s: seq<Char>, from: nat, base: nat) returns (r: Int64)
    requires Terminated(s) && from < |s| && 2 <= base <= 16 && Fits(Parsed(s, from, base))
    ensures r as int == Parsed(s, from, base)
  {
    if s[from] == 0 {
      return 0;
    }
    var i, v: Int64, sign: Int64 := from, 0, 1;
    if s[i] == MINUS {
      sign, i := -1, i + 1;
    }
    ghost var all := Read(s, i, base, 0);
    while Continues(s[i], base)
      invariant i < |s| && v >= 0 && Read(s, i, base, v as int) == all
      decreases |s| - i
    {
      ReadStep(s, i, base, v as int);
      v := v * base as Int64;
      v := v + DigitValue(s[i], base) as Int64;
      i := i + 1;
    }
    r := v * sign;
  }

  /** A step of the loop stays below what the whole text says, so nothing overflows on the way. */
  lemma ReadStep(s: seq<Char>, i: nat, base: nat, v: nat)
    requires Terminated(s) && i < |s| && 2 <= base <= 16 && Continues(s[i], base)
    ensures i + 1 < |s| && Read(s, i, base, v) == Read(s, i + 1, base, v * base + DigitValue(s[i], base))
    ensures 0 <= v * base <= v * base + DigitValue(s[i], base) <= Read(s, i, base, v)
  {
    hide Continues, DigitValue;
    StopsAtEnd(s, i, base);
    ReadGrows(s, i + 1, base, v * base + DigitValue(s[i], base));
    Scale(v, base, 0);
  }

  lemma StopsAtEnd(s: seq<Char>, i: nat, base: nat)
    requires Terminated(s) && i < |s| && Continues(s[i], base)
    ensures i + 1 < |s|
  {
  }

  /** What `atol` makes of a text: `0x` and a leading zero select the base. */
  function AtolValue(s: seq<Char>): int
    requires Terminated(s)
  {
    var from := if s[0] == MINUS then 1 else 0;
    var value :=
      if s[from] == ZERO && s[from + 1] == LOWER_X then Parsed(s, from + 2, 16)
      else if s[from] == ZERO && 48 <= s[from + 1] <= 55 then Parsed(s, from, 8)
      else Parsed(s, from, 10);
    if s[0] == MINUS then -value else value
  }

  method Atol(s: seq<Char>) returns (r: Int64)
    requires Terminated(s) && Fits(AtolValue(s))
    ensures r as int == AtolValue(s)
  {
    if s[0] == 0 {
      return 0;
    }
    var sign: Int64, from := 1, 0;
    if s[0] == MINUS {
      sign, from := -1, 1;
    }
    if s[from] == ZERO {
      if s[from + 1] == LOWER_X {
        r := Strtol(s, from + 2, 16);
        return r * sign;
      }
      if 48 <= s[from + 1] <= 55 {
        r := Strtol(s, from, 8);
        return r * sign;
      }
    }
    r := Strtol(s, from, 10);
    r := r * sign;
  }

  // ---------- Printing, then parsing ----------

  lemma DigitRead(d: nat, base: nat, upper: bool)
    requires 2 <= base <= 10 || base == 16
    requires d < base
    ensures Continues(DigitChar(d, upper), base) && DigitValue(DigitChar(d, upper), base) == d
  {
  }

  lemma ReadOne(s: seq<Char>, i: nat, base: nat, upper: bool, v: nat)
    requires Terminated(s) && i < |s| && (2 <= base <= 10 || base == 16)
    requires s[i] == DigitChar(Remainder(v, base), upper)
    ensures i + 1 < |s| && Read(s, i, base, Quotient(v, base)) == Read(s, i + 1, base, v)
  {
    hide Continues, DigitValue, DigitChar;
    DigitRead(v % base, base, upper);
    StopsAtEnd(s, i, base);
    assert v / base * base + v % base == v;
  }

  /** Reading the digits of a number from `i` on. */
  lemma {:induction false} ReadDigits(s: seq<Char>, i: nat, v: nat, base: nat, upper: bool)
    requires Terminated(s) && (2 <= base <= 10 || base == 16)
    requires i + |Digits(v, base, upper)| < |s| && s[i..i + |Digits(v, base, upper)|] == Digits(v, base, upper)
    ensures Read(s, i, base, 0) == Read(s, i + |Digits(v, base, upper)|, base, v)
    decreases v
  {
    hide Read, Digits, DigitChar, Quotient, Remainder, Continues, DigitValue;
    DigitsStep(v, base, upper);
    var ds, q := Digits(v, base, upper), Quotient(v, base);
    var front := Front(q, base, upper);
    assert s[i + |front|] == ds[|front|];
    ReadOne(s, i + |front|, base, upper, v);
    if q != 0 {
      QuotientSmaller(v, base);
      SliceFront(s, i, ds, |front|);
      ReadDigits(s, i, q, base, upper);
    }
  }

  lemma SliceFront(s: seq<Char>, i: nat, t: seq<Char>, m: nat)
    requires i + |t| <= |s| && s[i..i + |t|] == t && m <= |t|
    ensures s[i..i + m] == t[..m]
  {
    assert s[i..i + m] == s[i..i + |t|][..m];
  }

  lemma QuotientSmaller(v: nat, base: nat)
    requires base >= 2 && Quotient(v, base) != 0
    ensures Quotient(v, base) < v
  {
  }

  lemma {:induction false} FirstDigit(v: nat, upper: bool)
    ensures 48 <= Digits(v, 10, upper)[0] <= 57 && (Digits(v, 10, upper)[0] == ZERO <==> v == 0)
    decreases v
  {
    if v >= 10 {
      FirstDigit(v / 10, upper);
    }
  }

  /** `atol` of an unpadded `%d` is the number, for every number but the least. */
  lemma AtolDecimal(v: int, pad: Char)
    requires Fits(v)
    ensures AtolValue(DecimalText(v, true, 0, pad) + [0]) == v
  {
    hide Read, Digits;
    var size, from := if v < 0 then -v else v, if v < 0 then 1 else 0;
    var ds := Digits(size, 10, false);
    var s := DecimalText(v, true, 0, pad) + [0];
    RepeatNone(pad, DecimalText(v, true, 0, pad));
    assert s == (if v < 0 then [MINUS] else []) + ds + [0];
    FirstDigit(size, false);
    assert s[from..from + |ds|] == ds;
    ReadDigits(s, from, size, 10, false);
    ReadStop(s, from + |ds|, 10, size);
    if size == 0 {
      ZeroDigits();
    }
  }

  lemma ZeroDigits()
    ensures Digits(0, 10, false) == [ZERO]
  {
  }

  lemma ReadStop(s: seq<Char>, i: nat, base: nat, v: nat)
    requires Terminated(s) && i < |s| && s[i] == 0
    ensures Read(s, i, base, v) == v
  {
  }

  lemma {:induction false} ReadZeros(s: seq<Char>, i: nat, k: nat)
    requires Terminated(s) && i + k < |s| && s[i..i + k] == Repeat(ZERO, k)
    ensures Read(s, i, 16, 0) == Read(s, i + k, 16, 0)
    decreases k
  {
    if k > 0 {
      assert s[i] == s[i..i + k][0] == ZERO;
      assert s[i + 1..i + k] == s[i..i + k][1..] == Repeat(ZERO, k - 1);
      ReadZeros(s, i + 1, k - 1);
    }
  }

  /** `strtol` in base 16 of `%x` or `%X`, of any width, is the number. */
  lemma StrtolHex(u: nat, upper: bool, len: nat)
    ensures Parsed(HexText(u, upper, len) + [0], 0, 16) == u
  {
    hide Read, Digits, Repeat;
    var ds := Digits(u, 16, upper);
    var k := Padding(len, 16, |ds|);
    var s := HexText(u, upper, len) + [0];
    assert s == Repeat(ZERO, k) + ds + [0];
    assert s[0..k] == Repeat(ZERO, k);
    ReadZeros(s, 0, k);
    assert s[k..k + |ds|] == ds;
    ReadDigits(s, k, u, 16, upper);
    ReadStop(s, k + |ds|, 16, u);
    HexStart(s, u, upper, k);
  }

  lemma HexStart(s: seq<Char>, u: nat, upper: bool, k: nat)
    requires s == Repeat(ZERO, k) + Digits(u, 16, upper) + [0]
    ensures s[0] != MINUS
  {
    if k == 0 {
      HexFirst(u, upper);
      assert s[0] == Digits(u, 16, upper)[0];
    }
  }

  lemma {:induction false} HexFirst(u: nat, upper: bool)
    ensures Digits(u, 16, upper)[0] >= 48
    decreases u
  {
    if u >= 16 {
      HexFirst(u / 16, upper);
    }
  }

  /** The digits of a number are decimal digits, and from ten on letters of the one case or the other. */
  lemma {:induction false} DigitsAre(v: nat, base: nat, upper: bool, k: nat)
    requires 2 <= base <= 16 && k < |Digits(v, base, upper)|
    ensures var c := Digits(v, base, upper)[k];
      48 <= c <= 57 || (base > 10 && if upper then 65 <= c <= 70 else 97 <= c <= 102)
    ensures base <= 10 ==> Digits(v, base, upper)[k] < 48 + base
    decreases v
  {
    hide Digits, Quotient, Remainder, DigitChar;
    DigitsStep(v, base, upper);
    var q, d := Quotient(v, base), Remainder(v, base);
    if k < |Front(q, base, upper)| {
      QuotientSmaller(v, base);
      DigitsAre(q, base, upper, k);
    } else {
      DigitCharIs(d, upper);
    }
  }

  lemma DigitCharIs(d: nat, upper: bool)
    requires d < 16
    ensures DigitChar(d, upper) == if d < 10 then 48 + d else if upper then 55 + d else 87 + d
  {
  }

  lemma {:induction false} RepeatIs(c: Char, k: nat, i: nat)
    requires i < k
    ensures Repeat(c, k)[i] == c
    decreases k
  {
    if i > 0 {
      RepeatIs(c, k - 1, i - 1);
    }
  }

  /** `%x` prints small letters and `%X` capital ones, widened to at most 16 characters by zeros. */
  lemma HexShape(u: nat, upper: bool, len: nat)
    ensures var t, width := HexText(u, upper, len), |Digits(u, 16, upper)|;
      && |t| == (if 0 < len <= 16 && len > width then len else width)
      && (forall k :: 0 <= k < |t| - width ==> t[k] == 48)
      && (forall k :: |t| - width <= k < |t| ==>
            48 <= t[k] <= 57 || if upper then 65 <= t[k] <= 70 else 97 <= t[k] <= 102)
  {
    hide Digits, Repeat;
    var t, ds := HexText(u, upper, len), Digits(u, 16, upper);
    forall k | 0 <= k < |t| - |ds|
      ensures t[k] == 48
    {
      RepeatIs(ZERO, |t| - |ds|, k);
    }
    forall k | |t| - |ds| <= k < |t|
      ensures 48 <= t[k] <= 57 || if upper then 65 <= t[k] <= 70 else 97 <= t[k] <= 102
    {
      DigitsAre(u, 16, upper, k - (|t| - |ds|));
    }
  }

  /** Decimal text: padding up to 22 characters, a minus sign for a negative number, and digits. */
  lemma DecimalShape(v: int, len: nat, pad: Char)
    ensures var t, ds := DecimalText(v, true, len, pad), Digits(if v < 0 then -v else v, 10, false);
      var width := |ds| + if v < 0 then 1 else 0;
      && |t| == (if 0 < len < 23 && len > width then len else width)
      && (forall k :: 0 <= k < |t| - width ==> t[k] == pad)
      && (v < 0 ==> t[|t| - width] == 45)
      && (forall k :: |t| - |ds| <= k < |t| ==> 48 <= t[k] <= 57)
  {
    hide Digits, Repeat;
    var t, ds := DecimalText(v, true, len, pad), Digits(if v < 0 then -v else v, 10, false);
    var width := |ds| + if v < 0 then 1 else 0;
    forall k | 0 <= k < |t| - width
      ensures t[k] == pad
    {
      RepeatIs(pad, |t| - width, k);
    }
    forall k | |t| - |ds| <= k < |t|
      ensures 48 <= t[k] <= 57
    {
      DigitsAre(if v < 0 then -v else v, 10, false, k - (|t| - |ds|));
    }
  }

  /** `atol` reads `0x` and hexadecimal text, with letters of either case. */
  lemma AtolHex(u: nat, upper: bool)
    ensures AtolValue([48, 120] + Digits(u, 16, upper) + [0]) == u
  {
    hide Read, Digits;
    var ds := Digits(u, 16, upper);
    var s := [48, 120] + ds + [0];
    assert s[2..2 + |ds|] == ds;
    ReadDigits(s, 2, u, 16, upper);
    ReadStop(s, 2 + |ds|, 16, u);
    DigitsAre(u, 16, upper, 0);
    assert s[2] == ds[0];
  }

  /** `atol` reads a zero and octal digits. */
  lemma AtolOctal(u: nat)
    ensures AtolValue([48] + Digits(u, 8, false) + [0]) == u
  {
    hide Read, Digits;
    var ds := Digits(u, 8, false);
    var s := [48] + ds + [0];
    DigitsAre(u, 8, false, 0);
    assert s[1] == ds[0];
    assert s[1..1 + |ds|] == ds;
    OctalZero(s);
    ReadDigits(s, 1, u, 8, false);
    ReadStop(s, 1 + |ds|, 8, u);
  }

  /** A zero before an eight or a nine does not make a number octal. */
  lemma AtolNotOctal(u: nat)
    requires Digits(u, 10, false)[0] >= 56
    ensures AtolValue([48] + Digits(u, 10, false) + [0]) == u
  {
    hide Read, Digits;
    var ds := Digits(u, 10, false);
    var s := [48] + ds + [0];
    DigitsAre(u, 10, false, 0);
    assert s[1] == ds[0];
    assert s[1..1 + |ds|] == ds;
    DecimalZero(s);
    ReadDigits(s, 1, u, 10, false);
    ReadStop(s, 1 + |ds|, 10, u);
  }

  lemma DecimalZero(s: seq<Char>)
    requires Terminated(s) && |s| > 1 && s[0] == 48
    ensures Read(s, 0, 10, 0) == Read(s, 1, 10, 0)
  {
  }

  /** A number ends at the first character that is no digit; the letters up to F count as digits from base ten on. */
  lemma NumberEnds(u: nat, base: nat, upper: bool, rest: seq<Char>)
    requires (2 <= base <= 10 || base == 16) && Terminated(rest)
    requires if base < 10 then !(48 <= rest[0] < 48 + base)
             else !(48 <= rest[0] <= 57 || 65 <= rest[0] <= 70 || 97 <= rest[0] <= 102)
    ensures Parsed(Digits(u, base, upper) + rest, 0, base) == u
  {
    hide Read, Digits;
    var ds := Digits(u, base, upper);
    var s := ds + rest;
    DigitsAre(u, base, upper, 0);
    assert s[0] == ds[0] && s[|ds|] == rest[0] && s[|s| - 1] == 0;
    assert s[0..|ds|] == ds;
    ReadDigits(s, 0, u, base, upper);
    ReadHere(s, |ds|, base, u);
  }

  lemma ReadHere(s: seq<Char>, i: nat, base: nat, v: nat)
    requires Terminated(s) && i < |s| && !Continues(s[i], base)
    ensures Read(s, i, base, v) == v
  {
  }

  lemma OctalZero(s: seq<Char>)
    requires Terminated(s) && |s| > 1 && s[0] == 48
    ensures Read(s, 0, 8, 0) == Read(s, 1, 8, 0)
  {
  }

  /** A letter does not end a decimal number: it counts as a zero digit. */
  lemma LetterIsZero(s: seq<Char>, i: nat, v: nat)
    requires Terminated(s) && i < |s| && (65 <= s[i] <= 70 || 97 <= s[i] <= 102)
    ensures i + 1 < |s| && Read(s, i, 10, v) == Read(s, i + 1, 10, v * 10)
  {
  }

  /** Formats into the small buffer, copies to an output with enough room, and parses back. */
  method PrintAndParseDecimal(v: int, dst: array<Char>) returns (r: Int64)
    requires Fits(v) && dst.Length >= 26
    modifies dst
    ensures r as int == v
  {
    hide AtolValue, DecimalText;
    var tmp := new Char[24];
    var i := FormatDecimal(tmp, v, true, 0, 32);
    var text := tmp[i..23];
    var n := CopyString(dst, 0, dst.Length - 1, text);
    AtolDecimal(v, 32);
    dst[n] := 0;
    assert dst[..n + 1] == text + [0];
    r := Atol(dst[..n + 1]);
  }

  method PrintAndParseHex(u: nat, upper: bool, len: nat, dst: array<Char>) returns (r: Int64)
    requires u < 0x8000_0000_0000_0000 && dst.Length >= 26
    modifies dst
    ensures r as int == u
  {
    hide Parsed, HexText;
    var tmp := new Char[24];
    var i := FormatHex(tmp, u, upper, len);
    var text := tmp[i..16];
    var n := CopyString(dst, 0, dst.Length - 1, text);
    StrtolHex(u, upper, len);
    dst[n] := 0;
    assert dst[..n + 1] == text + [0];
    r := Strtol(dst[..n + 1], 0, 16);
  }
}
