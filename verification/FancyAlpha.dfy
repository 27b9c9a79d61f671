/**
 Alpha weighting of RGBA rows in the image resampler. Weighting widens each pixel
 in place from four samples to seven (colour, alpha, and colour times alpha);
 unweighting narrows it back. Samples are exact reals.
 */
module FancyAlpha {
  import opened Common

  /** A pixel widened: colour, alpha, and colour times alpha. */
  function WidenedPixel(px: seq<real>): (wide: seq<real>)
    requires |px| == 4
    ensures |wide| == 7
  {
    [px[0], px[1], px[2], px[3], Times(px[0], px[3]), Times(px[1], px[3]), Times(px[2], px[3])]
  }

  /** A pixel narrowed from seven samples. */
  function NarrowedPixel(wide: seq<real>): (px: seq<real>)
    requires |wide| == 7
    ensures |px| == 4
  {
    var alpha := wide[3];
    if alpha < SMALL then [wide[0], wide[1], wide[2], alpha]
    else [Times(wide[4], 1.0 / alpha), Times(wide[5], 1.0 / alpha), Times(wide[6], 1.0 / alpha), alpha]
  }

  function Pixel(row: seq<real>, p: nat): (pixel: seq<real>)
    requires 4 * p + 4 <= |row|
    ensures |pixel| == 4
  {
    row[4 * p..4 * p + 4]
  }

  function Wide(row: seq<real>, p: nat): (wide: seq<real>)
    requires 7 * p + 7 <= |row|
    ensures |wide| == 7
  {
    row[7 * p..7 * p + 7]
  }

  /** `wide` is the row `row` of `pixels` pixels, widened. */
  ghost predicate IsWidened(row: seq<real>, wide: seq<real>, pixels: nat) {
    && |row| >= 4 * pixels && |wide| >= 7 * pixels
    && (forall p :: 0 <= p < pixels ==> Wide(wide, p) == WidenedPixel(Pixel(row, p)))
  }

  /** `row` is the widened row `wide` of `pixels` pixels, narrowed. */
  ghost predicate IsNarrowed(wide: seq<real>, row: seq<real>, pixels: nat) {
    && |row| >= 4 * pixels && |wide| >= 7 * pixels
    && (forall p :: 0 <= p < pixels ==> Pixel(row, p) == NarrowedPixel(Wide(wide, p)))
  }

  /** The colours that pixel `p` of a narrowed row comes to, for any samples whatever. */
  ghost predicate Divided(wide: seq<real>, row: seq<real>, p: nat)
    requires 4 * p + 4 <= |row| && 7 * p + 7 <= |wide|
  {
    var alpha := wide[7 * p + 3];
    && row[4 * p + 3] == alpha
    && if alpha * 1329227995784915872903807060280344576.0 < 1.0
       then row[4 * p] == wide[7 * p] && row[4 * p + 1] == wide[7 * p + 1] && row[4 * p + 2] == wide[7 * p + 2]
       else row[4 * p] * alpha == wide[7 * p + 4] && row[4 * p + 1] * alpha == wide[7 * p + 5]
            && row[4 * p + 2] * alpha == wide[7 * p + 6]
  }

  /** Where alpha is 2^-120 or more the weighted colour is divided by it, and elsewhere the plain colour is taken. */
  lemma NarrowedDivides(wide: seq<real>, row: seq<real>, pixels: nat, p: nat)
    requires IsNarrowed(wide, row, pixels) && p < pixels
    ensures Divided(wide, row, p)
  {
    var w, px := Wide(wide, p), Pixel(row, p);
    assert px == NarrowedPixel(w);
    assert px[0] == row[4 * p] && px[1] == row[4 * p + 1] && px[2] == row[4 * p + 2] && px[3] == row[4 * p + 3];
    var alpha := w[3];
    assert alpha == wide[7 * p + 3];
    assert w[0] == wide[7 * p] && w[1] == wide[7 * p + 1] && w[2] == wide[7 * p + 2];
    assert w[4] == wide[7 * p + 4] && w[5] == wide[7 * p + 5] && w[6] == wide[7 * p + 6];
    SmallIs();
    if alpha >= SMALL {
      Quotient(w[4], alpha);
      Quotient(w[5], alpha);
      Quotient(w[6], alpha);
    }
  }

  lemma Quotient(x: real, alpha: real)
    requires alpha != 0.0
    ensures Times(x, 1.0 / alpha) * alpha == x
  {
    assert x * (1.0 / alpha) * alpha == x * ((1.0 / alpha) * alpha);
  }

  /** Pixel `p` of a widened row: the pixel as it was, followed by its colours times its alpha. */
  ghost predicate Multiplied(row: seq<real>, wide: seq<real>, p: nat)
    requires 4 * p + 4 <= |row| && 7 * p + 7 <= |wide|
  {
    && wide[7 * p..7 * p + 4] == row[4 * p..4 * p + 4]
    && wide[7 * p + 4] == row[4 * p] * row[4 * p + 3]
    && wide[7 * p + 5] == row[4 * p + 1] * row[4 * p + 3]
    && wide[7 * p + 6] == row[4 * p + 2] * row[4 * p + 3]
  }

  /** A widened row holds each pixel as it was, followed by its colours times its alpha. */
  lemma WidenedHolds(row: seq<real>, wide: seq<real>, pixels: nat, p: nat)
    requires IsWidened(row, wide, pixels) && p < pixels
    ensures Multiplied(row, wide, p)
  {
    var w, px := Wide(wide, p), Pixel(row, p);
    assert w == WidenedPixel(px);
    assert px[0] == row[4 * p] && px[1] == row[4 * p + 1] && px[2] == row[4 * p + 2] && px[3] == row[4 * p + 3];
    assert w[4] == wide[7 * p + 4] && w[5] == wide[7 * p + 5] && w[6] == wide[7 * p + 6];
    assert wide[7 * p..7 * p + 4] == w[..4];
  }

  /** Dividing by alpha undoes the multiplication, and where alpha is too small the plain colour was kept. */
  lemma PixelRoundTrip(px: seq<real>)
    requires |px| == 4
    ensures NarrowedPixel(WidenedPixel(px)) == px
  {
    var alpha := px[3];
    assert px == [px[0], px[1], px[2], px[3]];
    if alpha >= SMALL {
      Undone(px[0], alpha);
      Undone(px[1], alpha);
      Undone(px[2], alpha);
    }
  }

  lemma Undone(colour: real, alpha: real)
    requires alpha != 0.0
    ensures Times(Times(colour, alpha), 1.0 / alpha) == colour
  {
    assert (colour * alpha) * (1.0 / alpha) == colour * (alpha * (1.0 / alpha));
  }

  lemma PixelBack(row: seq<real>, wide: seq<real>, back: seq<real>, pixels: nat, p: nat)
    requires IsWidened(row, wide, pixels) && IsNarrowed(wide, back, pixels) && p < pixels
    ensures Pixel(back, p) == Pixel(row, p)
  {
    hide WidenedPixel, NarrowedPixel, Pixel, Wide;
    PixelRoundTrip(Pixel(row, p));
  }

  lemma PixelAt(row: seq<real>, x: nat)
    requires 4 * (x / 4) + 4 <= |row|
    ensures row[x] == Pixel(row, x / 4)[x % 4]
  {
  }

  /** Narrowing a widened row gives the row back, sample by sample. */
  lemma RoundTrip(row: seq<real>, wide: seq<real>, back: seq<real>, pixels: nat)
    requires IsWidened(row, wide, pixels) && IsNarrowed(wide, back, pixels)
    ensures back[..4 * pixels] == row[..4 * pixels]
  {
    hide WidenedPixel, NarrowedPixel, Pixel, Wide;
    forall x | 0 <= x < 4 * pixels
      ensures back[x] == row[x]
    {
      PixelBack(row, wide, back, pixels, x / 4);
      PixelAt(row, x);
      PixelAt(back, x);
    }
  }

  /** The body of the widening loop. */
  method WidenPixel(buffer: array<real>, output: nat, decode: nat)
    requires output + 7 <= buffer.Length && decode + 4 <= buffer.Length
    modifies buffer
    ensures buffer[output..output + 7] == WidenedPixel(old(buffer[decode..decode + 4]))
    ensures forall x :: 0 <= x < buffer.Length && !(output <= x < output + 7) ==> buffer[x] == old(buffer[x])
  {
    hide Times;
    var r, g, b, alpha := buffer[decode], buffer[decode + 1], buffer[decode + 2], buffer[decode + 3];
    ghost var pixel := buffer[decode..decode + 4];
    assert pixel[0] == r && pixel[1] == g && pixel[2] == b && pixel[3] == alpha;
    buffer[output] := r;
    buffer[output + 1] := g;
    buffer[output + 2] := b;
    buffer[output + 3] := alpha;
    buffer[output + 4] := Times(r, alpha);
    buffer[output + 5] := Times(g, alpha);
    buffer[output + 6] := Times(b, alpha);
    assert buffer[output..output + 7] == WidenedPixel(pixel);
  }

  lemma WidenedNext(row: seq<real>, before: seq<real>, after: seq<real>, p: nat)
    requires IsWidened(row, before, p)
    requires |after| == |before| >= 7 * p + 7 && |row| >= 4 * p + 4
    requires forall x :: 0 <= x < 7 * p ==> after[x] == before[x]
    requires after[7 * p..7 * p + 7] == WidenedPixel(Pixel(row, p))
    ensures IsWidened(row, after, p + 1)
  {
    hide WidenedPixel;
    forall q | 0 <= q < p
      ensures Wide(after, q) == Wide(before, q)
    {
    }
  }

  /** The pixel to be read next is where it was. */
  lemma StillThere(s: seq<real>, t: seq<real>, pixels: nat, p: nat)
    requires |t| == |s| >= 7 * pixels && p < pixels
    requires forall x :: 3 * pixels + 4 * p <= x < |s| ==> t[x] == s[x]
    ensures var d := 3 * pixels + 4 * p;
      t[d..d + 4] == Pixel(s[3 * pixels..7 * pixels], p)
  {
    var d := 3 * pixels + 4 * p;
    forall k | 0 <= k < 4
      ensures t[d..d + 4][k] == Pixel(s[3 * pixels..7 * pixels], p)[k]
    {
      assert t[d..d + 4][k] == t[d + k] == s[d + k] == s[3 * pixels..7 * pixels][4 * p + k];
    }
  }

  /**
   Widens in place. The row waits at the far end of the buffer, so that no
   pixel is overwritten before it has been read.
   */
  method Weight(buffer: array<real>, pixels: nat)
    requires buffer.Length >= 7 * pixels
    modifies buffer
    ensures IsWidened(old(buffer[3 * pixels..7 * pixels]), buffer[..], pixels)
    ensures forall p :: 0 <= p < pixels ==> Multiplied(old(buffer[3 * pixels..7 * pixels]), buffer[..], p)
    ensures forall x :: 7 * pixels <= x < buffer.Length ==> buffer[x] == old(buffer[x])
  {
    hide IsWidened, WidenedPixel, Multiplied, Pixel;
    ghost var row := buffer[3 * pixels..7 * pixels];
    NoneWidened(row, buffer[..]);
    var output, endDecode := 0, 7 * pixels;
    var decode := endDecode - 4 * pixels;
    ghost var p := 0;
    while decode < endDecode
      invariant 0 <= p <= pixels && output == 7 * p && decode == 3 * pixels + 4 * p
      invariant IsWidened(row, buffer[..], p)
      invariant forall x :: decode <= x < buffer.Length ==> buffer[x] == old(buffer[x])
    {
      ghost var before := buffer[..];
      StillThere(old(buffer[..]), before, pixels, p);
      WidenPixel(buffer, output, decode);
      WidenedNext(row, before, buffer[..], p);
      output, decode, p := output + 7, decode + 4, p + 1;
    }
    forall q | 0 <= q < pixels
      ensures Multiplied(row, buffer[..], q)
    {
      WidenedHolds(row, buffer[..], pixels, q);
    }
  }

  lemma NoneWidened(row: seq<real>, wide: seq<real>)
    ensures IsWidened(row, wide, 0) && IsNarrowed(wide, row, 0)
  {
  }

  /** The body of the narrowing loop; the samples written may be samples just read. */
  method NarrowPixel(buffer: array<real>, encode: nat, input: nat)
    requires encode <= input && input + 7 <= buffer.Length
    modifies buffer
    ensures buffer[encode..encode + 4] == NarrowedPixel(old(buffer[input..input + 7]))
    ensures forall x :: 0 <= x < buffer.Length && !(encode <= x < encode + 4) ==> buffer[x] == old(buffer[x])
  {
    hide Times;
    ghost var wide := buffer[input..input + 7];
    var alpha := buffer[input + 3];
    assert wide[0] == buffer[input] && wide[1] == buffer[input + 1] && wide[2] == buffer[input + 2] && wide[3] == alpha;
    assert wide[4] == buffer[input + 4] && wide[5] == buffer[input + 5] && wide[6] == buffer[input + 6];
    if alpha < SMALL {
      buffer[encode] := buffer[input];
      buffer[encode + 1] := buffer[input + 1];
      buffer[encode + 2] := buffer[input + 2];
    } else {
      var ialpha := 1.0 / alpha;
      buffer[encode] := Times(buffer[input + 4], ialpha);
      buffer[encode + 1] := Times(buffer[input + 5], ialpha);
      buffer[encode + 2] := Times(buffer[input + 6], ialpha);
    }
    buffer[encode + 3] := alpha;
    assert buffer[encode..encode + 4] == NarrowedPixel(wide);
  }

  /** Narrows in place, towards the front of the buffer. */
  method Unweight(buffer: array<real>, pixels: nat)
    requires 0 < pixels && buffer.Length >= 7 * pixels
    modifies buffer
    ensures IsNarrowed(old(buffer[..]), buffer[..], pixels)
    ensures forall p :: 0 <= p < pixels ==> Divided(old(buffer[..]), buffer[..], p)
  {
    hide Divided, IsNarrowed, NarrowedPixel;
    ghost var wide := buffer[..];
    NoneWidened(wide, wide);
    var encode, input, endOutput := 0, 0, 4 * pixels;
    ghost var p := 0;
    while encode < endOutput
      invariant 0 <= p <= pixels && encode == 4 * p && input == 7 * p
      invariant IsNarrowed(wide, buffer[..], p)
      invariant forall x :: input <= x < buffer.Length ==> buffer[x] == wide[x]
    {
      ghost var before := buffer[..];
      assert buffer[input..input + 7] == Wide(wide, p);
      NarrowPixel(buffer, encode, input);
      NarrowedNext(wide, before, buffer[..], p);
      input, encode, p := input + 7, encode + 4, p + 1;
    }
    forall q | 0 <= q < pixels
      ensures Divided(wide, buffer[..], q)
    {
      NarrowedDivides(wide, buffer[..], pixels, q);
    }
  }

  lemma NarrowedNext(wide: seq<real>, before: seq<real>, after: seq<real>, p: nat)
    requires IsNarrowed(wide, before, p)
    requires |after| == |before| >= 4 * p + 4 && |wide| >= 7 * p + 7
    requires forall x :: 0 <= x < 4 * p ==> after[x] == before[x]
    requires after[4 * p..4 * p + 4] == NarrowedPixel(Wide(wide, p))
    ensures IsNarrowed(wide, after, p + 1)
  {
    hide NarrowedPixel;
    forall q | 0 <= q < p
      ensures Pixel(after, q) == Pixel(before, q)
    {
    }
  }

  /** Weighting and unweighting a row where it lies leaves the row at the front of the buffer. */
  method WeightUnweight(buffer: array<real>, pixels: nat)
    requires 0 < pixels && buffer.Length >= 7 * pixels
    modifies buffer
    ensures buffer[..4 * pixels] == old(buffer[3 * pixels..7 * pixels])
  {
    ghost var row := buffer[3 * pixels..7 * pixels];
    Weight(buffer, pixels);
    ghost var wide := buffer[..];
    Unweight(buffer, pixels);
    RoundTrip(row, wide, buffer[..], pixels);
  }
}
