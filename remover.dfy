/**
 * Background removal: a per-pixel map over the RGBA pixels of an image.
 * A pixel whose red, green and blue channels each lie in their inclusive
 * range becomes transparent white; every other pixel is kept as it is.
 */
module Remover {
  import opened Sampler

  datatype Pixel = Pixel(r: Byte, g: Byte, b: Byte, a: Byte)

  /** What a background pixel is replaced with: white, fully transparent. */
  const Transparent: Pixel := Pixel(255, 255, 255, 0)

  /** Channel `i` of a pixel: 0 red, 1 green, 2 blue, 3 alpha. */
  function ChannelOf(p: Pixel, i: nat): int
    requires i < 4
  {
    match i
    case 0 => p.r
    case 1 => p.g
    case 2 => p.b
    case _ => p.a
  }

  /**
   * The background test: each of the first three channels is paired with the
   * range at the same position (pairs run out with the shorter of the two)
   * and must lie inside it. Alpha never takes part.
   */
  predicate IsBackground(p: Pixel, ranges: seq<ChannelRange>) {
    forall i :: 0 <= i < |ranges| && i < 3 ==> Contains(ranges[i], ChannelOf(p, i))
  }

  function MapPixel(p: Pixel, ranges: seq<ChannelRange>): Pixel {
    if IsBackground(p, ranges) then Transparent else p
  }

  /** The image after background removal, as a value. */
  function MapPixels(pixels: seq<Pixel>, ranges: seq<ChannelRange>): (out: seq<Pixel>)
    ensures |out| == |pixels|
    ensures forall i :: 0 <= i < |pixels| ==> out[i] == (if IsBackground(pixels[i], ranges) then Transparent else pixels[i])
  {
    seq(|pixels|, i requires 0 <= i < |pixels| => MapPixel(pixels[i], ranges))
  }

  /**
   * Builds the new pixel list by appending one pixel per input pixel, in
   * order: transparent white for a background pixel, the pixel itself
   * (alpha included) otherwise.
   */
  method RemoveBackground(pixels: seq<Pixel>, ranges: seq<ChannelRange>) returns (out: seq<Pixel>)
    ensures |out| == |pixels|
    ensures forall i :: 0 <= i < |pixels| && IsBackground(pixels[i], ranges) ==> out[i] == Transparent
    ensures forall i :: 0 <= i < |pixels| && !IsBackground(pixels[i], ranges) ==> out[i] == pixels[i]
    ensures out == MapPixels(pixels, ranges)
  {
    out := [];
    for k := 0 to |pixels|
      invariant |out| == k
      invariant forall i :: 0 <= i < k ==> out[i] == MapPixel(pixels[i], ranges)
    {
      if IsBackground(pixels[k], ranges) {
        out := out + [Transparent];
      } else {
        out := out + [pixels[k]];
      }
    }
  }

  /** Alpha plays no part in the background test. */
  lemma BackgroundIgnoresAlpha(p: Pixel, alpha: Byte, ranges: seq<ChannelRange>)
    ensures IsBackground(p, ranges) <==> IsBackground(p.(a := alpha), ranges)
  {
    forall i | 0 <= i < |ranges| && i < 3 ensures ChannelOf(p, i) == ChannelOf(p.(a := alpha), i) {
    }
  }

  /**
   * Removing the background a second time with the same ranges changes
   * nothing: a replaced pixel is transparent white whether or not white
   * matches, and a kept pixel still fails the same test.
   */
  lemma RemoveBackgroundIdempotent(pixels: seq<Pixel>, ranges: seq<ChannelRange>)
    ensures MapPixels(MapPixels(pixels, ranges), ranges) == MapPixels(pixels, ranges)
  {
    var once := MapPixels(pixels, ranges);
    forall i | 0 <= i < |pixels| ensures MapPixels(once, ranges)[i] == once[i] {
      if IsBackground(pixels[i], ranges) {
        assert once[i] == Transparent;
      }
    }
  }

  /**
   * The output pixel at position i depends on the input pixel at position i
   * and on nothing else of the image.
   */
  lemma RemovalIsPointwise(xs: seq<Pixel>, ys: seq<Pixel>, ranges: seq<ChannelRange>, i: int)
    requires 0 <= i < |xs| && 0 <= i < |ys| && xs[i] == ys[i]
    ensures MapPixels(xs, ranges)[i] == MapPixels(ys, ranges)[i]
  {
  }

  /**
   * With the fallback range a pixel is background exactly when its red,
   * green and blue are all at least 200.
   */
  lemma FallbackMatchesNearWhite(p: Pixel)
    ensures IsBackground(p, FallbackRange) <==> 200 <= p.r && 200 <= p.g && 200 <= p.b
  {
    if 200 <= p.r && 200 <= p.g && 200 <= p.b {
      forall i | 0 <= i < 3 ensures Contains(FallbackRange[i], ChannelOf(p, i)) {
      }
    } else {
      assert !Contains(FallbackRange[0], ChannelOf(p, 0))
          || !Contains(FallbackRange[1], ChannelOf(p, 1))
          || !Contains(FallbackRange[2], ChannelOf(p, 2));
    }
  }
}
