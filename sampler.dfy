/**
 * Background sampling and tolerance ranges.
 *
 * `DetectBackgroundColor` models the sampler exactly as the application
 * computes it: the census of an RGB image (a list of `(count, color)` pairs)
 * is turned into a dictionary keyed by COUNT, the entry whose COLOUR is the
 * lexicographically greatest is picked, and its key -- an integer count -- is
 * returned. `MostFrequentColor` is the sampler the application evidently
 * means, kept beside it so that the difference can be stated.
 */
module Sampler {

  /** An 8-bit channel value, as the decoder produces them. */
  type Byte = x: int | 0 <= x < 256

  datatype RGB = RGB(r: Byte, g: Byte, b: Byte)

  /** One entry of an image's colour census: how many pixels carry `color`. */
  datatype ColorCount = ColorCount(count: int, color: RGB)

  /**
   * The value the sampler hands to the range builder. The application passes
   * whatever the sampler returned: an integer, or a tuple of channel values.
   */
  datatype Sample = CountKey(count: int) | ColorTuple(channels: seq<int>)

  /** An inclusive interval of channel values. */
  datatype ChannelRange = ChannelRange(low: int, high: int)

  const White: Sample := ColorTuple([255, 255, 255])

  /** The tolerance every image of a batch is processed with. */
  const DefaultTolerance: int := 30

  /** The range used for a sample that is not a three-channel tuple. */
  const FallbackRange: seq<ChannelRange> :=
    [ChannelRange(200, 255), ChannelRange(200, 255), ChannelRange(200, 255)]

  predicate Contains(range: ChannelRange, v: int) {
    range.low <= v <= range.high
  }

  /** Lexicographic order on colours, as tuples compare. */
  predicate ColorLess(x: RGB, y: RGB) {
    x.r < y.r || (x.r == y.r && (x.g < y.g || (x.g == y.g && x.b < y.b)))
  }

  // ---------------------------------------------------------------------
  // Tolerance range
  // ---------------------------------------------------------------------

  /**
   * The per-channel interval around a sampled colour: for a three-channel
   * tuple, channel i admits exactly the values within `tolerance` of the
   * channel that are also valid bytes; anything else gets the fixed
   * near-white range.
   */
  function CreateColorRange(bg: Sample, tolerance: int): (r: seq<ChannelRange>)
    ensures |r| == 3
    ensures forall i :: 0 <= i < 3 ==> 0 <= r[i].low && r[i].high <= 255
    ensures !(bg.ColorTuple? && |bg.channels| == 3) ==> r == FallbackRange
    ensures bg.ColorTuple? && |bg.channels| == 3 ==>
      forall i, v :: 0 <= i < 3 ==>
        (Contains(r[i], v) <==> 0 <= v <= 255 && bg.channels[i] - tolerance <= v <= bg.channels[i] + tolerance)
    ensures bg.ColorTuple? && |bg.channels| == 3 && tolerance >= 0 &&
            (forall i :: 0 <= i < 3 ==> 0 <= bg.channels[i] <= 255) ==>
      forall i :: 0 <= i < 3 ==> 0 <= r[i].low <= bg.channels[i] <= r[i].high <= 255
  {
    if bg.ColorTuple? && |bg.channels| == 3 then
      seq(3, i requires 0 <= i < 3 =>
        ChannelRange(Max(0, bg.channels[i] - tolerance), Min(255, bg.channels[i] + tolerance)))
    else
      FallbackRange
  }

  function Max(a: int, b: int): int { if a < b then b else a }

  function Min(a: int, b: int): int { if a < b then a else b }

  // ---------------------------------------------------------------------
  // The census as a dictionary keyed by count
  // ---------------------------------------------------------------------

  /**
   * Stores `e` under its count: a key already present keeps its position and
   * takes the new colour, a new key goes to the end.
   */
  function Insert(d: seq<ColorCount>, e: ColorCount): seq<ColorCount>
  {
    if d == [] then [e]
    else if d[0].count == e.count then [e] + d[1..]
    else [d[0]] + Insert(d[1..], e)
  }

  /** The insertion-ordered dictionary built from the census, pair by pair. */
  function Entries(colors: seq<ColorCount>): seq<ColorCount>
  {
    if colors == [] then []
    else Insert(Entries(colors[..|colors| - 1]), colors[|colors| - 1])
  }

  predicate DistinctCounts(d: seq<ColorCount>) {
    forall a, b :: 0 <= a < b < |d| ==> d[a].count != d[b].count
  }

  /** No later pair of the census has the same count as pair `j`: it is the one the dictionary keeps. */
  predicate LastForCount(colors: seq<ColorCount>, j: int)
  {
    0 <= j < |colors| && forall j' :: j < j' < |colors| ==> colors[j'].count != colors[j].count
  }

  lemma {:induction false} InsertKeepsDict(d: seq<ColorCount>, e: ColorCount)
    requires DistinctCounts(d)
    ensures DistinctCounts(Insert(d, e))
    ensures e in Insert(d, e)
    ensures forall x :: x in Insert(d, e) ==> x == e || (x in d && x.count != e.count)
    ensures forall x :: x in d && x.count != e.count ==> x in Insert(d, e)
    decreases |d|
  {
    if d != [] && d[0].count != e.count {
      InsertKeepsDict(d[1..], e);
      var t := Insert(d[1..], e);
      assert Insert(d, e) == [d[0]] + t;
      forall x | x in d && x.count != e.count ensures x in Insert(d, e) {
        if x != d[0] {
          assert x in d[1..];
        }
      }
      forall a, b | 0 <= a < b < |Insert(d, e)| ensures Insert(d, e)[a].count != Insert(d, e)[b].count {
        if a == 0 {
          var y := t[b - 1];
          assert y in t;
          if y != e {
            var m :| 1 <= m < |d| && d[m] == y;
          }
        }
      }
    } else if d != [] {
      forall a, b | 0 <= a < b < |Insert(d, e)| ensures Insert(d, e)[a].count != Insert(d, e)[b].count {
        if a == 0 {
          assert Insert(d, e)[b] == d[b];
        } else {
          assert Insert(d, e)[a] == d[a];
          assert Insert(d, e)[b] == d[b];
        }
      }
      forall x | x in Insert(d, e) ensures x == e || (x in d && x.count != e.count) {
        if x != e {
          var m :| 1 <= m < |d| && d[m] == x;
        }
      }
    }
  }

  /** `x` is a census pair that no later pair overrides. */
  predicate IsLastPair(colors: seq<ColorCount>, x: ColorCount) {
    exists j :: 0 <= j < |colors| && LastForCount(colors, j) && colors[j] == x
  }

  /**
   * The dictionary built from the census has one entry per count, each entry
   * is the last census pair with that count, and every such last pair is kept.
   */
  lemma {:induction false} EntriesAsDict(colors: seq<ColorCount>)
    ensures |Entries(colors)| == 0 <==> colors == []
    ensures DistinctCounts(Entries(colors))
    ensures forall x :: x in Entries(colors) ==> IsLastPair(colors, x)
    ensures forall j :: LastForCount(colors, j) ==> colors[j] in Entries(colors)
    decreases |colors|
  {
    if colors != [] {
      var n := |colors| - 1;
      var p := Entries(colors[..n]);
      EntriesAsDict(colors[..n]);
      InsertKeepsDict(p, colors[n]);
      assert Entries(colors) == Insert(p, colors[n]);
      forall x | x in Insert(p, colors[n]) ensures IsLastPair(colors, x) {
        KeptEntryIsLast(colors, p, x);
      }
      LastPairsAreKept(colors, p, Insert(p, colors[n]));
    }
  }

  /** Step of EntriesAsDict: an entry after the insertion is a last pair of the longer census. */
  lemma KeptEntryIsLast(colors: seq<ColorCount>, p: seq<ColorCount>, x: ColorCount)
    requires colors != []
    requires forall y :: y in p ==> IsLastPair(colors[..|colors| - 1], y)
    requires x == colors[|colors| - 1] || (x in p && x.count != colors[|colors| - 1].count)
    ensures IsLastPair(colors, x)
  {
    var n := |colors| - 1;
    if x == colors[n] {
      assert LastForCount(colors, n);
    } else {
      assert IsLastPair(colors[..n], x);
      var j :| 0 <= j < n && LastForCount(colors[..n], j) && colors[..n][j] == x;
      forall j' | j < j' < |colors| ensures colors[j'].count != colors[j].count {
        if j' < n {
          assert colors[..n][j'] == colors[j'];
        }
      }
      assert LastForCount(colors, j);
    }
  }

  /** Step of EntriesAsDict: every last pair of the longer census survives the insertion. */
  lemma LastPairsAreKept(colors: seq<ColorCount>, p: seq<ColorCount>, d: seq<ColorCount>)
    requires colors != []
    requires forall j :: 0 <= j < |colors| - 1 && LastForCount(colors[..|colors| - 1], j) ==> colors[j] in p
    requires colors[|colors| - 1] in d
    requires forall x :: x in p && x.count != colors[|colors| - 1].count ==> x in d
    ensures forall j :: LastForCount(colors, j) ==> colors[j] in d
  {
    var n := |colors| - 1;
    forall j | LastForCount(colors, j) ensures colors[j] in d {
      if j < n {
        assert colors[j].count != colors[n].count;
        forall j' | j < j' < n ensures colors[..n][j'].count != colors[..n][j].count {
          assert colors[..n][j'] == colors[j'];
        }
        assert LastForCount(colors[..n], j);
      }
    }
  }

  /**
   * The position of the entry with the greatest colour; on a tie the first
   * one, as a maximum search that replaces its candidate only on a strictly
   * greater value keeps it.
   */
  function ArgMaxColor(d: seq<ColorCount>): (k: nat)
    requires d != []
    ensures k < |d|
    ensures forall j :: 0 <= j < |d| ==> !ColorLess(d[k].color, d[j].color)
    ensures forall j :: 0 <= j < k ==> ColorLess(d[j].color, d[k].color)
    decreases |d|
  {
    if |d| == 1 then 0
    else
      var k := ArgMaxColor(d[..|d| - 1]);
      if ColorLess(d[k].color, d[|d| - 1].color) then |d| - 1 else k
  }

  // ---------------------------------------------------------------------
  // The sampler as written, and as intended
  // ---------------------------------------------------------------------

  /**
   * The sampler as the application computes it: white for an empty census,
   * otherwise the count under which the dictionary holds its greatest colour.
   */
  function DetectBackgroundColor(colors: seq<ColorCount>): (s: Sample)
    ensures s == White <==> colors == []
    ensures colors != [] ==> s.CountKey? && exists j :: 0 <= j < |colors| && colors[j].count == s.count
  {
    if colors == [] then White
    else
      EntriesAsDict(colors);
      var d := Entries(colors);
      var k := ArgMaxColor(d);
      assert d[k] in d && IsLastPair(colors, d[k]);
      CountKey(d[k].count)
  }

  /**
   * What the sampler returns for a non-empty census: the count of the census
   * pair whose colour is greatest among the pairs the dictionary keeps.
   */
  lemma SamplerReturnsCountOfGreatestColor(colors: seq<ColorCount>)
    requires colors != []
    ensures exists j :: (LastForCount(colors, j) &&
      DetectBackgroundColor(colors) == CountKey(colors[j].count) &&
      forall j' :: LastForCount(colors, j') ==> !ColorLess(colors[j].color, colors[j'].color))
  {
    EntriesAsDict(colors);
    var d := Entries(colors);
    var k := ArgMaxColor(d);
    assert d[k] in d;
    var j :| LastForCount(colors, j) && colors[j] == d[k];
    forall j' | LastForCount(colors, j') ensures !ColorLess(colors[j].color, colors[j'].color) {
      var m :| 0 <= m < |d| && d[m] == colors[j'];
    }
  }

  /**
   * For any non-empty census the sampled value is a count, so the range is
   * the fixed near-white one; Batch.ImageOutputUsesFallback carries this
   * over to every image whose census matches its pixels.
   */
  lemma DetectedRangeIsFallback(colors: seq<ColorCount>, tolerance: int)
    requires colors != []
    ensures CreateColorRange(DetectBackgroundColor(colors), tolerance) == FallbackRange
  {
  }

  /** The position of the pair with the highest count; on a tie the first one. */
  function ArgMaxCount(colors: seq<ColorCount>): (k: nat)
    requires colors != []
    ensures k < |colors|
    ensures forall j :: 0 <= j < |colors| ==> colors[j].count <= colors[k].count
    ensures forall j :: 0 <= j < k ==> colors[j].count < colors[k].count
    decreases |colors|
  {
    if |colors| == 1 then 0
    else
      var k := ArgMaxCount(colors[..|colors| - 1]);
      if colors[k].count < colors[|colors| - 1].count then |colors| - 1 else k
  }

  /** The sampler as intended: the most frequent colour, white when there is none. */
  function MostFrequentColor(colors: seq<ColorCount>): (c: RGB)
    ensures colors == [] ==> c == RGB(255, 255, 255)
    ensures colors != [] ==> exists k :: (0 <= k < |colors| && colors[k].color == c &&
      forall j :: 0 <= j < |colors| ==> colors[j].count <= colors[k].count)
  {
    if colors == [] then RGB(255, 255, 255) else colors[ArgMaxCount(colors)].color
  }

  /**
   * An image with three dark pixels and one white one: the sampler returns
   * the white pixel's count, 1, where the most frequent colour is the dark one.
   */
  lemma SamplerMissesMostFrequentColor()
    ensures var colors := [ColorCount(3, RGB(10, 10, 10)), ColorCount(1, RGB(255, 255, 255))];
      DetectBackgroundColor(colors) == CountKey(1) && MostFrequentColor(colors) == RGB(10, 10, 10)
  {
    var c0, c1 := ColorCount(3, RGB(10, 10, 10)), ColorCount(1, RGB(255, 255, 255));
    var colors := [c0, c1];
    assert colors[..1] == [c0];
    assert [c0][..0] == [];
    assert Entries([c0]) == [c0];
    assert Entries(colors) == Insert([c0], c1) == [c0, c1];
    assert [c0, c1][..1] == [c0];
    assert ArgMaxColor([c0, c1]) == 1;
    assert ArgMaxCount(colors) == 0;
  }
}
