/**
 * The scenarios of the range-conversion tests, on concrete texts.
 * ASCII letters are one-unit clusters; 🌍 and 🌎 are surrogate pairs (two units);
 * 🇮🇳 is a pair of regional indicators, one cluster of four units.
 */
module RangeScenarios {
  import opened Wrappers
  import opened RangeConversion

  /** A text made of ASCII characters, one single-unit cluster each. */
  function Ascii(s: string): (t: Text)
    requires forall i :: 0 <= i < |s| ==> s[i] < 128 as char
    ensures |t| == |s|
  {
    seq(|s|, i requires 0 <= i < |s| => [s[i] as int as CodeUnit])
  }

  const EarthAfrica: Cluster := [0xD83C, 0xDF0D]            // 🌍 U+1F30D
  const EarthAmericas: Cluster := [0xD83C, 0xDF0E]          // 🌎 U+1F30E
  const FlagIndia: Cluster := [0xD83C, 0xDDEE, 0xD83C, 0xDDF3]  // 🇮🇳 U+1F1EE U+1F1F3

  /** In an all-ASCII text every offset up to its length is a boundary, at the same index. */
  lemma {:induction false} AsciiOffset(s: string, k: nat)
    requires forall i :: 0 <= i < |s| ==> s[i] < 128 as char
    requires k <= |s|
    ensures Offset(Ascii(s), k) == k
  {
    if k > 0 {
      AsciiOffset(s, k - 1);
      OffsetStep(Ascii(s), k - 1);
    }
  }

  /** Offsets in `prefix + rest` past the prefix: the prefix's length plus the offset within `rest`. */
  lemma OffsetAfterPrefix(prefix: Text, rest: Text, k: nat)
    requires k <= |rest|
    ensures Offset(prefix + rest, |prefix| + k) == Length(prefix) + Offset(rest, k)
  {
    assert (prefix + rest)[..|prefix| + k] == prefix + rest[..k];
    Utf16Concat(prefix, rest[..k]);
  }

  lemma AsciiLength(s: string)
    requires forall i :: 0 <= i < |s| ==> s[i] < 128 as char
    ensures Length(Ascii(s)) == |s|
  {
    AsciiOffset(s, |s|);
    OffsetEnds(Ascii(s));
  }

  lemma AsciiSlice(s: string, i: nat, j: nat)
    requires forall i :: 0 <= i < |s| ==> s[i] < 128 as char
    requires i <= j <= |s|
    ensures Ascii(s)[i..j] == Ascii(s[i..j])
  {
  }

  /** "Hello World!": the range (6, 5) of "World" converts to the native range 6..11 ... */
  lemma RangeConversionWorld()
    ensures RangeFrom(Ascii("Hello World!"), NSRange(6, 5)) == Some(NativeRange(6, 11))
  {
    AsciiOffset("Hello World!", 6);
    AsciiOffset("Hello World!", 11);
    IndexOfOffset(Ascii("Hello World!"), 6);
    IndexOfOffset(Ascii("Hello World!"), 11);
  }

  /** ... and slicing the text with that native range gives "World". */
  lemma SliceWorld()
    ensures Ascii("Hello World!")[6..11] == Ascii("World")
  {
    AsciiSlice("Hello World!", 6, 11);
    assert "Hello World!"[6..11] == "World";
  }

  /**
   * "Hello 🌍!" and "Hello 🇮🇳!": the emoji's UTF-16 range converts to exactly that one cluster,
   * and its location converts to index 6, whose prefix is "Hello ".
   */
  lemma RangeConversionEmoji(emoji: Cluster)
    requires emoji == EarthAfrica || emoji == FlagIndia
    ensures RangeFrom(Ascii("Hello ") + [emoji] + Ascii("!"), NSRange(6, |emoji|)) == Some(NativeRange(6, 7))
    ensures (Ascii("Hello ") + [emoji] + Ascii("!"))[6..7] == [emoji]
    ensures IndexFromLocation(Ascii("Hello ") + [emoji] + Ascii("!"), 6) == Some(6)
    ensures (Ascii("Hello ") + [emoji] + Ascii("!"))[..6] == Ascii("Hello ")
  {
    var t := Ascii("Hello ") + [emoji] + Ascii("!");
    assert t == Ascii("Hello ") + ([emoji] + Ascii("!"));
    OffsetAfterPrefix(Ascii("Hello "), [emoji] + Ascii("!"), 0);
    OffsetAfterPrefix(Ascii("Hello "), [emoji] + Ascii("!"), 1);
    AsciiLength("Hello ");
    OffsetEnds([emoji] + Ascii("!"));
    OffsetStep([emoji] + Ascii("!"), 0);
    IndexOfOffset(t, 6);
    IndexOfOffset(t, 7);
  }

  /** The text "Hello 🇮🇳 🌍!". */
  function FlagAndGlobe(): Text
  {
    Ascii("Hello ") + [FlagIndia] + Ascii(" ") + [EarthAfrica] + Ascii("!")
  }

  /** In "Hello 🇮🇳 🌍!" the globe is cluster 8, at UTF-16 offset 11, two units wide. */
  lemma FlagAndGlobeOffsets()
    ensures |FlagAndGlobe()| == 10
    ensures Offset(FlagAndGlobe(), 8) == 11 && Offset(FlagAndGlobe(), 9) == 13
  {
    var t := FlagAndGlobe();
    var rest := [FlagIndia] + Ascii(" ") + [EarthAfrica] + Ascii("!");
    assert t == Ascii("Hello ") + rest;
    AsciiLength("Hello ");
    OffsetAfterPrefix(Ascii("Hello "), rest, 2);
    OffsetAfterPrefix(Ascii("Hello "), rest, 3);
    OffsetEnds(rest);
    OffsetStep(rest, 0);
    OffsetStep(rest, 1);
    OffsetStep(rest, 2);
  }

  /** "Hello 🇮🇳 🌍!": the globe's range (11, 2) converts to the one globe cluster. */
  lemma RangeConversionFlagAndGlobe()
    ensures RangeFrom(FlagAndGlobe(), NSRange(11, 2)) == Some(NativeRange(8, 9))
    ensures FlagAndGlobe()[8..9] == [EarthAfrica]
  {
    FlagAndGlobeOffsets();
    IndexOfOffset(FlagAndGlobe(), 8);
    IndexOfOffset(FlagAndGlobe(), 9);
  }

  /** `indexFromLocation(6)` in "Hello World!": index 6, whose prefix is "Hello ". */
  lemma LocationConversionWorld()
    ensures IndexFromLocation(Ascii("Hello World!"), 6) == Some(6)
    ensures Ascii("Hello World!")[..6] == Ascii("Hello ")
  {
    AsciiOffset("Hello World!", 6);
    IndexOfOffset(Ascii("Hello World!"), 6);
  }

  /** `indexFromLocation(11)` in "Hello 🇮🇳 🌍!": index 8, whose prefix is "Hello 🇮🇳 ". */
  lemma LocationConversionFlagAndGlobe()
    ensures IndexFromLocation(FlagAndGlobe(), 11) == Some(8)
    ensures FlagAndGlobe()[..8] == Ascii("Hello ") + [FlagIndia] + Ascii(" ")
  {
    FlagAndGlobeOffsets();
    IndexOfOffset(FlagAndGlobe(), 8);
  }

  /** `location(before: 6)` in "Hello World!" is 5, whose prefix is "Hello". */
  lemma LocationBeforeWorld()
    ensures LocationBefore(Ascii("Hello World!"), 6) == Some(5)
    ensures IndexFromLocation(Ascii("Hello World!"), 5) == Some(5)
    ensures Ascii("Hello World!")[..5] == Ascii("Hello")
  {
    var t := Ascii("Hello World!");
    AsciiOffset("Hello World!", 6);
    AsciiOffset("Hello World!", 5);
    BoundaryNeighbours(t, 6);
    IndexOfOffset(t, 5);
  }

  /**
   * `location(before: 8)` in "Hello 🌍!" (8 is the end of the globe) is 6: it steps over the
   * whole surrogate pair and never lands on 7, which has no native index.
   */
  lemma LocationBeforeGlobe()
    ensures LocationBefore(Ascii("Hello ") + [EarthAfrica] + Ascii("!"), 8) == Some(6)
    ensures IndexFromLocation(Ascii("Hello ") + [EarthAfrica] + Ascii("!"), 7) == None
  {
    var t := Ascii("Hello ") + [EarthAfrica] + Ascii("!");
    var rest := [EarthAfrica] + Ascii("!");
    assert t == Ascii("Hello ") + rest;
    AsciiLength("Hello ");
    OffsetAfterPrefix(Ascii("Hello "), rest, 0);
    OffsetAfterPrefix(Ascii("Hello "), rest, 1);
    OffsetEnds(rest);
    OffsetStep(rest, 0);
    BoundaryNeighbours(t, 7);
    MidClusterHasNoIndex(t, 6, 7);
  }

  /** On the empty text there is nothing before or after offset 0. */
  lemma LocationsAtLimits()
    ensures LocationBefore([], 0) == None
    ensures LocationAfter([], 0) == None
  {
  }

  /** "Hello world!": the ranges (0, 5) and (5, 3) survive the trip to native indices and back. */
  lemma NSRangeFromRangeAscii()
    ensures RangeFrom(Ascii("Hello world!"), NSRange(0, 5)).Some?
    ensures NSRangeFrom(Ascii("Hello world!"), RangeFrom(Ascii("Hello world!"), NSRange(0, 5)).value) == NSRange(0, 5)
    ensures RangeFrom(Ascii("Hello world!"), NSRange(5, 3)).Some?
    ensures NSRangeFrom(Ascii("Hello world!"), RangeFrom(Ascii("Hello world!"), NSRange(5, 3)).value) == NSRange(5, 3)
  {
    var t := Ascii("Hello world!");
    AsciiOffset("Hello world!", 0);
    AsciiOffset("Hello world!", 5);
    AsciiOffset("Hello world!", 8);
    NSRangeRoundTrip(t, NSRange(0, 5));
    NSRangeRoundTrip(t, NSRange(5, 3));
  }

  /** "Hello 🌎!": the globe's range (6, 2) survives the trip to native indices and back. */
  lemma NSRangeFromRangeGlobe()
    ensures RangeFrom(Ascii("Hello ") + [EarthAmericas] + Ascii("!"), NSRange(6, 2)).Some?
    ensures NSRangeFrom(Ascii("Hello ") + [EarthAmericas] + Ascii("!"),
                        RangeFrom(Ascii("Hello ") + [EarthAmericas] + Ascii("!"), NSRange(6, 2)).value)
            == NSRange(6, 2)
  {
    var t := Ascii("Hello ") + [EarthAmericas] + Ascii("!");
    var rest := [EarthAmericas] + Ascii("!");
    assert t == Ascii("Hello ") + rest;
    AsciiLength("Hello ");
    OffsetAfterPrefix(Ascii("Hello "), rest, 0);
    OffsetAfterPrefix(Ascii("Hello "), rest, 1);
    OffsetEnds(rest);
    OffsetStep(rest, 0);
    NSRangeRoundTrip(t, NSRange(6, 2));
  }
}
