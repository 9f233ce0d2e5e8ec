/**
 * Conversion between the two ways of addressing the same text:
 * UTF-16 code-unit offsets (what NSString, NSRange and the text view use) and
 * native indices aligned to extended grapheme clusters (what Swift's String uses).
 *
 * The text is given already segmented: a sequence of clusters, each the non-empty
 * run of UTF-16 code units it occupies. A native index is a cluster count k in
 * 0..|t|; a boundary is the UTF-16 offset at which cluster k starts.
 */
module RangeConversion {
  import opened Wrappers

  /** One UTF-16 code unit. */
  newtype CodeUnit = x: int | 0 <= x < 0x1_0000

  /** An extended grapheme cluster, as the UTF-16 code units it occupies. */
  type Cluster = c: seq<CodeUnit> | |c| > 0 witness [0]

  /** A text, as the sequence of its grapheme clusters (Swift's `Character`s). */
  type Text = seq<Cluster>

  /** Foundation's `NSNotFound` (`Int.max` on 64-bit platforms): the location of a range that was not found. */
  const NotFound: nat := 0x7fff_ffff_ffff_ffff

  /** An `NSRange`: `length` code units starting at code unit `location`. */
  datatype NSRange = NSRange(location: nat, length: nat) {
    /** `endLocation`: the offset just past the range. */
    function End(): (e: nat)
      ensures location <= e
      ensures e - location == length
    {
      location + length
    }
  }

  /** A `Range<String.Index>`: the clusters with indices `lower <= k < upper`. */
  datatype NativeRange = NativeRange(lower: nat, upper: nat)

  /** A cluster boundary reported by the scanner: a native index and the UTF-16 offset where it lies. */
  datatype Boundary = Boundary(index: nat, offset: nat)

  /** The UTF-16 encoding of a text: the code units of its clusters, in order. */
  function Utf16(t: Text): (u: seq<CodeUnit>)
    ensures |u| >= |t|
  {
    if t == [] then [] else Utf16(t[..|t| - 1]) + t[|t| - 1]
  }

  /** `(string as NSString).length`: the number of UTF-16 code units. */
  function Length(t: Text): (n: nat)
    ensures |t| <= n
    ensures t == [] ==> n == 0
  {
    |Utf16(t)|
  }

  /** The UTF-16 offset of native index `k`, the width of the clusters before it. */
  function Offset(t: Text, k: nat): (o: nat)
    requires k <= |t|
    ensures k <= o <= Length(t)
    ensures Utf16(t[..k]) == Utf16(t)[..o]
  {
    assert t == t[..k] + t[k..];
    Utf16Concat(t[..k], t[k..]);
    |Utf16(t[..k])|
  }

  /** `o` is a UTF-16 offset on which some cluster starts (or the end of the text). */
  ghost predicate IsBoundary(t: Text, o: int)
  {
    exists k :: 0 <= k <= |t| && Offset(t, k) == o
  }

  /** A native range of `t`: ordered and within the text. */
  predicate ValidNativeRange(t: Text, r: NativeRange)
  {
    r.lower <= r.upper <= |t|
  }

  // ---------------------------------------------------------------------------
  // Facts about the encoding and the offsets

  lemma {:induction false} Utf16Concat(a: Text, b: Text)
    ensures Utf16(a + b) == Utf16(a) + Utf16(b)
    decreases |b|
  {
    if b == [] {
      assert a + b == a;
    } else {
      var b' := b[..|b| - 1];
      assert (a + b)[..|a + b| - 1] == a + b';
      Utf16Concat(a, b');
    }
  }

  /** Each cluster adds its own width to the offset. */
  lemma OffsetStep(t: Text, k: nat)
    requires k < |t|
    ensures Offset(t, k + 1) == Offset(t, k) + |t[k]|
  {
    assert t[..k + 1][..k] == t[..k];
  }

  lemma OffsetEnds(t: Text)
    ensures Offset(t, 0) == 0 && Offset(t, |t|) == Length(t)
  {
    assert t[..0] == [];
    assert t[..|t|] == t;
  }

  /** Offsets grow strictly with the index: the boundary offsets and the native indices are in bijection. */
  lemma {:induction false} OffsetStrictlyMonotone(t: Text, i: nat, j: nat)
    requires i < j <= |t|
    ensures Offset(t, i) < Offset(t, j)
    decreases j - i
  {
    OffsetStep(t, j - 1);
    if i < j - 1 {
      OffsetStrictlyMonotone(t, i, j - 1);
    }
  }

  lemma OffsetMonotone(t: Text)
    ensures forall i, j :: 0 <= i < j <= |t| ==> Offset(t, i) < Offset(t, j)
  {
    forall i, j | 0 <= i < j <= |t|
      ensures Offset(t, i) < Offset(t, j)
    {
      OffsetStrictlyMonotone(t, i, j);
    }
  }

  /** The code units between two boundaries are exactly the clusters between the two indices. */
  lemma OffsetSlice(t: Text, i: nat, j: nat)
    requires i <= j <= |t|
    ensures Offset(t, i) <= Offset(t, j) <= Length(t)
    ensures Utf16(t[i..j]) == Utf16(t)[Offset(t, i)..Offset(t, j)]
  {
    var u, oi, oj := Utf16(t), Offset(t, i), Offset(t, j);
    assert t[..j] == t[..i] + t[i..j];
    Utf16Concat(t[..i], t[i..j]);
    assert u[..oj] == u[..oi] + Utf16(t[i..j]);
    assert u[oi..oj] == u[..oj][oi..];
  }

  // ---------------------------------------------------------------------------
  // The scanner: the single source of cluster boundaries

  /**
   * Walks the clusters from boundary `k` (at offset `acc`), accumulating their widths,
   * and stops at the last boundary that does not pass `o`.
   */
  function ScanFrom(t: Text, o: nat, k: nat, acc: nat): (b: Boundary)
    requires k <= |t| && acc == Offset(t, k) && acc <= o
    ensures k <= b.index <= |t| && b.offset == Offset(t, b.index) && b.offset <= o
    ensures b.index == |t| || o < Offset(t, b.index + 1)
    decreases |t| - k
  {
    if k == |t| then Boundary(k, acc)
    else
      OffsetStep(t, k);
      if o < acc + |t[k]| then Boundary(k, acc)
      else ScanFrom(t, o, k + 1, acc + |t[k]|)
  }

  /** The last boundary at or below offset `o`: the start of the cluster that holds code unit `o`. */
  function Floor(t: Text, o: nat): (b: Boundary)
    ensures b.index <= |t| && b.offset == Offset(t, b.index)
    ensures forall j :: 0 <= j <= |t| ==> (Offset(t, j) <= o <==> j <= b.index)
  {
    OffsetEnds(t);
    OffsetMonotone(t);
    ScanFrom(t, o, 0, 0)
  }

  // ---------------------------------------------------------------------------
  // The public conversions

  /** `indexFromLocation`: the native index whose boundary is exactly at `o`, if there is one. */
  function IndexFromLocation(t: Text, o: int): (r: Option<nat>)
    ensures r.Some? ==> r.value <= |t| && Offset(t, r.value) == o
    ensures r.None? ==> forall k :: 0 <= k <= |t| ==> Offset(t, k) != o
  {
    if o < 0 then None
    else
      var b := Floor(t, o);
      OffsetMonotone(t);
      if b.offset == o then Some(b.index) else None
  }

  /** `range(from:)`: both ends of an NSRange converted to native indices, or None if either end is not a boundary. */
  function RangeFrom(t: Text, r: NSRange): (n: Option<NativeRange>)
    ensures n.Some? ==> ValidNativeRange(t, n.value)
    ensures n.Some? ==> Offset(t, n.value.lower) == r.location && Offset(t, n.value.upper) == r.End()
    ensures n.None? <==> !(IsBoundary(t, r.location) && IsBoundary(t, r.End()))
  {
    var lower := IndexFromLocation(t, r.location);
    var upper := IndexFromLocation(t, r.End());
    if lower.Some? && upper.Some? then
      OffsetMonotone(t);
      Some(NativeRange(lower.value, upper.value))
    else
      None
  }

  /** `nsRange(from:)`: a native range back as UTF-16 location and length. */
  function NSRangeFrom(t: Text, n: NativeRange): (r: NSRange)
    requires ValidNativeRange(t, n)
    ensures r.location == Offset(t, n.lower) && r.End() == Offset(t, n.upper)
  {
    OffsetSlice(t, n.lower, n.upper);
    NSRange(Offset(t, n.lower), Offset(t, n.upper) - Offset(t, n.lower))
  }

  /**
   * `location(before:)`: the nearest boundary strictly below `o`.
   * None at the start of the text and for offsets outside it.
   */
  function LocationBefore(t: Text, o: int): (r: Option<nat>)
    ensures r.None? <==> o <= 0 || o > Length(t)
    ensures r.Some? ==> r.value < o && IsBoundary(t, r.value)
    ensures r.Some? ==> forall k :: 0 <= k <= |t| && Offset(t, k) < o ==> Offset(t, k) <= r.value
  {
    if o <= 0 || o > Length(t) then None
    else
      var b := Floor(t, o - 1);
      OffsetMonotone(t);
      Some(b.offset)
  }

  /**
   * `location(after:)`: the nearest boundary strictly above `o`, that is the end of the
   * cluster holding code unit `o`. None at or past the end of the text and for negative offsets.
   */
  function LocationAfter(t: Text, o: int): (r: Option<nat>)
    ensures r.None? <==> o < 0 || o >= Length(t)
    ensures r.Some? ==> o < r.value && IsBoundary(t, r.value)
    ensures r.Some? ==> forall k :: 0 <= k <= |t| && o < Offset(t, k) ==> r.value <= Offset(t, k)
  {
    if o < 0 || o >= Length(t) then None
    else
      var b := Floor(t, o);
      OffsetEnds(t);
      OffsetStep(t, b.index);
      OffsetMonotone(t);
      Some(b.offset + |t[b.index]|)
  }

  // ---------------------------------------------------------------------------
  // Laws

  /** Every native index converts to its offset and back: the offset of an index is total and injective. */
  lemma IndexOfOffset(t: Text, k: nat)
    requires k <= |t|
    ensures IndexFromLocation(t, Offset(t, k)) == Some(k)
  {
    OffsetMonotone(t);
  }

  /** An offset strictly inside a multi-unit cluster has no native index. */
  lemma MidClusterHasNoIndex(t: Text, k: nat, o: int)
    requires k < |t| && Offset(t, k) < o < Offset(t, k + 1)
    ensures IndexFromLocation(t, o) == None
    ensures !IsBoundary(t, o)
  {
    OffsetMonotone(t);
  }

  /** The prefix up to the converted index is exactly the code units before `o`. */
  lemma PrefixAtLocation(t: Text, o: int, k: nat)
    requires IndexFromLocation(t, o) == Some(k)
    ensures 0 <= o <= Length(t)
    ensures Utf16(t[..k]) == Utf16(t)[..o]
  {
    OffsetSlice(t, 0, k);
    OffsetEnds(t);
    assert t[0..k] == t[..k];
  }

  /** Round trip from UTF-16: a range whose ends are boundaries converts, and converts back to itself. */
  lemma NSRangeRoundTrip(t: Text, r: NSRange)
    requires IsBoundary(t, r.location) && IsBoundary(t, r.End())
    ensures RangeFrom(t, r).Some?
    ensures NSRangeFrom(t, RangeFrom(t, r).value) == r
  {
  }

  /** Round trip from native indices: every native range survives the trip through UTF-16. */
  lemma NativeRangeRoundTrip(t: Text, n: NativeRange)
    requires ValidNativeRange(t, n)
    ensures RangeFrom(t, NSRangeFrom(t, n)) == Some(n)
  {
    var r := NSRangeFrom(t, n);
    IndexOfOffset(t, n.lower);
    IndexOfOffset(t, n.upper);
    assert IndexFromLocation(t, r.location) == Some(n.lower);
    assert IndexFromLocation(t, r.End()) == Some(n.upper);
  }

  /** Slicing the text with the converted range yields exactly the code units the NSRange covers. */
  lemma RangeSlice(t: Text, r: NSRange, n: NativeRange)
    requires RangeFrom(t, r) == Some(n)
    ensures r.End() <= Length(t)
    ensures Utf16(t[n.lower..n.upper]) == Utf16(t)[r.location..r.End()]
  {
    OffsetSlice(t, n.lower, n.upper);
  }

  /** The "not found" sentinel never converts to a range (in particular not to an empty range at 0). */
  lemma NotFoundHasNoRange(t: Text, length: nat)
    requires Length(t) < NotFound
    ensures RangeFrom(t, NSRange(NotFound, length)) == None
  {
  }

  /** Stepping back from any offset within (start, end] of cluster k lands on the start of cluster k. */
  lemma BeforeWithinCluster(t: Text, k: nat, o: int)
    requires k < |t| && Offset(t, k) < o <= Offset(t, k + 1)
    ensures LocationBefore(t, o) == Some(Offset(t, k))
  {
    OffsetSlice(t, k + 1, |t|);
    OffsetEnds(t);
    OffsetMonotone(t);
  }

  /** Stepping forward from any offset within [start, end) of cluster k lands on the end of cluster k. */
  lemma AfterWithinCluster(t: Text, k: nat, o: int)
    requires k < |t| && Offset(t, k) <= o < Offset(t, k + 1)
    ensures LocationAfter(t, o) == Some(Offset(t, k + 1))
  {
    OffsetSlice(t, k + 1, |t|);
    OffsetEnds(t);
    OffsetMonotone(t);
  }

  /** From a boundary, `location(before:)` and `location(after:)` step exactly one cluster. */
  lemma BoundaryNeighbours(t: Text, k: nat)
    requires k <= |t|
    ensures 0 < k ==> LocationBefore(t, Offset(t, k)) == Some(Offset(t, k - 1))
    ensures k < |t| ==> LocationAfter(t, Offset(t, k)) == Some(Offset(t, k + 1))
  {
    if 0 < k {
      OffsetStep(t, k - 1);
      BeforeWithinCluster(t, k - 1, Offset(t, k));
    }
    if k < |t| {
      OffsetStep(t, k);
      AfterWithinCluster(t, k, Offset(t, k));
    }
  }

  /** `location(before:)` undoes `location(after:)` on a boundary. */
  lemma BeforeUndoesAfter(t: Text, o: int)
    requires IsBoundary(t, o) && LocationAfter(t, o).Some?
    ensures LocationBefore(t, LocationAfter(t, o).value) == Some(o)
  {
    var k :| 0 <= k <= |t| && Offset(t, k) == o;
    OffsetEnds(t);
    if k == |t| {
      assert false;
    }
    BoundaryNeighbours(t, k);
    BoundaryNeighbours(t, k + 1);
  }
}
