/**
 * Splitting a string on the inline-CSS separator "; " (Foundation's
 * `components(separatedBy:)`) and joining pieces back with it.
 */
module Components {
  import opened Wrappers

  /** `Attribute.Value.cssPropertySeparator`. */
  const Separator: string := "; "

  /** The separator occurs in `s` at position `i`. */
  predicate SeparatorAt(s: string, i: nat)
  {
    i + 1 < |s| && s[i] == ';' && s[i + 1] == ' '
  }

  /** `s` does not contain the separator anywhere. */
  predicate NoSeparator(s: string)
  {
    forall i :: 0 <= i < |s| - 1 ==> !(s[i] == ';' && s[i + 1] == ' ')
  }

  /** The leftmost occurrence of the separator at or after `from`. */
  function FindSeparator(s: string, from: nat): (r: Option<nat>)
    ensures r.Some? ==> from <= r.value && SeparatorAt(s, r.value)
    ensures r.Some? ==> forall j :: from <= j < r.value ==> !SeparatorAt(s, j)
    ensures r.None? ==> forall j :: from <= j ==> !SeparatorAt(s, j)
    decreases |s| - from
  {
    if from + 1 >= |s| then None
    else if SeparatorAt(s, from) then Some(from)
    else FindSeparator(s, from + 1)
  }

  /** `s.components(separatedBy: "; ")`: the pieces between leftmost, non-overlapping separators. */
  function Split(s: string): (pieces: seq<string>)
    ensures |pieces| >= 1
    ensures forall i :: 0 <= i < |pieces| ==> NoSeparator(pieces[i])
    decreases |s|
  {
    match FindSeparator(s, 0)
    case None =>
      assert NoSeparator(s) by {
        forall i | 0 <= i < |s| - 1 ensures !(s[i] == ';' && s[i + 1] == ' ') {
          assert !SeparatorAt(s, i);
        }
      }
      [s]
    case Some(i) =>
      assert NoSeparator(s[..i]) by {
        forall j | 0 <= j < i - 1 ensures !(s[..i][j] == ';' && s[..i][j + 1] == ' ') {
          assert !SeparatorAt(s, j);
        }
      }
      [s[..i]] + Split(s[i + 2..])
  }

  /** The pieces joined with the separator between consecutive pieces only; no pieces give "". */
  function Join(pieces: seq<string>): (s: string)
    ensures pieces == [] ==> s == ""
    ensures pieces != [] ==> pieces[0] <= s
  {
    if |pieces| == 0 then ""
    else if |pieces| == 1 then pieces[0]
    else pieces[0] + Separator + Join(pieces[1..])
  }

  /** Appending a piece appends a separator and the piece (what the serialising loop relies on). */
  lemma {:induction false} JoinAppend(pieces: seq<string>, p: string)
    requires pieces != []
    ensures Join(pieces + [p]) == Join(pieces) + Separator + p
    decreases |pieces|
  {
    if |pieces| == 1 {
      assert (pieces + [p])[1..] == [p];
    } else {
      assert (pieces + [p])[1..] == pieces[1..] + [p];
      JoinAppend(pieces[1..], p);
    }
  }

  /** Joining the pieces of a split gives the string back. */
  lemma {:induction false} JoinSplit(s: string)
    ensures Join(Split(s)) == s
    decreases |s|
  {
    match FindSeparator(s, 0)
    case None =>
    case Some(i) =>
      var rest := Split(s[i + 2..]);
      JoinSplit(s[i + 2..]);
      assert Split(s)[1..] == rest;
      assert s == s[..i] + Separator + s[i + 2..];
  }

  /** A piece followed by the separator: the split stops exactly there when the piece holds no separator. */
  lemma FirstSeparator(p: string, rest: string)
    requires NoSeparator(p)
    ensures FindSeparator(p + Separator + rest, 0) == Some(|p|)
  {
    var s := p + Separator + rest;
    assert SeparatorAt(s, |p|);
    forall j | 0 <= j < |p|
      ensures !SeparatorAt(s, j)
    {
      if j < |p| - 1 {
        assert s[j] == p[j] && s[j + 1] == p[j + 1];
      } else {
        assert s[j + 1] == ';';
      }
    }
  }

  /** Splitting a join gives the pieces back, provided no piece holds the separator. */
  lemma {:induction false} SplitJoin(pieces: seq<string>)
    requires pieces != []
    requires forall i :: 0 <= i < |pieces| ==> NoSeparator(pieces[i])
    ensures Split(Join(pieces)) == pieces
    decreases |pieces|
  {
    if |pieces| == 1 {
      var r := FindSeparator(pieces[0], 0);
      if r.Some? {
        assert false;
      }
    } else {
      var p, rest := pieces[0], Join(pieces[1..]);
      FirstSeparator(p, rest);
      var s := p + Separator + rest;
      assert s[..|p|] == p && s[|p| + 2..] == rest;
      SplitJoin(pieces[1..]);
    }
  }

  /** A string without the separator is a single piece; otherwise the first piece is the text before the first separator. */
  lemma FirstPiece(s: string)
    ensures NoSeparator(s) <==> Split(s) == [s]
    ensures !NoSeparator(s) ==> Split(s)[0] + Separator <= s
  {
    match FindSeparator(s, 0)
    case None =>
      forall i | 0 <= i < |s| - 1 ensures !(s[i] == ';' && s[i + 1] == ' ') {
        assert !SeparatorAt(s, i);
      }
    case Some(i) =>
      assert s[..i] + Separator == s[..i + 2];
      assert !NoSeparator(s) by {
        assert s[i] == ';' && s[i + 1] == ' ';
      }
      assert |s[..i]| < |s|;
  }
}
