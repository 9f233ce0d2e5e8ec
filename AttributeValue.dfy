/**
 * `Attribute.Value`: the value of an HTML attribute, either absent, a plain string,
 * or inline CSS (a list of properties written "p1; p2; ...").
 *
 * A CSS property is kept abstract: the type parameter `P`, with its equality, and
 * the parser (`CSSProperty(for:)`), formatter (`toString()`) and hash (`hashValue`)
 * passed in as functions.
 */
module AttributeValue {
  import opened Wrappers
  import opened Components

  /** Swift's `Int` hash values, 64 bits wide. */
  type Hash = bv64

  datatype Value<P> = NoValue | StringValue(text: string) | InlineCss(properties: seq<P>)

  /** `pieces.flatMap { CSSProperty(for: $0) }`: the pieces that parse, as properties, in order. */
  function ParseProperties<P>(pieces: seq<string>, parse: string -> Option<P>): (ps: seq<P>)
    ensures |ps| <= |pieces|
    ensures ps == [] <==> forall i :: 0 <= i < |pieces| ==> parse(pieces[i]).None?
  {
    if pieces == [] then []
    else
      var head := if parse(pieces[0]).Some? then [parse(pieces[0]).value] else [];
      head + ParseProperties(pieces[1..], parse)
  }

  /** Parsing keeps the pieces' order: the properties of a concatenation are the concatenation of the properties. */
  lemma {:induction false} ParsePropertiesConcat<P>(a: seq<string>, b: seq<string>, parse: string -> Option<P>)
    ensures ParseProperties(a + b, parse) == ParseProperties(a, parse) + ParseProperties(b, parse)
    decreases |a|
  {
    if a != [] {
      assert (a + b)[0] == a[0];
      assert (a + b)[1..] == a[1..] + b;
      ParsePropertiesConcat(a[1..], b, parse);
    } else {
      assert a + b == b;
    }
  }

  /** Every property that parsing yields came from some piece. */
  lemma {:induction false} ParsedFromPiece<P>(pieces: seq<string>, parse: string -> Option<P>, k: nat)
    requires k < |ParseProperties(pieces, parse)|
    ensures exists i :: 0 <= i < |pieces| && parse(pieces[i]) == Some(ParseProperties(pieces, parse)[k])
    decreases |pieces|
  {
    var ps := ParseProperties(pieces, parse);
    if parse(pieces[0]).Some? && k == 0 {
      assert parse(pieces[0]) == Some(ps[k]);
    } else {
      var k' := if parse(pieces[0]).Some? then k - 1 else k;
      ParsedFromPiece(pieces[1..], parse, k');
      var i :| 0 <= i < |pieces[1..]| && parse(pieces[1..][i]) == Some(ParseProperties(pieces[1..], parse)[k']);
      assert parse(pieces[i + 1]) == Some(ps[k]);
    }
  }

  /** Each piece that parses contributes exactly its property, where it stands. */
  lemma ParsePropertiesSingle<P>(piece: string, parse: string -> Option<P>)
    ensures ParseProperties([piece], parse) == if parse(piece).Some? then [parse(piece).value] else []
  {
    assert [piece][1..] == [];
  }

  /** `Value(for:)`: nil is no value; otherwise inline CSS if any "; "-piece parses, else the first piece as a string. */
  function ValueFor<P>(s: Option<string>, parse: string -> Option<P>): (v: Value<P>)
    ensures v.NoValue? <==> s.None?
    ensures v.InlineCss? ==> v.properties != [] && v.properties == ParseProperties(Split(s.value), parse)
    ensures v.StringValue? ==> ParseProperties(Split(s.value), parse) == [] && v.text == Split(s.value)[0]
  {
    var components := if s.Some? then Split(s.value) else [];
    if components == [] then NoValue
    else
      var properties := ParseProperties(components, parse);
      if properties != [] then InlineCss(properties)
      else StringValue(components[0])
  }

  /**
   * When no piece parses, the string value is the text before the first "; ":
   * the whole string if it holds no separator, and the rest is dropped otherwise.
   */
  lemma StringValueIsFirstPiece<P>(s: string, parse: string -> Option<P>)
    requires ValueFor(Some(s), parse).StringValue?
    ensures NoSeparator(s) ==> ValueFor(Some(s), parse) == StringValue(s)
    ensures !NoSeparator(s) ==> ValueFor(Some(s), parse).text + Separator <= s
  {
    FirstPiece(s);
  }

  /** The pieces of the value's string form, when it is inline CSS. */
  function Formatted<P>(properties: seq<P>, format: P -> string): (pieces: seq<string>)
    ensures |pieces| == |properties|
    ensures forall i :: 0 <= i < |properties| ==> pieces[i] == format(properties[i])
  {
    seq(|properties|, i requires 0 <= i < |properties| => format(properties[i]))
  }

  /** The string form of a value, as `toString()` computes it. */
  function ValueString<P>(v: Value<P>, format: P -> string): (r: Option<string>)
    ensures r.None? <==> v.NoValue?
  {
    match v
    case NoValue => None
    case StringValue(s) => Some(s)
    case InlineCss(properties) => Some(Join(Formatted(properties, format)))
  }

  /** `Value.toString()`: appends each property and, between properties, the separator. */
  method ValueToString<P>(v: Value<P>, format: P -> string) returns (r: Option<string>)
    ensures r == ValueString(v, format)
  {
    match v {
      case NoValue =>
        r := None;
      case StringValue(s) =>
        r := Some(s);
      case InlineCss(properties) =>
        var result := "";
        for index := 0 to |properties|
          invariant result == Join(Formatted(properties[..index], format))
                              + (if 0 < index < |properties| then Separator else "")
        {
          ghost var done := Formatted(properties[..index], format);
          assert Formatted(properties[..index + 1], format) == done + [format(properties[index])];
          if index > 0 {
            JoinAppend(done, format(properties[index]));
          }
          result := result + format(properties[index]);
          if index < |properties| - 1 {
            result := result + Separator;
          }
        }
        assert properties[..|properties|] == properties;
        assert result == Join(Formatted(properties, format));
        r := Some(result);
    }
  }

  // ---------------------------------------------------------------------------
  // Equality: the source's `==` overloads

  /** `String == Value`: only a string value with the same text. */
  function StringEqualsValue<P>(s: string, v: Value<P>): (b: bool)
    ensures b <==> v == StringValue(s)
  {
    match v
    case StringValue(t) => s == t
    case _ => false
  }

  /** `Value == String`: the same as `String == Value`. */
  function ValueEqualsString<P>(v: Value<P>, s: string): (b: bool)
    ensures b <==> v == StringValue(s)
  {
    StringEqualsValue(s, v)
  }

  /** `[CSSProperty] == Value`: only inline CSS with the same properties in the same order. */
  function PropertiesEqualsValue<P(==)>(ps: seq<P>, v: Value<P>): (b: bool)
    ensures b <==> v == InlineCss(ps)
  {
    match v
    case InlineCss(qs) => ps == qs
    case _ => false
  }

  /** `Value == [CSSProperty]`: the same as `[CSSProperty] == Value`. */
  function ValueEqualsProperties<P(==)>(v: Value<P>, ps: seq<P>): (b: bool)
    ensures b <==> v == InlineCss(ps)
  {
    PropertiesEqualsValue(ps, v)
  }

  /** `Value == Value`: no value on the left equals anything; otherwise the two must be the same value. */
  function ValueEquals<P(==)>(l: Value<P>, r: Value<P>): (b: bool)
    ensures b <==> l.NoValue? || l == r
  {
    match l
    case NoValue => true
    case StringValue(s) => StringEqualsValue(s, r)
    case InlineCss(ps) => PropertiesEqualsValue(ps, r)
  }

  /** The equality is not symmetric: no value equals a string, but not the other way round. */
  lemma EqualityNotSymmetric<P>(s: string)
    ensures ValueEquals<P>(NoValue, StringValue(s))
    ensures !ValueEquals<P>(StringValue(s), NoValue)
  {
  }

  /** Equality both ways is identity; it is reflexive and transitive. */
  lemma EqualityLaws<P>(a: Value<P>, b: Value<P>, c: Value<P>)
    ensures ValueEquals(a, a)
    ensures ValueEquals(a, b) && ValueEquals(b, a) <==> a == b
    ensures ValueEquals(a, b) && ValueEquals(b, c) ==> ValueEquals(a, c)
  {
  }

  // ---------------------------------------------------------------------------
  // Hashing

  /** `properties.reduce(0) { $0 ^ $1.hashValue }`: the XOR of the properties' hashes, left to right. */
  function XorFold<P>(properties: seq<P>, hash: P -> Hash): (h: Hash)
    ensures properties == [] ==> h == 0
  {
    if properties == [] then 0
    else XorFold(properties[..|properties| - 1], hash) ^ hash(properties[|properties| - 1])
  }

  /** `hashValue()`: 0 for no value, the string's hash, or the XOR fold of the properties' hashes. */
  function HashValue<P>(v: Value<P>, hash: P -> Hash, stringHash: string -> Hash): (h: Hash)
    ensures v.NoValue? ==> h == 0
  {
    match v
    case NoValue => 0
    case StringValue(s) => stringHash(s)
    case InlineCss(properties) => XorFold(properties, hash)
  }

  lemma {:induction false} XorFoldConcat<P>(a: seq<P>, b: seq<P>, hash: P -> Hash)
    ensures XorFold(a + b, hash) == XorFold(a, hash) ^ XorFold(b, hash)
    decreases |b|
  {
    if b == [] {
      assert a + b == a;
    } else {
      var b' := b[..|b| - 1];
      assert (a + b)[..|a + b| - 1] == a + b';
      XorFoldConcat(a, b', hash);
    }
  }

  lemma XorSwap(a: Hash, x: Hash, c: Hash)
    ensures (a ^ x) ^ c == (a ^ c) ^ x
  {
  }

  lemma XorFoldSingle<P>(x: P, hash: P -> Hash)
    ensures XorFold([x], hash) == hash(x)
  {
    assert [x][..0] == [];
  }

  /** Taking the element at `i` out of a sequence takes its hash out of the fold. */
  lemma XorFoldRemove<P>(b: seq<P>, i: nat, hash: P -> Hash)
    requires i < |b|
    ensures XorFold(b, hash) == XorFold(b[..i] + b[i + 1..], hash) ^ hash(b[i])
  {
    var front, x, back := b[..i], b[i], b[i + 1..];
    assert b == (front + [x]) + back;
    XorFoldConcat(front + [x], back, hash);
    XorFoldConcat(front, [x], hash);
    XorFoldConcat(front, back, hash);
    XorFoldSingle(x, hash);
    XorSwap(XorFold(front, hash), hash(x), XorFold(back, hash));
  }

  /** Removing the same element from two permutations of each other leaves permutations. */
  lemma MultisetRemove<P>(a: seq<P>, b: seq<P>, i: nat)
    requires multiset(a) == multiset(b) && a != [] && i < |b| && b[i] == a[|a| - 1]
    ensures multiset(a[..|a| - 1]) == multiset(b[..i] + b[i + 1..])
  {
    var n, x := |a| - 1, b[i];
    assert a == a[..n] + [x];
    assert b == b[..i] + [x] + b[i + 1..];
    var rest := b[..i] + b[i + 1..];
    calc {
      multiset(a[..n]) + multiset{x};
      multiset(a);
      multiset(b);
      multiset(b[..i]) + multiset{x} + multiset(b[i + 1..]);
      multiset(rest) + multiset{x};
    }
    assert multiset(a[..n]) == multiset(a[..n]) + multiset{x} - multiset{x};
    assert multiset(rest) == multiset(rest) + multiset{x} - multiset{x};
  }

  lemma XorFoldLast<P>(a: seq<P>, hash: P -> Hash)
    requires a != []
    ensures XorFold(a, hash) == XorFold(a[..|a| - 1], hash) ^ hash(a[|a| - 1])
  {
  }

  /** The inline-CSS hash does not depend on the order of the properties. */
  lemma {:induction false} XorFoldPermutation<P>(a: seq<P>, b: seq<P>, hash: P -> Hash)
    requires multiset(a) == multiset(b)
    ensures XorFold(a, hash) == XorFold(b, hash)
    decreases |a|
  {
    if a == [] {
      assert |b| == |multiset(b)| == 0;
    } else {
      var n := |a| - 1;
      var x := a[n];
      assert x in multiset(b);
      assert x in b;
      var i :| 0 <= i < |b| && b[i] == x;
      var rest := b[..i] + b[i + 1..];
      MultisetRemove(a, b, i);
      XorFoldPermutation(a[..n], rest, hash);
      XorFoldRemove(b, i, hash);
      XorFoldLast(a, hash);
    }
  }

  /** Values that are equal both ways hash alike. */
  lemma EqualValuesHashAlike<P>(a: Value<P>, b: Value<P>, hash: P -> Hash, stringHash: string -> Hash)
    requires ValueEquals(a, b) && ValueEquals(b, a)
    ensures HashValue(a, hash, stringHash) == HashValue(b, hash, stringHash)
  {
  }

  /** Reordering inline CSS keeps the hash. */
  lemma ReorderedCssHashesAlike<P>(ps: seq<P>, qs: seq<P>, hash: P -> Hash, stringHash: string -> Hash)
    requires multiset(ps) == multiset(qs)
    ensures HashValue(InlineCss(ps), hash, stringHash) == HashValue(InlineCss(qs), hash, stringHash)
  {
    XorFoldPermutation(ps, qs, hash);
  }

  /**
   * No value equals a non-empty string value while the two hash differently whenever the
   * string's hash is not 0: `==` and `hashValue` do not agree on `.none`.
   */
  lemma NoValueEqualityIgnoresHash<P>(s: string, hash: P -> Hash, stringHash: string -> Hash)
    requires stringHash(s) != 0
    ensures ValueEquals<P>(NoValue, StringValue(s))
    ensures HashValue<P>(NoValue, hash, stringHash) != HashValue<P>(StringValue(s), hash, stringHash)
  {
  }

  // ---------------------------------------------------------------------------
  // Serialising and parsing back

  /** Parsing the string form back: no value stays no value, and any other value stays a value. */
  lemma {:induction false} ReparseKeepsPresence<P>(v: Value<P>, parse: string -> Option<P>, format: P -> string)
    ensures ValueFor(ValueString(v, format), parse).NoValue? <==> v.NoValue?
  {
  }

  /** A string holding no separator and not parsing as CSS comes back unchanged. */
  lemma ReparseString<P>(s: string, parse: string -> Option<P>, format: P -> string)
    requires NoSeparator(s) && parse(s).None?
    ensures ValueFor(ValueString(StringValue(s), format), parse) == StringValue(s)
  {
    FirstPiece(s);
  }

  /**
   * Inline CSS comes back unchanged when there is at least one property and every property
   * prints without the separator and parses back to itself.
   */
  lemma ReparseInlineCss<P>(ps: seq<P>, parse: string -> Option<P>, format: P -> string)
    requires ps != []
    requires forall i :: 0 <= i < |ps| ==> NoSeparator(format(ps[i])) && parse(format(ps[i])) == Some(ps[i])
    ensures ValueFor(ValueString(InlineCss(ps), format), parse) == InlineCss(ps)
  {
    var pieces := Formatted(ps, format);
    SplitJoin(pieces);
    ParsedRoundTrip(ps, parse, format);
  }

  /** Parsing the formatted properties gives them back, when each parses back to itself. */
  lemma {:induction false} ParsedRoundTrip<P>(ps: seq<P>, parse: string -> Option<P>, format: P -> string)
    requires forall i :: 0 <= i < |ps| ==> parse(format(ps[i])) == Some(ps[i])
    ensures ParseProperties(Formatted(ps, format), parse) == ps
    decreases |ps|
  {
    if ps != [] {
      assert Formatted(ps, format)[1..] == Formatted(ps[1..], format);
      ParsedRoundTrip(ps[1..], parse, format);
    }
  }

  /** Inline CSS without properties prints as "" and comes back as the empty string value when "" does not parse. */
  lemma ReparseEmptyCss<P>(parse: string -> Option<P>, format: P -> string)
    requires parse("").None?
    ensures ValueFor(ValueString(InlineCss([]), format), parse) == StringValue("")
  {
    FirstPiece("");
  }
}
