# Aztec text ranges and HTML attribute values, in Dafny

This project models two pieces of the Aztec rich-text editor for iOS.

**UTF-16 offset ⇄ grapheme index conversion.** This is the `String` extension behind `range(from:)`,
`nsRange(from:)`, `indexFromLocation`, `location(before:)` and `location(after:)`. The host text view
speaks UTF-16 code-unit offsets (`NSRange`). Swift's `String` speaks indices aligned to extended
grapheme clusters. A text is modelled as the sequence of its clusters. Each cluster is the non-empty
run of UTF-16 code units it occupies. So an ASCII letter is one unit, 🌍 is a surrogate pair of two
units, and 🇮🇳 is a pair of regional indicators, four units in one cluster.

- A native index is a cluster count `k` in `0..|t|`.
- Its offset (`Offset`) is the width of the clusters before it. A boundary is such an offset.
- A single scanner (`ScanFrom`/`Floor`) walks the clusters and accumulates widths. It finds the last
  boundary at or below an offset. The offset-to-index conversion and the two neighbour queries are built
  on it; `nsRange(from:)` uses `Offset` directly.
- `indexFromLocation(o)` is the index whose offset is exactly `o`, or nil.
- `range(from:)` converts both ends that way. `nsRange(from:)` maps indices back to offsets.
- `location(before: o)` is the nearest boundary strictly below `o`. `location(after: o)` is the nearest
  boundary strictly above `o`. An offset outside the text gives nil, and so does an offset with no such
  neighbour.

The extension's own source file is not part of this model. Its behaviour is fixed here by the scenarios of
`AztecTests/StringRangeConversionTests.swift`, each restated as a lemma on the concrete text (module
`RangeScenarios`). Where the tests leave the behaviour open, the model makes these choices:

- For an offset strictly inside a cluster, `location(before:)` returns the start of that cluster.
- For an offset past the end of the text, `location(before:)` returns nil, as `location(after:)` does.

Under these choices `location(before: 11)` in "Hello 🇮🇳 🌍!" is 10 (the space before the globe).

**`Attribute` and `Attribute.Value`** (`Aztec/Classes/Libxml2/DOM/Data/Attribute.swift`). A value is
absent (`.none`), a plain string, or inline CSS.

- `Value(for:)` splits an optional string on `"; "`. It keeps the pieces that parse as CSS properties. If
  none parse, it keeps the first piece as a string.
- `toString()` joins the properties back with `"; "`, in a loop (`ValueToString`).
- The `==` overloads and the XOR-fold `hashValue()` follow the source case by case, including the asymmetry of `.none`.
  Texts are compared as sequences of Unicode scalars (see "## Left out").
- `Attribute` is a class. Its `name` is fixed and its `value` is mutable. Its `toString()` renders
  `name="value"`. Archiving writes the name and the value string. Unarchiving re-parses that string.

The CSS property type is a type parameter `P` with its equality. `CSSProperty(for:)`, `toString()` and
`hashValue` of a property are passed in as functions (`parse`, `format`, `hash`). The hash of a plain
string is passed in the same way (`stringHash`). Hash values are 64-bit (`bv64`), as Swift's `Int` is.

## Model

| member | source | states |
|---|---|---|
| RangeConversion.Utf16 | AztecTests/StringRangeConversionTests.swift:17-21 | the text's UTF-16 view (`string as NSString`): the code units of the clusters, in order; at least one per cluster |
| RangeConversion.NSRange.End | AztecTests/StringRangeConversionTests.swift:136-145 | `endLocation`, `location + length`: it lies at or after the location, `length` units further on |
| RangeConversion.Length | AztecTests/StringRangeConversionTests.swift:17-21 | `(string as NSString).length`, the number of UTF-16 code units; at least the number of clusters, and 0 for the empty text |
| RangeConversion.Offset | AztecTests/StringRangeConversionTests.swift:171-231 | the offset of a native index, used by `nsRange(from:)`: the offset of index `k` lies between `k` and the text's length, and the first `k` clusters encode exactly the code units before it |
| RangeConversion.ScanFrom | AztecTests/StringRangeConversionTests.swift:68-119 | scanning from a boundary accumulates cluster widths and stops at the last boundary at or below the offset; the boundary it returns lies at or below the offset, and the next one lies above it |
| RangeConversion.Floor | AztecTests/StringRangeConversionTests.swift:68-119 | the returned boundary splits the indices exactly: an index's offset is at or below `o` iff the index is at most the returned one |
| RangeConversion.IndexFromLocation | AztecTests/StringRangeConversionTests.swift:68-119 | `indexFromLocation(o)` gives an index whose offset is exactly `o`; it gives nil only when no index has offset `o` (mid-cluster, negative or past the end) |
| RangeConversion.RangeFrom | AztecTests/StringRangeConversionTests.swift:16-66 | `range(from:)` gives an ordered native range inside the text whose two ends lie exactly at `location` and `location+length`; it gives nil iff one of the two is not a boundary |
| RangeConversion.NSRangeFrom | AztecTests/StringRangeConversionTests.swift:171-231 | `nsRange(from:)` is total on valid native ranges; its location and end are the offsets of the two indices |
| RangeConversion.LocationBefore | AztecTests/StringRangeConversionTests.swift:121-152 | `location(before: o)` is nil iff `o <= 0` or `o` is past the end; otherwise it is a boundary below `o`, and no boundary lies strictly between it and `o` |
| RangeConversion.LocationAfter | AztecTests/StringRangeConversionTests.swift:154-159 | `location(after: o)` is nil iff `o < 0` or `o` is at or past the end; otherwise it is a boundary above `o`, and no boundary lies strictly between `o` and it |
| RangeConversion.OffsetStrictlyMonotone | AztecTests/StringRangeConversionTests.swift:68-119 | offsets grow strictly with the index, because every cluster is at least one unit wide; so boundaries and indices are in bijection |
| RangeConversion.IndexOfOffset | AztecTests/StringRangeConversionTests.swift:68-119 | every index's offset converts back to that same index |
| RangeConversion.MidClusterHasNoIndex | AztecTests/StringRangeConversionTests.swift:134-145 | an offset strictly inside a cluster is not a boundary, so `indexFromLocation` gives nil there |
| RangeConversion.PrefixAtLocation | AztecTests/StringRangeConversionTests.swift:68-119 | when `indexFromLocation(o)` gives `k`, the clusters before `k` encode exactly the first `o` code units |
| RangeConversion.NSRangeRoundTrip | AztecTests/StringRangeConversionTests.swift:171-231 | a range whose two ends are boundaries converts, and `nsRange(from: range(from: r)!) == r` |
| RangeConversion.NativeRangeRoundTrip | AztecTests/StringRangeConversionTests.swift:171-231 | every valid native range survives `nsRange(from:)` followed by `range(from:)` |
| RangeConversion.RangeSlice | AztecTests/StringRangeConversionTests.swift:16-66 | slicing the text with the converted range yields exactly the code units the NSRange covers |
| RangeConversion.NotFoundHasNoRange | AztecTests/StringRangeConversionTests.swift:21-22 | a range at `NSNotFound` converts to nil, never to an empty range at 0 |
| RangeConversion.BeforeWithinCluster | AztecTests/StringRangeConversionTests.swift:134-145 | from any offset after the start of cluster `k`, up to its end, `location(before:)` lands on the start of cluster `k`; it never lands inside a cluster |
| RangeConversion.AfterWithinCluster | AztecTests/StringRangeConversionTests.swift:154-159 | from any offset from the start of cluster `k` up to, but not including, its end, `location(after:)` lands on the end of cluster `k` |
| RangeConversion.BoundaryNeighbours | AztecTests/StringRangeConversionTests.swift:121-132 | from a boundary, `location(before:)` and `location(after:)` step exactly one cluster |
| RangeConversion.BeforeUndoesAfter | AztecTests/StringRangeConversionTests.swift:121-159 | on a boundary, `location(before:)` of `location(after:)` returns the starting offset |
| RangeScenarios.RangeConversionWorld | AztecTests/StringRangeConversionTests.swift:16-27 | in "Hello World!" the range (6, 5) converts to native range 6..11 |
| RangeScenarios.SliceWorld | AztecTests/StringRangeConversionTests.swift:16-27 | clusters 6..11 of "Hello World!" are "World" |
| RangeScenarios.RangeConversionEmoji | AztecTests/StringRangeConversionTests.swift:29-53 | in "Hello 🌍!" and "Hello 🇮🇳!" the emoji's range (6, 2) or (6, 4) converts to the single emoji cluster; offset 6 converts to index 6 with prefix "Hello " (see also lines 82-106) |
| RangeScenarios.RangeConversionFlagAndGlobe | AztecTests/StringRangeConversionTests.swift:55-66 | in "Hello 🇮🇳 🌍!" the globe's range (11, 2) converts to the single globe cluster |
| RangeScenarios.LocationConversionWorld | AztecTests/StringRangeConversionTests.swift:68-80 | offset 6 in "Hello World!" is index 6, with prefix "Hello " |
| RangeScenarios.LocationConversionFlagAndGlobe | AztecTests/StringRangeConversionTests.swift:108-119 | offset 11 in "Hello 🇮🇳 🌍!" is index 8, with prefix "Hello 🇮🇳 " |
| RangeScenarios.LocationBeforeWorld | AztecTests/StringRangeConversionTests.swift:121-132 | `location(before: 6)` in "Hello World!" is 5, with prefix "Hello" |
| RangeScenarios.LocationBeforeGlobe | AztecTests/StringRangeConversionTests.swift:134-145 | `location(before: 8)` in "Hello 🌍!" is 6, and offset 7 has no index |
| RangeScenarios.LocationsAtLimits | AztecTests/StringRangeConversionTests.swift:147-159 | on the empty text, `location(before: 0)` and `location(after: 0)` are nil |
| RangeScenarios.NSRangeFromRangeAscii | AztecTests/StringRangeConversionTests.swift:171-207 | in "Hello world!" the ranges (0, 5) and (5, 3) survive the round trip |
| RangeScenarios.NSRangeFromRangeGlobe | AztecTests/StringRangeConversionTests.swift:219-231 | in "Hello 🌎!" the range (6, 2) survives the round trip |
| Components.FindSeparator | Aztec/Classes/Libxml2/DOM/Data/Attribute.swift:110-116 | finds the leftmost `"; "` at or after a position, and nil when there is none |
| Components.Split | Aztec/Classes/Libxml2/DOM/Data/Attribute.swift:116 | `components(separatedBy: "; ")` always gives at least one piece, and no piece contains the separator |
| Components.Join | Aztec/Classes/Libxml2/DOM/Data/Attribute.swift:198-208 | the string the serialising loop builds: `""` for no pieces, and otherwise a string that starts with the first piece; the separators it places are pinned by JoinAppend, JoinSplit and SplitJoin |
| Components.JoinSplit | Aztec/Classes/Libxml2/DOM/Data/Attribute.swift:116 | joining the pieces of a split with `"; "` gives the string back |
| Components.SplitJoin | Aztec/Classes/Libxml2/DOM/Data/Attribute.swift:198-208 | splitting a join gives the pieces back, when no piece contains `"; "` |
| Components.JoinAppend | Aztec/Classes/Libxml2/DOM/Data/Attribute.swift:198-208 | appending one more piece appends `"; "` and the piece; separators go only between pieces |
| Components.FirstPiece | Aztec/Classes/Libxml2/DOM/Data/Attribute.swift:128-129 | a string is a single piece iff it contains no `"; "`; otherwise the first piece followed by `"; "` is a prefix of it |
| AttributeValue.ParseProperties | Aztec/Classes/Libxml2/DOM/Data/Attribute.swift:122 | the parsed properties are no more than the pieces, and there are none iff no piece parses |
| AttributeValue.ParsePropertiesConcat | Aztec/Classes/Libxml2/DOM/Data/Attribute.swift:122 | parsing keeps the order of the pieces: the properties of a concatenation are the concatenation of the properties |
| AttributeValue.ParsePropertiesSingle | Aztec/Classes/Libxml2/DOM/Data/Attribute.swift:122 | a piece that parses contributes its property, and a piece that does not parse is dropped |
| AttributeValue.ParsedFromPiece | Aztec/Classes/Libxml2/DOM/Data/Attribute.swift:122 | every parsed property is the parse of some piece |
| AttributeValue.ValueFor | Aztec/Classes/Libxml2/DOM/Data/Attribute.swift:115-130 | nil gives `.none`, and any string gives something else; the result is inline CSS of exactly the parsing pieces when some piece parses; otherwise it is the first piece as a string |
| AttributeValue.StringValueIsFirstPiece | Aztec/Classes/Libxml2/DOM/Data/Attribute.swift:128-129 | when nothing parses, a string without `"; "` is kept whole; otherwise only the text before the first `"; "` is kept |
| AttributeValue.Formatted | Aztec/Classes/Libxml2/DOM/Data/Attribute.swift:200-201 | the pieces the loop appends: one per property, each `property.toString()`, in order |
| AttributeValue.ValueString | Aztec/Classes/Libxml2/DOM/Data/Attribute.swift:191-196 | the string form is nil exactly for `.none` |
| AttributeValue.ValueToString | Aztec/Classes/Libxml2/DOM/Data/Attribute.swift:191-210 | the loop returns nil for `.none`, the text for `.string`, and the formatted properties joined by `"; "` for inline CSS (`""` when there are none) |
| AttributeValue.StringEqualsValue | Aztec/Classes/Libxml2/DOM/Data/Attribute.swift:166-173 | `String == Value` holds iff the value is `.string` of the same text |
| AttributeValue.ValueEqualsString | Aztec/Classes/Libxml2/DOM/Data/Attribute.swift:162-164 | `Value == String` holds iff the value is `.string` of the same text |
| AttributeValue.PropertiesEqualsValue | Aztec/Classes/Libxml2/DOM/Data/Attribute.swift:179-186 | `[CSSProperty] == Value` holds iff the value is inline CSS with the same properties in the same order |
| AttributeValue.ValueEqualsProperties | Aztec/Classes/Libxml2/DOM/Data/Attribute.swift:175-177 | `Value == [CSSProperty]` holds iff the value is inline CSS with the same properties in the same order |
| AttributeValue.ValueEquals | Aztec/Classes/Libxml2/DOM/Data/Attribute.swift:151-160 | `Value == Value` holds iff the left side is `.none` or the two values are identical |
| AttributeValue.EqualityNotSymmetric | Aztec/Classes/Libxml2/DOM/Data/Attribute.swift:151-160 | `.none == .string(s)` holds while `.string(s) == .none` does not |
| AttributeValue.EqualityLaws | Aztec/Classes/Libxml2/DOM/Data/Attribute.swift:151-160 | value equality is reflexive and transitive; with texts compared scalar by scalar, equality in both directions is identity |
| AttributeValue.XorFold | Aztec/Classes/Libxml2/DOM/Data/Attribute.swift:142-144 | the `reduce(0, ^)` over the properties' hashes, 0 for no properties; its laws are XorFoldConcat and XorFoldPermutation |
| AttributeValue.HashValue | Aztec/Classes/Libxml2/DOM/Data/Attribute.swift:135-146 | the hash of `.none` is 0 |
| AttributeValue.XorFoldConcat | Aztec/Classes/Libxml2/DOM/Data/Attribute.swift:141-144 | the fold of a concatenation is the XOR of the two folds |
| AttributeValue.XorFoldPermutation | Aztec/Classes/Libxml2/DOM/Data/Attribute.swift:141-144 | the XOR fold is the same for any reordering (same multiset) of the properties |
| AttributeValue.ReorderedCssHashesAlike | Aztec/Classes/Libxml2/DOM/Data/Attribute.swift:135-146 | inline-CSS values whose properties are reorderings of each other hash alike |
| AttributeValue.EqualValuesHashAlike | Aztec/Classes/Libxml2/DOM/Data/Attribute.swift:135-160 | values that are equal in both directions hash alike |
| AttributeValue.NoValueEqualityIgnoresHash | Aztec/Classes/Libxml2/DOM/Data/Attribute.swift:135-160 | `.none` equals `.string(s)` while their hashes differ whenever the hash of `s` is not 0 |
| AttributeValue.ReparseKeepsPresence | Aztec/Classes/Libxml2/DOM/Data/Attribute.swift:89-92 | re-parsing the string form gives `.none` iff the value was `.none` |
| AttributeValue.ReparseString | Aztec/Classes/Libxml2/DOM/Data/Attribute.swift:36-44 | a string value without `"; "` that does not parse as CSS comes back unchanged |
| AttributeValue.ParsedRoundTrip | Aztec/Classes/Libxml2/DOM/Data/Attribute.swift:122 | parsing the formatted properties gives them back, when each property parses back to itself |
| AttributeValue.ReparseInlineCss | Aztec/Classes/Libxml2/DOM/Data/Attribute.swift:36-44 | non-empty inline CSS comes back unchanged, when each property prints without `"; "` and parses back to itself |
| AttributeValue.ReparseEmptyCss | Aztec/Classes/Libxml2/DOM/Data/Attribute.swift:36-44 | inline CSS with no properties prints as `""` and comes back as the empty string value |
| Attributes.Attribute.constructor | Aztec/Classes/Libxml2/DOM/Data/Attribute.swift:15-18 | sets the name and the value as given |
| Attributes.Attribute.Named | Aztec/Classes/Libxml2/DOM/Data/Attribute.swift:15-18 | `init(name:)` with the default argument: sets the name, and the value is `.none` |
| Attributes.Attribute.FromString | Aztec/Classes/Libxml2/DOM/Data/Attribute.swift:20-23 | sets the name, and sets the value parsed from the optional string (`.none` for nil) |
| Attributes.Attribute.Decode | Aztec/Classes/Libxml2/DOM/Data/Attribute.swift:36-44 | rebuilds the attribute from the archived name and the re-parsed value string |
| Attributes.Attribute.Encode | Aztec/Classes/Libxml2/DOM/Data/Attribute.swift:89-92 | archives the name and the value's string form, which is nil exactly for `.none` |
| Attributes.Attribute.ToString | Aztec/Classes/Libxml2/DOM/Data/Attribute.swift:48-56 | gives the bare name when the value is `.none`, and `name="value"` otherwise; it starts with the name, and is longer than it iff there is a value |
| Attributes.ArchiveRoundTrip | Aztec/Classes/Libxml2/DOM/Data/Attribute.swift:36-92 | decoding what `encode` wrote gives the same name and `Value(for: value.toString())`; `.none` comes back as `.none` and nothing else does |

## Left out

- Grapheme segmentation (Unicode Standard Annex #29, section 3, "Grapheme Cluster Boundaries") is not modelled. The text arrives already split into clusters, because the rules depend on Unicode property tables.
- The `String` extension's own source file is not part of this model. Its conversions are specified by the test scenarios and the laws above, not transcribed from its code.
- `NSString.range(of:)` substring search is not modelled. The found range is an input to the scenarios, and `substring(with:)` / `substring(to:)` become slices of the cluster sequence.
- Native indices are plain cluster counts. An index taken from a different text, or from an older version of the same text, cannot be detected.
- Split: the separator `"; "` is matched as the literal scalars `;` and space, not by the canonical equivalence of Foundation's non-literal `components(separatedBy:)` (Attribute.swift:116), because Unicode normalisation is not modelled. "a\u{37E} b" (U+037E decomposes to `;`) stays one piece here, and "a; \u{301}b" is split here inside the composed space. FindSeparator, ValueFor and StringValueIsFirstPiece inherit this.
- StringEqualsValue: compares texts as sequences of Unicode scalars, not by the canonical equivalence of Swift's `String ==`, because Unicode normalisation is not modelled. "\u{E9}" and "e\u{301}" are equal in Swift and different here.
- ValueEqualsString: compares texts as sequences of Unicode scalars, not by canonical equivalence, for the same reason as StringEqualsValue.
- ValueEquals: the `.string` case compares texts as sequences of Unicode scalars, not by canonical equivalence, for the same reason as StringEqualsValue.
- EqualityLaws: "equal in both directions is identity" holds only because texts are compared scalar by scalar. Under Swift's canonical equivalence, two distinct but equivalent texts are equal both ways.
- `CSSProperty` parsing, formatting, equality and hashing are kept abstract, as parameters and the equality of `P`.
- Swift's string hashing is a parameter `stringHash`. The platform's hash function is not modelled.
- `Attribute`'s identity equality and `ObjectIdentifier` hash (Attribute.swift:63-76) are not modelled, because they compare object identity.
- `customMirror` (Attribute.swift:28-32) is not modelled, because it is reflection only.
- `NSCoder` keyed archiving is reduced to a record of the two archived entries. The `fatalError()` path for an archive without a name string (Attribute.swift:40) is not modelled.
- The editor's demo view controller (Example/WordPress-Aztec-iOS/EditorDemoController.swift) is not part of this model. It is UI layout glue.
