/**
 * `Attribute`: an HTML attribute, a fixed name and a value that can be replaced.
 * Archiving writes the name and the value's string form under two keys; unarchiving
 * reads them back and re-parses the value string.
 */
module Attributes {
  import opened Wrappers
  import opened AttributeValue

  /** What `encode(with:)` writes: the name under "name" and the value's string form (or nil) under "value". */
  datatype Archive = Archive(name: string, value: Option<string>)

  class Attribute<P> {
    const name: string
    var value: Value<P>

    /** `init(name:value:)`. */
    constructor (name: string, value: Value<P>)
      ensures this.name == name && this.value == value
    {
      this.name := name;
      this.value := value;
    }

    /** `init(name:)`: the default argument of `init(name:value:)`, no value. */
    constructor Named(name: string)
      ensures this.name == name && value == NoValue
    {
      this.name := name;
      value := NoValue;
    }

    /** `init(name:string:)`: the value parsed from an optional string. */
    constructor FromString(name: string, s: Option<string>, parse: string -> Option<P>)
      ensures this.name == name && value == ValueFor(s, parse)
      ensures s.None? ==> value == NoValue
    {
      this.name := name;
      value := ValueFor(s, parse);
    }

    /** `init?(coder:)`: the attribute rebuilt from what was archived. */
    constructor Decode(archive: Archive, parse: string -> Option<P>)
      ensures name == archive.name && value == ValueFor(archive.value, parse)
    {
      name := archive.name;
      value := ValueFor(archive.value, parse);
    }

    /** `encode(with:)`. */
    method Encode(format: P -> string) returns (archive: Archive)
      ensures archive.name == name
      ensures archive.value == ValueString(value, format)
      ensures archive.value.None? <==> value.NoValue?
    {
      var s := ValueToString(value, format);
      archive := Archive(name, s);
    }

    /**
     * `toString()`: the bare name when the value has no string form,
     * otherwise `name="value"`.
     */
    method ToString(format: P -> string) returns (r: string)
      ensures value.NoValue? ==> r == name
      ensures !value.NoValue? ==> r == name + "=\"" + ValueString(value, format).value + "\""
      ensures name <= r && (r == name <==> value.NoValue?)
    {
      var result := name;
      var stringValue := ValueToString(value, format);
      if stringValue.Some? {
        result := result + "=\"" + stringValue.value + "\"";
      }
      r := result;
    }
  }

  /** Archiving and unarchiving: the same name, and the value re-parsed from its string form. */
  method ArchiveRoundTrip<P>(a: Attribute<P>, parse: string -> Option<P>, format: P -> string)
    returns (b: Attribute<P>)
    ensures fresh(b)
    ensures b.name == a.name
    ensures b.value == ValueFor(ValueString(a.value, format), parse)
    ensures b.value.NoValue? <==> a.value.NoValue?
  {
    var archive := a.Encode(format);
    b := new Attribute.Decode(archive, parse);
    ReparseKeepsPresence(a.value, parse, format);
  }
}
