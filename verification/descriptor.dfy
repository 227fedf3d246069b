/** The field-descriptor tree that stands in for Go reflection over the
    destination structure, the values a parse writes into fields, and the
    collaborators the parser calls but this model does not interpret. */
module Descriptor {
  import opened Wrappers
  import opened Errors

  /** The process environment: variable name to value. */
  type Env = map<string, string>

  /** A field's struct tag, as the key/value pairs StructTag.Lookup sees. */
  type Tags = map<string, string>

  /** The identity of a declared Go type (reflect.Type), written as its
      String() form. */
  type TypeId = string

  const DurationType: TypeId := "time.Duration"
  const UrlType: TypeId := "url.URL"

  /** StructTag.Get: the value, or "" when the key is absent. */
  function TagGet(tags: Tags, key: string): string {
    if key in tags then tags[key] else ""
  }

  /** The element type of a slice field, told apart as the exact slice types
      the converter recognises. */
  datatype ElemType =
    | StringElem
    | IntElem
    | Int64Elem
    | Uint64Elem
    | BoolElem
    | DurationElem
    | UrlElem
      /** Any other element type; `unmarshalsText` tells whether a pointer to
          the element (or to the pointee, for pointer elements) implements
          encoding.TextUnmarshaler. */
    | OtherElem(typeId: TypeId, unmarshalsText: bool)

  /** reflect.Kind of a field, carrying what the parser needs of it. */
  datatype Kind =
    | StringKind
    | BoolKind
    | IntKind
    | UintKind
    | Int64Kind
    | Uint64Kind
    | SliceKind(elem: ElemType)
      /** A structure, with its type name and declared fields in order. */
    | StructKind(structName: string, fields: seq<Field>)
      /** A pointer: None when nil, otherwise what it points to. */
    | PtrKind(target: Option<Kind>)
      /** Every other kind (smaller integers, maps, arrays, interfaces, ...). */
    | OtherKind

  /** One declared field of a structure. `exported` is reflect's CanSet;
      `unmarshalsText` tells whether the field's address (or the pointer
      itself, for a pointer field) implements encoding.TextUnmarshaler. */
  datatype Field = Field(
    name: string,
    exported: bool,
    typeId: TypeId,
    unmarshalsText: bool,
    tags: Tags,
    kind: Kind)

  /** A value produced by a collaborator this model does not interpret (a
      parsed URL, the state a TextUnmarshaler leaves behind). */
  datatype Opaque = Opaque(repr: string)

  /** A value the parser stores into a field. */
  datatype Value =
    | StringVal(s: string)
    | BoolVal(b: bool)
    | IntVal(i: int)
    | UintVal(n: nat)
    | DurationVal(d: int)
    | UrlVal(u: Opaque)
    | TextVal(t: Opaque)
    | StringsVal(ss: seq<string>)
    | IntsVal(ints: seq<int>)
    | UintsVal(ns: seq<nat>)
    | BoolsVal(bs: seq<bool>)
    | DurationsVal(ds: seq<int>)
    | UrlsVal(us: seq<Opaque>)
    | TextsVal(ts: seq<Opaque>)
      /** Whatever a caller-supplied converter returned. */
    | CustomVal(c: Opaque)

  /** A caller-supplied converter (ParserFunc). */
  type Converter = string -> Parsed<Value>

  /** CustomParsers: converters keyed by the exact declared type. */
  type CustomParsers = map<TypeId, Converter>

  /** The collaborators whose syntax is out of scope: os.ExpandEnv,
      time.ParseDuration, url.Parse, url.ParseRequestURI and the
      UnmarshalText method of a type (keyed by the type). */
  datatype Services = Services(
    expandEnv: (Env, string) -> string,
    parseDuration: string -> Parsed<int>,
    parseUrl: string -> Parsed<Opaque>,
    parseRequestUri: string -> Parsed<Opaque>,
    unmarshalText: (TypeId, string) -> Parsed<Opaque>)
}
