/**
 The data the PATCH interpreter works on: the loosely typed value tree a
 resource is converted to, the PATCH operation of section 3.5.2 of RFC 7644,
 the error kinds, and the collaborators the service calls but does not own.
 */
module Scim {
  import opened Wrappers

  /** A JSON-like value: the generic representation Jackson produces. */
  datatype Value =
    | Null
    | Scalar(text: string)
    | Arr(items: seq<Value>)
    | Obj(fields: map<string, Value>)

  /** A resource, identified with its generic map (attribute name to value). */
  type Resource = map<string, Value>

  /** What the @Attribute annotation of a field says: multiValueClass set, type COMPLEX. */
  datatype AttributeMeta = AttributeMeta(multiValued: bool, complex: bool)

  datatype OpKind = Add | Replace | Remove

  /** One PATCH operation; an absent path is "" and an absent value is Null. */
  datatype PatchOperation = PatchOperation(kind: OpKind, path: string, value: Value)

  /** The failure kinds; the service raises every one of them as a single exception type. */
  datatype PatchError =
    | InvalidPath                             // bracketed path with a malformed tail
    | UnrecognizedAttribute(attribute: string) // filtered attribute has no metadata
    | NotMultivaluedComplex(attribute: string) // filtered attribute is not complex multi-valued
    | ValueNotParseable                       // scalar or list value with an empty path
    | FilterSyntax                            // the value-selection filter does not parse
    | RuntimeFailure                          // a cast, an index or a substring that throws

  /**
   The collaborators of the service, fixed for one resource class:
   attribute metadata (IntrospectUtil.getFieldAnnotation), ScimResourceUtil.splitPath
   with the class's extension URNs, FilterUtil.preprocess, the ANTLR filter parser
   (does the text parse?), complexAttributeMatch (filter text, entry, attribute),
   and the merge / delete helpers of ScimResourceUtil.
   */
  datatype Env = Env(
    meta: string -> Option<AttributeMeta>,
    splitPath: string -> seq<string>,
    preprocess: string -> string,
    parses: string -> bool,
    matches: (string, Value, string) -> bool,
    replaceMerge: (Resource, Resource) -> Resource,
    addMerge: (Resource, Resource) -> Resource,
    deleteByPath: (Resource, string) -> Resource)
}
