/** Decoded cluster records and the generic value tree their open payloads are
    decoded into (main.go:20-38). */
module Values {

  /** Go's "maybe absent" (a nil map, a failed decode). */
  datatype Option<+T> = None | Some(value: T)

  /** A computation that either yields a value or stops the program with a Go
      runtime panic carrying its message. */
  datatype Result<+T> = Ok(value: T) | Panic(message: string)

  /** The dynamic values behind Go's `interface{}` as the YAML decoder produces
      them: nil, bool, int, string, []interface{} and map[string]interface{}. */
  datatype Value =
    | Null
    | Bool(b: bool)
    | Number(n: int)
    | Str(s: string)
    | Seq(items: seq<Value>)
    | Mapping(fields: map<string, Value>)

  /** Go's name of the dynamic type of a value, as a failed type assertion
      reports it. */
  function TypeName(v: Value): string
  {
    match v
    case Null => "nil"
    case Bool(_) => "bool"
    case Number(_) => "int"
    case Str(_) => "string"
    case Seq(_) => "[]interface {}"
    case Mapping(_) => "map[string]interface {}"
  }

  /** K8sResource: `metadata` is None when the document has no metadata (a
      nil map); an absent open payload field is Null. */
  datatype Resource = Resource(
    apiVersion: string,
    kind: string,
    metadata: Option<map<string, Value>>,
    spec: Value,
    status: Value,
    data: Value,
    stringData: Value,
    rules: Value,
    subjects: Value,
    roleRef: Value)

  /** K8sList: a collection record wrapping resource items. */
  datatype ResourceList = ResourceList(apiVersion: string, kind: string, items: seq<Resource>)

  /** The value stored under `key` in a resource's metadata, if the metadata
      map exists and has that key. */
  function MetadataField(r: Resource, key: string): (v: Option<Value>)
    ensures v.Some? <==> r.metadata.Some? && key in r.metadata.value
    ensures v.Some? ==> v.value == r.metadata.value[key]
  {
    if r.metadata.Some? && key in r.metadata.value then Some(r.metadata.value[key]) else None
  }
}
