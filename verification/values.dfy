/**
 * The document tree the metadata server answers from: versions, then client keys,
 * then an arbitrary tree of scalars, sequences and string-keyed maps.
 */
module Values {

  /** Client entry whose top-level fields are copied into every other client's map. */
  const DefaultKey: string := "default"

  /** Field whose string value lets a sequence element be addressed by name. */
  const MagicArrayKey: string := "name"

  /** An IEEE-754 double, kept as its bit pattern: float arithmetic and formatting are not modelled. */
  type Float64 = bv64

  /** A decoded YAML value. */
  datatype Value =
    | Null
    | Bool(b: bool)
    | Int(i: int)
    | Float(f: Float64)
    | Str(s: string)
    | Seq(items: seq<Value>)
    | Map(fields: map<string, Value>)
  {
    /** The values the text format lists with a trailing `/`: maps and sequences. */
    predicate IsComposite()
    {
      Map? || Seq?
    }
  }

  /** Client key (an address or `DefaultKey`) to that client's tree. */
  type Answers = map<string, Value>

  /** Version name to the answers of that version. */
  type Versions = map<string, Answers>
}
