/**
 The values an event's attributes can hold, as far as the raw Python output
 format distinguishes them, and the field names it treats specially.
 */
module EventValues {

  datatype Option<T> = None | Some(value: T)

  datatype Result<T, E> = Ok(value: T) | Err(error: E)

  newtype byte = b: int | 0 <= b < 256

  /** An attribute value. Python decides by `isinstance`; here the kind is the
      constructor. */
  datatype Value =
    | Str(s: string)
    | Bytes(data: seq<byte>)
    | Int(i: int)
    | Bool(b: bool)
    | NoneValue
    | List(items: seq<Value>)
      /** an attribute container identifier */
    | Identifier(id: string)
      /** a date and time value (dfdatetime `DateTimeValues`) */
    | DateTime(timestamp: int)
      /** a path specification; `comparable` is its multi-line text form */
    | PathSpec(comparable: string)

  /** Python truthiness, as `if value:` decides it. Objects without a length
      (identifiers, date and time values, path specifications) are true. */
  predicate Truthy(v: Value)
  {
    match v
    case Str(s) => |s| > 0
    case Bytes(data) => |data| > 0
    case Int(i) => i != 0
    case Bool(b) => b
    case NoneValue => false
    case List(items) => |items| > 0
    case Identifier(_) => true
    case DateTime(_) => true
    case PathSpec(_) => true
  }

  /** One `(name, value)` pair of `GetAttributes()`. */
  datatype Attribute = Attribute(name: string, value: Value)

  const EventIdentifierKey: string := "_event_identifier"
  const TimestampKey: string := "_timestamp"
  const TagLabelsKey: string := "_event_tag_labels"
  const PathSpecKey: string := "path_spec"
  const DisplayNameKey: string := "display_name"
  const FilenameKey: string := "filename"
  const InodeKey: string := "inode"
}
