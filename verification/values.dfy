/** Column values and the small wrappers the rest of the model is written in. */
module Values {

  datatype Option<+T> = None | Some(value: T)

  datatype Result<+T, +E> = Ok(value: T) | Err(error: E)

  /** A column value as the storage keeps it: SQL NULL, or a text, integer or boolean. */
  datatype Value = Null | Text(s: string) | Int(i: int) | Bool(b: bool)

  /** The declared (non-null) type of a column or schema field. */
  datatype Kind = TextKind | IntKind | BoolKind

  predicate HasKind(v: Value, k: Kind) {
    match v
    case Null => false
    case Text(_) => k == TextKind
    case Int(_) => k == IntKind
    case Bool(_) => k == BoolKind
  }
}
