/** Small value types shared by every module of the model. */
module Common {

  /** Python's `None` / a present value. */
  datatype Option<+T> = None | Some(value: T)

  /** A call that either returns a value or raises. */
  datatype Result<+T> = Ok(value: T) | Raised(error: string)

  /** What `json.load` sees when a configuration file is opened:
      no file at all, a file whose text is not valid JSON, or a parsed document. */
  datatype JsonFile<+T> = Missing | Malformed | Holds(content: T)

  /** Python truthiness of an optional string: `None` and `""` are false. */
  predicate Truthy(s: Option<string>)
  {
    s.Some? && s.value != ""
  }

  /** An (H, S, V) triple as written in the colour tables. */
  datatype Hsv = Hsv(h: int, s: int, v: int)

  /** A colour table entry `name: (lower, upper)`. */
  datatype Bounds = Bounds(lower: Hsv, upper: Hsv)

  /** A slot range `{"H": [lo, hi], "S": [lo, hi], "V": [lo, hi]}`. */
  datatype HsvRange = HsvRange(h: (int, int), s: (int, int), v: (int, int))

  /** `{"H": [0, 0], "S": [0, 0], "V": [0, 0]}` */
  const ZeroRange: HsvRange := HsvRange((0, 0), (0, 0), (0, 0))
}
