/** Values shared by every extractor: Python's exceptions become values of
    `PyError`, and an extractor that may raise returns a `Result`. */
module Base {

  datatype Option<+T> = None | Some(value: T)

  /** The Python exceptions the core lets escape, named after their class. */
  datatype PyError =
    | TypeError       // a facility name that is not a str; subscripting a non-dict
    | RuntimeError    // no YOLP app id; a YOLP response without an expected key
    | KeyError        // a YOLP feature without "Geometry" or "Coordinates"
    | IndexError      // a spreadsheet row shorter than 58 cells; a coordinate without a comma
    | ValueError      // float() of a YOLP coordinate that is not a number
    | AttributeError  // `.split` on a YOLP coordinate that is not a str
    | StopIteration   // an open-data CSV without even a header row
    | MissingSchema   // `requests.get` on an address without a scheme, such as ""

  datatype Result<+T> = Success(value: T) | Failure(error: PyError)

  /** A Python object handed to code that expects a `str`. */
  datatype Value = Str(s: string) | NotStr

  /** One facility location: the `Location` row's fields. Coordinates are
      passed through from the parser and never computed with. */
  datatype GeoRecord = GeoRecord(name: string, longitude: real, latitude: real)

  /** Python's `float()` on a str: `None` where it raises ValueError. */
  type DecimalParser = string -> Option<real>
}
