/** Values shared by the parser, the filter and the row shaping. */
module Common {

  /** One dynamically typed field of an OpenSky state vector or of a database row.
      Floating-point fields (longitude, altitudes, velocity, ...) and the `sensors`
      list are `Opaque`: they are carried through unchanged and never inspected,
      except for their truth value; token 0 stands for a value Python treats as
      false (0.0, an empty list), any other token for one it treats as true. */
  datatype Value =
    | Null
    | Int(i: int)
    | Str(s: string)
    | Bool(b: bool)
    | Opaque(token: int)

  /** Python's `bool(v)`. */
  function Truthy(v: Value): bool
  {
    match v
    case Null => false
    case Int(i) => i != 0
    case Str(s) => s != ""
    case Bool(b) => b
    case Opaque(t) => t != 0
  }

  /** The named fields of an OpenSky state vector; in the source these names are
      the string keys of the name-to-index table and the database column names. */
  datatype ApiField =
    | Icao24 | Callsign | OriginCountry | TimePosition | LastContact
    | Longitude | Latitude | BaroAltitude | OnGround | Velocity
    | TrueTrack | VerticalRate | Sensors | GeoAltitude | Squawk
    | Spi | PositionSource

  /** The exceptions the modelled code can raise. */
  datatype Error =
    | MissingField(name: ApiField)  // IndexError: the slot of the named field is past the end of the record
    | PopOutOfRange(index: nat)   // IndexError: `list.pop(index)` on a list with `index` or fewer elements
    | WrongArity(got: nat)        // TypeError: `FlightState(*values)` with a row that is not six wide

  datatype Result<T> = Ok(value: T) | Err(error: Error)
}
