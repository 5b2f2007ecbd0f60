/** The rows of the ADS-B position table, as every part of the engine reads them. */
module Records {

  /** A pandas cell that may be null. */
  datatype Option<T> = None | Some(value: T)

  /** One broadcast sample: one row of the position table.
      Timestamps are whole seconds since the epoch; every other column may be null. */
  datatype Record = Record(
    icao24: Option<string>,
    callsign: Option<string>,
    timestamp: int,
    latitude: Option<real>,
    longitude: Option<real>,
    altitude: Option<int>,
    verticalRate: Option<int>)

  /** The numeric columns that the summaries reduce. */
  datatype NumericColumn = Altitude | VerticalRate

  /** The identity columns. */
  datatype TextColumn = Icao24 | Callsign

  function NumericCell(r: Record, c: NumericColumn): Option<int>
  {
    match c
    case Altitude => r.altitude
    case VerticalRate => r.verticalRate
  }

  function TextCell(r: Record, c: TextColumn): Option<string>
  {
    match c
    case Icao24 => r.icao24
    case Callsign => r.callsign
  }

  /** A (minimum, maximum) pair over the non-null values of one column. */
  datatype Range = Range(lo: int, hi: int)
}
