/** Optional values, the errors the departure core raises, and results that carry one of them. */
module Outcomes {

  datatype Option<+T> = None | Some(value: T)

  /** The failures of the core: a city key missing from the feed store (a KeyError in the
      source), a city whose stop table is empty (idxmin on an empty column), and a departure
      time that is not a valid GTFS time (a ValueError from int() or strptime). */
  datatype Error =
    | UnknownCity(city: string)
    | NoStops(city: string)
    | MalformedTime

  datatype Result<+T> = Ok(value: T) | Err(error: Error)
}
