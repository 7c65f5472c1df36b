/**
 * The records the flight search works on: catalog flights, the flights it
 * scores, and the coordinates the distance stub feeds to haversine.
 * Instants are integers in milliseconds, as `Date.getTime()` gives them.
 */
module FlightTypes {

  /** One catalog entry (the `Flight` interface), with its times already parsed. */
  datatype Flight = Flight(
    departureTime: int,
    arrivalTime: int,
    carrier: string,
    origin: string,
    destination: string)

  /** A flight paired with its ranking score (the `ScoredFlight` interface); lower is better. */
  datatype ScoredFlight = ScoredFlight(score: real, flight: Flight)

  /** A point on the globe in decimal degrees, as handed to haversine. */
  datatype Coord = Coord(latitude: real, longitude: real)

  /** Trip length in milliseconds; it is negative when the arrival precedes the departure. */
  function Duration(f: Flight): int
  {
    f.arrivalTime - f.departureTime
  }
}
