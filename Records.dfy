/** The rows of the temperature table: (city, timestamp, season, temperature). */
module Records {

  /** Calendar part of a parsed timestamp; only its year and month are ever read. */
  datatype Timestamp = Timestamp(year: int, month: int, day: int)

  /** One row of the uploaded table. The season is the label stored in the
      table (normally "winter", "spring", "summer" or "autumn"), not derived
      from the timestamp. */
  datatype Row = Row(city: string, timestamp: Timestamp, season: string, temperature: real)

  /** The temperature column, in row order. */
  function Temperatures(rows: seq<Row>): (t: seq<real>)
    ensures |t| == |rows|
    ensures forall i :: 0 <= i < |rows| ==> t[i] == rows[i].temperature
  {
    seq(|rows|, i requires 0 <= i < |rows| => rows[i].temperature)
  }
}
