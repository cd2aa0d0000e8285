/** The trip record: the typed row that the normaliser builds and that the
    staging table, the permanent table and the duplicates file hold. */
module Trips {

  /** The range of a .NET `int` (the `passenger_count` and location columns). */
  type Int32 = x: int | -0x8000_0000 <= x <= 0x7FFF_FFFF

  /** A UTC instant, as a .NET `DateTime` tick count (100 ns units since
      0001-01-01); the upper bound is the tick count of `DateTime.MaxValue`. */
  type Instant = t: int | 0 <= t <= 3155378975999999999

  /** A .NET `decimal` as its representation (an integer mantissa and a
      power-of-ten scale). The pipeline never computes with decimals; it
      only carries them from the input file to the tables. */
  datatype Decimal = Decimal(mantissa: int, scale: nat)

  /** The two values the `store_and_fwd_flag` column may hold. */
  const FlagNo: string := "No"
  const FlagYes: string := "Yes"

  datatype TripRecord = TripRecord(
    pickup: Instant,
    dropoff: Instant,
    passengerCount: Int32,
    tripDistance: Decimal,
    storeAndFwd: string,
    puLocation: Int32,
    doLocation: Int32,
    fareAmount: Decimal,
    tipAmount: Decimal)

  /** The logical identity of a trip: the columns of the
      `PARTITION BY` clause of the deduplication queries. */
  datatype TripKey = TripKey(pickup: Instant, dropoff: Instant, passengerCount: Int32)

  function KeyOf(r: TripRecord): TripKey {
    TripKey(r.pickup, r.dropoff, r.passengerCount)
  }
}
