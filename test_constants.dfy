/**
 * The entry and exit times of the three successive visits the integration test drives,
 * in milliseconds since the epoch (dates taken in UTC): visit `i` enters on 2024-04-(8+i)
 * at 12:00 and leaves the same day at 16:00.
 */
module TestConstants {
  import opened FareCalculatorService

  const NUMBER_OF_TICKETS: int := 3

  const MILLIS_PER_DAY: int := 24 * MILLIS_PER_HOUR

  /** 2024-04-08 00:00:00.0 */
  const APRIL_8_2024: int := 1712534400000

  /** 2024-04-08, -09 and -10 at 12:00:00.0 */
  const IN_TIME_TEST: seq<int> := [1712577600000, 1712664000000, 1712750400000]

  /** 2024-04-08, -09 and -10 at 16:00:00.0 */
  const OUT_TIME_TEST: seq<int> := [1712592000000, 1712678400000, 1712764800000]

  /** Each table has one time per visit: noon and four in the afternoon of day `i`, counted from 8 April 2024. */
  lemma TestVisits()
    ensures |IN_TIME_TEST| == |OUT_TIME_TEST| == NUMBER_OF_TICKETS
    ensures forall i :: 0 <= i < NUMBER_OF_TICKETS ==>
      IN_TIME_TEST[i] == APRIL_8_2024 + i * MILLIS_PER_DAY + 12 * MILLIS_PER_HOUR
    ensures forall i :: 0 <= i < NUMBER_OF_TICKETS ==>
      OUT_TIME_TEST[i] == APRIL_8_2024 + i * MILLIS_PER_DAY + 16 * MILLIS_PER_HOUR
    ensures forall i :: 0 <= i < NUMBER_OF_TICKETS ==> OUT_TIME_TEST[i] - IN_TIME_TEST[i] == 4 * MILLIS_PER_HOUR
  {
  }
}
