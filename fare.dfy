/** The tariff: hourly rates per category and the free grace period, in hours. */
module Fare {

  const BIKE_RATE_PER_HOUR: real := 1.0

  const CAR_RATE_PER_HOUR: real := 1.5

  /** Stays shorter than this many hours are free. */
  const MINIMUM_DURATION_FOR_CHARGE: real := 0.5
}
