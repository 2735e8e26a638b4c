/**
 * Fare policy. The price of a stay is a pure function of the ticket's times, its spot's
 * category and the discount flag; `CalculateFare` delivers it by writing the ticket's price.
 * Arithmetic is exact (Dafny `real`) where the source uses doubles; the result is in cents.
 */
module FareCalculatorService {
  import opened Options
  import opened Model
  import Fare

  datatype FareError =
    | MissingOutTime        // the ticket has no exit time
    | OutTimeBeforeInTime   // the exit time precedes the entry time
    | UnknownParkingType    // the ticket's spot has no category

  const MILLIS_PER_HOUR: int := 60 * 60 * 1000

  /** The free grace period in milliseconds. */
  const MINIMUM_CHARGED_MILLIS: int := 1800000

  /** Length of a stay in hours, as the source's `(double) (out - in) / (60 * 60 * 1000)`. */
  function DurationHours(inTime: int, outTime: int): real
  {
    (outTime - inTime) as real / MILLIS_PER_HOUR as real
  }

  function RatePerHour(parkingType: ParkingType): real
  {
    match parkingType
    case CAR => Fare.CAR_RATE_PER_HOUR
    case BIKE => Fare.BIKE_RATE_PER_HOUR
  }

  /** The multiplier of the repeat-visit discount. */
  function FareRate(discount: bool): real
  {
    if discount then 0.95 else 1.0
  }

  /** `Math.round(x * 100)`: the nearest whole cent, halves rounded up. */
  function RoundToCents(x: real): int
  {
    (x * 100.0 + 0.5).Floor
  }

  /** The hourly rate of a category in whole cents. */
  function RateCentsPerHour(parkingType: ParkingType): (cents: int)
    ensures cents as real == RatePerHour(parkingType) * 100.0
    ensures parkingType == CAR ==> cents == 150
    ensures parkingType == BIKE ==> cents == 100
  {
    match parkingType
    case CAR => 150
    case BIKE => 100
  }

  /** The discount multiplier as a whole percentage. */
  function DiscountPercent(discount: bool): (percent: int)
    ensures percent as real == FareRate(discount) * 100.0
  {
    if discount then 95 else 100
  }

  /**
   * The price, in cents, that `calculateFare(ticket, discount)` sets, or the error it raises.
   * The category is only consulted once the grace period is exceeded.
   */
  function Price(inTime: int, outTime: Option<int>, parkingType: Option<ParkingType>, discount: bool)
    : (r: Result<int, FareError>)
    ensures r.Failure? <==>
      || outTime.None?
      || outTime.value < inTime
      || (outTime.value - inTime >= MINIMUM_CHARGED_MILLIS && parkingType.None?)
    ensures outTime.None? ==> r == Failure(MissingOutTime)
    ensures outTime.Some? && outTime.value < inTime ==> r == Failure(OutTimeBeforeInTime)
    ensures outTime.Some? && inTime <= outTime.value < inTime + MINIMUM_CHARGED_MILLIS ==> r == Success(0)
    ensures r.Success? ==> r.value >= 0
  {
    if outTime.None? then Failure(MissingOutTime)
    else if outTime.value < inTime then Failure(OutTimeBeforeInTime)
    else
      var duration := DurationHours(inTime, outTime.value);
      if duration < Fare.MINIMUM_DURATION_FOR_CHARGE then Success(0)
      else
        match parkingType
        case None => Failure(UnknownParkingType)
        case Some(t) => Success(RoundToCents(duration * RatePerHour(t) * FareRate(discount)))
  }

  /**
   * `calculateFare(ticket, discount)`: sets the ticket's price, or reports the error the source
   * throws and leaves the price alone. No other field of the ticket can change.
   */
  method CalculateFare(ticket: Ticket, discount: bool) returns (r: Result<int, FareError>)
    modifies ticket`price
    ensures r == Price(ticket.inTime, ticket.outTime, ticket.parkingSpot.parkingType, discount)
    ensures ticket.price == (if r.Success? then r.value else old(ticket.price))
  {
    if ticket.outTime.None? {
      return Failure(MissingOutTime);
    }
    if ticket.outTime.value < ticket.inTime {
      return Failure(OutTimeBeforeInTime);
    }
    var duration := DurationHours(ticket.inTime, ticket.outTime.value);
    if duration < Fare.MINIMUM_DURATION_FOR_CHARGE {
      ticket.price := 0;
      return Success(0);
    }
    var fareRate := FareRate(discount);
    match ticket.parkingSpot.parkingType {
      case Some(CAR) =>
        var price := RoundToCents(duration * Fare.CAR_RATE_PER_HOUR * fareRate);
        ticket.price := price;
        r := Success(price);
      case Some(BIKE) =>
        var price := RoundToCents(duration * Fare.BIKE_RATE_PER_HOUR * fareRate);
        ticket.price := price;
        r := Success(price);
      case None =>
        r := Failure(UnknownParkingType);
    }
  }

  /** `calculateFare(ticket)`: the same as calculating it without the discount. */
  method CalculateFareWithoutDiscount(ticket: Ticket) returns (r: Result<int, FareError>)
    modifies ticket`price
    ensures r == Price(ticket.inTime, ticket.outTime, ticket.parkingSpot.parkingType, false)
    ensures ticket.price == (if r.Success? then r.value else old(ticket.price))
  {
    r := CalculateFare(ticket, false);
  }

  /** The free grace period in hours is exactly 1,800,000 ms: the comparison is strict. */
  lemma GracePeriodInMillis(inTime: int, outTime: int)
    ensures DurationHours(inTime, outTime) < Fare.MINIMUM_DURATION_FOR_CHARGE
        <==> outTime - inTime < MINIMUM_CHARGED_MILLIS
  {
  }

  /**
   * Beyond the grace period the price is the exact amount `hours * rate * factor` rounded
   * half-up to the cent: it lies within half a cent of that amount, the upper half excluded.
   */
  lemma ChargedPriceIsRoundedHalfUp(inTime: int, outTime: int, parkingType: ParkingType, discount: bool)
    requires outTime - inTime >= MINIMUM_CHARGED_MILLIS
    ensures Price(inTime, Some(outTime), Some(parkingType), discount).Success?
    ensures var cents := Price(inTime, Some(outTime), Some(parkingType), discount).value;
      var exact := DurationHours(inTime, outTime) * RatePerHour(parkingType) * FareRate(discount) * 100.0;
      cents as real - 0.5 <= exact < cents as real + 0.5
  {
  }

  /**
   * The price in integer units: `floor(ms * rateCents * percent / 360000000 + 1/2)`,
   * with rateCents 150 or 100 and percent 95 or 100.
   */
  lemma {:induction false} PriceInIntegerCents(inTime: int, outTime: int, parkingType: ParkingType, discount: bool)
    requires outTime - inTime >= MINIMUM_CHARGED_MILLIS
    ensures Price(inTime, Some(outTime), Some(parkingType), discount)
      == Success((2 * (outTime - inTime) * RateCentsPerHour(parkingType) * DiscountPercent(discount) + 360000000)
                 / 720000000)
  {
    var exact := DurationHours(inTime, outTime) * RatePerHour(parkingType) * FareRate(discount);
    var scaled := 2 * (outTime - inTime) * RateCentsPerHour(parkingType) * DiscountPercent(discount) + 360000000;
    ScaledExactAmount(inTime, outTime, parkingType, discount);
    FloorOfQuotient(scaled, exact * 100.0 + 0.5);
  }

  /** In cents plus one half, the exact amount is an integer over 720000000. */
  lemma ScaledExactAmount(inTime: int, outTime: int, parkingType: ParkingType, discount: bool)
    ensures DurationHours(inTime, outTime) * RatePerHour(parkingType) * FareRate(discount) * 100.0 + 0.5
         == (2 * (outTime - inTime) * RateCentsPerHour(parkingType) * DiscountPercent(discount) + 360000000) as real
            / 720000000.0
  {
    var ms := outTime - inTime;
    var product := ms * RateCentsPerHour(parkingType) * DiscountPercent(discount);
    match parkingType {
      case CAR =>
        if discount { assert product == ms * 14250; } else { assert product == ms * 15000; }
      case BIKE =>
        if discount { assert product == ms * 9500; } else { assert product == ms * 10000; }
    }
  }

  lemma FloorOfQuotient(n: int, y: real)
    requires y == n as real / 720000000.0
    ensures y.Floor == n / 720000000
  {
    var q := n / 720000000;
    assert q * 720000000 <= n < q * 720000000 + 720000000;
    assert q as real <= y < q as real + 1.0;
  }

  /** The discount never makes a stay dearer. */
  lemma DiscountNeverIncreasesPrice(inTime: int, outTime: int, parkingType: ParkingType)
    requires inTime <= outTime
    ensures Price(inTime, Some(outTime), Some(parkingType), true).value
         <= Price(inTime, Some(outTime), Some(parkingType), false).value
  {
  }

  /** A longer stay never costs less. */
  lemma PriceGrowsWithDuration(inTime: int, outTime: int, laterOutTime: int, parkingType: ParkingType, discount: bool)
    requires inTime <= outTime <= laterOutTime
    ensures Price(inTime, Some(outTime), Some(parkingType), discount).value
         <= Price(inTime, Some(laterOutTime), Some(parkingType), discount).value
  {
  }

  /** The prices the fare tests expect, for stays ending at any time `t`. */
  lemma PriceExamples(t: int)
    // one hour
    ensures Price(t - 3600000, Some(t), Some(CAR), false) == Success(150)
    ensures Price(t - 3600000, Some(t), Some(BIKE), false) == Success(100)
    // twenty-four hours
    ensures Price(t - 86400000, Some(t), Some(CAR), false) == Success(3600)
    ensures Price(t - 86400000, Some(t), Some(BIKE), false) == Success(2400)
    // forty-five minutes, without and with the discount
    ensures Price(t - 2700000, Some(t), Some(CAR), false) == Success(113)
    ensures Price(t - 2700000, Some(t), Some(BIKE), false) == Success(75)
    ensures Price(t - 2700000, Some(t), Some(CAR), true) == Success(107)
    ensures Price(t - 2700000, Some(t), Some(BIKE), true) == Success(71)
    // one millisecond short of thirty minutes is free; thirty minutes exactly is charged
    ensures Price(t - 1799999, Some(t), Some(CAR), false) == Success(0)
    ensures Price(t - 1799999, Some(t), Some(BIKE), true) == Success(0)
    ensures Price(t - 1800000, Some(t), Some(CAR), false) == Success(75)
    // an entry in the future, and a spot without a category
    ensures Price(t + 3600000, Some(t), Some(BIKE), false) == Failure(OutTimeBeforeInTime)
    ensures Price(t - 3600000, Some(t), None, false) == Failure(UnknownParkingType)
  {
  }
}
