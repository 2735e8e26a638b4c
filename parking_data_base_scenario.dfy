/**
 * The integration scenarios, replayed on concrete tables: a cleared database (every spot
 * available, no tickets), the menu selection 1 (car) and the registration number "ABCDEF".
 * The spot pool is three car spots numbered 1 to 3 and two bike spots numbered 4 and 5.
 */
module ParkingDataBaseScenario {
  import opened Options
  import opened Model
  import opened DBConstants
  import opened DataBase
  import opened FareCalculatorService
  import opened TicketDao
  import opened Service
  import TestConstants

  const VEHICLE: string := "ABCDEF"
  const CAR_SELECTION: int := 1

  const CLEARED_PARKING: map<int, SpotRow> :=
    map[1 := SpotRow(CAR, true), 2 := SpotRow(CAR, true), 3 := SpotRow(CAR, true),
        4 := SpotRow(BIKE, true), 5 := SpotRow(BIKE, true)]

  const CLEARED: Tables := Tables(CLEARED_PARKING, [])

  function InTime(i: nat): int
    requires i < TestConstants.NUMBER_OF_TICKETS
  {
    TestConstants.IN_TIME_TEST[i]
  }

  function OutTime(i: nat): int
    requires i < TestConstants.NUMBER_OF_TICKETS
  {
    TestConstants.OUT_TIME_TEST[i]
  }

  /** The cleared tables satisfy both guarantees. */
  lemma ClearedIsConsistent()
    ensures WellFormed(CLEARED) && OccupancyConsistent(CLEARED)
  {
  }

  /**
   * Whatever the availability flags left by an earlier test, preparing the five-spot pool
   * makes every spot free: the prepared database holds exactly the cleared tables.
   */
  lemma PreparedPoolIsCleared(parking: map<int, SpotRow>)
    requires parking.Keys == CLEARED_PARKING.Keys
    requires forall n :: n in parking ==> parking[n].parkingType == CLEARED_PARKING[n].parkingType
    ensures Tables(SetAllAvailable(parking), []) == CLEARED
  {
    var prepared := SetAllAvailable(parking);
    forall n | n in CLEARED_PARKING
      ensures prepared[n] == CLEARED_PARKING[n]
    {
      assert n in parking;
    }
  }

  /** A four-hour test stay in a car costs 6.00, and 5.70 with the discount. */
  lemma TestStayPrices(i: nat)
    requires i < TestConstants.NUMBER_OF_TICKETS
    ensures Price(InTime(i), Some(OutTime(i)), Some(CAR), false) == Success(600)
    ensures Price(InTime(i), Some(OutTime(i)), Some(CAR), true) == Success(570)
  {
    TestConstants.TestVisits();
  }

  /** Every row of the table belongs to the test vehicle, so the count is the table's length. */
  lemma {:induction false} CountOfOneVehicle(tickets: seq<TicketRow>)
    requires forall i :: 0 <= i < |tickets| ==> tickets[i].vehicleRegNumber == VEHICLE
    ensures CountTickets(tickets, VEHICLE) == |tickets|
    decreases |tickets|
  {
    if tickets != [] {
      CountOfOneVehicle(tickets[..|tickets| - 1]);
    }
  }

  /**
   * A car entry while spot 1 is free: the car gets spot 1 and a ticket entered at `inTime`,
   * the fixed time indexed by its ticket count on the test clock, giving the tables `after`.
   */
  lemma EntryOnSpotOne(db: Tables, now: int, test: bool, inTime: int, after: Tables)
    requires WellFormed(db)
    requires 1 in db.parking && db.parking[1] == SpotRow(CAR, true)
    requires test ==> CountTickets(db.tickets, VEHICLE) < TestConstants.NUMBER_OF_TICKETS
    requires inTime == if test then InTime(CountTickets(db.tickets, VEHICLE)) else now
    requires after.parking == db.parking[1 := SpotRow(CAR, false)]
    requires after.tickets == db.tickets + [TicketRow(|db.tickets| + 1, 1, VEHICLE, 0, inTime, None)]
    ensures Incoming(db, {}, CAR_SELECTION, VEHICLE, test, now) == (Parked(1, inTime), after)
  {
    assert Offers(db.parking, 1, CAR);
    CountTicketsIsCardinality(db.tickets, VEHICLE);
    IncomingParksIff(db, {}, CAR_SELECTION, VEHICLE, test, now);
    IncomingParked(db, {}, CAR_SELECTION, VEHICLE, test, now);
    var r := Incoming(db, {}, CAR_SELECTION, VEHICLE, test, now);
    assert r.0.parkingNumber == 1 by {
      assert Offers(db.parking, r.0.parkingNumber, CAR) && r.0.parkingNumber <= 1;
    }
  }

  /**
   * A test-clock exit that finds the ticket at position `k`, held on car spot 1, when the
   * vehicle has `nbTickets` tickets: that row is closed at the matching fixed exit time and
   * spot 1 is freed, giving the tables `after`.
   */
  lemma ExitFromSpotOne(db: Tables, openOnly: bool, k: nat, nbTickets: int, price: int, outTime: int, after: Tables)
    requires WellFormed(db)
    requires TicketLookup(db, {}, VEHICLE, openOnly) == Some(k)
    requires CountTickets(db.tickets, VEHICLE) == nbTickets && 1 <= nbTickets <= TestConstants.NUMBER_OF_TICKETS
    requires outTime == OutTime(nbTickets - 1)
    requires k < |db.tickets| && db.tickets[k].parkingNumber == 1 && db.parking[1].parkingType == CAR
    requires Price(db.tickets[k].inTime, Some(outTime), Some(CAR), nbTickets > 1) == Success(price)
    requires after.parking == db.parking[1 := SpotRow(CAR, true)]
    requires after.tickets == db.tickets[k := db.tickets[k].(price := price, outTime := Some(outTime))]
    ensures Exiting(db, {}, VEHICLE, true, 0, openOnly) == (Exited(price, outTime), after)
  {
    CountTicketsIsCardinality(db.tickets, VEHICLE);
    var row := db.tickets[k];
    assert HasTicketId(db.tickets, row.id);
    UpdateTouchesOneRow(db, {}, row.id, price, Some(outTime));
  }

  /** Freeing spot 1 again restores the cleared spot table. */
  lemma SpotOneFreedAgain()
    ensures CLEARED_PARKING[1 := SpotRow(CAR, false)][1 := SpotRow(CAR, true)] == CLEARED_PARKING
  {
  }

  /** `testParkingACar`: the car gets spot 1, its ticket is saved, and reading it back shows the spot taken. */
  lemma ParkingACar(now: int)
    ensures var r := Incoming(CLEARED, {}, CAR_SELECTION, VEHICLE, false, now);
      && r.0 == Parked(1, now)
      && r.1 == Tables(CLEARED_PARKING[1 := SpotRow(CAR, false)], [TicketRow(1, 1, VEHICLE, 0, now, None)])
      && TicketLookup(r.1, {}, VEHICLE, false) == Some(0)
      && !r.1.parking[r.1.tickets[0].parkingNumber].available
  {
    ClearedIsConsistent();
    assert CLEARED.tickets + [TicketRow(|CLEARED.tickets| + 1, 1, VEHICLE, 0, now, None)]
        == [TicketRow(1, 1, VEHICLE, 0, now, None)];
    EntryOnSpotOne(CLEARED, now, false, now,
                   Tables(CLEARED_PARKING[1 := SpotRow(CAR, false)], [TicketRow(1, 1, VEHICLE, 0, now, None)]));
    FirstTicketReadBack(now);
  }

  /** The one ticket of the car parked on spot 1 is the one the lookup returns. */
  lemma FirstTicketReadBack(now: int)
    ensures TicketLookup(Tables(CLEARED_PARKING[1 := SpotRow(CAR, false)], [TicketRow(1, 1, VEHICLE, 0, now, None)]),
                         {}, VEHICLE, false) == Some(0)
  {
    var db := Tables(CLEARED_PARKING[1 := SpotRow(CAR, false)], [TicketRow(1, 1, VEHICLE, 0, now, None)]);
    assert Selected(db.tickets[0], db.parking, VEHICLE, false);
  }

  /** The ticket table after `visits` completed test visits, each closed with the open-ticket lookup. */
  function ClosedVisits(visits: nat): seq<TicketRow>
    requires visits <= TestConstants.NUMBER_OF_TICKETS
  {
    seq(visits, i requires 0 <= i < visits =>
      TicketRow(i + 1, 1, VEHICLE, if i == 0 then 600 else 570, InTime(i), Some(OutTime(i))))
  }

  /** The tables after `visits` closed visits and one more entry. */
  function OneOpenVisit(visits: nat): Tables
    requires visits < TestConstants.NUMBER_OF_TICKETS
  {
    Tables(CLEARED_PARKING[1 := SpotRow(CAR, false)],
           ClosedVisits(visits) + [TicketRow(visits + 1, 1, VEHICLE, 0, InTime(visits), None)])
  }

  /** After `visits` closed visits the car parks on spot 1 at the next fixed entry time. */
  lemma RecurringEntry(visits: nat)
    requires visits < TestConstants.NUMBER_OF_TICKETS
    ensures Incoming(Tables(CLEARED_PARKING, ClosedVisits(visits)), {}, CAR_SELECTION, VEHICLE, true, 0)
         == (Parked(1, InTime(visits)), OneOpenVisit(visits))
  {
    var db := Tables(CLEARED_PARKING, ClosedVisits(visits));
    CountOfOneVehicle(db.tickets);
    EntryOnSpotOne(db, 0, true, InTime(visits), OneOpenVisit(visits));
  }

  /** In the tables after an entry, the open-ticket lookup finds the new ticket, and the vehicle has `visits + 1` tickets. */
  lemma OpenVisitFacts(visits: nat)
    requires visits < TestConstants.NUMBER_OF_TICKETS
    ensures WellFormed(OneOpenVisit(visits))
    ensures TicketLookup(OneOpenVisit(visits), {}, VEHICLE, true) == Some(visits)
    ensures CountTickets(OneOpenVisit(visits).tickets, VEHICLE) == visits + 1
    ensures OneOpenVisit(visits).tickets[visits].parkingNumber == 1
    ensures OneOpenVisit(visits).tickets[visits].inTime == InTime(visits)
    ensures OneOpenVisit(visits).parking[1].parkingType == CAR
  {
    var parked := OneOpenVisit(visits);
    CountOfOneVehicle(parked.tickets);
    assert Selected(parked.tickets[visits], parked.parking, VEHICLE, true);
    assert forall i :: 0 <= i < visits ==> !Selected(parked.tickets[i], parked.parking, VEHICLE, true);
  }

  /**
   * The exit with the open-ticket lookup closes the new ticket: 6.00 the first time and 5.70
   * afterwards; every spot is free again.
   */
  lemma RecurringExit(visits: nat)
    requires visits < TestConstants.NUMBER_OF_TICKETS
    ensures Exiting(OneOpenVisit(visits), {}, VEHICLE, true, 0, true)
         == (Exited(if visits == 0 then 600 else 570, OutTime(visits)), Tables(CLEARED_PARKING, ClosedVisits(visits + 1)))
  {
    OpenVisitFacts(visits);
    TestStayPrices(visits);
    CloseLastVisit(visits);
    SpotOneFreedAgain();
    ExitFromSpotOne(OneOpenVisit(visits), true, visits, visits + 1, if visits == 0 then 600 else 570,
                    OutTime(visits), Tables(CLEARED_PARKING, ClosedVisits(visits + 1)));
  }

  /** Closing the open row of `OneOpenVisit(visits)` at its test price gives one more closed visit. */
  lemma CloseLastVisit(visits: nat)
    requires visits < TestConstants.NUMBER_OF_TICKETS
    ensures var tickets := OneOpenVisit(visits).tickets;
      tickets[visits := tickets[visits].(price := if visits == 0 then 600 else 570, outTime := Some(OutTime(visits)))]
        == ClosedVisits(visits + 1)
  {
    var tickets := OneOpenVisit(visits).tickets;
    var closed := tickets[visits := tickets[visits].(price := if visits == 0 then 600 else 570, outTime := Some(OutTime(visits)))];
    assert |closed| == |ClosedVisits(visits + 1)|;
    forall i | 0 <= i < |closed|
      ensures closed[i] == ClosedVisits(visits + 1)[i]
    {
      if i < visits {
        assert closed[i] == ClosedVisits(visits)[i];
      }
    }
  }

  /**
   * Cycle `visits` (0, 1 or 2) of the recurring-user test with the open-ticket lookup: from
   * `visits` closed visits, the car parks on spot 1 at the next fixed entry time, pays 6.00
   * the first time and 5.70 afterwards, and leaves `visits + 1` closed visits with every
   * spot free. In the first cycle the vehicle has one ticket only, so this exit agrees with
   * the oldest-ticket exit of `testParkingLotExit` (see `ParkingLotExit`).
   */
  lemma RecurringCycle(visits: nat)
    requires visits < TestConstants.NUMBER_OF_TICKETS
    ensures var db := Tables(CLEARED_PARKING, ClosedVisits(visits));
      var parked := Incoming(db, {}, CAR_SELECTION, VEHICLE, true, 0);
      && parked.0 == Parked(1, InTime(visits))
      && Exiting(parked.1, {}, VEHICLE, true, 0, true)
         == (Exited(if visits == 0 then 600 else 570, OutTime(visits)), Tables(CLEARED_PARKING, ClosedVisits(visits + 1)))
  {
    RecurringEntry(visits);
    RecurringExit(visits);
  }

  /**
   * `testParkingLotExitRecurringUser`, with the open-ticket lookup: the cycles of
   * `RecurringCycle` start from the cleared tables, and after the third the table holds the
   * vehicle's three tickets priced 6.00, 5.70 and 5.70.
   */
  lemma RecurringUserWithOpenTicketLookup()
    ensures Tables(CLEARED_PARKING, ClosedVisits(0)) == CLEARED
    ensures ClosedVisits(3) == [
      TicketRow(1, 1, VEHICLE, 600, InTime(0), Some(OutTime(0))),
      TicketRow(2, 1, VEHICLE, 570, InTime(1), Some(OutTime(1))),
      TicketRow(3, 1, VEHICLE, 570, InTime(2), Some(OutTime(2)))]
    ensures TicketCount(Tables(CLEARED_PARKING, ClosedVisits(3)), {}, VEHICLE) == NUMBER_OF_TICKETS
    // the per-cycle read-back still finds the first ticket at 6.00, so the test's 5.70
    // expectation for the second and third cycles is not met by this variant either
    ensures TicketLookup(Tables(CLEARED_PARKING, ClosedVisits(1)), {}, VEHICLE, false) == Some(0)
    ensures TicketLookup(Tables(CLEARED_PARKING, ClosedVisits(2)), {}, VEHICLE, false) == Some(0)
    ensures TicketLookup(Tables(CLEARED_PARKING, ClosedVisits(3)), {}, VEHICLE, false) == Some(0)
    ensures ClosedVisits(2)[0].price == ClosedVisits(3)[0].price == 600
  {
    CountOfOneVehicle(ClosedVisits(3));
    CountTicketsIsCardinality(ClosedVisits(3), VEHICLE);
    ReadBackAfterCycle(1);
    ReadBackAfterCycle(2);
    ReadBackAfterCycle(3);
  }

  /**
   * The read-back `getTicket("ABCDEF")` of each cycle, under the open-ticket exit: it runs the
   * oldest-ticket query, so after any number of completed cycles it returns the first
   * ticket, priced 6.00.
   */
  lemma ReadBackAfterCycle(visits: nat)
    requires 1 <= visits <= TestConstants.NUMBER_OF_TICKETS
    ensures TicketLookup(Tables(CLEARED_PARKING, ClosedVisits(visits)), {}, VEHICLE, false) == Some(0)
    ensures ClosedVisits(visits)[0].price == 600
  {
    var db := Tables(CLEARED_PARKING, ClosedVisits(visits));
    TestConstants.TestVisits();
    assert Selected(db.tickets[0], db.parking, VEHICLE, false);
    assert forall i :: 0 < i < |db.tickets| ==> db.tickets[0].inTime < db.tickets[i].inTime;
  }

  /** In the tables after the second entry, the oldest-ticket lookup finds the first, closed ticket. */
  lemma SecondVisitOldestTicket()
    ensures WellFormed(OneOpenVisit(1)) && OccupancyConsistent(OneOpenVisit(1))
    ensures TicketLookup(OneOpenVisit(1), {}, VEHICLE, false) == Some(0)
    ensures CountTickets(OneOpenVisit(1).tickets, VEHICLE) == 2
    ensures OneOpenVisit(1).tickets == [
      TicketRow(1, 1, VEHICLE, 600, InTime(0), Some(OutTime(0))),
      TicketRow(2, 1, VEHICLE, 0, InTime(1), None)]
  {
    var parked := OneOpenVisit(1);
    CountOfOneVehicle(parked.tickets);
    TestConstants.TestVisits();
    assert Selected(parked.tickets[0], parked.parking, VEHICLE, false);
    assert parked.tickets[1].inTime > parked.tickets[0].inTime;
  }

  /** The first ticket, re-closed on the second day: 28 hours with the discount. */
  lemma ReclosedPrice()
    ensures Price(InTime(0), Some(OutTime(1)), Some(CAR), true) == Success(3990)
  {
    PriceInIntegerCents(InTime(0), OutTime(1), CAR, true);
  }

  /** The tables after the second exit with the oldest-ticket lookup. */
  const REOPENED: Tables := Tables(CLEARED_PARKING, [
    TicketRow(1, 1, VEHICLE, 3990, InTime(0), Some(OutTime(1))),
    TicketRow(2, 1, VEHICLE, 0, InTime(1), None)])

  /** The second exit with the oldest-ticket lookup closes the first ticket again and frees spot 1. */
  lemma SecondExitAsWritten()
    ensures Exiting(OneOpenVisit(1), {}, VEHICLE, true, 0, false) == (Exited(3990, OutTime(1)), REOPENED)
  {
    SecondVisitOldestTicket();
    ReclosedPrice();
    SpotOneFreedAgain();
    ExitFromSpotOne(OneOpenVisit(1), false, 0, 2, 3990, OutTime(1), REOPENED);
  }

  /** In those tables ticket 2 is open on spot 1, which is marked available. */
  lemma ReopenedBreaksOccupancy()
    ensures REOPENED.parking[1].available
    ensures !OccupancyConsistent(REOPENED)
  {
    assert REOPENED.tickets[1].outTime.None? && REOPENED.tickets[1].parkingNumber == 1;
  }

  /** After the first entry the vehicle's only ticket is the one the oldest-ticket lookup finds. */
  lemma FirstVisitOnlyTicket()
    ensures TicketLookup(OneOpenVisit(0), {}, VEHICLE, false) == Some(0)
  {
    var parked := OneOpenVisit(0);
    assert |parked.tickets| == 1;
    assert Selected(parked.tickets[0], parked.parking, VEHICLE, false);
  }

  /** With a single ticket the oldest-ticket exit closes it exactly as the open-ticket exit does. */
  lemma FirstExitAsWritten()
    ensures Exiting(OneOpenVisit(0), {}, VEHICLE, true, 0, false)
         == (Exited(600, OutTime(0)), Tables(CLEARED_PARKING, ClosedVisits(1)))
  {
    OpenVisitFacts(0);
    FirstVisitOnlyTicket();
    TestStayPrices(0);
    CloseLastVisit(0);
    SpotOneFreedAgain();
    ExitFromSpotOne(OneOpenVisit(0), false, 0, 1, 600, OutTime(0), Tables(CLEARED_PARKING, ClosedVisits(1)));
  }

  /**
   * `testParkingLotExit`, as written: from the cleared tables the car parks on spot 1 at the
   * first fixed entry time, leaves with the oldest-ticket lookup paying 4 hours at 1.50, and
   * the read-back ticket carries that price and the first fixed exit time.
   */
  lemma ParkingLotExit()
    ensures Incoming(CLEARED, {}, CAR_SELECTION, VEHICLE, true, 0) == (Parked(1, InTime(0)), OneOpenVisit(0))
    ensures Exiting(OneOpenVisit(0), {}, VEHICLE, true, 0, false)
         == (Exited(600, OutTime(0)), Tables(CLEARED_PARKING, ClosedVisits(1)))
    ensures TicketLookup(Tables(CLEARED_PARKING, ClosedVisits(1)), {}, VEHICLE, false) == Some(0)
    ensures ClosedVisits(1)[0].price == 600 && ClosedVisits(1)[0].outTime == Some(TestConstants.OUT_TIME_TEST[0])
  {
    assert Tables(CLEARED_PARKING, ClosedVisits(0)) == CLEARED;
    RecurringEntry(0);
    FirstExitAsWritten();
    ReadBackAfterCycle(1);
  }

  /**
   * `testParkingLotExitRecurringUser` as written, from the cleared tables through the state
   * after each step: the first cycle is `ParkingLotExit`; in the second the car parks again
   * on spot 1, but the oldest-ticket exit closes the first ticket again, from its entry on the
   * first day to the exit on the second (28 hours, 39.90 with the discount), leaves the
   * second ticket open, and frees spot 1 although that open ticket still holds it.
   */
  lemma RecurringUserAsWritten()
    // first cycle
    ensures Incoming(CLEARED, {}, CAR_SELECTION, VEHICLE, true, 0) == (Parked(1, InTime(0)), OneOpenVisit(0))
    ensures Exiting(OneOpenVisit(0), {}, VEHICLE, true, 0, false)
         == (Exited(600, OutTime(0)), Tables(CLEARED_PARKING, ClosedVisits(1)))
    // second cycle
    ensures Incoming(Tables(CLEARED_PARKING, ClosedVisits(1)), {}, CAR_SELECTION, VEHICLE, true, 0)
         == (Parked(1, InTime(1)), OneOpenVisit(1))
    ensures OccupancyConsistent(OneOpenVisit(1))
    ensures Exiting(OneOpenVisit(1), {}, VEHICLE, true, 0, false) == (Exited(3990, OutTime(1)), REOPENED)
    ensures REOPENED.tickets == [
      TicketRow(1, 1, VEHICLE, 3990, InTime(0), Some(OutTime(1))),
      TicketRow(2, 1, VEHICLE, 0, InTime(1), None)]
    ensures REOPENED.parking[1].available && !OccupancyConsistent(REOPENED)
  {
    ParkingLotExit();
    RecurringEntry(1);
    SecondVisitOldestTicket();
    SecondExitAsWritten();
    ReopenedBreaksOccupancy();
  }
}
