/**
 * The session workflow: a vehicle enters (a spot is chosen and reserved, then a ticket is
 * saved) or leaves (its ticket is looked up, priced and closed, then its spot is released).
 * Each workflow is a straight line of store operations with early aborts; the functions
 * `Incoming` and `Exiting` state the outcome and the resulting tables, and the methods of
 * `ParkingService` are proved to produce exactly those.
 *
 * The menu selection, the registration number and the current time are parameters. The
 * `test` flag selects the second clock: the three fixed visit times, indexed by the
 * vehicle's ticket count.
 */
module Service {
  import opened Options
  import opened Model
  import opened DBConstants
  import opened DataBase
  import opened FareCalculatorService
  import opened ParkingSpotDao
  import opened TicketDao
  import TestConstants

  /** How a vehicle entry ends (the message the workflow prints, or the exception it catches). */
  datatype IncomingOutcome =
    | Parked(parkingNumber: int, inTime: int)
    | NoSpotAvailable       // invalid selection, failed query or no free spot of that category
    | InvalidRegNumber      // empty registration number
    | SpotUpdateFailed      // the reservation was not written
    | EntryClockOutOfRange  // test clock: no fixed entry time for this ticket count
    | TicketSaveFailed      // the reservation stays, but no ticket was saved

  /** How a vehicle exit ends. */
  datatype ExitOutcome =
    | Exited(price: int, outTime: int)
    | NoTicketFound
    | ExitClockOutOfRange   // test clock: no fixed exit time for this ticket count
    | FareRejected(error: FareError)
    | TicketUpdateFailed

  /** `getVehicleType`: menu entry 1 is a car, 2 a bike, anything else is rejected. */
  function VehicleType(selection: int): (r: Option<ParkingType>)
    ensures r == Some(CAR) <==> selection == 1
    ensures r == Some(BIKE) <==> selection == 2
    ensures r.None? <==> selection != 1 && selection != 2
  {
    if selection == 1 then Some(CAR)
    else if selection == 2 then Some(BIKE)
    else None
  }

  /**
   * The number of the spot `getNextParkingNumberIfAvailable` offers: the lowest free spot of
   * the selected category, or None when the selection is invalid or the query yields no
   * positive number.
   */
  function NextParkingNumber(db: Tables, faulty: set<Statement>, selection: int): (r: Option<int>)
    ensures r.Some? ==>
      && VehicleType(selection).Some?
      && SelectNextSpot !in faulty
      && r.value > 0
      && Offers(db.parking, r.value, VehicleType(selection).value)
  {
    match VehicleType(selection)
    case None => None
    case Some(parkingType) =>
      var parkingNumber := NextAvailableSlot(db, faulty, parkingType);
      if parkingNumber > 0 then Some(parkingNumber) else None
  }

  /** `processIncomingVehicle`: the outcome and the tables afterwards. */
  function Incoming(db: Tables, faulty: set<Statement>, selection: int, vehicleRegNumber: string,
                    test: bool, now: int): (r: (IncomingOutcome, Tables))
    ensures r.1.parking.Keys == db.parking.Keys
    ensures r.1.tickets == (if r.0.Parked?
      then db.tickets + [TicketRow(|db.tickets| + 1, r.0.parkingNumber, vehicleRegNumber, 0, r.0.inTime, None)]
      else db.tickets)
    ensures r.0.NoSpotAvailable? || r.0.InvalidRegNumber? || r.0.SpotUpdateFailed? ==> r.1 == db
  {
    match NextParkingNumber(db, faulty, selection)
    case None => (NoSpotAvailable, db)
    case Some(parkingNumber) =>
      if vehicleRegNumber == [] then (InvalidRegNumber, db)
      else
        var nbTickets := TicketCount(db, faulty, vehicleRegNumber);
        var reservation := ParkingUpdate(db, faulty, parkingNumber, false);
        var reserved := reservation.1;
        if !reservation.0 then (SpotUpdateFailed, db)
        else if test && !(0 <= nbTickets < |TestConstants.IN_TIME_TEST|) then (EntryClockOutOfRange, reserved)
        else
          var inTime := if test then TestConstants.IN_TIME_TEST[nbTickets] else now;
          var save := TicketSave(reserved, faulty, parkingNumber, vehicleRegNumber, 0, inTime, None);
          if !save.0 then (TicketSaveFailed, reserved)
          else (Parked(parkingNumber, inTime), save.1)
  }

  /**
   * The exit of a vehicle whose ticket row is `row` and whose spot has category
   * `parkingType`, given its ticket count: the exit time is set, the fare computed with the
   * discount iff the count exceeds one, the ticket written back and, only if that write
   * succeeded, the spot released (whether the release succeeds does not matter).
   */
  function Closing(db: Tables, faulty: set<Statement>, row: TicketRow, parkingType: Option<ParkingType>,
                   nbTickets: int, test: bool, now: int): (r: (ExitOutcome, Tables))
    ensures r.1.parking.Keys == db.parking.Keys && |r.1.tickets| == |db.tickets|
    ensures !r.0.Exited? ==> r.1 == db
    ensures r.0.Exited? ==> r.0.price >= 0
  {
    if test && !(0 <= nbTickets - 1 < |TestConstants.OUT_TIME_TEST|) then (ExitClockOutOfRange, db)
    else
      var outTime := if test then TestConstants.OUT_TIME_TEST[nbTickets - 1] else now;
      match Price(row.inTime, Some(outTime), parkingType, nbTickets > 1)
      case Failure(error) => (FareRejected(error), db)
      case Success(price) =>
        var update := TicketUpdate(db, faulty, row.id, price, Some(outTime));
        if !update.0 then (TicketUpdateFailed, db)
        else (Exited(price, outTime), ParkingUpdate(update.1, faulty, row.parkingNumber, true).1)
  }

  /**
   * `processExitingVehicle`: the outcome and the tables afterwards, when the ticket is looked
   * up with the oldest-ticket query (`openOnly` false, as the source does) or with the
   * open-ticket query (`openOnly` true).
   */
  function Exiting(db: Tables, faulty: set<Statement>, vehicleRegNumber: string, test: bool, now: int,
                   openOnly: bool): (r: (ExitOutcome, Tables))
    ensures r.1.parking.Keys == db.parking.Keys && |r.1.tickets| == |db.tickets|
    ensures !r.0.Exited? ==> r.1 == db
    ensures r.0.Exited? ==> r.0.price >= 0
  {
    match TicketLookup(db, faulty, vehicleRegNumber, openOnly)
    case None => (NoTicketFound, db)
    case Some(i) =>
      var row := db.tickets[i];
      Closing(db, faulty, row, Some(db.parking[row.parkingNumber].parkingType),
              TicketCount(db, faulty, vehicleRegNumber), test, now)
  }

  class ParkingService {
    const parkingSpotDAO: ParkingSpotDAO
    const ticketDAO: TicketDAO

    /** Both data-access objects connect to the same database. */
    ghost predicate Valid()
    {
      parkingSpotDAO.dataBase == ticketDAO.dataBase
    }

    constructor (parkingSpotDAO: ParkingSpotDAO, ticketDAO: TicketDAO)
      requires parkingSpotDAO.dataBase == ticketDAO.dataBase
      ensures this.parkingSpotDAO == parkingSpotDAO && this.ticketDAO == ticketDAO && Valid()
    {
      this.parkingSpotDAO := parkingSpotDAO;
      this.ticketDAO := ticketDAO;
    }

    method GetNextParkingNumberIfAvailable(selection: int) returns (parkingSpot: ParkingSpot?)
      requires Valid()
      ensures var number := NextParkingNumber(ticketDAO.dataBase.Contents(), ticketDAO.dataBase.faulty, selection);
        && (parkingSpot == null <==> number.None?)
        && (parkingSpot != null ==>
              && parkingSpot.id == number.value
              && parkingSpot.parkingType == VehicleType(selection)
              && parkingSpot.available)
      ensures parkingSpot != null ==> fresh(parkingSpot)
    {
      parkingSpot := null;
      var parkingType := VehicleType(selection);
      if parkingType.None? {
        return;
      }
      var parkingNumber := parkingSpotDAO.GetNextAvailableSlot(parkingType.value);
      if parkingNumber > 0 {
        parkingSpot := new ParkingSpot(parkingNumber, parkingType, true);
      }
    }

    /** `processIncomingVehicle(test)`. */
    method ProcessIncomingVehicleWithTestClock(selection: int, vehicleRegNumber: string, now: int, test: bool)
      returns (outcome: IncomingOutcome)
      requires Valid()
      modifies ticketDAO.dataBase
      ensures (outcome, ticketDAO.dataBase.Contents())
           == Incoming(old(ticketDAO.dataBase.Contents()), ticketDAO.dataBase.faulty, selection, vehicleRegNumber, test, now)
    {
      var parkingSpot := GetNextParkingNumberIfAvailable(selection);
      if parkingSpot == null || parkingSpot.id <= 0 {
        return NoSpotAvailable;
      }
      if vehicleRegNumber == [] {
        return InvalidRegNumber;
      }
      var nbTickets := ticketDAO.GetNbTicket(vehicleRegNumber);
      parkingSpot.available := false;
      var isUpdated := parkingSpotDAO.UpdateParking(parkingSpot);
      if !isUpdated {
        return SpotUpdateFailed;
      }
      var ticket := new Ticket(parkingSpot);
      ticket.vehicleRegNumber := vehicleRegNumber;
      ticket.price := 0;
      if test {
        if !(0 <= nbTickets < |TestConstants.IN_TIME_TEST|) {
          return EntryClockOutOfRange;
        }
        ticket.inTime := TestConstants.IN_TIME_TEST[nbTickets];
      } else {
        ticket.inTime := now;
      }
      ticket.outTime := None;
      var isSaved := ticketDAO.SaveTicket(ticket);
      if !isSaved {
        return TicketSaveFailed;
      }
      outcome := Parked(parkingSpot.id, ticket.inTime);
    }

    /** `processIncomingVehicle()`: the same workflow on the real clock. */
    method ProcessIncomingVehicle(selection: int, vehicleRegNumber: string, now: int)
      returns (outcome: IncomingOutcome)
      requires Valid()
      modifies ticketDAO.dataBase
      ensures (outcome, ticketDAO.dataBase.Contents())
           == Incoming(old(ticketDAO.dataBase.Contents()), ticketDAO.dataBase.faulty, selection, vehicleRegNumber, false, now)
    {
      outcome := ProcessIncomingVehicleWithTestClock(selection, vehicleRegNumber, now, false);
    }

    /** `processExitingVehicle(test)`: looks up the vehicle's oldest ticket. */
    method ProcessExitingVehicleWithTestClock(vehicleRegNumber: string, now: int, test: bool)
      returns (outcome: ExitOutcome)
      requires Valid()
      modifies ticketDAO.dataBase
      ensures (outcome, ticketDAO.dataBase.Contents())
           == Exiting(old(ticketDAO.dataBase.Contents()), ticketDAO.dataBase.faulty, vehicleRegNumber, test, now, false)
    {
      var ticket := ticketDAO.GetTicket(vehicleRegNumber);
      var nbTickets := ticketDAO.GetNbTicket(vehicleRegNumber);
      if ticket == null {
        return NoTicketFound;
      }
      outcome := CloseTicket(ticket, nbTickets, now, test);
    }

    /**
     * `processExitingVehicle()`: the real clock and no null check; a missing ticket raises
     * when its exit time is set, which ends the workflow as the null check would.
     */
    method ProcessExitingVehicle(vehicleRegNumber: string, now: int) returns (outcome: ExitOutcome)
      requires Valid()
      modifies ticketDAO.dataBase
      ensures (outcome, ticketDAO.dataBase.Contents())
           == Exiting(old(ticketDAO.dataBase.Contents()), ticketDAO.dataBase.faulty, vehicleRegNumber, false, now, false)
    {
      var ticket := ticketDAO.GetTicket(vehicleRegNumber);
      var nbTickets := ticketDAO.GetNbTicket(vehicleRegNumber);
      if ticket == null {
        return NoTicketFound;
      }
      outcome := CloseTicket(ticket, nbTickets, now, false);
    }

    /** The exit workflow with the open-ticket lookup, which the recurring-user scenario needs. */
    method ProcessExitingVehicleOpenTicket(vehicleRegNumber: string, now: int, test: bool)
      returns (outcome: ExitOutcome)
      requires Valid()
      modifies ticketDAO.dataBase
      ensures (outcome, ticketDAO.dataBase.Contents())
           == Exiting(old(ticketDAO.dataBase.Contents()), ticketDAO.dataBase.faulty, vehicleRegNumber, test, now, true)
    {
      var ticket := ticketDAO.GetIncomingTicket(vehicleRegNumber);
      var nbTickets := ticketDAO.GetNbTicket(vehicleRegNumber);
      if ticket == null {
        return NoTicketFound;
      }
      outcome := CloseTicket(ticket, nbTickets, now, test);
    }

    /** The part of the exit workflow after the ticket has been found. */
    method CloseTicket(ticket: Ticket, nbTickets: int, now: int, test: bool) returns (outcome: ExitOutcome)
      requires Valid()
      modifies ticket`outTime, ticket`price, ticket.parkingSpot`available, ticketDAO.dataBase
      ensures (outcome, ticketDAO.dataBase.Contents())
           == Closing(old(ticketDAO.dataBase.Contents()), ticketDAO.dataBase.faulty, old(RowOf(ticket)),
                      ticket.parkingSpot.parkingType, nbTickets, test, now)
      ensures outcome.Exited? ==>
        && ticket.outTime == Some(outcome.outTime)
        && ticket.price == outcome.price
        && ticket.parkingSpot.available
      // the ticket object keeps the exit time it was given even when the exit then fails
      ensures outcome.ExitClockOutOfRange? ==> ticket.outTime == old(ticket.outTime)
      ensures !outcome.ExitClockOutOfRange? ==>
        ticket.outTime == Some(if test then TestConstants.OUT_TIME_TEST[nbTickets - 1] else now)
      ensures outcome.FareRejected? ==> ticket.price == old(ticket.price)
      ensures !outcome.Exited? ==> ticket.parkingSpot.available == old(ticket.parkingSpot.available)
    {
      var outTime: int;
      if test {
        if !(0 <= nbTickets - 1 < |TestConstants.OUT_TIME_TEST|) {
          return ExitClockOutOfRange;
        }
        outTime := TestConstants.OUT_TIME_TEST[nbTickets - 1];
      } else {
        outTime := now;
      }
      var isRecurringUser := nbTickets > 1;
      ticket.outTime := Some(outTime);
      var fare := CalculateFare(ticket, isRecurringUser);
      if fare.Failure? {
        return FareRejected(fare.error);
      }
      var isUpdated := ticketDAO.UpdateTicket(ticket);
      if !isUpdated {
        return TicketUpdateFailed;
      }
      var parkingSpot := ticket.parkingSpot;
      parkingSpot.available := true;
      var _ := parkingSpotDAO.UpdateParking(parkingSpot);
      outcome := Exited(ticket.price, outTime);
    }
  }

  // ---- Properties of the workflows ----

  /**
   * The occupancy guarantee: the spot of every open ticket is marked unavailable, and no two
   * open tickets hold the same spot.
   */
  ghost predicate OccupancyConsistent(db: Tables)
  {
    && (forall i :: 0 <= i < |db.tickets| && db.tickets[i].outTime.None? ==>
          db.tickets[i].parkingNumber in db.parking && !db.parking[db.tickets[i].parkingNumber].available)
    && (forall i, j :: 0 <= i < j < |db.tickets| && db.tickets[i].outTime.None? && db.tickets[j].outTime.None? ==>
          db.tickets[i].parkingNumber != db.tickets[j].parkingNumber)
  }

  /** The spot offered on entry is the lowest free spot of the selected category, and one is offered iff one exists. */
  lemma NextParkingNumberIsLowestFreeSpot(db: Tables, faulty: set<Statement>, selection: int)
    requires WellFormed(db)
    ensures var r := NextParkingNumber(db, faulty, selection);
      r.Some? <==>
        && VehicleType(selection).Some?
        && SelectNextSpot !in faulty
        && exists n :: Offers(db.parking, n, VehicleType(selection).value)
    ensures var r := NextParkingNumber(db, faulty, selection);
      r.Some? ==>
        && Offers(db.parking, r.value, VehicleType(selection).value)
        && forall n :: Offers(db.parking, n, VehicleType(selection).value) ==> r.value <= n
  {
  }

  /** An invalid selection offers no spot whatever the store holds or fails, so its answer is never consulted. */
  lemma InvalidSelectionIgnoresStore(db: Tables, faulty: set<Statement>, other: Tables, otherFaulty: set<Statement>,
                                     selection: int)
    requires selection != 1 && selection != 2
    ensures NextParkingNumber(db, faulty, selection).None?
    ensures NextParkingNumber(db, faulty, selection) == NextParkingNumber(other, otherFaulty, selection)
  {
  }

  /** Without a spot, or without a registration number, entry writes nothing. */
  lemma IncomingWithoutSpotOrRegNumberChangesNothing(db: Tables, faulty: set<Statement>, selection: int,
                                                     vehicleRegNumber: string, test: bool, now: int)
    requires NextParkingNumber(db, faulty, selection).None? || vehicleRegNumber == []
    ensures Incoming(db, faulty, selection, vehicleRegNumber, test, now).1 == db
    ensures Incoming(db, faulty, selection, vehicleRegNumber, test, now).0
         == (if NextParkingNumber(db, faulty, selection).None? then NoSpotAvailable else InvalidRegNumber)
  {
  }

  /** Whether every step of the entry workflow succeeds. */
  ghost predicate CanPark(db: Tables, faulty: set<Statement>, selection: int, vehicleRegNumber: string, test: bool)
  {
    && VehicleType(selection).Some?
    && SelectNextSpot !in faulty
    && (exists n :: Offers(db.parking, n, VehicleType(selection).value))
    && vehicleRegNumber != []
    && UpdateSpot !in faulty
    && (test ==> TicketCount(db, faulty, vehicleRegNumber) < TestConstants.NUMBER_OF_TICKETS)
    && InsertTicketRow !in faulty
  }

  /** A vehicle is parked exactly when every step succeeds. */
  lemma IncomingParksIff(db: Tables, faulty: set<Statement>, selection: int, vehicleRegNumber: string,
                         test: bool, now: int)
    requires WellFormed(db)
    ensures Incoming(db, faulty, selection, vehicleRegNumber, test, now).0.Parked?
        <==> CanPark(db, faulty, selection, vehicleRegNumber, test)
  {
    NextParkingNumberIsLowestFreeSpot(db, faulty, selection);
  }

  /**
   * A parked vehicle holds the lowest free spot of its category, now marked unavailable, and
   * exactly one ticket was appended: that spot and registration number, price 0, no exit
   * time, and the entry time of the chosen clock. Its ticket count grew by one.
   */
  lemma IncomingParked(db: Tables, faulty: set<Statement>, selection: int, vehicleRegNumber: string,
                       test: bool, now: int)
    requires Incoming(db, faulty, selection, vehicleRegNumber, test, now).0.Parked?
    ensures var r := Incoming(db, faulty, selection, vehicleRegNumber, test, now);
      var parkingNumber := r.0.parkingNumber;
      var nbTickets := TicketCount(db, faulty, vehicleRegNumber);
      && VehicleType(selection).Some?
      && Offers(db.parking, parkingNumber, VehicleType(selection).value)
      && (forall n :: Offers(db.parking, n, VehicleType(selection).value) ==> parkingNumber <= n)
      && r.1.parking == db.parking[parkingNumber := SpotRow(VehicleType(selection).value, false)]
      && r.1.tickets == db.tickets + [TicketRow(|db.tickets| + 1, parkingNumber, vehicleRegNumber, 0, r.0.inTime, None)]
      && r.0.inTime == (if test then TestConstants.IN_TIME_TEST[nbTickets] else now)
      && CountTickets(r.1.tickets, vehicleRegNumber) == CountTickets(db.tickets, vehicleRegNumber) + 1
  {
    var r := Incoming(db, faulty, selection, vehicleRegNumber, test, now);
    var parkingNumber := r.0.parkingNumber;
    var reserved := ParkingUpdate(db, faulty, parkingNumber, false).1;
    assert reserved.parking == db.parking[parkingNumber := SpotRow(VehicleType(selection).value, false)];
    CountTicketsAppend(db.tickets, TicketRow(|db.tickets| + 1, parkingNumber, vehicleRegNumber, 0, r.0.inTime, None),
                       vehicleRegNumber);
  }

  /**
   * An entry that does not park saves no ticket. When it stops before the reservation is
   * written nothing changes; when it stops after, the spot stays reserved.
   */
  lemma IncomingFailureKeepsTickets(db: Tables, faulty: set<Statement>, selection: int, vehicleRegNumber: string,
                                    test: bool, now: int)
    requires !Incoming(db, faulty, selection, vehicleRegNumber, test, now).0.Parked?
    ensures var r := Incoming(db, faulty, selection, vehicleRegNumber, test, now);
      && r.1.tickets == db.tickets
      && (r.0 in {NoSpotAvailable, InvalidRegNumber, SpotUpdateFailed} ==> r.1 == db)
      && (r.0 in {EntryClockOutOfRange, TicketSaveFailed} ==>
            && NextParkingNumber(db, faulty, selection).Some?
            && var parkingNumber := NextParkingNumber(db, faulty, selection).value;
               && parkingNumber in db.parking
               && r.1.parking == db.parking[parkingNumber := db.parking[parkingNumber].(available := false)])
  {
    var r := Incoming(db, faulty, selection, vehicleRegNumber, test, now);
    if r.0 in {EntryClockOutOfRange, TicketSaveFailed} {
      var parkingNumber := NextParkingNumber(db, faulty, selection).value;
      assert r.1 == ParkingUpdate(db, faulty, parkingNumber, false).1;
    }
  }

  /** A failed ticket save after a successful reservation leaves the spot reserved: there is no rollback. */
  lemma FailedSaveKeepsReservation(db: Tables, faulty: set<Statement>, selection: int, vehicleRegNumber: string, now: int)
    requires WellFormed(db)
    requires VehicleType(selection).Some? && SelectNextSpot !in faulty && UpdateSpot !in faulty
    requires exists n :: Offers(db.parking, n, VehicleType(selection).value)
    requires vehicleRegNumber != [] && InsertTicketRow in faulty
    ensures var r := Incoming(db, faulty, selection, vehicleRegNumber, false, now);
      var parkingNumber := NextAvailableSlot(db, faulty, VehicleType(selection).value);
      && r.0 == TicketSaveFailed
      && r.1.tickets == db.tickets
      && Offers(db.parking, parkingNumber, VehicleType(selection).value)
      && !r.1.parking[parkingNumber].available
  {
  }

  /** Entry keeps the guarantees of the tables. */
  lemma IncomingPreservesWellFormed(db: Tables, faulty: set<Statement>, selection: int, vehicleRegNumber: string,
                                    test: bool, now: int)
    requires WellFormed(db)
    ensures WellFormed(Incoming(db, faulty, selection, vehicleRegNumber, test, now).1)
  {
  }

  /** Entry keeps the occupancy guarantee: the new open ticket takes a spot that was free. */
  lemma IncomingPreservesOccupancy(db: Tables, faulty: set<Statement>, selection: int, vehicleRegNumber: string,
                                   test: bool, now: int)
    requires WellFormed(db) && OccupancyConsistent(db)
    ensures OccupancyConsistent(Incoming(db, faulty, selection, vehicleRegNumber, test, now).1)
  {
    var r := Incoming(db, faulty, selection, vehicleRegNumber, test, now);
    if r.0.Parked? {
      IncomingParked(db, faulty, selection, vehicleRegNumber, test, now);
      var parkingNumber := r.0.parkingNumber;
      var after := r.1;
      var last := |db.tickets|;
      forall i | 0 <= i < |after.tickets| && after.tickets[i].outTime.None?
        ensures after.tickets[i].parkingNumber in after.parking
        ensures !after.parking[after.tickets[i].parkingNumber].available
      {
        if i < last {
          assert after.tickets[i] == db.tickets[i];
        }
      }
      forall i, j | 0 <= i < j < |after.tickets| && after.tickets[i].outTime.None? && after.tickets[j].outTime.None?
        ensures after.tickets[i].parkingNumber != after.tickets[j].parkingNumber
      {
        assert after.tickets[i] == db.tickets[i];
        if j < last {
          assert after.tickets[j] == db.tickets[j];
        }
      }
    } else {
      IncomingFailureKeepsTickets(db, faulty, selection, vehicleRegNumber, test, now);
    }
  }

  /** Without a ticket, exit writes nothing. */
  lemma ExitWithoutTicketChangesNothing(db: Tables, faulty: set<Statement>, vehicleRegNumber: string,
                                        test: bool, now: int, openOnly: bool)
    requires TicketLookup(db, faulty, vehicleRegNumber, openOnly).None?
    ensures Exiting(db, faulty, vehicleRegNumber, test, now, openOnly) == (NoTicketFound, db)
  {
  }

  /**
   * An exit that does not complete writes nothing; in particular the spot is released only
   * after the ticket update succeeded.
   */
  lemma ExitReleasesOnlyAfterTicketUpdate(db: Tables, faulty: set<Statement>, vehicleRegNumber: string,
                                          test: bool, now: int, openOnly: bool)
    ensures var r := Exiting(db, faulty, vehicleRegNumber, test, now, openOnly);
      && (!r.0.Exited? ==> r.1 == db)
      && (r.1.parking != db.parking ==> r.0.Exited?)
  {
  }

  /**
   * A completed exit closes the looked-up ticket: exit time from the chosen clock, price from
   * the fare policy with the discount iff the vehicle has more than one ticket, nothing else
   * in the ticket table changes, and the ticket's spot is made available again unless that
   * statement fails.
   */
  lemma ExitedClosesTicket(db: Tables, faulty: set<Statement>, vehicleRegNumber: string,
                           test: bool, now: int, openOnly: bool)
    requires Exiting(db, faulty, vehicleRegNumber, test, now, openOnly).0.Exited?
    ensures var r := Exiting(db, faulty, vehicleRegNumber, test, now, openOnly);
      var found := TicketLookup(db, faulty, vehicleRegNumber, openOnly);
      var nbTickets := TicketCount(db, faulty, vehicleRegNumber);
      && found.Some?
      && var row := db.tickets[found.value];
         && row.parkingNumber in db.parking
         && r.0.outTime == (if test then TestConstants.OUT_TIME_TEST[nbTickets - 1] else now)
         && Price(row.inTime, Some(r.0.outTime), Some(db.parking[row.parkingNumber].parkingType), nbTickets > 1)
            == Success(r.0.price)
         && r.1.tickets == UpdateTicketRows(db.tickets, row.id, r.0.price, Some(r.0.outTime))
         && r.1.parking == (if UpdateSpot in faulty then db.parking
                            else db.parking[row.parkingNumber := db.parking[row.parkingNumber].(available := true)])
  {
    var r := Exiting(db, faulty, vehicleRegNumber, test, now, openOnly);
    var row := db.tickets[TicketLookup(db, faulty, vehicleRegNumber, openOnly).value];
    var closed := TicketUpdate(db, faulty, row.id, r.0.price, Some(r.0.outTime)).1;
    assert r.1 == ParkingUpdate(closed, faulty, row.parkingNumber, true).1;
  }

  /** The discount is granted exactly to vehicles with more than one ticket. */
  lemma DiscountIffRecurring(db: Tables, faulty: set<Statement>, vehicleRegNumber: string,
                             test: bool, now: int, openOnly: bool)
    requires Exiting(db, faulty, vehicleRegNumber, test, now, openOnly).0.Exited?
    ensures var r := Exiting(db, faulty, vehicleRegNumber, test, now, openOnly);
      var row := db.tickets[TicketLookup(db, faulty, vehicleRegNumber, openOnly).value];
      var parkingType := db.parking[row.parkingNumber].parkingType;
      r.0.outTime - row.inTime >= MINIMUM_CHARGED_MILLIS ==>
        (r.0.price * 720000000
           <= 2 * (r.0.outTime - row.inTime) * RateCentsPerHour(parkingType)
                * (if TicketCount(db, faulty, vehicleRegNumber) > 1 then 95 else 100) + 360000000
           < r.0.price * 720000000 + 720000000)
  {
    var r := Exiting(db, faulty, vehicleRegNumber, test, now, openOnly);
    var row := db.tickets[TicketLookup(db, faulty, vehicleRegNumber, openOnly).value];
    var parkingType := db.parking[row.parkingNumber].parkingType;
    var discount := TicketCount(db, faulty, vehicleRegNumber) > 1;
    ExitedClosesTicket(db, faulty, vehicleRegNumber, test, now, openOnly);
    if r.0.outTime - row.inTime >= MINIMUM_CHARGED_MILLIS {
      PriceInIntegerCents(row.inTime, r.0.outTime, parkingType, discount);
    }
  }

  /** Exit never changes how many tickets any vehicle has. */
  lemma ExitKeepsCounts(db: Tables, faulty: set<Statement>, vehicleRegNumber: string,
                        test: bool, now: int, openOnly: bool, other: string)
    ensures CountTickets(Exiting(db, faulty, vehicleRegNumber, test, now, openOnly).1.tickets, other)
         == CountTickets(db.tickets, other)
  {
    var r := Exiting(db, faulty, vehicleRegNumber, test, now, openOnly);
    if r.0.Exited? {
      ExitedClosesTicket(db, faulty, vehicleRegNumber, test, now, openOnly);
      CountTicketsSameRegs(db.tickets, r.1.tickets, other);
    }
  }

  /** Exit keeps the guarantees of the tables. */
  lemma ExitingPreservesWellFormed(db: Tables, faulty: set<Statement>, vehicleRegNumber: string,
                                   test: bool, now: int, openOnly: bool)
    requires WellFormed(db)
    ensures WellFormed(Exiting(db, faulty, vehicleRegNumber, test, now, openOnly).1)
  {
    var r := Exiting(db, faulty, vehicleRegNumber, test, now, openOnly);
    if r.0.Exited? {
      ExitedClosesTicket(db, faulty, vehicleRegNumber, test, now, openOnly);
    }
  }

  /**
   * Exit with the open-ticket lookup keeps the occupancy guarantee: the released spot was
   * held by the ticket just closed and by no other open ticket.
   */
  lemma ExitingOpenTicketPreservesOccupancy(db: Tables, faulty: set<Statement>, vehicleRegNumber: string,
                                            test: bool, now: int)
    requires WellFormed(db) && OccupancyConsistent(db)
    ensures OccupancyConsistent(Exiting(db, faulty, vehicleRegNumber, test, now, true).1)
  {
    var r := Exiting(db, faulty, vehicleRegNumber, test, now, true);
    if r.0.Exited? {
      ExitedClosesTicket(db, faulty, vehicleRegNumber, test, now, true);
      var k := TicketLookup(db, faulty, vehicleRegNumber, true).value;
      var row := db.tickets[k];
      var after := r.1;
      forall i | 0 <= i < |after.tickets| && after.tickets[i].outTime.None?
        ensures after.tickets[i].parkingNumber in after.parking
        ensures !after.parking[after.tickets[i].parkingNumber].available
      {
        assert db.tickets[i].id != row.id;
        assert after.tickets[i] == db.tickets[i];
        if i < k {
          assert db.tickets[i].parkingNumber != db.tickets[k].parkingNumber;
        } else {
          assert i != k;
          assert db.tickets[k].parkingNumber != db.tickets[i].parkingNumber;
        }
      }
      forall i, j | 0 <= i < j < |after.tickets| && after.tickets[i].outTime.None? && after.tickets[j].outTime.None?
        ensures after.tickets[i].parkingNumber != after.tickets[j].parkingNumber
      {
        assert db.tickets[i].id != row.id && db.tickets[j].id != row.id;
        assert after.tickets[i] == db.tickets[i] && after.tickets[j] == db.tickets[j];
      }
    }
  }
}
