/** The contract of the ticket data-access object over the `ticket` table. */
module TicketDao {
  import opened Options
  import opened Model
  import opened DBConstants
  import opened DataBase

  /**
   * What `saveTicket` does: it appends one row with the next id and reports success; when
   * the connection or the insert fails it reports failure and the table is unchanged.
   */
  function TicketSave(db: Tables, faulty: set<Statement>, parkingNumber: int, vehicleRegNumber: string,
                      price: int, inTime: int, outTime: Option<int>): (r: (bool, Tables))
    ensures r.0 <==> InsertTicketRow !in faulty
    ensures r.1.parking == db.parking
    ensures r.0 ==>
      r.1.tickets == db.tickets + [TicketRow(|db.tickets| + 1, parkingNumber, vehicleRegNumber, price, inTime, outTime)]
    ensures !r.0 ==> r.1 == db
  {
    if InsertTicketRow in faulty then (false, db)
    else (true, db.(tickets := InsertTicket(db.tickets, parkingNumber, vehicleRegNumber, price, inTime, outTime)))
  }

  /**
   * What `updateTicket` does: it writes price and exit time into the rows with that id and
   * reports whether there was one. A ticket without exit time raises before the statement
   * runs, so it is reported as a failure; every failure leaves the table unchanged.
   */
  function TicketUpdate(db: Tables, faulty: set<Statement>, id: int, price: int, outTime: Option<int>)
    : (r: (bool, Tables))
    ensures r.0 <==> UpdateTicketRow !in faulty && outTime.Some? && HasTicketId(db.tickets, id)
    ensures r.1.parking == db.parking
    ensures r.0 ==> r.1.tickets == UpdateTicketRows(db.tickets, id, price, outTime)
    ensures !r.0 ==> r.1 == db
  {
    if UpdateTicketRow in faulty || outTime.None? then (false, db)
    else
      var tickets := UpdateTicketRows(db.tickets, id, price, outTime);
      if HasTicketId(db.tickets, id) then (true, db.(tickets := tickets))
      else
        assert tickets == db.tickets;
        (false, db.(tickets := tickets))
  }

  /**
   * The position of the row `getTicket` (`openOnly` false) or the incoming-ticket query
   * (`openOnly` true) reads, or None when no row matches or the query raises.
   */
  function TicketLookup(db: Tables, faulty: set<Statement>, vehicleRegNumber: string, openOnly: bool)
    : (r: Option<nat>)
    ensures SelectTicketRow in faulty ==> r.None?
    ensures SelectTicketRow !in faulty ==>
      (r.None? <==> forall i :: 0 <= i < |db.tickets| ==> !Selected(db.tickets[i], db.parking, vehicleRegNumber, openOnly))
    ensures r.Some? ==> r.value < |db.tickets| && Selected(db.tickets[r.value], db.parking, vehicleRegNumber, openOnly)
    ensures r.Some? ==> forall i :: 0 <= i < |db.tickets| && Selected(db.tickets[i], db.parking, vehicleRegNumber, openOnly) ==>
                          db.tickets[r.value].inTime <= db.tickets[i].inTime
  {
    if SelectTicketRow in faulty then None
    else SelectTicket(db.tickets, db.parking, vehicleRegNumber, openOnly)
  }

  /** What `getNbTicket` returns: the number of rows of that vehicle, or 0 when the query raises. */
  function TicketCount(db: Tables, faulty: set<Statement>, vehicleRegNumber: string): (n: int)
    ensures CountTicketRows in faulty ==> n == 0
    ensures CountTicketRows !in faulty ==> n == |TicketPositions(db.tickets, vehicleRegNumber)|
    ensures 0 <= n <= |db.tickets|
  {
    if CountTicketRows in faulty then 0
    else
      CountTicketsIsCardinality(db.tickets, vehicleRegNumber);
      CountTickets(db.tickets, vehicleRegNumber)
  }

  /** The row a ticket object is written as. */
  function RowOf(ticket: Ticket): TicketRow
    reads ticket
  {
    TicketRow(ticket.id, ticket.parkingSpot.id, ticket.vehicleRegNumber, ticket.price, ticket.inTime, ticket.outTime)
  }

  class TicketDAO {
    const dataBase: Database

    constructor (dataBase: Database)
      ensures this.dataBase == dataBase
    {
      this.dataBase := dataBase;
    }

    method SaveTicket(ticket: Ticket) returns (saved: bool)
      modifies dataBase
      ensures (saved, dataBase.Contents())
           == TicketSave(old(dataBase.Contents()), dataBase.faulty, ticket.parkingSpot.id,
                         ticket.vehicleRegNumber, ticket.price, ticket.inTime, ticket.outTime)
    {
      if InsertTicketRow in dataBase.faulty {
        return false;
      }
      dataBase.tickets := InsertTicket(dataBase.tickets, ticket.parkingSpot.id, ticket.vehicleRegNumber,
                                       ticket.price, ticket.inTime, ticket.outTime);
      saved := true;
    }

    method UpdateTicket(ticket: Ticket) returns (updated: bool)
      modifies dataBase
      ensures (updated, dataBase.Contents())
           == TicketUpdate(old(dataBase.Contents()), dataBase.faulty, ticket.id, ticket.price, ticket.outTime)
    {
      updated := false;
      if UpdateTicketRow in dataBase.faulty || ticket.outTime.None? {
        return;
      }
      var rowsUpdated := HasTicketId(dataBase.tickets, ticket.id);
      dataBase.tickets := UpdateTicketRows(dataBase.tickets, ticket.id, ticket.price, ticket.outTime);
      if rowsUpdated {
        updated := true;
      }
    }

    /** `getTicket`: a fresh ticket built from the oldest row of that vehicle, open or closed. */
    method GetTicket(vehicleRegNumber: string) returns (ticket: Ticket?)
      ensures var found := TicketLookup(dataBase.Contents(), dataBase.faulty, vehicleRegNumber, false);
        && (ticket == null <==> found.None?)
        && (ticket != null ==> ReadBack(ticket, dataBase.Contents(), found.value))
      ensures ticket != null ==> fresh(ticket) && fresh(ticket.parkingSpot)
    {
      ticket := ReadTicket(vehicleRegNumber, false);
    }

    /** The incoming-ticket query: the same, restricted to tickets without exit time. */
    method GetIncomingTicket(vehicleRegNumber: string) returns (ticket: Ticket?)
      ensures var found := TicketLookup(dataBase.Contents(), dataBase.faulty, vehicleRegNumber, true);
        && (ticket == null <==> found.None?)
        && (ticket != null ==> ReadBack(ticket, dataBase.Contents(), found.value))
      ensures ticket != null ==> fresh(ticket) && fresh(ticket.parkingSpot)
    {
      ticket := ReadTicket(vehicleRegNumber, true);
    }

    method ReadTicket(vehicleRegNumber: string, openOnly: bool) returns (ticket: Ticket?)
      ensures var found := TicketLookup(dataBase.Contents(), dataBase.faulty, vehicleRegNumber, openOnly);
        && (ticket == null <==> found.None?)
        && (ticket != null ==> ReadBack(ticket, dataBase.Contents(), found.value))
      ensures ticket != null ==> fresh(ticket) && fresh(ticket.parkingSpot)
    {
      ticket := null;
      if SelectTicketRow in dataBase.faulty {
        return;
      }
      var found := SelectTicket(dataBase.tickets, dataBase.parking, vehicleRegNumber, openOnly);
      if found.Some? {
        var row := dataBase.tickets[found.value];
        var parkingSpot := new ParkingSpot(row.parkingNumber, Some(dataBase.parking[row.parkingNumber].parkingType), false);
        ticket := new Ticket(parkingSpot);
        ticket.id := row.id;
        ticket.vehicleRegNumber := vehicleRegNumber;
        ticket.price := row.price;
        ticket.inTime := row.inTime;
        ticket.outTime := row.outTime;
      }
    }

    method GetNbTicket(vehicleRegNumber: string) returns (nbTicket: int)
      ensures nbTicket == TicketCount(dataBase.Contents(), dataBase.faulty, vehicleRegNumber)
    {
      nbTicket := 0;
      if CountTicketRows in dataBase.faulty {
        return;
      }
      nbTicket := CountTickets(dataBase.tickets, vehicleRegNumber);
      CountTicketsIsCardinality(dataBase.tickets, vehicleRegNumber);
    }
  }

  /**
   * A ticket object read back from row `i`: it carries the row's fields, and its spot has the
   * row's number, the category of the joined spot row and is marked unavailable.
   */
  predicate ReadBack(ticket: Ticket, db: Tables, i: nat)
    reads ticket, ticket.parkingSpot
  {
    && i < |db.tickets|
    && RowOf(ticket) == db.tickets[i]
    && db.tickets[i].parkingNumber in db.parking
    && ticket.parkingSpot.parkingType == Some(db.parking[db.tickets[i].parkingNumber].parkingType)
    && !ticket.parkingSpot.available
  }

  /** A successful save adds one to the count of the saved vehicle and leaves the other counts alone. */
  lemma SaveAddsOneTicket(db: Tables, faulty: set<Statement>, parkingNumber: int, vehicleRegNumber: string,
                          price: int, inTime: int, outTime: Option<int>, other: string)
    requires TicketSave(db, faulty, parkingNumber, vehicleRegNumber, price, inTime, outTime).0
    ensures var after := TicketSave(db, faulty, parkingNumber, vehicleRegNumber, price, inTime, outTime).1;
      CountTickets(after.tickets, other)
        == CountTickets(db.tickets, other) + (if other == vehicleRegNumber then 1 else 0)
  {
    CountTicketsAppend(db.tickets, TicketRow(|db.tickets| + 1, parkingNumber, vehicleRegNumber, price, inTime, outTime), other);
  }

  /** An update never changes how many tickets a vehicle has. */
  lemma UpdateKeepsCounts(db: Tables, faulty: set<Statement>, id: int, price: int, outTime: Option<int>,
                          vehicleRegNumber: string)
    ensures CountTickets(TicketUpdate(db, faulty, id, price, outTime).1.tickets, vehicleRegNumber)
         == CountTickets(db.tickets, vehicleRegNumber)
  {
    var after := TicketUpdate(db, faulty, id, price, outTime).1;
    CountTicketsSameRegs(db.tickets, after.tickets, vehicleRegNumber);
  }

  /** A save preserves the guarantees of the tables when it names an existing spot. */
  lemma SavePreservesWellFormed(db: Tables, faulty: set<Statement>, parkingNumber: int, vehicleRegNumber: string,
                                price: int, inTime: int, outTime: Option<int>)
    requires WellFormed(db) && parkingNumber in db.parking
    ensures WellFormed(TicketSave(db, faulty, parkingNumber, vehicleRegNumber, price, inTime, outTime).1)
  {
  }

  /** An update preserves the guarantees of the tables. */
  lemma UpdatePreservesWellFormed(db: Tables, faulty: set<Statement>, id: int, price: int, outTime: Option<int>)
    requires WellFormed(db)
    ensures WellFormed(TicketUpdate(db, faulty, id, price, outTime).1)
  {
  }

  /** With sequential ids, the update touches exactly the row at position id - 1. */
  lemma UpdateTouchesOneRow(db: Tables, faulty: set<Statement>, id: int, price: int, outTime: Option<int>)
    requires WellFormed(db)
    requires TicketUpdate(db, faulty, id, price, outTime).0
    ensures 1 <= id <= |db.tickets|
    ensures TicketUpdate(db, faulty, id, price, outTime).1.tickets
         == db.tickets[id - 1 := db.tickets[id - 1].(price := price, outTime := outTime)]
  {
  }
}
