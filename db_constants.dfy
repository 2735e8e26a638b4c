/**
 * The meaning of the SQL statements the data-access objects run, stated over in-memory
 * tables: `parking` maps a parking number to its category and availability, `ticket` is a
 * sequence of rows in insertion order.
 */
module DBConstants {
  import opened Options
  import opened Model

  /** The number of visits of the recurring-user integration test. */
  const NUMBER_OF_TICKETS: int := 3

  /** A row of the `parking` table (its key, PARKING_NUMBER, is the map key). */
  datatype SpotRow = SpotRow(parkingType: ParkingType, available: bool)

  /** A row of the `ticket` table: price in cents, times in milliseconds. */
  datatype TicketRow = TicketRow(
    id: int,
    parkingNumber: int,
    vehicleRegNumber: string,
    price: int,
    inTime: int,
    outTime: Option<int>)

  datatype Tables = Tables(parking: map<int, SpotRow>, tickets: seq<TicketRow>)

  /**
   * What the database guarantees of its tables: ticket ids are assigned 1, 2, 3, ... in
   * insertion order (an auto-increment key on a freshly truncated table), every ticket
   * refers to an existing spot, and parking numbers are positive.
   */
  ghost predicate WellFormed(db: Tables)
  {
    && (forall n :: n in db.parking ==> n > 0)
    && (forall i :: 0 <= i < |db.tickets| ==> db.tickets[i].id == i + 1)
    && (forall i :: 0 <= i < |db.tickets| ==> db.tickets[i].parkingNumber in db.parking)
  }

  // ---- GET_NEXT_PARKING_SPOT: select min(PARKING_NUMBER) where AVAILABLE and TYPE = ? ----

  predicate Offers(parking: map<int, SpotRow>, number: int, parkingType: ParkingType)
  {
    number in parking && parking[number].available && parking[number].parkingType == parkingType
  }

  lemma HasMember(s: set<int>)
    requires s != {}
    ensures exists m :: m in s
  {
    if forall m :: m !in s {
      assert false;
    }
  }

  lemma {:induction false} HasLeast(s: set<int>)
    requires s != {}
    ensures exists m :: m in s && forall n :: n in s ==> m <= n
  {
    HasMember(s);
    var x :| x in s;
    var rest := s - {x};
    if rest == {} {
      forall n | n in s ensures x <= n {
        assert n !in rest;
      }
    } else {
      HasLeast(rest);
      var m :| m in rest && forall n :: n in rest ==> m <= n;
      var least := if x < m then x else m;
      forall n | n in s ensures least <= n {
        if n != x {
          assert n in rest;
        }
      }
    }
  }

  /** The aggregate `min(PARKING_NUMBER)` over the available spots of a category; None for SQL NULL. */
  function NextParkingSpot(parking: map<int, SpotRow>, parkingType: ParkingType): (r: Option<int>)
    ensures r.None? <==> forall n :: n in parking ==> !Offers(parking, n, parkingType)
    ensures r.Some? ==> Offers(parking, r.value, parkingType)
    ensures r.Some? ==> forall n :: Offers(parking, n, parkingType) ==> r.value <= n
  {
    var candidates := set n | n in parking && Offers(parking, n, parkingType);
    assert forall n :: Offers(parking, n, parkingType) ==> n in candidates;
    if candidates == {} then None
    else
      HasLeast(candidates);
      var least :| least in candidates && forall n :: n in candidates ==> least <= n;
      Some(least)
  }

  // ---- UPDATE_PARKING_SPOT: update parking set available = ? where PARKING_NUMBER = ? ----

  /** The updated table and the number of rows the statement affects. */
  function UpdateParkingSpot(parking: map<int, SpotRow>, number: int, available: bool)
    : (r: (map<int, SpotRow>, int))
    ensures r.1 == (if number in parking then 1 else 0)
    ensures r.0.Keys == parking.Keys
    ensures number in parking ==> r.0[number].available == available
    ensures forall n :: n in parking ==> r.0[n].parkingType == parking[n].parkingType
    ensures forall n :: n in parking && n != number ==> r.0[n] == parking[n]
  {
    if number in parking then (parking[number := parking[number].(available := available)], 1)
    else (parking, 0)
  }

  // ---- update parking set available = true (the integration tests' clean-up) ----

  /** Every spot becomes available; numbers and categories stay. */
  function SetAllAvailable(parking: map<int, SpotRow>): (r: map<int, SpotRow>)
    ensures r.Keys == parking.Keys
    ensures forall n :: n in parking ==> r[n] == SpotRow(parking[n].parkingType, true)
  {
    map n | n in parking :: parking[n].(available := true)
  }

  // ---- SAVE_TICKET: insert into ticket(PARKING_NUMBER, VEHICLE_REG_NUMBER, PRICE, IN_TIME, OUT_TIME) ----

  /** The table after the insert; the new row receives the next id. */
  function InsertTicket(tickets: seq<TicketRow>, parkingNumber: int, vehicleRegNumber: string,
                        price: int, inTime: int, outTime: Option<int>): (r: seq<TicketRow>)
    ensures |r| == |tickets| + 1 && r[..|tickets|] == tickets
    ensures r[|tickets|] == TicketRow(|tickets| + 1, parkingNumber, vehicleRegNumber, price, inTime, outTime)
  {
    tickets + [TicketRow(|tickets| + 1, parkingNumber, vehicleRegNumber, price, inTime, outTime)]
  }

  // ---- UPDATE_TICKET: update ticket set PRICE = ?, OUT_TIME = ? where ID = ? ----

  /** The table after the update: rows with that id get the new price and exit time, nothing else changes. */
  function UpdateTicketRows(tickets: seq<TicketRow>, id: int, price: int, outTime: Option<int>)
    : (r: seq<TicketRow>)
    ensures |r| == |tickets|
    ensures forall i :: 0 <= i < |tickets| ==>
      && r[i].id == tickets[i].id
      && r[i].parkingNumber == tickets[i].parkingNumber
      && r[i].vehicleRegNumber == tickets[i].vehicleRegNumber
      && r[i].inTime == tickets[i].inTime
    ensures forall i :: 0 <= i < |tickets| && tickets[i].id == id ==> r[i].price == price && r[i].outTime == outTime
    ensures forall i :: 0 <= i < |tickets| && tickets[i].id != id ==> r[i] == tickets[i]
  {
    seq(|tickets|, i requires 0 <= i < |tickets| =>
      if tickets[i].id == id then tickets[i].(price := price, outTime := outTime) else tickets[i])
  }

  /** Whether the update affects any row. */
  predicate HasTicketId(tickets: seq<TicketRow>, id: int)
  {
    exists i :: 0 <= i < |tickets| && tickets[i].id == id
  }

  // ---- GET_TICKET and GET_INCOMING_TICKET ----
  // select ... from ticket t, parking p where p.parking_number = t.parking_number
  //   and t.VEHICLE_REG_NUMBER = ? [and t.OUT_TIME is null] order by t.IN_TIME limit 1

  /** Whether a row survives the join and the filter; `openOnly` adds `OUT_TIME is null`. */
  predicate Selected(row: TicketRow, parking: map<int, SpotRow>, vehicleRegNumber: string, openOnly: bool)
  {
    && row.vehicleRegNumber == vehicleRegNumber
    && row.parkingNumber in parking
    && (openOnly ==> row.outTime.None?)
  }

  /**
   * The index of the row the query returns: the selected row with the earliest IN_TIME;
   * among rows with equal IN_TIME, the first inserted.
   */
  function SelectTicket(tickets: seq<TicketRow>, parking: map<int, SpotRow>, vehicleRegNumber: string,
                        openOnly: bool): (r: Option<nat>)
    ensures r.None? <==> forall i :: 0 <= i < |tickets| ==> !Selected(tickets[i], parking, vehicleRegNumber, openOnly)
    ensures r.Some? ==> r.value < |tickets| && Selected(tickets[r.value], parking, vehicleRegNumber, openOnly)
    ensures r.Some? ==> forall i :: 0 <= i < |tickets| && Selected(tickets[i], parking, vehicleRegNumber, openOnly) ==>
                          tickets[r.value].inTime <= tickets[i].inTime
    ensures r.Some? ==> forall i :: 0 <= i < r.value && Selected(tickets[i], parking, vehicleRegNumber, openOnly) ==>
                          tickets[r.value].inTime < tickets[i].inTime
    decreases |tickets|
  {
    if tickets == [] then None
    else
      var last := |tickets| - 1;
      var earlier := SelectTicket(tickets[..last], parking, vehicleRegNumber, openOnly);
      if !Selected(tickets[last], parking, vehicleRegNumber, openOnly) then earlier
      else if earlier.Some? && tickets[earlier.value].inTime <= tickets[last].inTime then earlier
      else Some(last)
  }

  // ---- SELECT COUNT(*) FROM ticket WHERE VEHICLE_REG_NUMBER = ? ----

  function CountTickets(tickets: seq<TicketRow>, vehicleRegNumber: string): (n: nat)
    ensures n <= |tickets|
    decreases |tickets|
  {
    if tickets == [] then 0
    else
      var last := |tickets| - 1;
      CountTickets(tickets[..last], vehicleRegNumber) + (if tickets[last].vehicleRegNumber == vehicleRegNumber then 1 else 0)
  }

  /** The rows the count counts, as a set of positions. */
  ghost function TicketPositions(tickets: seq<TicketRow>, vehicleRegNumber: string): set<int>
  {
    set i | 0 <= i < |tickets| && tickets[i].vehicleRegNumber == vehicleRegNumber
  }

  /** The count is the number of rows carrying exactly that registration number. */
  lemma {:induction false} CountTicketsIsCardinality(tickets: seq<TicketRow>, vehicleRegNumber: string)
    ensures CountTickets(tickets, vehicleRegNumber) == |TicketPositions(tickets, vehicleRegNumber)|
    decreases |tickets|
  {
    if tickets != [] {
      var last := |tickets| - 1;
      var prefix := tickets[..last];
      CountTicketsIsCardinality(prefix, vehicleRegNumber);
      var before := TicketPositions(prefix, vehicleRegNumber);
      var now := TicketPositions(tickets, vehicleRegNumber);
      if tickets[last].vehicleRegNumber == vehicleRegNumber {
        assert now == before + {last};
        assert last !in before;
      } else {
        assert now == before;
      }
    }
  }

  /** Appending a row adds one to the count of its own registration number only. */
  lemma CountTicketsAppend(tickets: seq<TicketRow>, row: TicketRow, vehicleRegNumber: string)
    ensures CountTickets(tickets + [row], vehicleRegNumber)
         == CountTickets(tickets, vehicleRegNumber) + (if row.vehicleRegNumber == vehicleRegNumber then 1 else 0)
  {
    assert (tickets + [row])[..|tickets|] == tickets;
  }

  /** Two tables with the same registration numbers row by row have the same counts. */
  lemma {:induction false} CountTicketsSameRegs(a: seq<TicketRow>, b: seq<TicketRow>, vehicleRegNumber: string)
    requires |a| == |b|
    requires forall i :: 0 <= i < |a| ==> a[i].vehicleRegNumber == b[i].vehicleRegNumber
    ensures CountTickets(a, vehicleRegNumber) == CountTickets(b, vehicleRegNumber)
    decreases |a|
  {
    if a != [] {
      CountTicketsSameRegs(a[..|a| - 1], b[..|b| - 1], vehicleRegNumber);
    }
  }
}
