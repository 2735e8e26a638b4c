/**
 * The in-memory store that stands in for the relational database both data-access objects
 * connect to: the two tables and the statements that fail on it.
 */
module DataBase {
  import opened DBConstants

  /** The statements the data-access objects run, named so that a failing one can be singled out. */
  datatype Statement =
    | SelectNextSpot
    | UpdateSpot
    | InsertTicketRow
    | UpdateTicketRow
    | SelectTicketRow
    | CountTicketRows

  class Database {
    var parking: map<int, SpotRow>
    var tickets: seq<TicketRow>
    /**
     * The statements that raise on this database: all of them when there is no connection,
     * or just some, as a failing mock would.
     */
    const faulty: set<Statement>

    function Contents(): Tables
      reads this
    {
      Tables(parking, tickets)
    }

    /**
     * A database prepared for an integration test from the spot table `parking`: every spot
     * is set available, then the ticket table is truncated.
     */
    constructor (parking: map<int, SpotRow>, faulty: set<Statement>)
      ensures Contents() == Tables(SetAllAvailable(parking), []) && this.faulty == faulty
    {
      this.parking := SetAllAvailable(parking);
      this.tickets := [];
      this.faulty := faulty;
    }
  }
}
