/** The contract of the spot data-access object over the `parking` table. */
module ParkingSpotDao {
  import opened Options
  import opened Model
  import opened DBConstants
  import opened DataBase

  /**
   * What `getNextAvailableSlot` returns: -1 when the query raises, 0 when no spot is free
   * (the NULL aggregate reads as 0), and otherwise the lowest free number of that category.
   */
  function NextAvailableSlot(db: Tables, faulty: set<Statement>, parkingType: ParkingType): (result: int)
    ensures SelectNextSpot in faulty ==> result == -1
    ensures result > 0 ==> Offers(db.parking, result, parkingType)
    ensures (forall n :: n in db.parking ==> !Offers(db.parking, n, parkingType)) ==> result <= 0
    ensures SelectNextSpot !in faulty && (exists n :: Offers(db.parking, n, parkingType)) ==>
              && Offers(db.parking, result, parkingType)
              && forall n :: Offers(db.parking, n, parkingType) ==> result <= n
  {
    if SelectNextSpot in faulty then -1
    else
      match NextParkingSpot(db.parking, parkingType)
      case None => 0
      case Some(number) => number
  }

  /**
   * What `updateParking` does: it writes the availability flag of exactly one spot and
   * reports whether exactly one row was affected; a failure changes nothing.
   */
  function ParkingUpdate(db: Tables, faulty: set<Statement>, number: int, available: bool): (r: (bool, Tables))
    ensures r.0 <==> UpdateSpot !in faulty && number in db.parking
    ensures r.1.tickets == db.tickets && r.1.parking.Keys == db.parking.Keys
    ensures forall n :: n in db.parking && n != number ==> r.1.parking[n] == db.parking[n]
    ensures r.0 ==> r.1.parking[number] == SpotRow(db.parking[number].parkingType, available)
    ensures !r.0 ==> r.1 == db
  {
    if UpdateSpot in faulty then (false, db)
    else
      var (parking, updateRowCount) := UpdateParkingSpot(db.parking, number, available);
      (updateRowCount == 1, db.(parking := parking))
  }

  class ParkingSpotDAO {
    const dataBase: Database

    constructor (dataBase: Database)
      ensures this.dataBase == dataBase
    {
      this.dataBase := dataBase;
    }

    method GetNextAvailableSlot(parkingType: ParkingType) returns (result: int)
      ensures result == NextAvailableSlot(dataBase.Contents(), dataBase.faulty, parkingType)
    {
      result := -1;
      if SelectNextSpot in dataBase.faulty {
        return;
      }
      var least := NextParkingSpot(dataBase.parking, parkingType);
      if least.Some? {
        result := least.value;
      } else {
        result := 0;
      }
    }

    method UpdateParking(parkingSpot: ParkingSpot) returns (updated: bool)
      modifies dataBase
      ensures (updated, dataBase.Contents())
           == ParkingUpdate(old(dataBase.Contents()), dataBase.faulty, parkingSpot.id, parkingSpot.available)
    {
      if UpdateSpot in dataBase.faulty {
        return false;
      }
      var (parking, updateRowCount) := UpdateParkingSpot(dataBase.parking, parkingSpot.id, parkingSpot.available);
      dataBase.parking := parking;
      updated := updateRowCount == 1;
    }
  }

  /**
   * Once a spot has been marked unavailable, the next-spot query does not offer it, whatever
   * else fails on the database.
   */
  lemma ReservedSpotIsNotOffered(db: Tables, faulty: set<Statement>, later: set<Statement>,
                                 number: int, parkingType: ParkingType)
    requires number > 0
    requires ParkingUpdate(db, faulty, number, false).0
    ensures NextAvailableSlot(ParkingUpdate(db, faulty, number, false).1, later, parkingType) != number
  {
  }

  /** Updating other spots does not make a reserved spot available again. */
  lemma OtherUpdatesKeepReservation(db: Tables, faulty: set<Statement>, number: int, other: int, available: bool)
    requires number in db.parking && !db.parking[number].available && other != number
    ensures var after := ParkingUpdate(db, faulty, other, available).1;
      number in after.parking && !after.parking[number].available
  {
  }
}
