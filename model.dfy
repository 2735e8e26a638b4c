/**
 * The entities the core passes around: the vehicle category, a parking spot and a ticket.
 * Spot and ticket are mutable objects in the source (setAvailable, setPrice, setOutTime, ...),
 * so they are classes here. Prices are integer cents and times integer milliseconds.
 */
module Model {
  import opened Options

  /** The two spot categories. */
  datatype ParkingType = CAR | BIKE

  class ParkingSpot {
    const id: int
    /** None stands for a spot whose type reference is null. */
    const parkingType: Option<ParkingType>
    var available: bool

    constructor (id: int, parkingType: Option<ParkingType>, available: bool)
      ensures this.id == id && this.parkingType == parkingType && this.available == available
    {
      this.id := id;
      this.parkingType := parkingType;
      this.available := available;
    }
  }

  class Ticket {
    var id: int
    const parkingSpot: ParkingSpot
    var vehicleRegNumber: string
    /** Price in cents. */
    var price: int
    /** Entry time in milliseconds. */
    var inTime: int
    /** Exit time in milliseconds; None while the vehicle is parked. */
    var outTime: Option<int>

    /** A fresh ticket for the given spot; the other fields are filled in one by one afterwards. */
    constructor (parkingSpot: ParkingSpot)
      ensures this.parkingSpot == parkingSpot
      ensures id == 0 && vehicleRegNumber == "" && price == 0 && inTime == 0 && outTime == None
    {
      this.parkingSpot := parkingSpot;
      id := 0;
      vehicleRegNumber := "";
      price := 0;
      inTime := 0;
      outTime := None;
    }
  }
}
