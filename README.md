# ParkIt parking system: a verified model of its business core

ParkIt assigns parking spots to incoming vehicles, records a ticket for each stay, and prices
the stay when the vehicle leaves. Repeat customers get a 5% discount. This project models the
three cooperating parts of that core in Dafny and proves properties about them:

- **Fare policy** (`FareCalculatorService`, rates in `Fare`):
  - the price of a stay is a function of its entry and exit times, the spot's category and the discount flag;
  - `CalculateFare` writes that price into a `Ticket` object.
  - Times are integer milliseconds and prices integer cents. The price follows the source's
    expression (`hours * rate * factor`, rounded half-up to the cent) in exact `real` arithmetic.
- **Spot and ticket store** (`DBConstants`, `ParkingSpotDao`, `TicketDao`, `DataBase`):
  - the `parking` table is a map from parking number to category and availability;
  - the `ticket` table is a sequence of rows in insertion order;
  - each SQL statement's meaning is a function over these tables;
  - the two data-access objects are classes whose methods update one shared `Database` object;
  - a set of failing statements stands for a lost connection, a SQL error or a stubbed failure.
- **Session workflow** (`Service`):
  - `ParkingService` runs vehicle entry and exit as straight lines of store operations with early aborts;
  - the functions `Incoming` and `Exiting` state each workflow's outcome and resulting tables, and the methods are proved to produce exactly those.
  - The menu selection, the registration number and the current time are parameters.
  - The `test` flag selects the fixed visit times of `TestConstants`.
- **Integration scenarios** (`ParkingDataBaseScenario`): the database integration tests are replayed on concrete tables, starting from the prepared database. `testParkingACar` and `testParkingLotExit` are replayed as written. `testParkingLotExitRecurringUser` is replayed twice: as written, with the oldest-ticket exit, through its second cycle, where the discrepancy below appears; and with the open-ticket exit through all three cycles.

The ticket lookup used on exit (`GET_TICKET`) returns the vehicle's *oldest* ticket, whether or not
it is closed: `DBConstants.java:14` orders by IN_TIME ascending and does not filter on OUT_TIME.
The model follows this code. The open-ticket query (`GET_INCOMING_TICKET`) is modelled as the
corrected variant (see Findings).

Assumptions:
- With the test clock, the entry workflow indexes `IN_TIME_TEST` by the ticket count (`ParkingService.java:120`) and the exit workflow indexes `OUT_TIME_TEST` by the ticket count minus one (`:199`). The statically imported `DBConstants` fields are single dates, so the model uses the arrays of `TestConstants`.
- Dates are read in UTC.
- The spot pool of the scenarios has car spots 1 to 3 and bike spots 4 and 5. The schema defining it is not part of this model.
- Both data-access objects connect to one database, so `ParkingService` requires them to share one `Database`.
- `Ticket` and `ParkingSpot` (`Model`) are not part of this model's sources. Their fields are inferred from the calls made on them.

## Model

| member | source | states |
|---|---|---|
| FareCalculatorService.RateCentsPerHour | src/main/java/com/parkit/parkingsystem/constants/Fare.java:7-8 | the hourly rates are exactly 150 cents for a car and 100 cents for a bike |
| FareCalculatorService.DiscountPercent | src/main/java/com/parkit/parkingsystem/service/FareCalculatorService.java:24 | the discount factor is exactly 95% with the discount and 100% without |
| FareCalculatorService.Price | src/main/java/com/parkit/parkingsystem/service/FareCalculatorService.java:10-44 | fails exactly for a missing exit time, an exit before entry, or a charged stay on a spot without category, each with its own error; a stay shorter than 1,800,000 ms costs 0; a price is never negative |
| FareCalculatorService.CalculateFare | src/main/java/com/parkit/parkingsystem/service/FareCalculatorService.java:10-44 | reports `Price` of the ticket's times, category and flag; writes it as the ticket's price on success, leaves the price alone on error, and writes no other field |
| FareCalculatorService.CalculateFareWithoutDiscount | src/main/java/com/parkit/parkingsystem/service/FareCalculatorService.java:47-49 | the one-argument form is the two-argument form without the discount |
| FareCalculatorService.GracePeriodInMillis | src/main/java/com/parkit/parkingsystem/service/FareCalculatorService.java:17-20 | a duration is below the 0.5 h threshold exactly when it is below 1,800,000 ms, so exactly 30 minutes is charged |
| FareCalculatorService.ChargedPriceIsRoundedHalfUp | src/main/java/com/parkit/parkingsystem/service/FareCalculatorService.java:24-37 | a charged price lies within half a cent of hours × rate × factor, the upper half excluded (round half up) |
| FareCalculatorService.PriceInIntegerCents | src/main/java/com/parkit/parkingsystem/service/FareCalculatorService.java:24-37 | a charged price equals floor((2 · ms · rateCents · percent + 360000000) / 720000000), an all-integer reference formula |
| FareCalculatorService.DiscountNeverIncreasesPrice | src/main/java/com/parkit/parkingsystem/service/FareCalculatorService.java:24 | the discounted price never exceeds the full price of the same stay |
| FareCalculatorService.PriceGrowsWithDuration | src/main/java/com/parkit/parkingsystem/service/FareCalculatorService.java:17-37 | a longer stay never costs less |
| FareCalculatorService.PriceExamples | src/test/java/com/parkit/parkingsystem/FareCalculatorServiceTest.java:83-282 | the expected test prices: 1 h 1.50/1.00, 24 h 36.00/24.00, 45 min 1.13/0.75 and 1.07/0.71 discounted, free just under 30 min, an error for an entry in the future and for a missing category |
| DBConstants.NextParkingSpot | src/main/java/com/parkit/parkingsystem/constants/DBConstants.java:9 | the aggregate is empty iff no spot of the category is available; otherwise it is an available spot of that category no greater than any other |
| DBConstants.UpdateParkingSpot | src/main/java/com/parkit/parkingsystem/constants/DBConstants.java:10 | affects one row iff the number exists; sets that spot's availability and keeps every category and every other spot |
| DBConstants.InsertTicket | src/main/java/com/parkit/parkingsystem/constants/DBConstants.java:12 | the old rows are kept and one row with the next id and the given values is appended |
| DBConstants.UpdateTicketRows | src/main/java/com/parkit/parkingsystem/constants/DBConstants.java:13 | only PRICE and OUT_TIME change, and only in the rows with that id |
| DBConstants.SelectTicket | src/main/java/com/parkit/parkingsystem/constants/DBConstants.java:14-15 | no row iff no row of that vehicle joins a spot (and is open, for the incoming query); otherwise the earliest IN_TIME among them, ties going to the first inserted |
| DBConstants.CountTickets | src/main/java/com/parkit/parkingsystem/dao/TicketDAO.java:173 | `COUNT(*)` of the vehicle's rows, never more than the table's size (its exact meaning is `CountTicketsIsCardinality`) |
| DBConstants.CountTicketsIsCardinality | src/main/java/com/parkit/parkingsystem/dao/TicketDAO.java:173 | the count is the number of rows carrying exactly that registration number |
| DBConstants.CountTicketsAppend | src/main/java/com/parkit/parkingsystem/constants/DBConstants.java:12 | an inserted row adds one to the count of its own vehicle only |
| DBConstants.CountTicketsSameRegs | src/main/java/com/parkit/parkingsystem/constants/DBConstants.java:13 | tables with the same registration numbers row by row have the same counts |
| TestConstants.TestVisits | src/main/java/com/parkit/parkingsystem/constants/TestConstants.java:19-32 | visit i enters on 2024-04-(8+i) at 12:00 and leaves at 16:00, four hours later |
| DBConstants.SetAllAvailable | src/test/java/com/parkit/parkingsystem/integration/service/DataBasePrepareService.java:35 | every spot becomes available, keeping its number and category |
| DataBase.Database.constructor | src/test/java/com/parkit/parkingsystem/integration/service/DataBasePrepareService.java:29-45 | a prepared database: every given spot set available, then an empty ticket table |
| ParkingSpotDao.NextAvailableSlot | src/main/java/com/parkit/parkingsystem/dao/ParkingSpotDAO.java:35-54 | -1 when the query fails; non-positive when no spot is free; a positive result is an available spot of the category; with a free spot and a working query, the lowest free number |
| ParkingSpotDao.ParkingUpdate | src/main/java/com/parkit/parkingsystem/dao/ParkingSpotDAO.java:62-79 | succeeds iff the statement runs and the spot exists; writes the flag of that one spot; a failure changes nothing |
| ParkingSpotDao.ParkingSpotDAO.GetNextAvailableSlot | src/main/java/com/parkit/parkingsystem/dao/ParkingSpotDAO.java:35-54 | returns `NextAvailableSlot` of the database |
| ParkingSpotDao.ParkingSpotDAO.UpdateParking | src/main/java/com/parkit/parkingsystem/dao/ParkingSpotDAO.java:62-79 | result and new tables are `ParkingUpdate` of the old tables with the spot's number and flag |
| ParkingSpotDao.ReservedSpotIsNotOffered | src/main/java/com/parkit/parkingsystem/dao/ParkingSpotDAO.java:35-72 | after marking a spot unavailable, the next-spot query does not return it |
| ParkingSpotDao.OtherUpdatesKeepReservation | src/main/java/com/parkit/parkingsystem/dao/ParkingSpotDAO.java:67-72 | updating another spot leaves a reserved spot reserved |
| TicketDao.TicketSave | src/main/java/com/parkit/parkingsystem/dao/TicketDAO.java:41-89 | succeeds iff the insert runs; appends one row with the next id, spot, registration number, price, entry time and optional exit time; a failure changes nothing |
| TicketDao.TicketUpdate | src/main/java/com/parkit/parkingsystem/dao/TicketDAO.java:99-122 | succeeds iff the statement runs, the ticket has an exit time and some row has its id; only those rows' price and exit time change; a failure changes nothing |
| TicketDao.TicketLookup | src/main/java/com/parkit/parkingsystem/dao/TicketDAO.java:130-157 | none on failure; otherwise none iff no row matches; a found row matches and has the earliest entry time |
| TicketDao.TicketCount | src/main/java/com/parkit/parkingsystem/dao/TicketDAO.java:165-189 | 0 on failure; otherwise the number of rows of exactly that vehicle |
| TicketDao.TicketDAO.SaveTicket | src/main/java/com/parkit/parkingsystem/dao/TicketDAO.java:41-89 | result and new tables are `TicketSave` of the ticket's spot number and fields |
| TicketDao.TicketDAO.UpdateTicket | src/main/java/com/parkit/parkingsystem/dao/TicketDAO.java:99-122 | result and new tables are `TicketUpdate` of the ticket's id, price and exit time |
| TicketDao.TicketDAO.GetTicket | src/main/java/com/parkit/parkingsystem/dao/TicketDAO.java:130-157 | null iff the lookup finds nothing; otherwise a fresh ticket with the row's fields and a fresh spot with the row's number, the joined category, marked unavailable |
| TicketDao.TicketDAO.GetIncomingTicket | src/main/java/com/parkit/parkingsystem/constants/DBConstants.java:15 | the same over open tickets only |
| TicketDao.TicketDAO.GetNbTicket | src/main/java/com/parkit/parkingsystem/dao/TicketDAO.java:165-189 | returns `TicketCount` of the database |
| TicketDao.SaveAddsOneTicket | src/main/java/com/parkit/parkingsystem/dao/TicketDAO.java:41-89 | a successful save adds one to the saved vehicle's count and leaves other counts alone |
| TicketDao.UpdateKeepsCounts | src/main/java/com/parkit/parkingsystem/dao/TicketDAO.java:99-122 | an update never changes any vehicle's count |
| TicketDao.SavePreservesWellFormed | src/main/java/com/parkit/parkingsystem/dao/TicketDAO.java:53-66 | a save on an existing spot keeps ids sequential and every ticket on an existing spot |
| TicketDao.UpdatePreservesWellFormed | src/main/java/com/parkit/parkingsystem/dao/TicketDAO.java:105-110 | an update keeps the table guarantees |
| TicketDao.UpdateTouchesOneRow | src/main/java/com/parkit/parkingsystem/dao/TicketDAO.java:105-113 | with sequential ids a successful update changes exactly row id - 1 |
| Service.VehicleType | src/main/java/com/parkit/parkingsystem/service/ParkingService.java:165-182 | menu entry 1 iff car, 2 iff bike, anything else invalid |
| Service.NextParkingNumber | src/main/java/com/parkit/parkingsystem/service/ParkingService.java:146-163 | a number is offered only for a valid selection whose query ran, and it is a positive number of a free spot of that category |
| Service.Incoming | src/main/java/com/parkit/parkingsystem/service/ParkingService.java:84-139 | entry keeps the set of spots; it appends exactly one open ticket (that spot, price 0, the entry time) when it parks and no ticket otherwise; it changes nothing when it stops before the reservation is written |
| Service.Closing | src/main/java/com/parkit/parkingsystem/service/ParkingService.java:197-223 | closing keeps the set of spots and the number of tickets, changes nothing unless the vehicle exits, and charges a non-negative price |
| Service.Exiting | src/main/java/com/parkit/parkingsystem/service/ParkingService.java:184-228 | exit keeps the set of spots and the number of tickets, changes nothing unless the vehicle exits, and charges a non-negative price |
| Service.NextParkingNumberIsLowestFreeSpot | src/main/java/com/parkit/parkingsystem/service/ParkingService.java:146-163 | a spot is offered iff the selection is valid, the query works and a spot of that category is free; it is the lowest such spot |
| Service.InvalidSelectionIgnoresStore | src/main/java/com/parkit/parkingsystem/service/ParkingService.java:150-157 | an invalid selection offers no spot, whatever the store holds or fails |
| Service.IncomingWithoutSpotOrRegNumberChangesNothing | src/main/java/com/parkit/parkingsystem/service/ParkingService.java:86-96 | with no spot or an empty registration number, entry changes nothing and reports why |
| Service.IncomingParksIff | src/main/java/com/parkit/parkingsystem/service/ParkingService.java:84-139 | a vehicle is parked iff every step can succeed; the steps are a valid selection, a free spot, a registration number, a reservation, a test-clock slot and a save |
| Service.IncomingParked | src/main/java/com/parkit/parkingsystem/service/ParkingService.java:98-127 | the lowest free spot becomes unavailable and one ticket is appended: that spot, the number, price 0, no exit time, the clock's entry time; the count grows by one |
| Service.IncomingFailureKeepsTickets | src/main/java/com/parkit/parkingsystem/service/ParkingService.java:104-131 | a failed entry saves no ticket; before the reservation it changes nothing, after it the spot stays reserved |
| Service.FailedSaveKeepsReservation | src/main/java/com/parkit/parkingsystem/service/ParkingService.java:127-131 | a failed save after a successful reservation leaves the spot unavailable: no rollback |
| Service.IncomingPreservesWellFormed | src/main/java/com/parkit/parkingsystem/service/ParkingService.java:104-131 | entry keeps the table guarantees |
| Service.IncomingPreservesOccupancy | src/main/java/com/parkit/parkingsystem/service/ParkingService.java:104-131 | entry keeps every open ticket's spot unavailable and no spot held by two open tickets |
| Service.ExitWithoutTicketChangesNothing | src/main/java/com/parkit/parkingsystem/service/ParkingService.java:193-196 | with no ticket found, exit changes nothing |
| Service.ExitReleasesOnlyAfterTicketUpdate | src/main/java/com/parkit/parkingsystem/service/ParkingService.java:218-223 | an exit that does not complete changes nothing, so spots change only after a successful ticket update |
| Service.ExitedClosesTicket | src/main/java/com/parkit/parkingsystem/service/ParkingService.java:199-223 | a completed exit takes its exit time from the chosen clock and prices the found ticket with the discount iff count > 1; only that ticket's price and exit time change, and its spot is freed unless that statement fails |
| Service.DiscountIffRecurring | src/main/java/com/parkit/parkingsystem/service/ParkingService.java:205-216 | a charged exit price is the integer-cent formula with 95% exactly when the count exceeds one |
| Service.ExitKeepsCounts | src/main/java/com/parkit/parkingsystem/service/ParkingService.java:188-223 | exit never changes any vehicle's ticket count |
| Service.ExitingPreservesWellFormed | src/main/java/com/parkit/parkingsystem/service/ParkingService.java:213-223 | exit keeps the table guarantees |
| Service.ExitingOpenTicketPreservesOccupancy | src/main/java/com/parkit/parkingsystem/service/ParkingService.java:218-223 | exit with the open-ticket lookup keeps the occupancy guarantee |
| Service.ParkingService.constructor | src/main/java/com/parkit/parkingsystem/service/ParkingService.java:28-32 | the service keeps both data-access objects |
| Service.ParkingService.GetNextParkingNumberIfAvailable | src/main/java/com/parkit/parkingsystem/service/ParkingService.java:146-163 | null iff no spot is offered; otherwise a fresh available spot with the offered number and the selected category |
| Service.ParkingService.ProcessIncomingVehicleWithTestClock | src/main/java/com/parkit/parkingsystem/service/ParkingService.java:84-139 | outcome and new tables are `Incoming` of the old tables |
| Service.ParkingService.ProcessIncomingVehicle | src/main/java/com/parkit/parkingsystem/service/ParkingService.java:34-82 | the same on the real clock |
| Service.ParkingService.ProcessExitingVehicleWithTestClock | src/main/java/com/parkit/parkingsystem/service/ParkingService.java:184-228 | outcome and new tables are `Exiting` of the old tables with the oldest-ticket lookup |
| Service.ParkingService.ProcessExitingVehicle | src/main/java/com/parkit/parkingsystem/service/ParkingService.java:230-266 | the same on the real clock; a missing ticket ends it with the same result as the null check |
| Service.ParkingService.ProcessExitingVehicleOpenTicket | src/main/java/com/parkit/parkingsystem/service/ParkingService.java:184-228 | the exit workflow with the open-ticket lookup |
| Service.ParkingService.CloseTicket | src/main/java/com/parkit/parkingsystem/service/ParkingService.java:197-223 | outcome and new tables are `Closing` of the ticket's row; on success the ticket carries the exit time and price and its spot is available; once the clock yields an exit time the ticket object keeps it even if the fare or the update fails; a rejected fare leaves the price, and any failure the spot flag, as they were |
| ParkingDataBaseScenario.PreparedPoolIsCleared | src/test/java/com/parkit/parkingsystem/integration/service/DataBasePrepareService.java:29-45 | preparing the five-spot pool, whatever its flags, yields exactly the cleared tables every scenario starts from |
| ParkingDataBaseScenario.ClearedIsConsistent | src/test/java/com/parkit/parkingsystem/integration/service/DataBasePrepareService.java:29-45 | the cleared tables satisfy both guarantees |
| ParkingDataBaseScenario.TestStayPrices | src/test/java/com/parkit/parkingsystem/integration/ParkingDataBaseIT.java:120-124 | a four-hour test stay in a car costs 6.00, and 5.70 with the discount |
| ParkingDataBaseScenario.ParkingACar | src/test/java/com/parkit/parkingsystem/integration/ParkingDataBaseIT.java:60-74 | the car gets spot 1, its ticket is saved and reads back with the spot taken |
| ParkingDataBaseScenario.ParkingLotExit | src/test/java/com/parkit/parkingsystem/integration/ParkingDataBaseIT.java:91-114 | as written, from the cleared tables: the car parks on spot 1 at the first fixed entry time, the oldest-ticket exit charges 6.00, and the read-back ticket holds 6.00 and the first fixed exit time |
| ParkingDataBaseScenario.FirstExitAsWritten | src/main/java/com/parkit/parkingsystem/service/ParkingService.java:184-228 | with a single ticket the oldest-ticket exit closes it at 6.00 and frees spot 1, as the open-ticket exit does |
| ParkingDataBaseScenario.RecurringCycle | src/test/java/com/parkit/parkingsystem/integration/ParkingDataBaseIT.java:127-131 | each cycle of the recurring-user loop with the open-ticket exit parks on spot 1 and pays 6.00, then 5.70 |
| ParkingDataBaseScenario.RecurringUserWithOpenTicketLookup | src/test/java/com/parkit/parkingsystem/integration/ParkingDataBaseIT.java:116-153 | three cycles leave the tickets priced 6.00, 5.70, 5.70 and a count of `NUMBER_OF_TICKETS`; the per-cycle read-back `getTicket` (line 133) still returns ticket 1 at 6.00 after every cycle, so the 5.70 expected at line 144 is not what it reads |
| ParkingDataBaseScenario.ReadBackAfterCycle | src/test/java/com/parkit/parkingsystem/integration/ParkingDataBaseIT.java:133 | after any completed cycle, the oldest-ticket read-back returns the first ticket, priced 6.00 |
| ParkingDataBaseScenario.SecondVisitOldestTicket | src/main/java/com/parkit/parkingsystem/constants/DBConstants.java:14 | at the second exit the oldest-ticket lookup returns the first, already closed ticket |
| ParkingDataBaseScenario.RecurringUserAsWritten | src/test/java/com/parkit/parkingsystem/integration/ParkingDataBaseIT.java:127-145 | as written, from the cleared tables: the first cycle pays 6.00; in the second the car parks with occupancy intact, then the exit re-closes ticket 1 at 39.90, leaves ticket 2 open and frees its spot, breaking occupancy |

## Left out

- Console input (`InputReaderUtil`), the menu loop (`InteractiveShell`), `App`, logging and printed messages: the selection, the registration number and the clock are parameters, and each message becomes an outcome constructor.
- JDBC connection handling (`DataBaseConfig`, `DataBaseTestConfig`), statement binding and `Timestamp` conversion are replaced by the in-memory `Database`. A connection that cannot be made is a statement in `faulty`.
- Floating point: prices are exact integer cents. The source's doubles are not modelled bit for bit, so a product a rounding error away from a half cent may round differently.
- Java `long` overflow of millisecond arithmetic is not modelled: times are unbounded integers.
- Exception types: a missing exit time raises a `NullPointerException` while building the message of the intended `IllegalArgumentException`, and a spot without category raises one in the `switch`. The model keeps only the distinct `FareError`s, because every caller treats them alike.
- The database's row order for equal IN_TIME is not specified by SQL; the model breaks ties by insertion order.
- The schema (foreign key from ticket to parking, column types) is not part of this model; an insert never affects zero rows, and the price column holds cents.
- Service.InvalidSelectionIgnoresStore: states that the store's answer does not matter for an invalid selection; that the query is never sent cannot be observed in a model whose queries are read-only.
- Concurrency between sessions: the workflows run one at a time, as in the source.
- Service.Incoming: the registration-number parameter is what `readVehicleRegistrationNumber` returns, which is never blank (`InputReaderUtil.java:49-51` throws for a null, empty or whitespace-only line, and the workflow aborts); the model rejects only the empty number and would park a whitespace-only one, a case the source cannot reach.
- The clean-up's own failure (`DataBasePrepareService.java:40-41` logs and continues) is not modelled: the prepared database always has both statements applied.
- The single dates `IN_TIME_TEST`/`OUT_TIME_TEST` of `DBConstants.java:16-27` are not modelled: no modelled path reads them (see the assumption about the test clock).

## Findings

| source | as written | input that shows it | evidently intended | confidence | as-written member | corrected member |
|---|---|---|---|---|---|---|
| src/main/java/com/parkit/parkingsystem/constants/DBConstants.java:14 | exit looks the ticket up with `GET_TICKET`, the vehicle's oldest ticket open or closed | second cycle of the recurring-user integration test: ticket 1 (closed at 6.00) is re-closed over 28 hours at 39.90 and ticket 2 stays open while spot 1 is freed | exit closes the vehicle's open ticket (`GET_INCOMING_TICKET`, line 15), so the three tickets are priced 6.00, 5.70, 5.70 and every open ticket's spot stays taken; the test's own read-back (`getTicket`, ParkingDataBaseIT.java:133) still returns ticket 1 at 6.00 after every cycle, so its assertion at line 144 holds only if that read-back also takes the vehicle's most recent ticket | not executed | ParkingDataBaseScenario.RecurringUserAsWritten | Service.ExitingOpenTicketPreservesOccupancy |
