# Vehicle rental rule engine and vehicle store

A Dafny model of the core of a small vehicle-rental service. The service
keeps a table of `Vehicle` records (id, model, year of manufacture, rented
flag, renter id). It offers four operations:

- **create** refuses a vehicle built more than five years before the current
  year and otherwise adds it to the table. A null vehicle is silently ignored.
- **list available** returns the records that are not rented and at most five
  years old.
- **rent** runs three guards in a fixed order: the vehicle exists, it is not
  rented, and the user is not already named as a renter. It then marks the
  vehicle rented by the user.
- **return** runs three guards in a fixed order: the vehicle exists, it is
  rented, and it is rented by this user. It then clears the rented flag and
  the renter.

Files:

- `entities.dfy` (module `Entities`) holds the `Vehicle` record. It is a
  datatype that the store replaces as a whole, where the service assigns two
  properties of a tracked object in place. A null renter is `None`.
- `repository.dfy` (module `Repository`) holds the store. The table is
  `Store(vehicles: map<int, Vehicle>, nextId: int)`. `nextId` stands for the
  database's identity column: keys are handed out as 1, 2, 3, ... and each
  record carries its own key. This is the `WellFormed` predicate. The three
  queries are functions of the table. Add and update are methods of the class
  `VehicleRepository`, which updates its `vehicles` and `nextId` fields in
  place. Each method is proved against a pure function (`Added`, `Updated`).
- `rental.dfy` (module `Rental`) holds the rule engine. Each operation is first
  a transition of the table (`Create`, `Rent`, `Return`), returning an
  `Outcome` (`Success` or `Failure` with one of `NotFound`,
  `AgeLimitExceeded`, `AlreadyRented`, `UserAlreadyRenting`, `NotRented`,
  `NotRenter`) and the new table. The class `VehicleService` performs the same
  guarded steps against a `VehicleRepository`, and each method is proved to
  produce exactly that transition. The lemmas state what the transitions keep
  and how they combine.

The clock (`DateTime.Now.Year`) is the parameter `currentYear`. Exceptions
become `Failure` outcomes.

`CreateVehicleAsync` passes the incoming record to the store unchanged, so its
rented flag and renter are stored as given. `Rental.CreateKeepsIncomingRentalFields`
shows that this can break both rental invariants. The invariants are therefore
proved for rent and return. For create they are proved only under an explicit
assumption that the incoming vehicle is neither rented nor names a renter
(`Rental.CreateOfFreshVehiclePreservesInvariants`). The incoming id is passed on
too, and the store generates a key only when it is 0. The model always assigns
the next identity value instead (see "Left out").

## Model

| member | source | states |
|---|---|---|
| `Entities.NewVehicle` | src/GtMotive.Estimate.Microservice.Domain/Entities/Vehicle.cs:11-31 | A new record has id 0, year 0, an empty model, is not rented, has a null renter, and so satisfies the rented-iff-renter pairing |
| `Repository.GetVehicleById` | src/GtMotive.Estimate.Microservice.Infrastructure/Repository/VehicleRepository.cs:29-32 | The lookup is null exactly when no record has that key; otherwise it is the stored record, whose id is the key asked for |
| `Repository.AvailableInRange` | src/GtMotive.Estimate.Microservice.Infrastructure/Repository/VehicleRepository.cs:24-26 | Over the keys of a range, the filter result holds only stored records satisfying `IsAvailable` (not rented and `yearOfManufacture >= currentYear - 5`), holds every such record, and lists them in strictly ascending key order (so once each) |
| `Repository.GetAvailableVehicles` | src/GtMotive.Estimate.Microservice.Domain/Repositories/IVehicleRepository.cs:19-23 | The available list is exactly the stored records with `!isRented && yearOfManufacture >= currentYear - 5`: every element qualifies, every qualifying record appears, each once |
| `Repository.Added` | src/GtMotive.Estimate.Microservice.Domain/Repositories/IVehicleRepository.cs:12-17 | Adding stores the vehicle under a key not in use before, with that key as its id; all existing records are unchanged and the table grows by one |
| `Repository.Updated` | src/GtMotive.Estimate.Microservice.Domain/Repositories/IVehicleRepository.cs:32-37 | Updating an existing record replaces only the record with the vehicle's id; the key set and every other record are unchanged |
| `Repository.UserHasActiveRental` | src/GtMotive.Estimate.Microservice.Infrastructure/Repository/VehicleRepository.cs:40-43 | True exactly when the user is among the renter fields of the stored records: some stored record names the user as renter; the rented flag is not read, and a null user matches every record without a renter |
| `Repository.ActiveRentalIgnoresRentedFlag` | src/GtMotive.Estimate.Microservice.Infrastructure/Repository/VehicleRepository.cs:40-43 | Whether a user has an active rental does not depend on any record's rented flag, only on the renter field |
| `Repository.StaleRenterCountsAsActive` | src/GtMotive.Estimate.Microservice.Infrastructure/Repository/VehicleRepository.cs:42 | A record that is not rented but still names a user counts as that user's active rental |
| `Repository.NullUserMatchesUnrentedRecord` | src/GtMotive.Estimate.Microservice.Domain/Repositories/IVehicleRepository.cs:39-44 | Asked about a null user, the active-rental query is true as soon as one record has no renter; this is why callers must refuse a missing user id |
| `Repository.VehicleRepository.constructor` | src/GtMotive.Estimate.Microservice.Infrastructure/Repository/VehicleRepository.cs:12-14 | The repository works on the table its database context already holds, whatever records it contains, provided every key was handed out by the identity column and carries its record |
| `Repository.VehicleRepository.AddVehicle` | src/GtMotive.Estimate.Microservice.Infrastructure/Repository/VehicleRepository.cs:16-20 | The table becomes `Added` of the old table: the vehicle is inserted under the next unused key, which is returned, and nothing else changes |
| `Repository.VehicleRepository.UpdateVehicle` | src/GtMotive.Estimate.Microservice.Infrastructure/Repository/VehicleRepository.cs:34-38 | Succeeds exactly when a record with the vehicle's id exists, and then the table becomes `Updated` of the old one; otherwise the table is unchanged |
| `Rental.Create` | src/GtMotive.Estimate.Microservice.ApplicationCore/Services/VehicleService.cs:22-33 | A null vehicle changes nothing and raises no error; creation fails with AgeLimitExceeded exactly when `yearOfManufacture < currentYear - 5`, leaving the table unchanged; otherwise the vehicle is added as given under a fresh key and no other record changes |
| `Rental.Rent` | src/GtMotive.Estimate.Microservice.ApplicationCore/Services/VehicleService.cs:53-70 | NotFound exactly when the id is missing; AlreadyRented exactly when it exists and is rented; UserAlreadyRenting exactly when it exists, is not rented and the user is named as renter somewhere; no other error; any failure leaves the table unchanged; success sets only `isRented = true` and `rentedBy = userId` on that record |
| `Rental.Return` | src/GtMotive.Estimate.Microservice.ApplicationCore/Services/VehicleService.cs:80-96 | NotFound exactly when the id is missing; NotRented exactly when it exists and is not rented; NotRenter exactly when it is rented by anyone other than the user; no other error; any failure leaves the table unchanged; success sets only `isRented = false` and `rentedBy = null` on that record |
| `Rental.RentPreservesConsistency` | src/GtMotive.Estimate.Microservice.ApplicationCore/Services/VehicleService.cs:67-68 | If every record pairs its rented flag with a renter before renting, the same holds after |
| `Rental.ReturnPreservesConsistency` | src/GtMotive.Estimate.Microservice.ApplicationCore/Services/VehicleService.cs:93-94 | If every record pairs its rented flag with a renter before returning, the same holds after |
| `Rental.RentPreservesOneRentalPerUser` | src/GtMotive.Estimate.Microservice.ApplicationCore/Services/VehicleService.cs:61-68 | If no renter is named by two records before renting, none is after |
| `Rental.ReturnPreservesOneRentalPerUser` | src/GtMotive.Estimate.Microservice.ApplicationCore/Services/VehicleService.cs:88-94 | If no renter is named by two records before returning, none is after |
| `Rental.RentRecordsANewRenter` | src/GtMotive.Estimate.Microservice.ApplicationCore/Services/VehicleService.cs:61-68 | A successful rent writes a user that was among the renters of no record before, and is among them afterwards |
| `Rental.ReturnReleasesTheRenter` | src/GtMotive.Estimate.Microservice.ApplicationCore/Services/VehicleService.cs:88-94 | A successful return is made by a user among the table's renters; when no renter holds two records, that user is among the renters of no record afterwards |
| `Rental.CreateOfFreshVehiclePreservesInvariants` | src/GtMotive.Estimate.Microservice.ApplicationCore/Services/VehicleService.cs:24-32 | Creating a vehicle that arrives neither rented nor naming a renter keeps both invariants (an assumption on the input, not something the service checks) |
| `Rental.CreateKeepsIncomingRentalFields` | src/GtMotive.Estimate.Microservice.ApplicationCore/Services/VehicleService.cs:32 | Creation stores the rented flag and renter as given: a concrete input breaks one-rental-per-user and another breaks the rented-iff-renter pairing |
| `Rental.RentThenReturnRestores` | src/GtMotive.Estimate.Microservice.ApplicationCore/Services/VehicleService.cs:53-96 | After a successful rent of a vehicle that named no renter, returning it as the same user succeeds and yields the original table exactly |
| `Rental.RentedVehicleCannotBeRentedAgain` | src/GtMotive.Estimate.Microservice.ApplicationCore/Services/VehicleService.cs:56-59 | After a successful rent, renting the same vehicle fails with AlreadyRented for every user |
| `Rental.RenterCannotRentASecondVehicle` | src/GtMotive.Estimate.Microservice.ApplicationCore/Services/VehicleService.cs:61-65 | After a successful rent, the same user renting any other existing, unrented vehicle fails with UserAlreadyRenting |
| `Rental.AdmittedVehicleIsListed` | src/GtMotive.Estimate.Microservice.Infrastructure/Repository/VehicleRepository.cs:25 | A vehicle accepted by creation in a year, if not rented, appears in the available list of that year, whatever renter it names (the two age limits agree in one direction) |
| `Rental.ListedVehicleIsAdmissible` | src/GtMotive.Estimate.Microservice.ApplicationCore/Services/VehicleService.cs:27 | Every vehicle in the available list of a year passes creation's age limit in that year (the other direction) |
| `Rental.RentalScenario` | src/GtMotive.Estimate.Microservice.ApplicationCore/Services/VehicleService.cs:22-96 | In 2025 a 2022 vehicle, built from the defaults of a new record, is created under key 1 and a 2019 one is refused; alice rents 1; bob's rent fails with AlreadyRented; bob's return fails with NotRenter; alice's return succeeds and restores the table |
| `Rental.VehicleService.constructor` | src/GtMotive.Estimate.Microservice.ApplicationCore/Services/VehicleService.cs:12-14 | The service works on the repository it is given |
| `Rental.VehicleService.CreateVehicle` | src/GtMotive.Estimate.Microservice.ApplicationCore/Services/VehicleService.cs:22-34 | Running the null check, the age guard and the add against the repository produces exactly the outcome and table of `Create` |
| `Rental.VehicleService.GetAvailableVehicles` | src/GtMotive.Estimate.Microservice.ApplicationCore/Services/VehicleService.cs:40-43 | The returned list holds exactly the repository's records that are not rented and at most five years old, each once, in ascending key order, and the repository is not changed |
| `Rental.VehicleService.RentVehicle` | src/GtMotive.Estimate.Microservice.ApplicationCore/Services/VehicleService.cs:53-70 | Fetching, the two guards, the in-place field changes and the write-back produce exactly the outcome and table of `Rent` |
| `Rental.VehicleService.ReturnVehicle` | src/GtMotive.Estimate.Microservice.ApplicationCore/Services/VehicleService.cs:80-96 | Fetching, the two guards, the in-place field changes and the write-back produce exactly the outcome and table of `Return` |

## Left out

- Asynchronous execution and concurrency: each operation is one atomic step. The race between the rent guards and the write-back, which can admit two renters, is not modelled.
- The HTTP controller: routing, payload validation and the mapping of errors to responses. Only its refusal of a missing or empty user id is kept, as `requires userId != ""` on `RentVehicle` and `ReturnVehicle`.
- Exception message texts: each error is one constructor of `RentalError`.
- Entity Framework internals: change tracking and the aliasing of the tracked object that rent and return modify, and `SaveChangesAsync`. The table is a map and the identity column is the counter `nextId`.
- Repository.VehicleRepository.AddVehicle: an incoming non-zero id is not modelled; the store always assigns the next identity value.
- Repository.VehicleRepository.UpdateVehicle: the only failure modelled is a missing record; other persistence failures are not. A vehicle with id 0, which the store would insert as a new row, is treated as missing.
- Repository.GetAvailableVehicles: the database returns rows in its own order; the model fixes ascending key order, which is also insertion order here.
- 32-bit integers: ids, years and the key counter are unbounded, so the store's failure to insert once the identity column passes 2^31 - 1 is not modelled. `currentYear - 5` cannot overflow for calendar years.
- `Model` is a non-null string; a null model is not modelled.
- The clock is read separately by create and by the availability query; the model passes the year to each and does not relate two reads.
