/**
 * The rental rule engine: creating vehicles, listing the available ones,
 * renting and returning. Each operation is first stated as a transition of
 * the table (Create, Rent, Return), with the guards in the order the service
 * evaluates them; the class VehicleService then performs the same steps
 * against a VehicleRepository and is proved to follow those transitions.
 *
 * The current year comes from the system clock in the service; here it is a
 * parameter. Exceptions become a Failure outcome naming the error.
 */
module Rental {
  import opened Entities
  import opened Repository

  /** One error per guard of the rule engine. */
  datatype RentalError =
    | NotFound
    | AgeLimitExceeded
    | AlreadyRented
    | UserAlreadyRenting
    | NotRented
    | NotRenter

  datatype Outcome = Success | Failure(error: RentalError)

  /** What an operation reports and the table it leaves behind. */
  datatype Transition = Transition(outcome: Outcome, store: Store)

  /** Every record pairs its rented flag with a recorded renter. */
  ghost predicate AllConsistent(s: Store)
  {
    forall k | k in s.vehicles :: RentalConsistent(s.vehicles[k])
  }

  /** No renter is named by two different records. */
  ghost predicate OneRentalPerUser(s: Store)
  {
    forall i, j | i in s.vehicles && j in s.vehicles && s.vehicles[i].rentedBy.Some?
      && s.vehicles[i].rentedBy == s.vehicles[j].rentedBy :: i == j
  }

  // ---------------------------------------------------------------------
  // The transitions.
  // ---------------------------------------------------------------------

  /**
   * Creating a vehicle. A null vehicle is silently ignored. Otherwise a
   * vehicle built more than five years before `currentYear` is refused;
   * any other is added as given, rented flag and renter included.
   */
  function Create(s: Store, vehicle: Option<Vehicle>, currentYear: int): (t: Transition)
    requires WellFormed(s)
    ensures WellFormed(t.store)
    ensures vehicle.None? ==> t == Transition(Success, s)
    ensures t.outcome == Failure(AgeLimitExceeded)
        <==> vehicle.Some? && vehicle.value.yearOfManufacture < currentYear - 5
    ensures t.outcome.Success? || t.outcome == Failure(AgeLimitExceeded)
    ensures t.outcome.Failure? ==> t.store == s
    ensures t.outcome.Success? && vehicle.Some? ==>
      && t.store.vehicles.Keys == s.vehicles.Keys + {s.nextId}
      && s.nextId !in s.vehicles
      && t.store.vehicles[s.nextId] == vehicle.value.(id := s.nextId)
      && forall k | k in s.vehicles :: t.store.vehicles[k] == s.vehicles[k]
  {
    match vehicle
    case None => Transition(Success, s)
    case Some(v) =>
      if v.yearOfManufacture < currentYear - 5 then Transition(Failure(AgeLimitExceeded), s)
      else Transition(Success, Added(s, v))
  }

  /**
   * Renting vehicle `vehicleId` to `userId`. The guards run in this order and
   * the first that fails decides the error: the vehicle must exist, must not
   * be rented, and the user must not already be named as a renter. On
   * success the record is marked rented by `userId`.
   */
  function Rent(s: Store, vehicleId: int, userId: string): (t: Transition)
    requires WellFormed(s)
    ensures WellFormed(t.store)
    ensures t.outcome == Failure(NotFound) <==> vehicleId !in s.vehicles
    ensures t.outcome == Failure(AlreadyRented)
        <==> vehicleId in s.vehicles && s.vehicles[vehicleId].isRented
    ensures t.outcome == Failure(UserAlreadyRenting)
        <==> vehicleId in s.vehicles && !s.vehicles[vehicleId].isRented && UserHasActiveRental(s, Some(userId))
    ensures t.outcome.Success? || t.outcome.error in {NotFound, AlreadyRented, UserAlreadyRenting}
    ensures t.outcome.Failure? ==> t.store == s
    ensures t.outcome.Success? ==>
      && vehicleId in s.vehicles
      && t.store.nextId == s.nextId
      && t.store.vehicles.Keys == s.vehicles.Keys
      && t.store.vehicles[vehicleId] == s.vehicles[vehicleId].(isRented := true, rentedBy := Some(userId))
      && forall k | k in s.vehicles && k != vehicleId :: t.store.vehicles[k] == s.vehicles[k]
  {
    match GetVehicleById(s, vehicleId)
    case None => Transition(Failure(NotFound), s)
    case Some(v) =>
      if v.isRented then Transition(Failure(AlreadyRented), s)
      else if UserHasActiveRental(s, Some(userId)) then Transition(Failure(UserAlreadyRenting), s)
      else Transition(Success, Updated(s, v.(isRented := true, rentedBy := Some(userId))))
  }

  /**
   * Returning vehicle `vehicleId` by `userId`. The guards run in this order
   * and the first that fails decides the error: the vehicle must exist, must
   * be rented, and must be rented by `userId`. On success the record is
   * marked not rented and its renter cleared.
   */
  function Return(s: Store, vehicleId: int, userId: string): (t: Transition)
    requires WellFormed(s)
    ensures WellFormed(t.store)
    ensures t.outcome == Failure(NotFound) <==> vehicleId !in s.vehicles
    ensures t.outcome == Failure(NotRented)
        <==> vehicleId in s.vehicles && !s.vehicles[vehicleId].isRented
    ensures t.outcome == Failure(NotRenter)
        <==> vehicleId in s.vehicles && s.vehicles[vehicleId].isRented && s.vehicles[vehicleId].rentedBy != Some(userId)
    ensures t.outcome.Success? || t.outcome.error in {NotFound, NotRented, NotRenter}
    ensures t.outcome.Failure? ==> t.store == s
    ensures t.outcome.Success? ==>
      && vehicleId in s.vehicles
      && t.store.nextId == s.nextId
      && t.store.vehicles.Keys == s.vehicles.Keys
      && t.store.vehicles[vehicleId] == s.vehicles[vehicleId].(isRented := false, rentedBy := None)
      && forall k | k in s.vehicles && k != vehicleId :: t.store.vehicles[k] == s.vehicles[k]
  {
    match GetVehicleById(s, vehicleId)
    case None => Transition(Failure(NotFound), s)
    case Some(v) =>
      if !v.isRented then Transition(Failure(NotRented), s)
      else if v.rentedBy != Some(userId) then Transition(Failure(NotRenter), s)
      else Transition(Success, Updated(s, v.(isRented := false, rentedBy := None)))
  }

  // ---------------------------------------------------------------------
  // Invariants kept by renting and returning.
  // ---------------------------------------------------------------------

  lemma RentPreservesConsistency(s: Store, vehicleId: int, userId: string)
    requires WellFormed(s) && AllConsistent(s)
    ensures AllConsistent(Rent(s, vehicleId, userId).store)
  {
  }

  lemma ReturnPreservesConsistency(s: Store, vehicleId: int, userId: string)
    requires WellFormed(s) && AllConsistent(s)
    ensures AllConsistent(Return(s, vehicleId, userId).store)
  {
  }

  /**
   * Renting keeps every renter to at most one record: the only renter it
   * writes is one the active-rental guard found on no record.
   */
  lemma RentPreservesOneRentalPerUser(s: Store, vehicleId: int, userId: string)
    requires WellFormed(s) && OneRentalPerUser(s)
    ensures OneRentalPerUser(Rent(s, vehicleId, userId).store)
  {
  }

  /** Returning only clears a renter, so no renter gains a second record. */
  lemma ReturnPreservesOneRentalPerUser(s: Store, vehicleId: int, userId: string)
    requires WellFormed(s) && OneRentalPerUser(s)
    ensures OneRentalPerUser(Return(s, vehicleId, userId).store)
  {
  }

  /**
   * A successful rent writes a renter that no record named before, and
   * afterwards that renter is among the renters of the table.
   */
  lemma RentRecordsANewRenter(s: Store, vehicleId: int, userId: string)
    requires WellFormed(s) && Rent(s, vehicleId, userId).outcome == Success
    ensures Some(userId) !in Renters(s.vehicles)
    ensures Some(userId) in Renters(Rent(s, vehicleId, userId).store.vehicles)
  {
  }

  /**
   * A successful return was made by a renter of the table, and when every
   * renter holds at most one record, that user holds none afterwards.
   */
  lemma ReturnReleasesTheRenter(s: Store, vehicleId: int, userId: string)
    requires WellFormed(s) && OneRentalPerUser(s) && Return(s, vehicleId, userId).outcome == Success
    ensures Some(userId) in Renters(s.vehicles)
    ensures Some(userId) !in Renters(Return(s, vehicleId, userId).store.vehicles)
  {
  }

  /**
   * Creating a vehicle that arrives neither rented nor naming a renter keeps
   * both invariants. The service itself does not clear those two fields.
   */
  lemma CreateOfFreshVehiclePreservesInvariants(s: Store, vehicle: Vehicle, currentYear: int)
    requires WellFormed(s) && AllConsistent(s) && OneRentalPerUser(s)
    requires !vehicle.isRented && vehicle.rentedBy == None
    ensures AllConsistent(Create(s, Some(vehicle), currentYear).store)
    ensures OneRentalPerUser(Create(s, Some(vehicle), currentYear).store)
  {
  }

  /**
   * Creation takes the rental fields as given: a new vehicle that arrives
   * rented by someone who already rents breaks one-rental-per-user, and one
   * that arrives rented with no renter breaks the pairing.
   */
  lemma CreateKeepsIncomingRentalFields()
    ensures
      var s := Store(map[1 := Vehicle(1, "A", 2024, true, Some("alice"))], 2);
      var t := Create(s, Some(Vehicle(0, "B", 2024, true, Some("alice"))), 2025);
      t.outcome == Success && !OneRentalPerUser(t.store)
    ensures
      var s := Store(map[], 1);
      var t := Create(s, Some(Vehicle(0, "C", 2024, true, None)), 2025);
      t.outcome == Success && !AllConsistent(t.store)
  {
  }

  // ---------------------------------------------------------------------
  // How operations combine.
  // ---------------------------------------------------------------------

  /**
   * Renting a vehicle that names no renter and then returning it as the same
   * user gives back the table exactly as it was.
   */
  lemma RentThenReturnRestores(s: Store, vehicleId: int, userId: string)
    requires WellFormed(s)
    requires Rent(s, vehicleId, userId).outcome == Success
    requires s.vehicles[vehicleId].rentedBy == None
    ensures Return(Rent(s, vehicleId, userId).store, vehicleId, userId) == Transition(Success, s)
  {
  }

  /** Once a vehicle is rented, renting it again fails, whoever asks. */
  lemma RentedVehicleCannotBeRentedAgain(s: Store, vehicleId: int, userId: string, otherUser: string)
    requires WellFormed(s)
    requires Rent(s, vehicleId, userId).outcome == Success
    ensures Rent(Rent(s, vehicleId, userId).store, vehicleId, otherUser).outcome == Failure(AlreadyRented)
  {
  }

  /**
   * Once a user rents a vehicle, renting any other existing vehicle that is
   * not rented fails because of the user's active rental.
   */
  lemma RenterCannotRentASecondVehicle(s: Store, vehicleId: int, userId: string, otherId: int)
    requires WellFormed(s)
    requires Rent(s, vehicleId, userId).outcome == Success
    requires otherId != vehicleId && otherId in s.vehicles && !s.vehicles[otherId].isRented
    ensures Rent(Rent(s, vehicleId, userId).store, otherId, userId).outcome == Failure(UserAlreadyRenting)
  {
  }

  // ---------------------------------------------------------------------
  // The age limit of creation and the availability filter agree.
  // ---------------------------------------------------------------------

  /** A vehicle admitted in a year, if it is not rented, is listed as available in that year. */
  lemma AdmittedVehicleIsListed(s: Store, vehicle: Vehicle, currentYear: int)
    requires WellFormed(s)
    requires !vehicle.isRented
    requires Create(s, Some(vehicle), currentYear).outcome == Success
    ensures vehicle.(id := s.nextId) in GetAvailableVehicles(Create(s, Some(vehicle), currentYear).store, currentYear)
  {
  }

  /** Every vehicle listed as available in a year would pass creation's age limit that year. */
  lemma ListedVehicleIsAdmissible(s: Store, currentYear: int, v: Vehicle)
    requires WellFormed(s)
    requires v in GetAvailableVehicles(s, currentYear)
    ensures Create(s, Some(v), currentYear).outcome == Success
  {
  }

  // ---------------------------------------------------------------------
  // A worked scenario.
  // ---------------------------------------------------------------------

  /**
   * Starting from an empty table in 2025, with vehicles built from the
   * defaults of a new record: a 2022 vehicle is created under
   * key 1, a 2019 vehicle is refused; alice rents vehicle 1, bob cannot rent
   * it, bob cannot return it, alice returns it.
   */
  lemma RentalScenario()
    ensures
      var s0 := Store(map[], 1);
      var c1 := Create(s0, Some(NewVehicle().(model := "Ibiza", yearOfManufacture := 2022)), 2025);
      var c2 := Create(c1.store, Some(NewVehicle().(model := "Leon", yearOfManufacture := 2019)), 2025);
      var r1 := Rent(c2.store, 1, "alice");
      var r2 := Rent(r1.store, 1, "bob");
      var b1 := Return(r2.store, 1, "bob");
      var b2 := Return(b1.store, 1, "alice");
      && c1.outcome == Success && c1.store.vehicles == map[1 := Vehicle(1, "Ibiza", 2022, false, None)]
      && c2.outcome == Failure(AgeLimitExceeded)
      && r1.outcome == Success
      && r2.outcome == Failure(AlreadyRented)
      && b1.outcome == Failure(NotRenter)
      && b2.outcome == Success && b2.store == c1.store
  {
  }

  // ---------------------------------------------------------------------
  // The service.
  // ---------------------------------------------------------------------

  /**
   * The rental service over a repository. Each method runs the guards of
   * the corresponding transition as sequential steps against the
   * repository, then writes the changed record back through it.
   */
  class VehicleService {
    const repository: VehicleRepository

    constructor (repository: VehicleRepository)
      ensures this.repository == repository
    {
      this.repository := repository;
    }

    method CreateVehicle(vehicle: Option<Vehicle>, currentYear: int) returns (outcome: Outcome)
      requires repository.Valid()
      modifies repository
      ensures repository.Valid()
      ensures Transition(outcome, repository.State()) == Create(old(repository.State()), vehicle, currentYear)
    {
      outcome := Success;
      if vehicle.Some? {
        if vehicle.value.yearOfManufacture < currentYear - 5 {
          return Failure(AgeLimitExceeded);
        }
        var _ := repository.AddVehicle(vehicle.value);
      }
    }

    /** The availability listing; it reads the repository and changes nothing. */
    method GetAvailableVehicles(currentYear: int) returns (available: seq<Vehicle>)
      requires repository.Valid()
      ensures forall v | v in available ::
        v.id in repository.vehicles && repository.vehicles[v.id] == v && IsAvailable(v, currentYear)
      ensures forall k | k in repository.vehicles && IsAvailable(repository.vehicles[k], currentYear) ::
        repository.vehicles[k] in available
      ensures forall i, j | 0 <= i < j < |available| :: available[i].id < available[j].id
    {
      available := Repository.GetAvailableVehicles(repository.State(), currentYear);
    }

    /** Rents a vehicle; the caller has already refused an empty user id. */
    method RentVehicle(vehicleId: int, userId: string) returns (outcome: Outcome)
      requires userId != ""
      requires repository.Valid()
      modifies repository
      ensures repository.Valid()
      ensures Transition(outcome, repository.State()) == Rent(old(repository.State()), vehicleId, userId)
    {
      var found := GetVehicleById(repository.State(), vehicleId);
      if found.None? {
        return Failure(NotFound);
      }
      var vehicle := found.value;
      if vehicle.isRented {
        return Failure(AlreadyRented);
      }
      var userHasVehicle := UserHasActiveRental(repository.State(), Some(userId));
      if userHasVehicle {
        return Failure(UserAlreadyRenting);
      }
      vehicle := vehicle.(isRented := true, rentedBy := Some(userId));
      var updated := repository.UpdateVehicle(vehicle);
      assert updated;
      outcome := Success;
    }

    /** Returns a vehicle; the caller has already refused an empty user id. */
    method ReturnVehicle(vehicleId: int, userId: string) returns (outcome: Outcome)
      requires userId != ""
      requires repository.Valid()
      modifies repository
      ensures repository.Valid()
      ensures Transition(outcome, repository.State()) == Return(old(repository.State()), vehicleId, userId)
    {
      var found := GetVehicleById(repository.State(), vehicleId);
      if found.None? {
        return Failure(NotFound);
      }
      var vehicle := found.value;
      if !vehicle.isRented {
        return Failure(NotRented);
      }
      if vehicle.rentedBy != Some(userId) {
        return Failure(NotRenter);
      }
      vehicle := vehicle.(isRented := false, rentedBy := None);
      var updated := repository.UpdateVehicle(vehicle);
      assert updated;
      outcome := Success;
    }
  }
}
