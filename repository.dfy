/**
 * The vehicle store: the abstract repository contract and its concrete
 * implementation over a single table. The table is a map from key to record;
 * the database's identity column is the counter `nextId`, which hands out
 * keys 1, 2, 3, ... in insertion order.
 */
module Repository {
  import opened Entities

  /** The whole table and the next key its identity column will hand out. */
  datatype Store = Store(vehicles: map<int, Vehicle>, nextId: int)

  /**
   * What the table guarantees: every key was handed out by the identity
   * column (so lies in [1, nextId)), and every record carries its own key.
   */
  ghost predicate WellFormed(s: Store)
  {
    && 1 <= s.nextId
    && forall k | k in s.vehicles :: 1 <= k < s.nextId && s.vehicles[k].id == k
  }

  /** The filter of the availability query: not rented and at most five years old. */
  predicate IsAvailable(v: Vehicle, currentYear: int)
  {
    !v.isRented && v.yearOfManufacture >= currentYear - 5
  }

  // ---------------------------------------------------------------------
  // Queries. They are functions of the table, so they change nothing.
  // ---------------------------------------------------------------------

  /** Looks a record up by its key; None stands for the null of a failed lookup. */
  function GetVehicleById(s: Store, id: int): (r: Option<Vehicle>)
    ensures r.None? <==> id !in s.vehicles
    ensures r.Some? ==> id in s.vehicles && r.value == s.vehicles[id]
    ensures WellFormed(s) && r.Some? ==> r.value.id == id
  {
    if id in s.vehicles then Some(s.vehicles[id]) else None
  }

  /**
   * True when some record names `userId` as its renter. Only the renter field
   * is compared; the rented flag is not consulted, and a null `userId` matches
   * every record without a renter.
   */
  predicate UserHasActiveRental(s: Store, userId: Option<string>)
    ensures UserHasActiveRental(s, userId) <==> userId in Renters(s.vehicles)
  {
    exists k | k in s.vehicles :: s.vehicles[k].rentedBy == userId
  }

  /** The renter fields of all stored records, null included. */
  function Renters(vehicles: map<int, Vehicle>): set<Option<string>>
  {
    set k | k in vehicles :: vehicles[k].rentedBy
  }

  /**
   * The available records among the keys in [lo, hi), in ascending key order.
   * The identity column hands out keys in increasing order, so this is also
   * insertion order.
   */
  function AvailableInRange(vehicles: map<int, Vehicle>, currentYear: int, lo: int, hi: int): (r: seq<Vehicle>)
    requires forall k | k in vehicles :: vehicles[k].id == k
    ensures forall i | 0 <= i < |r| ::
      lo <= r[i].id < hi && r[i].id in vehicles && vehicles[r[i].id] == r[i] && IsAvailable(r[i], currentYear)
    ensures forall k | lo <= k < hi && k in vehicles && IsAvailable(vehicles[k], currentYear) :: vehicles[k] in r
    ensures forall i, j | 0 <= i < j < |r| :: r[i].id < r[j].id
    decreases hi - lo
  {
    if hi <= lo then
      []
    else
      var rest := AvailableInRange(vehicles, currentYear, lo + 1, hi);
      if lo in vehicles && IsAvailable(vehicles[lo], currentYear) then [vehicles[lo]] + rest else rest
  }

  /**
   * The availability query: exactly the stored records that are not rented
   * and at most five years old, each once, in ascending key order.
   */
  function GetAvailableVehicles(s: Store, currentYear: int): (r: seq<Vehicle>)
    requires WellFormed(s)
    ensures forall v | v in r :: v.id in s.vehicles && s.vehicles[v.id] == v && IsAvailable(v, currentYear)
    ensures forall k | k in s.vehicles && IsAvailable(s.vehicles[k], currentYear) :: s.vehicles[k] in r
    ensures forall i, j | 0 <= i < j < |r| :: r[i].id < r[j].id
  {
    AvailableInRange(s.vehicles, currentYear, 1, s.nextId)
  }

  // ---------------------------------------------------------------------
  // Commands, as transformations of the table.
  // ---------------------------------------------------------------------

  /**
   * The table after adding `vehicle`: it is stored under a key that was not
   * in use, carrying that key, and every record already there is untouched.
   */
  function Added(s: Store, vehicle: Vehicle): (r: Store)
    requires WellFormed(s)
    ensures WellFormed(r)
    ensures s.nextId !in s.vehicles && r.nextId == s.nextId + 1
    ensures r.vehicles.Keys == s.vehicles.Keys + {s.nextId}
    ensures r.vehicles[s.nextId] == vehicle.(id := s.nextId)
    ensures forall k | k in s.vehicles :: r.vehicles[k] == s.vehicles[k]
    ensures |r.vehicles| == |s.vehicles| + 1
  {
    Store(s.vehicles[s.nextId := vehicle.(id := s.nextId)], s.nextId + 1)
  }

  /**
   * The table after updating an existing record: the record under
   * `vehicle.id` becomes `vehicle`; no key is added or removed and every
   * other record is untouched.
   */
  function Updated(s: Store, vehicle: Vehicle): (r: Store)
    requires WellFormed(s) && vehicle.id in s.vehicles
    ensures WellFormed(r)
    ensures r.nextId == s.nextId && r.vehicles.Keys == s.vehicles.Keys
    ensures r.vehicles[vehicle.id] == vehicle
    ensures forall k | k in s.vehicles && k != vehicle.id :: r.vehicles[k] == s.vehicles[k]
  {
    Store(s.vehicles[vehicle.id := vehicle], s.nextId)
  }

  // ---------------------------------------------------------------------
  // Properties of the queries.
  // ---------------------------------------------------------------------

  /**
   * The active-rental query looks only at the renter field: setting the
   * rented flag of any record to anything leaves its answer unchanged.
   */
  lemma ActiveRentalIgnoresRentedFlag(s: Store, k: int, flag: bool, userId: Option<string>)
    requires k in s.vehicles
    ensures UserHasActiveRental(Store(s.vehicles[k := s.vehicles[k].(isRented := flag)], s.nextId), userId)
        == UserHasActiveRental(s, userId)
  {
    var t := Store(s.vehicles[k := s.vehicles[k].(isRented := flag)], s.nextId);
    if UserHasActiveRental(s, userId) {
      var j :| j in s.vehicles && s.vehicles[j].rentedBy == userId;
      assert t.vehicles[j].rentedBy == userId;
    }
    if UserHasActiveRental(t, userId) {
      var j :| j in t.vehicles && t.vehicles[j].rentedBy == userId;
      assert s.vehicles[j].rentedBy == userId;
    }
  }

  /**
   * A record that is not rented but still names a renter blocks that renter:
   * the query reports an active rental although nothing is rented.
   */
  lemma StaleRenterCountsAsActive(s: Store, k: int, userId: string)
    requires k in s.vehicles && !s.vehicles[k].isRented && s.vehicles[k].rentedBy == Some(userId)
    ensures UserHasActiveRental(s, Some(userId))
  {
  }

  /** Asked about a null user, the query matches every record without a renter. */
  lemma NullUserMatchesUnrentedRecord(s: Store, k: int)
    requires k in s.vehicles && s.vehicles[k].rentedBy == None
    ensures UserHasActiveRental(s, None)
  {
  }

  /**
   * The EF-backed repository. Adding and updating change the table in place;
   * the queries above read `State()`.
   */
  class VehicleRepository {
    var vehicles: map<int, Vehicle>
    var nextId: int

    /** The table as a value. */
    function State(): Store
      reads this
    {
      Store(vehicles, nextId)
    }

    ghost predicate Valid()
      reads this
    {
      WellFormed(State())
    }

    /** A repository over the table its database context already holds. */
    constructor (initial: Store)
      requires WellFormed(initial)
      ensures Valid()
      ensures State() == initial
    {
      vehicles := initial.vehicles;
      nextId := initial.nextId;
    }

    /**
     * Stores `vehicle` under the next key of the identity column and returns
     * that key, which the stored record carries as its id.
     */
    method AddVehicle(vehicle: Vehicle) returns (id: int)
      requires Valid()
      modifies this
      ensures Valid()
      ensures id == old(nextId) && id !in old(vehicles)
      ensures State() == Added(old(State()), vehicle)
    {
      id := nextId;
      vehicles := vehicles[id := vehicle.(id := id)];
      nextId := nextId + 1;
    }

    /**
     * Writes `vehicle` over the record with its id. There is no such record
     * when `ok` is false (the store's failure); the table is then unchanged.
     */
    method UpdateVehicle(vehicle: Vehicle) returns (ok: bool)
      requires Valid()
      modifies this
      ensures Valid()
      ensures ok <==> vehicle.id in old(vehicles)
      ensures ok ==> State() == Updated(old(State()), vehicle)
      ensures !ok ==> State() == old(State())
    {
      ok := vehicle.id in vehicles;
      if ok {
        vehicles := vehicles[vehicle.id := vehicle];
      }
    }
  }
}
