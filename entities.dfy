/** The vehicle record of the rental service (the domain entity). */
module Entities {

  /** Stands for a reference that may be null. */
  datatype Option<+T> = None | Some(value: T)

  /**
   * One vehicle record. In the service the record is a mutable object whose
   * properties are assigned in place; here it is a value that the store
   * replaces as a whole. `rentedBy` is None where the record holds null.
   */
  datatype Vehicle = Vehicle(
    id: int,
    model: string,
    yearOfManufacture: int,
    isRented: bool,
    rentedBy: Option<string>)

  /**
   * The pairing that the record type itself does not enforce: a vehicle is
   * marked rented exactly when a renter is recorded.
   */
  predicate RentalConsistent(v: Vehicle)
  {
    v.isRented <==> v.rentedBy.Some?
  }

  /** A vehicle as a parameterless construction leaves it: every property at its default. */
  function NewVehicle(): (v: Vehicle)
    ensures v.id == 0 && v.yearOfManufacture == 0
    ensures v.model == "" && !v.isRented && v.rentedBy == None
    ensures RentalConsistent(v)
  {
    Vehicle(0, "", 0, false, None)
  }
}
