/**
 * Row and request shapes of the hotel back end (internal/models/hotel.go).
 * Timestamps are opaque integers and the float amount is a `real` that is
 * only ever copied.
 */
module Models {

  datatype Option<T> = None | Some(value: T)

  /** A `time.Time` value, as an opaque integer timestamp. */
  type Time = int

  /** One row of the `customers` table: one guest's stay on one bed. */
  datatype Stay = Stay(
    fullName: string,
    mobileNumber: string,
    checkIn: Time,
    checkOut: Option<Time>,   // NULL while the guest still holds the bed
    amountPaid: real,
    paymentMode: string,
    bedId: Option<int>)       // the column is nullable (`BedID *int`)

  /** The body of a check-in request; every field is a plain value, none is optional. */
  datatype CreateCustomerRequest = CreateCustomerRequest(
    fullName: string,
    mobileNumber: string,
    checkIn: Time,
    checkOut: Time,
    amountPaid: real,
    paymentMode: string,
    bedId: int)

  /** A stay is active while its check-out is NULL. */
  predicate Active(s: Stay)
  {
    s.checkOut.None?
  }

  /** The stay is active and holds bed `bed`. */
  predicate ActiveOn(s: Stay, bed: int)
  {
    Active(s) && s.bedId == Some(bed)
  }

  /**
   * The row the check-in INSERT writes: every request field verbatim,
   * including the request's (non-NULL) check-out time.
   */
  function NewStay(req: CreateCustomerRequest): (s: Stay)
    ensures s.fullName == req.fullName && s.mobileNumber == req.mobileNumber
    ensures s.checkIn == req.checkIn && s.amountPaid == req.amountPaid && s.paymentMode == req.paymentMode
    ensures s.bedId == Some(req.bedId)
    ensures s.checkOut == Some(req.checkOut) && !Active(s)
  {
    Stay(req.fullName, req.mobileNumber, req.checkIn, Some(req.checkOut),
         req.amountPaid, req.paymentMode, Some(req.bedId))
  }

  /**
   * The row the check-in INSERT would have to write for the check-out
   * handler to find it later: the same fields with check-out left NULL.
   */
  function NewActiveStay(req: CreateCustomerRequest): Stay
  {
    NewStay(req).(checkOut := None)
  }
}
