/**
 * The consultation record as the store keeps it, and the typed failure
 * every operation of the record manager can end in.
 */
module Records {
  import opened Wrappers

  /** Identifier of a stored consultation; the store hands them out. */
  type ConsultationId = nat

  /**
   * JavaScript truthiness of an optional string field: a missing field and
   * the empty string both count as "not supplied".
   */
  predicate Given(o: Option<string>)
    ensures Given(o) ==> o.Some? && |o.value| > 0
    ensures o.None? || o == Some("") ==> !Given(o)
  {
    o.Some? && o.value != ""
  }

  /**
   * A stored consultation. `dateTimeUtc` is the canonical instant (seconds,
   * UTC); `details` holds the remaining descriptive columns, opaque here.
   */
  datatype Consultation = Consultation(
    personId: string,
    doctorId: string,
    status: string,
    dateTimeUtc: int,
    details: map<string, string>)

  /** A stored consultation together with the id it is stored under. */
  datatype Row = Row(id: ConsultationId, record: Consultation)

  /** Which kind of entity a lookup failed to find. */
  datatype Kind = Person | Doctor | ConsultationRecord

  /** Either the operation's value or the one "not found" signal it raised. */
  datatype Result<T> = Ok(value: T) | NotFound(kind: Kind)
}
