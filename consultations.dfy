/**
 * The consultation record manager: create, look up, search, update and
 * delete consultations over an in-memory store of consultations, persons
 * and doctors, with every timestamp normalised to UTC on the way in.
 */
module Consultations {
  import opened Wrappers
  import opened Records
  import opened FilterResolution
  import opened Store

  /** The payload of a create: every field is stored as given, except `dateTime`. */
  datatype NewConsultation = NewConsultation(
    personId: string,
    doctorId: string,
    dateTime: string,
    status: string,
    details: map<string, string>)

  /**
   * The payload of an update: each field may be left out. A supplied field
   * is written as given (an empty string too), except `dateTime`, which only
   * counts when it is non-empty.
   */
  datatype Changes = Changes(
    personId: Option<string>,
    doctorId: Option<string>,
    dateTime: Option<string>,
    status: Option<string>,
    details: map<string, string>)

  const NoChanges := Changes(None, None, None, None, map[])

  /** The confirmation a successful delete returns. */
  datatype Ack = Deleted

  /** The record a create stores: the same fields, the local time normalised. */
  function Created(n: NewConsultation, toUtc: string -> int): (r: Consultation)
    ensures r.personId == n.personId && r.doctorId == n.doctorId
    ensures r.status == n.status && r.details == n.details
    ensures r.dateTimeUtc == toUtc(n.dateTime)
  {
    Consultation(n.personId, n.doctorId, n.status, toUtc(n.dateTime), n.details)
  }

  /**
   * The record an update stores: supplied fields replace stored ones, the
   * stored instant is kept unless a new local time is supplied.
   */
  function Patched(c: Consultation, p: Changes, toUtc: string -> int): (r: Consultation)
    ensures r.dateTimeUtc == c.dateTimeUtc || (Given(p.dateTime) && r.dateTimeUtc == toUtc(p.dateTime.value))
    ensures r.details.Keys == c.details.Keys + p.details.Keys
  {
    Consultation(
      if p.personId.Some? then p.personId.value else c.personId,
      if p.doctorId.Some? then p.doctorId.value else c.doctorId,
      if p.status.Some? then p.status.value else c.status,
      if Given(p.dateTime) then toUtc(p.dateTime.value) else c.dateTimeUtc,
      c.details + p.details)
  }

  /** An update that supplies nothing leaves the record as it was. */
  lemma PatchWithoutChanges(c: Consultation, toUtc: string -> int)
    ensures Patched(c, NoChanges, toUtc) == c
  {
    assert c.details + map[] == c.details;
  }

  /**
   * An update touches only what it supplies: every other column, and every
   * descriptive field it does not name, keeps its stored value.
   */
  lemma PatchTouchesOnlySupplied(c: Consultation, p: Changes, toUtc: string -> int)
    ensures p.personId.None? ==> Patched(c, p, toUtc).personId == c.personId
    ensures p.doctorId.None? ==> Patched(c, p, toUtc).doctorId == c.doctorId
    ensures p.status.None? ==> Patched(c, p, toUtc).status == c.status
    ensures !Given(p.dateTime) ==> Patched(c, p, toUtc).dateTimeUtc == c.dateTimeUtc
    ensures Patched(c, p, toUtc).details.Keys == c.details.Keys + p.details.Keys
    ensures forall k :: k in c.details && k !in p.details ==> Patched(c, p, toUtc).details[k] == c.details[k]
  {
  }

  /**
   * An update writes what it supplies: persons and doctors are not looked
   * up, and a supplied local time is normalised afresh.
   */
  lemma PatchWritesSupplied(c: Consultation, p: Changes, toUtc: string -> int)
    ensures p.personId.Some? ==> Patched(c, p, toUtc).personId == p.personId.value
    ensures p.doctorId.Some? ==> Patched(c, p, toUtc).doctorId == p.doctorId.value
    ensures p.status.Some? ==> Patched(c, p, toUtc).status == p.status.value
    ensures Given(p.dateTime) ==> Patched(c, p, toUtc).dateTimeUtc == toUtc(p.dateTime.value)
    ensures forall k :: k in p.details ==> Patched(c, p, toUtc).details[k] == p.details[k]
  {
  }

  /** Applying the same update twice stores the same record as applying it once. */
  lemma PatchIdempotent(c: Consultation, p: Changes, toUtc: string -> int)
    ensures Patched(Patched(c, p, toUtc), p, toUtc) == Patched(c, p, toUtc)
  {
    assert c.details + p.details + p.details == c.details + p.details;
  }

  class ConsultationsService {
    /** The consultation table, by id. */
    var consultations: map<ConsultationId, Consultation>
    /** The id the store gives the next consultation it creates. */
    var nextId: nat
    /** The ids of the existing persons (patients) and doctors. */
    var persons: set<string>
    var doctors: set<string>
    /** Local wall-clock time in the clinic's zone to a UTC instant. */
    const toUtc: string -> int

    /**
     * Every stored id was handed out before, and every stored instant is
     * the UTC normalisation of some local time: no local time is stored.
     */
    ghost predicate Valid()
      reads this
    {
      && (forall id :: id in consultations ==> id < nextId)
      && (forall id :: id in consultations ==> exists s :: toUtc(s) == consultations[id].dateTimeUtc)
    }

    constructor (persons: set<string>, doctors: set<string>, toUtc: string -> int)
      ensures Valid()
      ensures consultations == map[]
      ensures this.persons == persons && this.doctors == doctors && this.toUtc == toUtc
    {
      consultations := map[];
      nextId := 0;
      this.persons := persons;
      this.doctors := doctors;
      this.toUtc := toUtc;
    }

    /**
     * Store a new consultation. A missing person is reported first, whatever
     * the doctor; a missing doctor only when the person exists. A failure
     * stores nothing; a success adds exactly one record under a new id.
     */
    method Create(n: NewConsultation) returns (r: Result<Row>)
      requires Valid()
      modifies this`consultations, this`nextId
      ensures Valid()
      ensures n.personId !in persons ==> r == NotFound(Person)
      ensures n.personId in persons && n.doctorId !in doctors ==> r == NotFound(Doctor)
      ensures r.Ok? <==> n.personId in persons && n.doctorId in doctors
      ensures r.NotFound? ==> consultations == old(consultations) && nextId == old(nextId)
      ensures r.Ok? ==> r.value.id !in old(consultations)
      ensures r.Ok? ==> r.value.record == Created(n, toUtc)
      ensures r.Ok? ==> consultations == old(consultations)[r.value.id := r.value.record]
    {
      var personFound := n.personId in persons;
      var doctorFound := n.doctorId in doctors;
      if !personFound {
        return NotFound(Person);
      }
      if !doctorFound {
        return NotFound(Doctor);
      }
      var record := Created(n, toUtc);
      assert toUtc(n.dateTime) == record.dateTimeUtc;
      var id := nextId;
      nextId := nextId + 1;
      consultations := consultations[id := record];
      r := Ok(Row(id, record));
    }

    /** Look one consultation up by id. */
    function FindOne(id: ConsultationId): (r: Result<Consultation>)
      reads this
      ensures r.Ok? <==> id in consultations
      ensures r.Ok? ==> r.value == consultations[id]
      ensures r.NotFound? ==> r.kind == ConsultationRecord
    {
      if id in consultations then Ok(consultations[id]) else NotFound(ConsultationRecord)
    }

    /**
     * Search the consultations: exactly the stored records the filters
     * admit, each once, most recent first; an inverted range finds nothing,
     * and no filters at all find every consultation.
     */
    method FindAll(f: Filters) returns (rs: seq<Row>)
      ensures Listing(consultations, rs)
      ensures forall id :: id in Ids(rs) <==> id in consultations && Admits(f, consultations[id])
      ensures InvertedRange(f) ==> rs == []
      ensures f == NoFilters ==> Ids(rs) == consultations.Keys && |rs| == |consultations|
      ensures forall i :: 0 <= i < |rs| ==> Admits(f, rs[i].record)
      ensures f.from.Some? && f.to.Some? ==>
        forall i :: 0 <= i < |rs| ==> f.from.value <= rs[i].record.dateTimeUtc <= f.to.value
    {
      var w := BuildWhere(f);
      rs := FindMany(consultations, w);
      NoIdsNoRows(rs);
      ListingSize(rs);
      if f == NoFilters {
        assert Ids(rs) == consultations.Keys;
      }
      forall i | 0 <= i < |rs| ensures Admits(f, rs[i].record) {
        assert rs[i].id in Ids(rs);
      }
      if f.from.Some? && f.to.Some? {
        forall i | 0 <= i < |rs| ensures f.from.value <= rs[i].record.dateTimeUtc <= f.to.value {
          AdmittedWithinBounds(f, rs[i].record);
        }
      }
    }

    /**
     * Rewrite one consultation. A missing id fails as `FindOne` does and
     * changes nothing; otherwise the stored record becomes its patched
     * version, and no other record changes; an update that supplies
     * nothing leaves the store as it was.
     */
    method Update(id: ConsultationId, p: Changes) returns (r: Result<Row>)
      requires Valid()
      modifies this`consultations
      ensures Valid()
      ensures r.NotFound? <==> id !in old(consultations)
      ensures r.NotFound? ==> r.kind == ConsultationRecord && consultations == old(consultations)
      ensures r.Ok? ==> r.value == Row(id, Patched(old(consultations)[id], p, toUtc))
      ensures r.Ok? ==> consultations == old(consultations)[id := r.value.record]
      ensures p == NoChanges ==> consultations == old(consultations)
    {
      var found := FindOne(id);
      if found.NotFound? {
        return NotFound(found.kind);
      }
      var c := found.value;
      var dateTimeUtc := c.dateTimeUtc;
      if Given(p.dateTime) {
        dateTimeUtc := toUtc(p.dateTime.value);
      }
      // The write spreads the supplied fields over the stored ones and then
      // sets the local `dateTimeUtc`; `Patched` is the same record, stated
      // once as a function for the contracts and lemmas.
      var record := Consultation(
        if p.personId.Some? then p.personId.value else c.personId,
        if p.doctorId.Some? then p.doctorId.value else c.doctorId,
        if p.status.Some? then p.status.value else c.status,
        dateTimeUtc,
        c.details + p.details);
      if p == NoChanges {
        PatchWithoutChanges(c, toUtc);
      }
      if Given(p.dateTime) {
        assert toUtc(p.dateTime.value) == record.dateTimeUtc;
      } else {
        assert exists s :: toUtc(s) == c.dateTimeUtc;
      }
      consultations := consultations[id := record];
      r := Ok(Row(id, record));
    }

    /**
     * Delete one consultation. A missing id fails as `FindOne` does and
     * deletes nothing; otherwise exactly that id leaves the store.
     */
    method Remove(id: ConsultationId) returns (r: Result<Ack>)
      requires Valid()
      modifies this`consultations
      ensures Valid()
      ensures r.NotFound? <==> id !in old(consultations)
      ensures r.NotFound? ==> r.kind == ConsultationRecord && consultations == old(consultations)
      ensures r.Ok? ==> consultations == old(consultations) - {id}
    {
      var found := FindOne(id);
      if found.NotFound? {
        return NotFound(found.kind);
      }
      consultations := consultations - {id};
      r := Ok(Deleted);
    }

    /**
     * A patient's consultations, optionally with one doctor, most recent
     * first. The person is not looked up: an unknown one has no history.
     */
    method GetPatientHistory(personId: string, doctorId: Option<string>) returns (rs: seq<Row>)
      ensures Listing(consultations, rs)
      ensures forall id :: id in Ids(rs) <==>
        && id in consultations
        && consultations[id].personId == personId
        && (Given(doctorId) ==> consultations[id].doctorId == doctorId.value)
      ensures (forall id :: id in consultations ==> consultations[id].personId != personId) ==> rs == []
    {
      var w := HistoryWhere(personId, doctorId);
      rs := FindMany(consultations, w);
      NoIdsNoRows(rs);
    }
  }
}
