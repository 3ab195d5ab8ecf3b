/**
 * Filter resolution: optional query fields become a where-clause, and a
 * where-clause selects consultations as the store evaluates it.
 */
module FilterResolution {
  import opened Wrappers
  import opened Records

  /** The optional query fields of a consultation search. */
  datatype Filters = Filters(
    personId: Option<string>,
    doctorId: Option<string>,
    from: Option<int>,
    to: Option<int>,
    status: Option<string>)

  const NoFilters := Filters(None, None, None, None, None)

  /** A `dateTimeUtc` clause: inclusive lower bound `gte`, inclusive upper bound `lte`. */
  datatype Range = Range(gte: Option<int>, lte: Option<int>)

  /** A where-clause: one optional equality per scalar column, one optional range. */
  datatype Where = Where(
    personId: Option<string>,
    doctorId: Option<string>,
    status: Option<string>,
    dateTimeUtc: Option<Range>)

  const NoClauses := Where(None, None, None, None)

  predicate InRange(r: Range, t: int)
  {
    && (r.gte.Some? ==> r.gte.value <= t)
    && (r.lte.Some? ==> t <= r.lte.value)
  }

  /**
   * How the store evaluates a where-clause: every clause present must hold.
   * No clauses match everything; a range that matches anything is not inverted.
   */
  predicate Satisfies(w: Where, c: Consultation)
    ensures w == NoClauses ==> Satisfies(w, c)
    ensures Satisfies(w, c) && w.dateTimeUtc.Some? ==>
      w.dateTimeUtc.value.gte.Some? && w.dateTimeUtc.value.lte.Some? ==>
      w.dateTimeUtc.value.gte.value <= w.dateTimeUtc.value.lte.value
  {
    && (w.personId.Some? ==> c.personId == w.personId.value)
    && (w.doctorId.Some? ==> c.doctorId == w.doctorId.value)
    && (w.status.Some? ==> c.status == w.status.value)
    && (w.dateTimeUtc.Some? ==> InRange(w.dateTimeUtc.value, c.dateTimeUtc))
  }

  /**
   * What a search promises, read directly off the filters: a supplied
   * (non-empty) scalar filter must be equal, `from` and `to` bound the
   * instant inclusively, and anything not supplied constrains nothing.
   */
  predicate Admits(f: Filters, c: Consultation)
  {
    && (Given(f.personId) ==> c.personId == f.personId.value)
    && (Given(f.doctorId) ==> c.doctorId == f.doctorId.value)
    && (Given(f.status) ==> c.status == f.status.value)
    && (f.from.Some? ==> f.from.value <= c.dateTimeUtc)
    && (f.to.Some? ==> c.dateTimeUtc <= f.to.value)
  }

  /** Both bounds are given and the lower one lies after the upper one. */
  predicate InvertedRange(f: Filters)
  {
    f.from.Some? && f.to.Some? && f.from.value > f.to.value
  }

  /**
   * The where-clause of a consultation search, built one field at a time.
   * An equality clause appears exactly for the supplied scalar filters; a
   * timestamp clause appears only when a bound is supplied, and then carries
   * exactly the supplied bounds, so it is never an empty (open) range.
   */
  method BuildWhere(f: Filters) returns (w: Where)
    ensures w.personId.Some? <==> Given(f.personId)
    ensures w.doctorId.Some? <==> Given(f.doctorId)
    ensures w.status.Some? <==> Given(f.status)
    ensures w.personId.Some? ==> w.personId == f.personId
    ensures w.doctorId.Some? ==> w.doctorId == f.doctorId
    ensures w.status.Some? ==> w.status == f.status
    ensures w.dateTimeUtc.Some? <==> f.from.Some? || f.to.Some?
    ensures w.dateTimeUtc.Some? ==> w.dateTimeUtc.value == Range(f.from, f.to)
    ensures forall c :: Satisfies(w, c) <==> Admits(f, c)
  {
    w := NoClauses;
    if Given(f.personId) {
      w := w.(personId := f.personId);
    }
    if Given(f.doctorId) {
      w := w.(doctorId := f.doctorId);
    }
    if Given(f.status) {
      w := w.(status := f.status);
    }
    if f.from.Some? || f.to.Some? {
      var range := Range(None, None);
      if f.from.Some? {
        range := range.(gte := f.from);
      }
      if f.to.Some? {
        range := range.(lte := f.to);
      }
      w := w.(dateTimeUtc := Some(range));
    }
  }

  /**
   * The where-clause of a patient history: the person id always (even an
   * empty one), the doctor id only when supplied.
   */
  method HistoryWhere(personId: string, doctorId: Option<string>) returns (w: Where)
    ensures w.personId == Some(personId)
    ensures w.doctorId.Some? <==> Given(doctorId)
    ensures w.doctorId.Some? ==> w.doctorId == doctorId
    ensures w.status.None? && w.dateTimeUtc.None?
    ensures forall c :: Satisfies(w, c) <==>
      c.personId == personId && (Given(doctorId) ==> c.doctorId == doctorId.value)
  {
    w := NoClauses.(personId := Some(personId));
    if Given(doctorId) {
      w := w.(doctorId := doctorId);
    }
  }

  /** A search without filters admits every consultation. */
  lemma NoFiltersAdmitAll(c: Consultation)
    ensures Admits(NoFilters, c)
  {
  }

  /** An empty-string scalar filter means the same as an absent one. */
  lemma EmptyFilterIsAbsent(f: Filters, c: Consultation)
    ensures Admits(f.(personId := Some("")), c) == Admits(f.(personId := None), c)
    ensures Admits(f.(doctorId := Some("")), c) == Admits(f.(doctorId := None), c)
    ensures Admits(f.(status := Some("")), c) == Admits(f.(status := None), c)
  {
  }

  /** With both bounds given, an admitted consultation lies in the closed interval. */
  lemma AdmittedWithinBounds(f: Filters, c: Consultation)
    requires Admits(f, c) && f.from.Some? && f.to.Some?
    ensures f.from.value <= c.dateTimeUtc <= f.to.value
  {
  }

  /** An inverted range admits nothing. */
  lemma InvertedRangeAdmitsNothing(f: Filters, c: Consultation)
    requires InvertedRange(f)
    ensures !Admits(f, c)
  {
  }
}
