# Consultation record manager, modelled in Dafny

This project models `ConsultationsService` of the clinic API
(`apps/api/src/consultations/consultations.service.ts`). It is the component that
creates, looks up, searches, updates and deletes medical consultation records and
lists a patient's history, with every consultation time normalised from the
clinic's local zone (Africa/Douala) to UTC before it is stored.

The persistence layer (Prisma) is modelled as an in-memory store. It holds a map
from consultation id to record, the id it hands out next, and the sets of existing
person and doctor ids.

- `wrappers.dfy`: module `Wrappers`, the `Option` type used for every optional field.
- `records.dfy`: module `Records`, the stored `Consultation`, the `Row` (id plus record),
  the failure `NotFound(kind)`, and `Given`. `Given` models JavaScript truthiness: a
  missing field and an empty string both count as not supplied.
- `filters.dfy`: module `FilterResolution`, filter resolution. `BuildWhere` and
  `HistoryWhere` build the where-clause one field at a time, as the service does.
  `Satisfies` is how the store evaluates a where-clause. `Admits` says directly
  what a search promises, and `BuildWhere` is proved to make the two agree.
- `store.dfy`: module `Store`, the store's `findMany` with `orderBy: dateTimeUtc desc`.
  It is a loop over the table that inserts each matching row after every row at
  least as recent. Its result is specified by `Listing`: the rows are stored
  records, each id appears once, and they are most recent first.
- `consultations.dfy`: module `Consultations`, the class `ConsultationsService` with
  the six operations. `Created` and `Patched` give the record a create or an update
  stores, and lemmas state what an update does and does not touch. The class
  invariant `Valid` says that every stored id was handed out by the counter and
  that every stored instant is `toUtc` of some local time, so no local time is
  ever stored. `Create`, `Update` and `Remove` keep it.

Modelling choices:

- The time-zone conversion (`moment.tz(dateTime, 'Africa/Douala').utc()`) is the
  constant `toUtc: string -> int` given to the service when it is constructed. It is
  a function, so equal inputs give equal instants. Nothing else is assumed about it.
- The `from`/`to` search bounds are already-parsed instants (`Option<int>`).
  Absent or empty bounds are `None`.
- The scalar filters (`personId`, `doctorId`, `status`) and the update's `dateTime`
  are tested by truthiness in the source, so `Some("")` acts as `None` for them.
  The update's other fields are spread into the write as they are, so a supplied
  empty string is written.
- The remaining descriptive columns of a consultation are one opaque map `details`.
  A create stores it as given. An update merges the supplied entries over the
  stored ones.
- Consultation ids are natural numbers drawn from a counter, standing for the
  store-generated identifiers.
- The two existence lookups in `create` run concurrently in the source but are
  reported in a fixed order. The model does them one after the other; only the
  reporting order matters.
- When two consultations have the same instant, the store does not say which comes
  first. `Listing` leaves the order of ties open too.

## Model

| member | source | states |
|---|---|---|
| `Records.Given` | apps/api/src/consultations/consultations.service.ts:56-66 | the truthiness test used for the personId, doctorId and status filters (also at :119 for dateTime and :153 for the history's doctorId): an absent field and an empty string are not supplied, and a supplied field is a non-empty string |
| `FilterResolution.Satisfies` | apps/api/src/consultations/consultations.service.ts:78-79 | how the store evaluates the where-clause it is passed: every present clause must hold an equality or the inclusive range; the empty where-clause matches every record, and a range that matches a record has gte <= lte |
| `FilterResolution.BuildWhere` | apps/api/src/consultations/consultations.service.ts:54-76 | an equality clause on personId, doctorId, status appears exactly when that filter is non-empty; a dateTimeUtc clause appears exactly when from or to is given, carrying gte = from and lte = to, so it is never an open range; a record satisfies the clause iff the filters admit it |
| `FilterResolution.HistoryWhere` | apps/api/src/consultations/consultations.service.ts:150-155 | the person id is always a clause (even empty), the doctor id only when non-empty; a record satisfies it iff its personId matches and, when a doctor is given, its doctorId matches |
| `FilterResolution.NoFiltersAdmitAll` | apps/api/src/consultations/consultations.service.ts:54-76 | a search without filters admits every record |
| `FilterResolution.EmptyFilterIsAbsent` | apps/api/src/consultations/consultations.service.ts:56-66 | an empty-string personId, doctorId or status filter admits the same records as an absent one |
| `FilterResolution.AdmittedWithinBounds` | apps/api/src/consultations/consultations.service.ts:68-76 | with both bounds given, every admitted record has from <= dateTimeUtc <= to |
| `FilterResolution.InvertedRangeAdmitsNothing` | apps/api/src/consultations/consultations.service.ts:68-76 | when from lies after to, no record is admitted |
| `Store.InsertByRecency` | apps/api/src/consultations/consultations.service.ts:88 | inserting a row into a most-recent-first listing keeps it most recent first; the row goes after every row at least as recent and before every older one, and nothing else moves |
| `Store.FindMany` | apps/api/src/consultations/consultations.service.ts:78-89 | the result holds exactly the stored records satisfying the where-clause, each once under its own id, ordered by dateTimeUtc descending |
| `Store.ListingSize` | apps/api/src/consultations/consultations.service.ts:78-89 | a listing without repeated ids has as many rows as ids |
| `Consultations.Created` | apps/api/src/consultations/consultations.service.ts:12-15 | the record create stores: personId, doctorId, status and the descriptive fields copied verbatim, dateTimeUtc = toUtc(dateTime) |
| `Consultations.Patched` | apps/api/src/consultations/consultations.service.ts:115-128 | the record update stores: the instant is either the stored one or toUtc of the supplied local time, and the descriptive fields are the stored ones plus the supplied ones |
| `Consultations.PatchWithoutChanges` | apps/api/src/consultations/consultations.service.ts:112-128 | update(id, {}) stores the record exactly as it was, dateTimeUtc included |
| `Consultations.PatchTouchesOnlySupplied` | apps/api/src/consultations/consultations.service.ts:115-128 | a column not supplied keeps its stored value; without a non-empty dateTime the stored dateTimeUtc is kept, not re-derived; descriptive fields not named are kept |
| `Consultations.PatchWritesSupplied` | apps/api/src/consultations/consultations.service.ts:115-128 | a supplied personId, doctorId or status is written as given (no existence check); a non-empty dateTime becomes toUtc(dateTime); supplied descriptive fields are written |
| `Consultations.PatchIdempotent` | apps/api/src/consultations/consultations.service.ts:123-128 | applying the same update twice stores the same record as applying it once |
| `Consultations.ConsultationsService.Create` | apps/api/src/consultations/consultations.service.ts:11-45 | a missing person fails with NotFound(Person) whatever the doctor; a missing doctor fails with NotFound(Doctor) only when the person exists; success iff both exist; a failure changes nothing; a success adds exactly one record under a new id, holding every supplied field and dateTimeUtc = toUtc(dateTime), and leaves the other records alone; keeps the invariant that every stored instant came through toUtc |
| `Consultations.ConsultationsService.FindOne` | apps/api/src/consultations/consultations.service.ts:92-110 | succeeds iff the id is stored, with the stored record; otherwise fails with NotFound(ConsultationRecord) |
| `Consultations.ConsultationsService.FindAll` | apps/api/src/consultations/consultations.service.ts:47-90 | returns exactly the stored records the filters admit, each once, ordered by dateTimeUtc descending; an inverted range returns nothing; no filters return every consultation; every returned record is admitted by the filters, so with both bounds given its dateTimeUtc lies in [from, to] |
| `Consultations.ConsultationsService.Update` | apps/api/src/consultations/consultations.service.ts:112-138 | fails iff the id is not stored, with NotFound(ConsultationRecord) and no change; otherwise stores and returns the patched record under the same id, changes no other record, and does not look up persons or doctors; update(id, {}) leaves the store unchanged |
| `Consultations.ConsultationsService.Remove` | apps/api/src/consultations/consultations.service.ts:140-148 | fails iff the id is not stored, with NotFound(ConsultationRecord) and nothing deleted; otherwise exactly that id leaves the store |
| `Consultations.ConsultationsService.GetPatientHistory` | apps/api/src/consultations/consultations.service.ts:150-168 | returns exactly the stored records of that person (and of that doctor when one is given), each once, ordered by dateTimeUtc descending; never fails, and a person with no records gets an empty sequence |

## Left out

- The `include` joins on person, doctor and the doctor's user: operations return the bare stored record, because the joins only add related data to what is read.
- The time-zone rule database: `toUtc` is a parameter of the service, not a model of moment-timezone. The fixed one-hour offset of Africa/Douala is therefore not built in.
- Parsing of `from`/`to` by `new Date(...)`: the bounds are taken as already-parsed instants, and an unparseable date is not modelled.
- The concurrency of the two lookups in `create` and the read-then-write race in `update`: each operation is one sequential step on the store.
- Storage-layer failures (connectivity, constraint violations) and the message strings of the not-found exceptions.
- `apps/api/src/main.ts` and `apps/web/next.config.js`: application bootstrap and front-end configuration, with no record-manager logic.
