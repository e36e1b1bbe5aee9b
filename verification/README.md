# Parcel-locker service: rental flow, locker queries and bulk writes

This project models the core of a small REST service for parcel lockers.
A **Bloq** is a locker bank with a title and an address. A **Locker** belongs to one Bloq. It has a status (OPEN or CLOSED), an occupancy flag and an optional size. A **Rent** is one parcel's stay in one Locker. It carries a weight, a size and a status that moves through CREATED, WAITING_DROPOFF, WAITING_PICKUP and DELIVERED.

The database is modelled as a `Store` of three maps from primary key to record. Every request is a pure function or method over that store. It returns the new store together with either its answer or an error.

Modules, following the layout of the code:

- `Wrappers` (`wrappers.dfy`): `Option` and `Result`.
- `Ordering` (`ordering.dfy`): the order of `order_by('id')`. This is code-point lexicographic order on the id text. A keyed table is listed in that order, and the listing is proved unique.
- `Models` (`models.dfy`):
  - the choice enumerations and their stored codes;
  - the three records and their field constraints;
  - the `__str__` labels, with a parser that reads a label back.
- `Batch` (`batch.dfy`): the bulk create and bulk update of the list serializers. It is written once over any record type and key.
- `Storage` (`storage.dfy`):
  - the store and its consistency invariant: primary keys, required text and foreign keys;
  - the error answers;
  - the cascading deletes of the foreign keys.
- `Serializers` (`serializers.dfy`):
  - validation of submitted records;
  - their representation;
  - the three bulk creates and three bulk updates, as instances of `Batch`.
- `LockerViews` (`locker_views.dfy`): the full locker list and the cross-Bloq search for available lockers.
- `BloqViews` (`bloq_views.dfy`): the Bloq list and the three per-Bloq locker lists.
- `RentViews` (`rent_views.dfy`): the Rent list, the intake of a batch of Rents, drop-off and pickup.

Behaviour of the code that the model keeps:

- **Intake.** For each submitted item in turn, it frees the item's locker (OPEN and unoccupied) and sets the item's status to WAITING_DROPOFF. Then it runs the all-or-nothing bulk create. The freeing happens outside the batch's transaction, so a batch the create refuses still leaves those lockers freed. An item without a `lockerId` stops the loop with an error, and the lockers freed before it stay freed.
- **Drop-off and pickup.** Neither looks at the Rent's current status. A drop-off after a pickup puts a delivered Rent back to WAITING_PICKUP. The code saves the locker and the Rent as two writes; the model takes them as one step (see "Left out").
- **Two meanings of "available".** The per-Bloq list asks only for `isOccupied=false`. The cross-Bloq search also asks for `status=OPEN`.

## Model

| member | source | states |
|---|---|---|
| Models.ParseLockerStatus | locker/models.py:8-13 | A text names a locker status exactly when it is that status's code, OPEN or CLOSED, so these two are the only statuses. |
| Models.ParseLockerSize | locker/models.py:15-23 | A text names a size exactly when it is one of the codes XS, S, M, L, XL. |
| Models.ParseRentStatus | rent/models.py:7-14 | A text names a Rent status exactly when it is one of CREATED, WAITING_DROPOFF, WAITING_PICKUP, DELIVERED. |
| Models.LockerLabelRoundTrip | locker/models.py:38-39 | The label "Locker {id} - {status}" reads back to exactly the locker's id and status. |
| Models.RentLabelRoundTrip | rent/models.py:28-29 | The label "Rent {id} - {status}" reads back to exactly the Rent's id and status. |
| Models.LockerLabelDetermines | locker/models.py:38-39 | Two lockers with the same label have the same id and the same status. |
| Models.RentLabelDetermines | rent/models.py:28-29 | Two Rents with the same label have the same id and the same status. |
| Models.LabelExamples | bloq/models.py:17-18 | A Bloq's label is its title ("Bloq Test"). The fixtures' labels are "Locker 1 - OPEN" and "Rent 1 - CREATED". |
| Ordering.ListingUnique | locker/views.py:189 | Ordering a keyed table by its primary key leaves no choice: any two listings that each hold every row once, in strictly ascending id order, are equal. |
| Batch.CreateAll | rent/serializers.py:53-59 | Success commits one validated row per submitted record, in input order. Each row is stored under a key new to the table and to the batch, and the earlier rows are kept. A refusal names a position in the batch, every record before it validated, and a refusal for an invalid field means that record does not validate. |
| Batch.CreateAllAdmits | rent/serializers.py:41-59 | The create succeeds exactly when every record validates and their keys are new and pairwise distinct. Otherwise nothing is committed. |
| Batch.SaveAll | rent/serializers.py:75-89 | The saved table has the old keys plus the records' keys. Rows under other keys are unchanged. The last record with a key is the row stored under it. A refusal names a position in the batch. |
| Batch.Upsert | rent/serializers.py:61-89 | The answer has one entry per input record, in input order. Entry i is the row finally stored under record i's key, and that row is the last submitted record with that key. The last record with each key is what is stored under it. Every stored row is a submitted record or an old row, and rows not named by the input are unchanged. |
| Batch.UpsertAdmits | rent/serializers.py:78-88 | The upsert succeeds exactly when every record whose key names no given instance has a key new to the table and to the records before it. |
| Batch.SaveAllAdmits | rent/serializers.py:78-88 | The save succeeds exactly under that same condition. |
| Batch.UpsertAnswersInput | rent/serializers.py:76-89 | When the input's keys do not repeat, a successful upsert answers exactly its input. |
| Serializers.CleanBloq | bloq/models.py:11-13 | A Bloq validates only with an id, title and address that are present, non-empty and at most 255 characters, and then represents back to what was submitted. An absent or empty id is refused on the id field, and an absent title or address is refused. |
| Serializers.CleanOptionalSize | locker/models.py:34 | A size is accepted exactly when it is absent, blank or a known code. An absent or blank size leaves the locker without a size, and a known code represents back to the text sent. |
| Serializers.CleanLocker | locker/models.py:30-34 | A Locker validates only with a non-empty id, an existing Bloq, a known status, an occupancy flag and an optional known size, and then represents back to what was submitted. An absent or unknown Bloq, an absent status and an absent occupancy flag are always refused. |
| Serializers.CleanRent | rent/models.py:20-24 | A Rent validates only with a non-empty id, an existing Locker, a weight, a known size and a known status, and then represents back to what was submitted. A missing or unknown Locker is always refused, and so is an absent weight, size or status. |
| Serializers.BloqRoundTrip | bloq/serializers.py:22-29 | Every well-formed Bloq validates back to itself from its representation. |
| Serializers.LockerRoundTrip | locker/serializers.py:22-29 | Every well-formed Locker of an existing Bloq validates back to itself from its representation. |
| Serializers.RentRoundTrip | rent/serializers.py:22-29 | Every well-formed Rent of an existing Locker validates back to itself from its representation. |
| Serializers.CreateBloqs | bloq/serializers.py:41-59 | The Bloq bulk create succeeds exactly when the batch is admissible. On success it stores one Bloq per record, in input order, and keeps the old Bloqs. On refusal the store is unchanged. Other tables are never touched, and consistency is kept. |
| Serializers.CreateLockers | locker/serializers.py:41-59 | The same as the Bloq bulk create, for Lockers validated against the stored Bloqs. |
| Serializers.CreateRents | rent/serializers.py:41-59 | The same as the Bloq bulk create, for Rents validated against the stored Lockers. |
| Serializers.BlankBloqIdRejected | bloq/tests.py:55-64 | A batch holding a Bloq with an absent or empty id is refused and stores nothing. |
| Serializers.DuplicateRentIdRejected | rent/serializers.py:56 | A batch that repeats a Rent id stores nothing. |
| Serializers.TwoBloqsCreated | bloq/tests.py:42-45 | Two Bloqs with fresh ids are both stored, and the table then holds exactly those two ids. |
| Serializers.UpsertBloqs | bloq/serializers.py:61-87 | On validated records, the Bloq bulk update succeeds exactly when the batch is upsert-admissible, and a refusal leaves the store unchanged. On success: one answer per record, in input order; each answer is the stored Bloq under the record's id, which is the last record submitted with that id; the last record with each id is the Bloq stored under it; the record ids are added; every other Bloq and every other table is unchanged. Consistency is kept. |
| Serializers.UpsertLockers | locker/serializers.py:61-89 | The same as the Bloq bulk update, for validated Lockers, each of an existing Bloq: the last record per id is stored whole, with a record without a size storing no size. Consistency is kept, so no stored Locker names a missing Bloq. |
| Serializers.UpsertRents | rent/serializers.py:61-89 | The same as the Bloq bulk update, for validated Rents, each on an existing Locker. Consistency is kept, so no stored Rent names a missing Locker. |
| Storage.DeleteLocker | rent/models.py:21 | Deleting a locker removes it and exactly the Rents that reference it, and keeps every other row unchanged. An unknown id answers NotFound and changes nothing. Consistency is kept. |
| Storage.DeleteBloq | locker/models.py:31 | Deleting a Bloq removes it, its lockers, and the Rents of those lockers, and keeps every other row unchanged. An unknown id answers NotFound and changes nothing. Consistency is kept, and a Rent survives exactly when its locker survives. |
| LockerViews.Select | locker/views.py:188-200 | A filtered query lists exactly the lockers that match the filter, each once, in strictly ascending id order. |
| LockerViews.AllLockers | locker/views.py:50 | The locker list holds every locker exactly once, in strictly ascending id order. |
| LockerViews.AvailableLockers | locker/views.py:178-204 | The available search lists exactly the unoccupied OPEN lockers, narrowed to the Bloq and the size when those parameters are non-empty, in strictly ascending id order. |
| LockerViews.ParametersNarrow | locker/views.py:191-200 | Adding parameters only narrows the search. Every locker it lists is in the unparameterised answer, which is at least as long. |
| LockerViews.EmptyParameterIgnored | locker/views.py:194-199 | Absent or empty parameters give the same answer as no parameters. |
| LockerViews.SizelessNeverMatches | locker/views.py:199-200 | With a size parameter given, every listed locker has a size. |
| BloqViews.ListBloqs | bloq/views.py:44 | The Bloq list holds every Bloq exactly once, in strictly ascending id order. |
| BloqViews.Guard | bloq/views.py:176-184 | An absent or empty id is refused with a required-parameter error before the Bloq is looked up. An unknown Bloq is refused with NotFound. Anything else passes. |
| BloqViews.BloqLockerList | bloq/views.py:163-186 | A per-Bloq list succeeds exactly when the id is given and the Bloq exists. Its answer is the Bloq's lockers that pass the occupancy filter, in id order. |
| BloqViews.BloqLockers | bloq/views.py:176-186 | The per-Bloq list is exactly that Bloq's lockers, in id order, after the two guards. |
| BloqViews.BloqAvailableLockers | bloq/views.py:223-235 | The per-Bloq available list is exactly that Bloq's unoccupied lockers, whatever their status, in id order, after the two guards. |
| BloqViews.BloqOccupiedLockers | bloq/views.py:272-284 | The per-Bloq occupied list is exactly that Bloq's occupied lockers, in id order, after the two guards. |
| BloqViews.AvailableOccupiedPartition | bloq/views.py:235 | A Bloq's available and occupied lists are disjoint, and together they hold exactly the lockers of its full list. |
| BloqViews.AvailabilityAsymmetry | locker/views.py:189 | A CLOSED, unoccupied locker is in its Bloq's available list but not in the cross-Bloq available search. |
| BloqViews.ExampleQueries | bloq/views.py:227-235 | For Bloq "1", with an OPEN free locker "1" and a CLOSED occupied locker "2", available lists only locker "1" and occupied lists only locker "2". |
| RentViews.ListRents | rent/views.py:42 | The Rent list holds every Rent exactly once, in strictly ascending id order. |
| RentViews.FreeLocker | rent/views.py:86 | The named locker, if it exists, becomes OPEN and unoccupied with its other fields kept. Every other locker is unchanged, and an unknown id changes nothing. |
| RentViews.FreeNamedLockers | rent/views.py:84-86 | The intake loop frees exactly the lockers named by the items it went through and keeps the rest. If it stops, it stops at the first item without a `lockerId`. |
| RentViews.Intake | rent/views.py:74-88 | Exactly the lockers named by the items before the first one without a `lockerId` (all items, if there is none) are freed, and they stay freed whatever the outcome; every other locker is unchanged. An item without a `lockerId` fails with MissingKey at the first such position, and no Rent is stored. The intake succeeds exactly when all items name a locker and the forced batch is admissible. Every stored Rent is WAITING_DROPOFF on the locker its item named, and that locker is OPEN and free. Bloqs are untouched, and consistency is kept. |
| RentViews.IntakeIgnoresStatus | rent/views.py:87 | Two batches that differ only in the statuses submitted give the same store and the same answer. |
| RentViews.FreeingReadsOnlyLockerIds | rent/views.py:85-86 | Which lockers the intake frees depends only on the items' `lockerId`s. |
| RentViews.IntakeStores | rent/views.py:87-88 | Suppose every item names a locker, validates, and has a new, distinct id. Then the intake answers exactly the validated Rents and adds exactly their ids. |
| RentViews.TwoRentsOneLocker | rent/tests.py:44-67 | Two Rents on one locker, sent as CREATED and WAITING_PICKUP, are both stored as WAITING_DROPOFF. Nothing limits the Rents per locker. |
| RentViews.Hand | rent/views.py:117-126 | A transition on an unknown Rent answers NotFound, and on a missing locker DanglingReference; both leave the store unchanged. Otherwise only the Rent's status and its own locker's status and occupancy change, and the answer is the stored Rent. Consistency is kept. |
| RentViews.DropOff | rent/views.py:117-124 | A drop-off on an existing Rent sets it to WAITING_PICKUP and its locker to CLOSED and occupied. An unknown id answers NotFound with the store unchanged. |
| RentViews.PickUp | rent/views.py:155-162 | A pickup on an existing Rent sets it to DELIVERED and its locker to OPEN and unoccupied. An unknown id answers NotFound with the store unchanged. |
| RentViews.HandIdempotent | rent/views.py:120-123 | Repeating a drop-off or a pickup changes nothing further and answers the same. |
| RentViews.LastStepWins | rent/views.py:117-124 | No transition checks the Rent's status. After any step, a second step leaves the store that the second step alone would have made, so a drop-off after a pickup gives WAITING_PICKUP again. |
| RentViews.HandKeepsCoherence | rent/views.py:158-161 | After either step, the Rent's locker is occupied exactly when it is CLOSED. If every locker was so before, every locker is so after. |
| RentViews.IntakeKeepsCoherence | rent/views.py:86 | The intake keeps every locker occupied exactly when it is CLOSED, if they were before. |
| RentViews.DropoffThenPickup | rent/tests.py:90-121 | Dropping off a Rent on a free locker gives WAITING_PICKUP with the locker CLOSED and occupied. Picking it up then gives DELIVERED with the locker OPEN and free. |

## Left out

- HTTP routing, authentication, Swagger decorators, logging and pagination. They are framework plumbing. Every list is modelled as the whole ordered answer, not one page of it.
- `DjangoFilterBackend` and `OrderingFilter` on the available-locker search. Only the filters written in `get_queryset` are modelled. The backend's own validation of the `bloqId` and `size` values, and any `ordering` parameter, are not.
- Database collation: id order is taken to be code-point order, as a binary collation gives.
- The generic retrieve and update detail views, and partial updates, are not modelled. They are framework code. Their deletes are modelled only as the cascades of the foreign keys (`Storage.DeleteLocker`, `Storage.DeleteBloq`).
- Concurrency: each drop-off or pickup is taken as one atomic step, though the code saves the locker and the Rent as two writes; races between requests, and a failure between the two writes, are not modelled.
- `Rent.weight` is a float in the code. Here it is a `real`, carried unchanged and never constrained.
- Serializer validation and the model's `full_clean` are merged into one check per record. The error reports only the first failing field of the first failing record. The code collects every field error, and the check order between the two layers is not modelled.
- Whitespace trimming of text fields by the serializer is not modelled.
- A blank locker size is treated the same as an absent one.
- Serializers.UpsertLockers: a record that leaves out `size` is treated as one that sends an empty size. In the code, a record updating an existing Locker without a `size` key keeps that Locker's stored size, because the child serializer's `update` sets only the fields it is given. The model stores the record whole, so the size becomes empty. Bloq and Rent records have no optional fields, so their bulk updates are not affected.
- The serializer's uniqueness check on `id` during a bulk update is not modelled. Only the save-time duplicate-key refusal is.
- RentViews.Intake: an item whose `lockerId` is JSON null is treated as having no `lockerId`. In the code such an item reaches the serializer and is refused there, after the remaining lockers have been freed.
- The project settings are not part of this model. Request-wide transactions (`ATOMIC_REQUESTS`) are taken to be off, so the intake's locker reset is not rolled back.
- Migrations and app configuration are schema generation only.
