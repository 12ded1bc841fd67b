# Quality-control service registry, modelled in Dafny

The quality-control service is a Django REST service that keeps a registry of medical
equipment as a tree of six tables:

    Clinic <- Department <- Equipment <- { EquipmentDetail, Parameter <- ParameterValue }

Each child row has exactly one parent of the next level up, and every foreign key
cascades on delete. This project models three parts of it:

- the write serializers that build and rebuild that tree from nested JSON documents;
- the read serializers that project a clinic back into a nested document;
- the request handlers that look rows up, validate, call a serializer, flip the `is_active`
  and `is_deleted` flags, and turn each outcome into an HTTP status.

## How the model is built

| file | module | what it holds |
|---|---|---|
| `wrappers.dfy` | `Wrappers` | `Option`, `Result` and the three failures: not found, invalid, internal |
| `models.dfy` | `Models` | the six row types and their defaults, the table set `Tables` with its integrity invariant, and the cascade delete |
| `relations.dfy` | `Relations` | reverse foreign keys (`department_set`, `equipments_set`, ...) as id lists, fixed to id order, and the relations between an older and a newer table set |
| `projection.dfy` | `ReadProjection` | the read shapes and the read projection of a clinic |
| `payloads.dfy` | `Payloads` | the documents the writers receive: raw (read from the request body as is) and validated |
| `appends.dfy` | `Appends` | appending detail rows and value rows |
| `trees.dfy` | `Trees` | building an equipment or department subtree from a document, and reading it back |
| `clinicwrites.dfy` | `ClinicWrites` | clinic create and clinic full replace, as functions on `Tables` |
| `equipmentwrites.dfy` | `EquipmentWrites` | equipment create, equipment update (scalars, details, parameter entries) and department create, as functions |
| `status.dfy` | `EquipmentStatus` | inactivate and soft delete, as functions |
| `persistence.dfy` | `Persistence` | `class Store`: the database, one map field per table and the id counter, updated in place |
| `serializers.dfy` | `Serializers` | the serializer write methods as loops over the `Store`, each proved equal to its function |
| `views.dfy` | `Handlers` | the request handlers as methods over the `Store`, and the outcome-to-status mapping |

The store is one object whose methods insert, save and delete rows. The serializer and
handler methods change it step by step, as the source does. Each of them is proved
equal to a function on the value `Tables`, and the properties of the source are then
proved about those functions.

Further modelling choices:

- **Ids and order.** Rows get their ids from one increasing counter, shared by all six
  tables, that starts at 1, so no row ever has id 0. The database gives each table its
  own sequence instead, so the id values differ from the program's; what the model keeps
  is that a new id is fresh, non-zero and larger than every id before it. The source's reverse foreign-key reads (`department_set.all()`,
  `equipments_set.filter(...)` and the like) have no `order_by`, and no model declares a
  default ordering. Their order is therefore up to the database. The model fixes it to id
  order, which is insertion order.
- **Transactions.** `@transaction.atomic` is modelled by `Store.Restore`: a failing write
  puts back the snapshot taken on entry.
- **Validation.** Schema validation (types, lengths, required keys) is a boolean parameter
  `valid` of each handler. Only the outcomes that the documents themselves decide are
  spelled out:
  - a missing required name is invalid;
  - an equipment document with parameter entries cannot be validated at all.

## Behaviour of the code as written

These points follow from the code in `restapi/serializers.py` and `restapi/models.py`.
The model follows the code, and the contracts state these points.

- **A Parameter can never be created.** The `Parameters` model has no `format` column
  (`restapi/models.py:62-69`). Every `Parameters.objects.create(..., format=...)`
  (`restapi/serializers.py:71-76`, `210-215`, `256-261`) fails. As a result:
  - an equipment create, clinic create or clinic update whose document lists any
    parameter is an internal error;
  - the transaction leaves the store unchanged.
- **An equipment document with parameter entries is never validated.**
  `ParameterSerializer` lists `format` among its fields, but the model has no such column
  and the serializer does not declare it (`restapi/serializers.py:34-39`). Building that
  serializer's fields fails, so a POST or PUT of an equipment whose `parameters` list has
  at least one object entry answers 500 before any change. The parameter-entry logic of
  `EquipmentSerializer.update` (`restapi/serializers.py:101-134`) is still modelled and
  proved, as `EquipmentWrites.ApplyEntries` and `Serializers.EquipmentUpdate`, over
  whatever entries it is given. The handlers only ever give it none.
- **`parameter_values` never reaches the update.** It is not a field of
  `ParameterSerializer`, so validated data does not contain it. The model still passes an
  entry's values to `update` as written (`restapi/serializers.py:129-134`).
- **Reading parameters fails.** `ParameterReadSerializer` declares a `format` JSON field
  that no parameter row has (`restapi/serializers.py:280-293`). A GET of a clinic that
  lists any parameter therefore answers 500 (`Handlers.GetClinic`, `Handlers.ShowsParameters`).
  Clinics built by this service never list one (`Handlers.NoParametersShown`).
- **Department create is not atomic.** `DepartmentSerializer.create`
  (`restapi/serializers.py:148-155`) has no transaction of its own. It creates the
  department and then one equipment tree per entry. Each nested equipment create rolls
  back only itself, so an entry with parameters leaves the department and the equipment
  before it in place. No handler calls it. The serializer has no `clinic` field, so the
  clinic must come from the caller's `save(clinic=...)`; the model takes it as an optional
  clinic id, and without an existing clinic the first insert fails and nothing is stored.
- **Parameter entries with no id or an unknown id are skipped.** An entry whose id is
  missing or 0, or names a parameter of another equipment, is skipped silently
  (`restapi/serializers.py:104-114`). An empty list of values is accepted. The tests in
  `restapi/tests/test_serializers.py:172-251` expect validation errors in these cases; the
  code does not raise them.
- **Equipment create makes no ParameterValue rows.** The tests expect equipment create to
  turn `format` into a ParameterValue (`restapi/tests/test_serializers.py:86-112`). The
  code creates none.
- **The inactivate and update lookups do not filter on `is_deleted`.** These lookups
  (`restapi/views.py:191-194`, `240-243`) find soft-deleted equipment too. Only the
  soft-delete lookup filters on it (`restapi/views.py:273-277`).
- **A null list fails the clinic writes.** The clinic serializers read `department`,
  `equipments`, `equipment_details` and `parameters` as `get(key, [])`
  (`restapi/serializers.py:178`, `191`, `199` and `209` in create; `222`, `237`,
  `245` and `255` in update). A
  missing key is an empty list, but a key sent as `null` gives `None`, and the `for`
  over it fails. The clinic create or update is then an internal error and rolls back.
- **Null or missing content fails the update.** A value whose `content` is missing or
  null in an update entry violates the NOT NULL JSON column and fails the whole update.

## Model

| member | source | states |
|---|---|---|
| Models.NewDepartment | restapi/models.py:17-21 | a new department belongs to the given clinic, keeps the given name, and is active unless `is_active` is given as false |
| Models.NewEquipment | restapi/models.py:30-35 | a new equipment belongs to the given department, is active unless given false, and is never born deleted |
| Models.NewDetail | restapi/models.py:46-51 | a new detail belongs to the given equipment, keeps number, make and model, and is active unless given false |
| Models.NewParameterValue | restapi/models.py:75-82 | a new value belongs to the given parameter, keeps the content as given, and is not deleted |
| Models.CascadeValid | restapi/models.py:17-83 | deleting a clinic's departments with cascade keeps every foreign key valid and leaves the clinics and the id counter alone |
| Models.CascadeDepartments | restapi/models.py:20 | exactly the departments of that clinic go; the others stay unchanged |
| Models.CascadeEquipments | restapi/models.py:32 | an equipment goes exactly when it is under that clinic; the others stay unchanged |
| Models.CascadeDetails | restapi/models.py:47 | a detail goes exactly when its equipment is under that clinic; the others stay unchanged |
| Models.CascadeParameters | restapi/models.py:63 | a parameter goes exactly when its equipment is under that clinic; the others stay unchanged |
| Models.CascadeValues | restapi/models.py:76-80 | a value goes exactly when its parameter's equipment is under that clinic; the others stay unchanged |
| Relations.Related | restapi/serializers.py:316-322 | a reverse foreign-key set lists only rows owned by the parent, in strictly increasing id (insertion) order |
| Relations.RelatedMember | restapi/serializers.py:316-322 | an id is in a reverse set exactly when its row exists and is owned by the parent |
| Relations.CascadeShrinks | restapi/models.py:32-80 | the cascade cuts off whole subtrees: surviving rows are unchanged, and a row whose parent survives survives |
| ReadProjection.ListedExactlyWhenNotDeleted | restapi/serializers.py:316-318 | a department's read lists an equipment exactly when it belongs there and is not soft-deleted, active or not |
| ReadProjection.ValuesShownIncludingDeleted | restapi/serializers.py:274-283 | a parameter's read lists every value row of the parameter, deleted ones too, each with its own `is_deleted` flag |
| ReadProjection.DepartmentViewsStable | restapi/serializers.py:306-326 | adding new subtrees under other parents leaves a clinic's department reads unchanged |
| ReadProjection.EquipmentViewStable | restapi/serializers.py:297-303 | adding new rows elsewhere leaves an existing equipment's read unchanged |
| ReadProjection.DepartmentViewsKept | restapi/serializers.py:306-326 | cutting off other subtrees leaves a clinic's department reads unchanged |
| Appends.AddDetailsValid | restapi/serializers.py:94-98 | appending details to an existing equipment keeps every foreign key and every older row |
| Appends.AddDetailsExtendsList | restapi/serializers.py:94-98 | the equipment's detail list grows by exactly the new ids, after the old ones |
| Appends.AddDetailsKeepsOtherLists | restapi/serializers.py:94-98 | every other equipment's detail list is unchanged |
| Appends.AddDetailsPlacesRows | restapi/serializers.py:94-98 | the new detail rows sit at consecutive fresh ids, in document order |
| Appends.AddValuesValid | restapi/serializers.py:130-134 | appending values to an existing parameter keeps every foreign key and every older row |
| Appends.AddValuesExtendsList | restapi/serializers.py:130-134 | the parameter's value list grows by exactly the new ids, after the old ones |
| Appends.AddValuesKeepsOtherLists | restapi/serializers.py:130-134 | every other parameter's value list is unchanged |
| Appends.AddValuesPlacesRows | restapi/serializers.py:130-134 | the new value rows sit at consecutive fresh ids, in order, with the given contents, not deleted |
| Trees.AddEquipmentTreeValid | restapi/serializers.py:65-68 | creating an equipment with its details under an existing department keeps integrity and every older row |
| Trees.AddEquipmentTreeFresh | restapi/serializers.py:65-68 | every new row hangs under a new row, and every new equipment under the given department |
| Trees.AddEquipmentTreeListed | restapi/serializers.py:65-68 | the department's list gains exactly the new equipment, last |
| Trees.AddEquipmentTreeShows | restapi/serializers.py:65-68 | the new equipment reads back with the document's name, details in order, and no parameters |
| Trees.AddEquipmentTreeStep | restapi/serializers.py:65-68 | the department's read gains exactly the new equipment's read, last, and it shows the document |
| Trees.AddEquipmentTreesShows | restapi/serializers.py:191-206 | equipments built one after another under a new department read back as the document, in order |
| Trees.AddDepartmentTreeShows | restapi/serializers.py:185-206 | a department built from a document reads back with its name, flag and equipment |
| Trees.AddDepartmentTreeStep | restapi/serializers.py:185-206 | the clinic's read gains exactly the new department's read, last |
| Trees.AddDepartmentTreesValid | restapi/serializers.py:184-206 | building a document's departments under an existing clinic keeps integrity and every older row |
| Trees.AddDepartmentTreesFresh | restapi/serializers.py:184-206 | every new row hangs under a new row, and every new department under the clinic |
| Trees.AddDepartmentTreesShows | restapi/serializers.py:184-206 | departments built one after another under a clinic with none read back as the document, in order |
| Trees.ShowsRawDocument | restapi/serializers.py:184-206 | a read that shows a storable raw document's validated form shows the raw document: names and strings as sent, `is_active` false exactly where sent as false, one entry per document entry in order, no parameters |
| ClinicWrites.FreshClinicHasNoDepartments | restapi/serializers.py:180-182 | a new clinic starts with no departments |
| ClinicWrites.ClinicCreateValid | restapi/serializers.py:176-217 | clinic create keeps integrity and every existing row |
| ClinicWrites.ClinicCreateShowsDocument | restapi/serializers.py:176-217 | the created clinic reads back with the document's name and exactly the raw document's departments, equipment and details |
| ClinicWrites.ClinicCreateReadBack | restapi/serializers.py:176-217 | the created clinic reads back with its name and one department per document entry, each with its equipment and details |
| ClinicWrites.ClinicCreateFresh | restapi/serializers.py:176-217 | every row created hangs under a row created by the same call |
| ClinicWrites.ClinicCreateUnder | restapi/serializers.py:184-189 | every new department is bound to the new clinic |
| ClinicWrites.ClinicCreateKeepsOtherClinics | restapi/serializers.py:176-217 | every other clinic reads back exactly as before |
| ClinicWrites.ClinicClearedValid | restapi/serializers.py:225-228 | after the delete and the rename, integrity holds and the clinic has no departments |
| ClinicWrites.ClinicReplaceValid | restapi/serializers.py:219-263 | the full replace keeps integrity, and every department it creates is bound to the clinic |
| ClinicWrites.ClinicReplaceReadBack | restapi/serializers.py:219-263 | the clinic reads back with the new name, or the old one when none is given, and exactly the document's departments |
| ClinicWrites.ClinicReplaceShowsDocument | restapi/serializers.py:219-263 | the replaced clinic reads back with exactly the raw document's departments, equipment and details |
| ClinicWrites.ClinicReplaceDropsOldDepartments | restapi/serializers.py:225 | every old department of the clinic is gone, and every department it now has is new |
| ClinicWrites.ClinicReplaceKeepsOtherDepartments | restapi/serializers.py:225 | other clinics and their departments stay, unchanged |
| ClinicWrites.ClinicReplaceEquipments | restapi/serializers.py:225 | an old equipment goes exactly when it was under the clinic; the others are unchanged |
| ClinicWrites.ClinicReplaceDetails | restapi/serializers.py:225 | an old detail goes exactly when its equipment was under the clinic; the others are unchanged |
| ClinicWrites.ClinicReplaceParameters | restapi/serializers.py:225 | an old parameter goes exactly when its equipment was under the clinic; the others are unchanged |
| ClinicWrites.ClinicReplaceValues | restapi/serializers.py:225 | an old value goes exactly when its parameter's equipment was under the clinic; the others are unchanged |
| ClinicWrites.ClinicClearedKeepsOtherClinics | restapi/serializers.py:225-228 | the delete and rename leave every other clinic's departments reading the same |
| ClinicWrites.ClinicReplaceKeepsOtherClinics | restapi/serializers.py:219-263 | every other clinic reads back exactly as before |
| EquipmentWrites.WithScalars | restapi/serializers.py:86-92 | a given name or flag overwrites, an absent one is kept; department and deleted flag never change |
| EquipmentWrites.MatchedParameter | restapi/serializers.py:102-114 | an entry names a parameter exactly when its id is given, non-zero, exists and belongs to the equipment being updated |
| EquipmentWrites.ApplyEntryOutcome | restapi/serializers.py:101-134 | an unmatched entry changes nothing; a matched one fails exactly when a content is null, otherwise it keeps integrity and touches only parameters and values |
| EquipmentWrites.ApplyEntryMatched | restapi/serializers.py:116-134 | a matched entry overwrites only the given name and flag of that parameter, and appends exactly its values, not deleted |
| EquipmentWrites.ApplyEntryContents | restapi/serializers.py:129-134 | an entry appends its contents to the matched parameter's value history and to no other |
| EquipmentWrites.ApplyEntryOthers | restapi/serializers.py:108-126 | every other parameter is unchanged |
| EquipmentWrites.ApplyEntriesFrame | restapi/serializers.py:101-134 | the entry loop fails only as an internal error, and otherwise keeps integrity and leaves clinics, departments, equipment and details alone |
| EquipmentWrites.ApplyEntriesOkIff | restapi/serializers.py:101-134 | the entry loop succeeds exactly when no matched entry carries a null content |
| EquipmentWrites.ApplyEntriesErrSticks | restapi/serializers.py:101-134 | once an entry fails, the later entries do not run |
| EquipmentWrites.ApplyEntriesContents | restapi/serializers.py:129-134 | after the loop each parameter's value history is the old one followed by the contents of every entry that matched it, in order |
| EquipmentWrites.ApplyEntriesUntouched | restapi/serializers.py:102-114 | a parameter no entry matches is unchanged |
| EquipmentWrites.UpdateBaseFrame | restapi/serializers.py:86-98 | before the entries only the equipment's scalars change and its details are appended |
| EquipmentWrites.EquipmentUpdateOutcome | restapi/serializers.py:81-136 | the update succeeds exactly when no matched entry has a null content; a failure is internal; a success keeps integrity |
| EquipmentWrites.EquipmentUpdateScalars | restapi/serializers.py:86-92 | only the equipment's name and flag change, each only when given; clinics and departments do not |
| EquipmentWrites.EquipmentUpdateDetails | restapi/serializers.py:94-98 | the equipment's details are the old ones, unchanged, followed by one new row per document detail; other lists do not change |
| EquipmentWrites.EquipmentUpdateValues | restapi/serializers.py:128-134 | every parameter's value history is extended by exactly the contents of the entries that matched it |
| EquipmentWrites.EquipmentUpdateUntouched | restapi/serializers.py:102-114 | a parameter that no entry matches, including one of another equipment, is unchanged |
| EquipmentWrites.EquipmentCreateOutcome | restapi/serializers.py:59-78 | equipment create succeeds exactly without parameter entries; it then adds one undeleted equipment, active unless the document gives `is_active` false, listed last, that reads back as the document |
| EquipmentWrites.FirstWithParameters | restapi/serializers.py:152-153 | the position of the first equipment entry with parameters, or the end when there is none |
| EquipmentWrites.FirstWithParametersAll | restapi/serializers.py:152-153 | the scan reaches the end exactly when no entry has parameters |
| EquipmentWrites.DepartmentCreateComplete | restapi/serializers.py:148-155 | without parameter entries the department is added last to its clinic, with every equipment of the document |
| EquipmentWrites.DepartmentCreatePartial | restapi/serializers.py:148-155 | with parameter entries the department still stays, with the equipment before the first entry that has them |
| EquipmentStatus.InactivateOutcome | restapi/views.py:238-254 | inactivate succeeds exactly when the equipment belongs to the department; it clears only that equipment's `is_active`, and every other row, every other table and the id counter stay the same; otherwise not found |
| EquipmentStatus.InactivateIdempotent | restapi/views.py:238-250 | inactivating twice has the same effect and outcome as once |
| EquipmentStatus.EquipmentViewIgnoresFlags | restapi/serializers.py:297-303 | an equipment's read depends only on its id, its name and the rows below it, never on its flags |
| EquipmentStatus.EquipmentViewsIgnoreActive | restapi/serializers.py:297-303 | clearing an equipment's `is_active` changes no department's read |
| EquipmentStatus.InactivateInvisible | restapi/views.py:244-245 | inactivate changes no clinic's read |
| EquipmentStatus.SoftDeleteOutcome | restapi/views.py:271-290 | soft delete succeeds exactly for an undeleted equipment of the department; it sets deleted and inactive on that one only, and every other row, every other table and the id counter stay the same |
| EquipmentStatus.SoftDeleteTwice | restapi/views.py:273-277 | a second soft delete of the same equipment is not found |
| EquipmentStatus.InactivateAfterSoftDelete | restapi/views.py:240-243 | a soft-deleted equipment can still be inactivated |
| EquipmentStatus.SoftDeleteHides | restapi/serializers.py:316-318 | after a soft delete the department lists its equipment as before, without that one |
| EquipmentStatus.SoftDeleteKeepsOtherLists | restapi/serializers.py:316-318 | every other department lists the same equipment |
| Persistence.Store.constructor | restapi/models.py:7-83 | an empty database |
| Persistence.Store.InsertDepartment | restapi/serializers.py:185-189 | an insert adds the row under the next fresh id and changes nothing else |
| Persistence.Store.SaveEquipment | restapi/views.py:244-245 | a save rewrites one equipment row and nothing else |
| Persistence.Store.DeleteDepartmentsOf | restapi/serializers.py:225 | the bulk delete with cascade |
| Persistence.Store.Restore | restapi/serializers.py:176 | the rollback of an atomic block: the store is the snapshot taken on entry |
| Serializers.InsertRawDetails | restapi/serializers.py:199-206 | one detail insert per raw entry; it succeeds exactly when every entry is storable, with the rows of the details |
| Serializers.InsertDetails | restapi/serializers.py:94-98 | one detail insert per validated entry, in order |
| Serializers.InsertRawEquipment | restapi/serializers.py:192-215 | an equipment, its details, then its parameters; it succeeds exactly when the entry is storable: a name, a flag and a details list that are not null, storable details, and no parameter |
| Serializers.InsertRawEquipments | restapi/serializers.py:191-215 | one equipment subtree per entry, in order; it stops at the first entry that cannot be stored |
| Serializers.InsertRawDepartment | restapi/serializers.py:185-215 | a department and its equipment subtrees; it succeeds exactly when the entry has a name, a flag and an `equipments` list that are not null, and every equipment is storable |
| Serializers.InsertRawDepartments | restapi/serializers.py:184-215 | one department subtree per entry, in order; it succeeds exactly when every entry is storable |
| Serializers.ClinicCreate | restapi/serializers.py:176-217 | all or nothing: the new clinic under the next id with its whole document tree, or, for a missing name, a null `department` list or any entry that cannot be stored, an internal error with the store unchanged |
| Serializers.ClinicUpdate | restapi/serializers.py:219-263 | all or nothing: the full replace, or an internal error with the store unchanged |
| Serializers.EquipmentCreate | restapi/serializers.py:59-78 | under an existing department, as every caller passes: all or nothing: the new equipment tree under the next id, or an internal error with the store unchanged |
| Serializers.ApplyParameterEntry | restapi/serializers.py:102-134 | one parameter entry: lookup, field edits, value appends; it fails exactly when the entry function fails |
| Serializers.EquipmentUpdate | restapi/serializers.py:81-136 | all or nothing: the equipment update as its function computes it, or an internal error with the store unchanged |
| Serializers.DepartmentCreate | restapi/serializers.py:148-155 | without an existing clinic given to `save()`, an internal error and nothing stored; otherwise the department and its equipment up to the first with parameters, then an internal error |
| Handlers.StatusCode | restapi/views.py:40-56 | created answers 201 and success 200; not found 404, invalid 400 and any other failure 500 |
| Handlers.NoParametersShown | restapi/serializers.py:280-293 | a clinic read that shows a document's departments lists no parameter |
| Handlers.GetClinic | restapi/views.py:115-128 | not found exactly when the clinic does not exist; success with the clinic's read exactly when that read lists no parameter; otherwise an internal error |
| Handlers.PostClinic | restapi/views.py:33-56 | invalid exactly when validation fails or the name is missing; created exactly when the document is storable, answered with a read that shows the raw document; a failure changes nothing |
| Handlers.PutClinic | restapi/views.py:74-99 | not found first, before any change; then invalid; then the full replace answered with the clinic's new read, which shows the raw document, or an internal error with nothing changed |
| Handlers.PostEquipment | restapi/views.py:146-171 | not found for a missing department; internal for parameter entries; invalid without a name; otherwise created, listed last, and shown as the document |
| Handlers.PutEquipment | restapi/views.py:189-221 | not found unless the equipment belongs to the department, deleted or not; internal for parameter entries; invalid without a name; otherwise the update |
| Handlers.PatchInactive | restapi/views.py:238-258 | done exactly when the equipment belongs to the department, with the inactivate effect; otherwise not found and nothing changed |
| Handlers.PatchSoftDelete | restapi/views.py:271-300 | done exactly for an undeleted equipment of the department, with the soft-delete effect; otherwise not found and nothing changed |
| Handlers.DeleteSoftDelete | restapi/views.py:303-304 | DELETE has the same effect and outcome as PATCH on the soft-delete endpoint |

## Left out

- Logging, `traceback` output, `print` and the Swagger annotations in `restapi/views.py`: output only.
- HTTP routing and the JSON bodies of error responses. Handlers return an `Outcome`, and
  `Handlers.StatusCode` gives its status.
- The `created_at` columns, and the one the value read shape shows: they come from the clock.
- The order of reverse foreign-key reads. The source leaves it to the database, and the
  model fixes it to id order. So the "in order" and "listed last" parts of the read-back
  contracts hold for this choice of order, not for every database.
- Entries of a raw clinic document that are not JSON objects. Calling `get` on such an
  entry raises an error; the model takes every entry to be an object.
- DRF schema validation: field types and `max_length`. It is the `valid` parameter of
  each handler; only the missing-name and parameter-entry outcomes are spelled out. Keys
  that are not declared fields are dropped by the serializers and never reach the model.
- Entries of an equipment document's `parameters` list that are `null` or not objects.
  DRF rejects each such entry before it builds the parameter serializer's fields, so a
  list made only of such entries answers 400, not 500. That outcome is folded into
  `valid`; the model's parameter entries are always objects.
- The `format` attribute that the update writes on a matched parameter
  (`restapi/serializers.py:120-121`). It is a plain Python attribute with no column, so it
  is never stored.
- Id values. The database gives each table its own sequence, and a sequence is not
  rolled back with a transaction; the model draws all ids from one counter, which
  `Store.Restore` also rolls back. So the ids the program returns and shows in response
  bodies are not the model's. Only freshness, non-zero ids and order within a parent are
  kept. This affects:
  - the id in `Serializers.ClinicCreate`'s and `Serializers.EquipmentCreate`'s result;
  - the new id that `Handlers.PostEquipment` answers with;
  - the `id` field of every read shape.
- Handlers.PostClinic: raw scalar values in the `department` list are taken to be
  JSON strings and booleans. Django's coercion of `is_active` values such as `"0"`,
  `"f"` or `1`, the 500 that other non-boolean flag values give, and storing a
  non-string name as its string form are not modelled.
- Handlers.PutClinic: the same holds for the raw `department` list of a full replace.
- Trees.ShowsRawDocument: "`is_active` false exactly where sent as false" is about the
  JSON value `false` only; a flag sent as a string or number is outside the model.
- ClinicWrites.ClinicCreateShowsDocument: the same restriction to JSON strings and
  booleans in the raw document.
- ClinicWrites.ClinicReplaceShowsDocument: the same restriction to JSON strings and
  booleans in the raw document.
- The equipment handlers' response bodies beyond the new id. The stored row is stated instead.
- Concurrency and isolation between requests. Each handler runs alone on the store.
- Handlers.PostEquipment: does not model validating a non-empty `equipment_details`
  list; that is part of the `valid` parameter.
- Handlers.PutEquipment: does not state the response body (`EquipmentSerializer(updated).data`);
  the new state is stated through `EquipmentWrites.EquipmentUpdated`.
