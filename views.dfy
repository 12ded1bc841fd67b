/**
 * The request handlers. Each looks its target up first (a miss is "not found", before
 * any validation), then validates the document, then calls a serializer; any other
 * exception is an internal error. Schema validation is a parameter `valid`, apart from
 * the two outcomes the documents here decide: a missing required name is a validation
 * error, and an equipment document with parameter entries cannot be validated at all,
 * because the parameter serializer declares a `format` field that its model lacks.
 */
module Handlers {
  import opened Wrappers
  import opened Models
  import opened Relations
  import opened ReadProjection
  import opened Payloads
  import opened Trees
  import opened ClinicWrites
  import opened EquipmentWrites
  import opened EquipmentStatus
  import opened Persistence
  import opened Serializers

  /** What a handler answers. */
  datatype Outcome = Created | Done | Failed(failure: Failure)

  /** The HTTP status of an outcome. */
  function StatusCode(o: Outcome): (code: nat)
    ensures 200 <= code <= 500
    ensures code < 300 <==> !o.Failed?
    ensures code == 201 <==> o == Created
    ensures code == 200 <==> o == Done
    ensures code == 500 <==> o == Failed(Internal)
    ensures o.Failed? ==> (code == 404 <==> o.failure == NotFound) && (code == 400 <==> o.failure == Invalid)
  {
    match o
    case Created => 201
    case Done => 200
    case Failed(NotFound) => 404
    case Failed(Invalid) => 400
    case Failed(Internal) => 500
  }

  /**
   * A clinic read lists a parameter somewhere. Such a read fails: the parameter read
   * shape declares a `format` field that no parameter row has.
   */
  predicate ShowsParameters(v: ClinicView)
  {
    exists i, j | 0 <= i < |v.departments| && 0 <= j < |v.departments[i].equipments| ::
      v.departments[i].equipments[j].parameters != []
  }

  /** A clinic read built only from documents, which carry no parameters, shows none. */
  lemma NoParametersShown(v: ClinicView, ds: seq<DepartmentInput>)
    requires DepartmentsShow(v.departments, ds)
    ensures !ShowsParameters(v)
  {
    forall i, j | 0 <= i < |v.departments| && 0 <= j < |v.departments[i].equipments|
      ensures v.departments[i].equipments[j].parameters == []
    {
      assert DepartmentShows(v.departments[i], ds[i]);
      assert EquipmentShows(v.departments[i].equipments[j], ds[i].equipments[j]);
    }
  }

  /** GET a clinic: its read shape, not found, or an internal error when it lists a parameter. */
  method GetClinic(s: Store, cid: nat) returns (o: Outcome, body: Option<ClinicView>)
    ensures o == Failed(NotFound) <==> cid !in s.clinics
    ensures o == Done <==> cid in s.clinics && !ShowsParameters(ReadClinic(s.Snapshot(), cid).value)
    ensures o == Done || o == Failed(NotFound) || o == Failed(Internal)
    ensures o == Done ==> body == ReadClinic(s.Snapshot(), cid) && body.Some? && body.value.id == cid
    ensures o != Done ==> body.None?
  {
    if cid !in s.clinics {
      return Failed(NotFound), None;
    }
    var view := ReadClinic(s.Snapshot(), cid);
    if ShowsParameters(view.value) {
      return Failed(Internal), None;
    }
    return Done, view;
  }

  /**
   * POST a clinic: created with its whole tree and answered with its read shape, or
   * rejected by validation, or an internal error; a failure changes nothing.
   */
  method PostClinic(s: Store, p: ClinicPayload, valid: bool) returns (o: Outcome, body: Option<ClinicView>)
    requires s.Valid()
    modifies s
    ensures s.Valid()
    ensures o == Created <==> valid && ClinicInsertable(p)
    ensures o == Failed(Invalid) <==> !valid || p.name.None?
    ensures o.Failed? ==> o.failure != NotFound && s.Snapshot() == old(s.Snapshot()) && body.None?
    ensures o == Created ==>
      && s.Snapshot() == ClinicCreated(old(s.Snapshot()), p)
      && body == ReadClinic(s.Snapshot(), old(s.nextId)) && body.Some?
      && body.value.name == p.name.value
      && DepartmentsShow(body.value.departments, DepartmentsOfRaw(p.Departments()))
      && RawDepartmentsShow(body.value.departments, p.Departments())
  {
    if !valid || p.name.None? {
      return Failed(Invalid), None;
    }
    ghost var t0 := s.Snapshot();
    var r := ClinicCreate(s, p);
    if r.Err? {
      return Failed(r.failure), None;
    }
    ClinicCreateValid(t0, p);
    ClinicCreateReadBack(t0, p);
    ClinicCreateShowsDocument(t0, p);
    body := ReadClinic(s.Snapshot(), r.value);
    NoParametersShown(body.value, DepartmentsOfRaw(p.Departments()));
    return Created, body;
  }

  /**
   * PUT a clinic: not found when it does not exist, before anything else; otherwise a
   * full replace answered with the new read shape, a validation error or an internal
   * error; a failure changes nothing.
   */
  method PutClinic(s: Store, cid: nat, p: ClinicPayload, valid: bool) returns (o: Outcome, body: Option<ClinicView>)
    requires s.Valid()
    modifies s
    ensures s.Valid()
    ensures o == Failed(NotFound) <==> cid !in old(s.clinics)
    ensures o == Failed(Invalid) <==> cid in old(s.clinics) && (!valid || p.name.None?)
    ensures o == Done <==> cid in old(s.clinics) && valid && p.name.Some? && p.DepartmentsStorable()
    ensures o != Created
    ensures o.Failed? ==> s.Snapshot() == old(s.Snapshot()) && body.None?
    ensures o == Done ==>
      && s.Snapshot() == ClinicReplaced(old(s.Snapshot()), cid, p)
      && body == ReadClinic(s.Snapshot(), cid) && body.Some?
      && body.value.name == p.name.value
      && DepartmentsShow(body.value.departments, DepartmentsOfRaw(p.Departments()))
      && RawDepartmentsShow(body.value.departments, p.Departments())
  {
    if cid !in s.clinics {
      return Failed(NotFound), None;
    }
    if !valid || p.name.None? {
      return Failed(Invalid), None;
    }
    ghost var t0 := s.Snapshot();
    var r := ClinicUpdate(s, cid, p);
    if r.Err? {
      return Failed(r.failure), None;
    }
    ClinicReplaceValid(t0, cid, p);
    ClinicReplaceReadBack(t0, cid, p);
    ClinicReplaceShowsDocument(t0, cid, p);
    body := ReadClinic(s.Snapshot(), cid);
    return Done, body;
  }

  /**
   * POST an equipment under department `did`: not found when the department does not
   * exist; an internal error for a document with parameter entries; a validation error
   * without a name; otherwise created, answered with its id, and listed last in the
   * department, shown as the document.
   */
  method PostEquipment(s: Store, did: nat, inp: EquipmentInput, valid: bool) returns (o: Outcome, eid: Option<nat>)
    requires s.Valid()
    modifies s
    ensures s.Valid()
    ensures o == Failed(NotFound) <==> did !in old(s.departments)
    ensures o == Failed(Internal) <==> did in old(s.departments) && inp.parameters != []
    ensures o == Created <==> did in old(s.departments) && inp.parameters == [] && valid && inp.name.Some?
    ensures o != Done
    ensures o.Failed? ==> s.Snapshot() == old(s.Snapshot()) && eid.None?
    ensures o == Created ==>
      && eid == Some(old(s.nextId))
      && s.Snapshot() == AddEquipmentTree(old(s.Snapshot()), did, inp)
      && eid.value in s.equipments
      && s.equipments[eid.value] == NewEquipment(did, inp.name.value, inp.isActive)
      && EquipmentViews(s.Snapshot(), did)
           == EquipmentViews(old(s.Snapshot()), did) + [EquipmentViewOf(s.Snapshot(), eid.value)]
      && EquipmentShows(EquipmentViewOf(s.Snapshot(), eid.value), inp)
  {
    if did !in s.departments {
      return Failed(NotFound), None;
    }
    if inp.parameters != [] {
      return Failed(Internal), None;
    }
    if !valid || inp.name.None? {
      return Failed(Invalid), None;
    }
    ghost var t0 := s.Snapshot();
    EquipmentCreateOutcome(t0, did, inp);
    var r := EquipmentCreate(s, did, inp);
    return Created, Some(r.value);
  }

  /**
   * PUT an equipment of department `did`, soft-deleted or not: not found unless it belongs
   * to the department; an internal error for a document with parameter entries; a
   * validation error without a name; otherwise the update.
   */
  method PutEquipment(s: Store, did: nat, eid: nat, inp: EquipmentInput, valid: bool) returns (o: Outcome)
    requires s.Valid()
    modifies s
    ensures s.Valid()
    ensures o == Failed(NotFound) <==> !InDepartment(old(s.Snapshot()), did, eid)
    ensures o == Failed(Internal) <==> InDepartment(old(s.Snapshot()), did, eid) && inp.parameters != []
    ensures o == Done <==> InDepartment(old(s.Snapshot()), did, eid) && inp.parameters == [] && valid && inp.name.Some?
    ensures o != Created
    ensures o.Failed? ==> s.Snapshot() == old(s.Snapshot())
    ensures o == Done ==>
      && EquipmentUpdated(old(s.Snapshot()), eid, inp).Ok?
      && s.Snapshot() == EquipmentUpdated(old(s.Snapshot()), eid, inp).value
  {
    if !(eid in s.equipments && s.equipments[eid].dep == did) {
      return Failed(NotFound);
    }
    if inp.parameters != [] {
      return Failed(Internal);
    }
    if !valid || inp.name.None? {
      return Failed(Invalid);
    }
    ghost var t0 := s.Snapshot();
    EquipmentUpdateOutcome(t0, eid, inp);
    var r := EquipmentUpdate(s, eid, inp);
    return Done;
  }

  /** PATCH inactive: clears `is_active` of an equipment of the department, deleted or not. */
  method PatchInactive(s: Store, did: nat, eid: nat) returns (o: Outcome)
    requires s.Valid()
    modifies s
    ensures s.Valid()
    ensures o == Done <==> InDepartment(old(s.Snapshot()), did, eid)
    ensures o != Done ==> o == Failed(NotFound) && s.Snapshot() == old(s.Snapshot())
    ensures o == Done ==> s.Snapshot() == Inactivated(old(s.Snapshot()), did, eid).value
  {
    if !(eid in s.equipments && s.equipments[eid].dep == did) {
      return Failed(NotFound);
    }
    InactivateOutcome(s.Snapshot(), did, eid);
    s.SaveEquipment(eid, s.equipments[eid].(isActive := false));
    return Done;
  }

  /** PATCH soft delete: marks an equipment of the department deleted and inactive, once. */
  method PatchSoftDelete(s: Store, did: nat, eid: nat) returns (o: Outcome)
    requires s.Valid()
    modifies s
    ensures s.Valid()
    ensures o == Done <==> InDepartment(old(s.Snapshot()), did, eid) && !old(s.equipments[eid].isDeleted)
    ensures o != Done ==> o == Failed(NotFound) && s.Snapshot() == old(s.Snapshot())
    ensures o == Done ==> s.Snapshot() == SoftDeleted(old(s.Snapshot()), did, eid).value
  {
    if !(eid in s.equipments && s.equipments[eid].dep == did && !s.equipments[eid].isDeleted) {
      return Failed(NotFound);
    }
    SoftDeleteOutcome(s.Snapshot(), did, eid);
    s.SaveEquipment(eid, s.equipments[eid].(isDeleted := true, isActive := false));
    return Done;
  }

  /** DELETE answers exactly as PATCH soft delete. */
  method DeleteSoftDelete(s: Store, did: nat, eid: nat) returns (o: Outcome)
    requires s.Valid()
    modifies s
    ensures s.Valid()
    ensures o == Done <==> InDepartment(old(s.Snapshot()), did, eid) && !old(s.equipments[eid].isDeleted)
    ensures o != Done ==> o == Failed(NotFound) && s.Snapshot() == old(s.Snapshot())
    ensures o == Done ==> s.Snapshot() == SoftDeleted(old(s.Snapshot()), did, eid).value
  {
    o := PatchSoftDelete(s, did, eid);
  }
}
