/**
 * The write serializers as methods on the database, each proved to leave it exactly as
 * the corresponding function of the tables before it says. A failing insert in a
 * transaction rolls the whole transaction back; the clinic writes, the equipment create
 * and the equipment update are each one transaction, the department create is not.
 */
module Serializers {
  import opened Wrappers
  import opened Models
  import opened Appends
  import opened Payloads
  import opened Trees
  import opened ClinicWrites
  import opened EquipmentWrites
  import opened Persistence

  /** The raw details of an equipment, one insert each; the first one that cannot be stored fails. */
  method InsertRawDetails(s: Store, eid: nat, ds: seq<RawDetail>) returns (ok: bool)
    modifies s
    ensures ok <==> forall i :: 0 <= i < |ds| ==> DetailInsertable(ds[i])
    ensures ok ==> s.Snapshot() == AddDetails(old(s.Snapshot()), DetailRows(eid, DetailsOfRaw(ds)))
  {
    ghost var t0 := s.Snapshot();
    var i := 0;
    while i < |ds|
      invariant 0 <= i <= |ds|
      invariant forall j :: 0 <= j < i ==> DetailInsertable(ds[j])
      invariant s.Snapshot() == AddDetails(t0, DetailRows(eid, DetailsOfRaw(ds[..i])))
    {
      var d := ds[i];
      if !DetailInsertable(d) {
        return false;
      }
      var row := NewDetail(eid, d.equipmentNum.value, d.make.value, d.model.value, d.isActive.Flag());
      RawDetailRowsStep(t0, eid, ds, i);
      var _ := s.InsertDetail(row);
      i := i + 1;
    }
    assert ds[..i] == ds;
    return true;
  }

  lemma RawDetailRowsStep(t0: Tables, eid: nat, ds: seq<RawDetail>, i: nat)
    requires i < |ds| && forall j :: 0 <= j <= i ==> DetailInsertable(ds[j])
    ensures AddDetails(t0, DetailRows(eid, DetailsOfRaw(ds[..i + 1])))
      == AddDetails(t0, DetailRows(eid, DetailsOfRaw(ds[..i])))
           .AddDetail(NewDetail(eid, ds[i].equipmentNum.value, ds[i].make.value, ds[i].model.value, ds[i].isActive.Flag()))
  {
    var rows := DetailRows(eid, DetailsOfRaw(ds[..i]));
    var row := NewDetail(eid, ds[i].equipmentNum.value, ds[i].make.value, ds[i].model.value, ds[i].isActive.Flag());
    assert DetailRows(eid, DetailsOfRaw(ds[..i + 1])) == rows + [row];
    AddDetailsSnoc(t0, rows, row);
  }

  /** Validated details, one insert each. */
  method InsertDetails(s: Store, eid: nat, ds: seq<DetailInput>)
    modifies s
    ensures s.Snapshot() == AddDetails(old(s.Snapshot()), DetailRows(eid, ds))
  {
    ghost var t0 := s.Snapshot();
    var i := 0;
    while i < |ds|
      invariant 0 <= i <= |ds|
      invariant s.Snapshot() == AddDetails(t0, DetailRows(eid, ds[..i]))
    {
      var d := ds[i];
      var row := NewDetail(eid, d.equipmentNum, d.make, d.model, d.isActive);
      assert DetailRows(eid, ds[..i + 1]) == DetailRows(eid, ds[..i]) + [row];
      AddDetailsSnoc(t0, DetailRows(eid, ds[..i]), row);
      var _ := s.InsertDetail(row);
      i := i + 1;
    }
    assert ds[..i] == ds;
  }

  /**
   * One raw equipment of a clinic document: the equipment, its details, then its
   * parameter entries, the first of which always fails.
   */
  method InsertRawEquipment(s: Store, did: nat, e: RawEquipment) returns (ok: bool)
    modifies s
    ensures ok <==> EquipmentInsertable(e)
    ensures ok ==> s.Snapshot() == AddEquipmentTree(old(s.Snapshot()), did, EquipmentOfRaw(e))
  {
    if e.name.None? || e.isActive.Null? {
      return false;
    }
    var eid := s.InsertEquipment(NewEquipment(did, e.name.value, e.isActive.Flag()));
    if e.details.Null? {
      return false;
    }
    ok := InsertRawDetails(s, eid, e.Details());
    if ok && e.parameters != Missing && e.parameters != Given([]) {
      ok := false;
    }
  }

  lemma RawEquipmentsStep(t0: Tables, did: nat, es: seq<RawEquipment>, i: nat)
    requires i < |es| && forall j :: 0 <= j <= i ==> EquipmentInsertable(es[j])
    ensures AddEquipmentTrees(t0, did, EquipmentsOfRaw(es[..i + 1]))
      == AddEquipmentTree(AddEquipmentTrees(t0, did, EquipmentsOfRaw(es[..i])), did, EquipmentOfRaw(es[i]))
  {
    var done := EquipmentsOfRaw(es[..i]);
    assert EquipmentsOfRaw(es[..i + 1]) == done + [EquipmentOfRaw(es[i])];
    AddEquipmentTreesSnoc(t0, did, done, EquipmentOfRaw(es[i]));
  }

  method InsertRawEquipments(s: Store, did: nat, es: seq<RawEquipment>) returns (ok: bool)
    modifies s
    ensures ok <==> forall i :: 0 <= i < |es| ==> EquipmentInsertable(es[i])
    ensures ok ==> s.Snapshot() == AddEquipmentTrees(old(s.Snapshot()), did, EquipmentsOfRaw(es))
  {
    ghost var t0 := s.Snapshot();
    var i := 0;
    while i < |es|
      invariant 0 <= i <= |es|
      invariant forall j :: 0 <= j < i ==> EquipmentInsertable(es[j])
      invariant s.Snapshot() == AddEquipmentTrees(t0, did, EquipmentsOfRaw(es[..i]))
    {
      ok := InsertRawEquipment(s, did, es[i]);
      if !ok {
        return;
      }
      RawEquipmentsStep(t0, did, es, i);
      i := i + 1;
    }
    assert es[..i] == es;
    return true;
  }

  /** One raw department of a clinic document and everything below it. */
  method InsertRawDepartment(s: Store, cid: nat, d: RawDepartment) returns (ok: bool)
    modifies s
    ensures ok <==> DepartmentInsertable(d)
    ensures ok ==> s.Snapshot() == AddDepartmentTree(old(s.Snapshot()), cid, DepartmentOfRaw(d))
  {
    if d.name.None? || d.isActive.Null? {
      return false;
    }
    var did := s.InsertDepartment(NewDepartment(cid, d.name.value, d.isActive.Flag()));
    if d.equipments.Null? {
      return false;
    }
    ok := InsertRawEquipments(s, did, d.Equipments());
  }

  lemma RawDepartmentsStep(t0: Tables, cid: nat, ds: seq<RawDepartment>, i: nat)
    requires i < |ds| && forall j :: 0 <= j <= i ==> DepartmentInsertable(ds[j])
    ensures AddDepartmentTrees(t0, cid, DepartmentsOfRaw(ds[..i + 1]))
      == AddDepartmentTree(AddDepartmentTrees(t0, cid, DepartmentsOfRaw(ds[..i])), cid, DepartmentOfRaw(ds[i]))
  {
    var done := DepartmentsOfRaw(ds[..i]);
    assert DepartmentsOfRaw(ds[..i + 1]) == done + [DepartmentOfRaw(ds[i])];
    AddDepartmentTreesSnoc(t0, cid, done, DepartmentOfRaw(ds[i]));
  }

  method InsertRawDepartments(s: Store, cid: nat, ds: seq<RawDepartment>) returns (ok: bool)
    modifies s
    ensures ok <==> DepartmentsInsertable(ds)
    ensures ok ==> s.Snapshot() == AddDepartmentTrees(old(s.Snapshot()), cid, DepartmentsOfRaw(ds))
  {
    ghost var t0 := s.Snapshot();
    var i := 0;
    while i < |ds|
      invariant 0 <= i <= |ds|
      invariant forall j :: 0 <= j < i ==> DepartmentInsertable(ds[j])
      invariant s.Snapshot() == AddDepartmentTrees(t0, cid, DepartmentsOfRaw(ds[..i]))
    {
      ok := InsertRawDepartment(s, cid, ds[i]);
      if !ok {
        return;
      }
      RawDepartmentsStep(t0, cid, ds, i);
      i := i + 1;
    }
    assert ds[..i] == ds;
    return true;
  }

  /**
   * Clinic create, one transaction: the clinic and its document tree, or an internal
   * error with nothing changed.
   */
  method ClinicCreate(s: Store, p: ClinicPayload) returns (r: Result<nat>)
    modifies s
    ensures r.Ok? <==> ClinicInsertable(p)
    ensures r.Ok? ==> r.value == old(s.nextId) && s.Snapshot() == ClinicCreated(old(s.Snapshot()), p)
    ensures r.Err? ==> r.failure == Internal && s.Snapshot() == old(s.Snapshot())
  {
    var saved := s.Snapshot();
    if p.name.None? {
      return Err(Internal);
    }
    var cid := s.InsertClinic(Clinic(p.name.value));
    if p.departments.Null? {
      s.Restore(saved);
      return Err(Internal);
    }
    var ok := InsertRawDepartments(s, cid, p.Departments());
    if !ok {
      s.Restore(saved);
      return Err(Internal);
    }
    return Ok(cid);
  }

  /**
   * Clinic update, one transaction: every department of the clinic is deleted (and all
   * below it), the clinic renamed when the document gives a name, and the document tree
   * built again; or an internal error with nothing changed.
   */
  method ClinicUpdate(s: Store, cid: nat, p: ClinicPayload) returns (r: Result<nat>)
    requires cid in s.clinics
    modifies s
    ensures r.Ok? <==> p.DepartmentsStorable()
    ensures r.Ok? ==> r.value == cid && s.Snapshot() == ClinicReplaced(old(s.Snapshot()), cid, p)
    ensures r.Err? ==> r.failure == Internal && s.Snapshot() == old(s.Snapshot())
  {
    var saved := s.Snapshot();
    var instance := s.clinics[cid];
    s.DeleteDepartmentsOf(cid);
    s.SaveClinic(cid, Clinic(p.name.GetOr(instance.name)));
    assert s.Snapshot() == ClinicCleared(saved, cid, p.name);
    if p.departments.Null? {
      s.Restore(saved);
      return Err(Internal);
    }
    var ok := InsertRawDepartments(s, cid, p.Departments());
    if !ok {
      s.Restore(saved);
      return Err(Internal);
    }
    return Ok(cid);
  }

  /**
   * Equipment create, one transaction: the equipment and its details under department
   * `did`, then its parameter entries, the first of which fails and rolls everything back.
   */
  method EquipmentCreate(s: Store, did: nat, inp: EquipmentInput) returns (r: Result<nat>)
    requires did in s.departments
    modifies s
    ensures var spec := EquipmentCreated(old(s.Snapshot()), did, inp);
      && (r.Ok? <==> spec.Ok?)
      && (r.Ok? ==> r.value == old(s.nextId) && s.Snapshot() == spec.value)
      && (r.Err? ==> r.failure == spec.failure && s.Snapshot() == old(s.Snapshot()))
  {
    var saved := s.Snapshot();
    var eid := s.InsertEquipment(NewEquipment(did, inp.name.GetOr(""), inp.isActive));
    InsertDetails(s, eid, inp.details);
    if inp.parameters != [] {
      s.Restore(saved);
      return Err(Internal);
    }
    return Ok(eid);
  }

  /**
   * One parameter entry of an equipment update. An entry without a usable id, or whose
   * id names no parameter of this equipment, is skipped. Otherwise the parameter takes
   * the given name and flag and each content becomes a new value; a null content fails.
   */
  method ApplyParameterEntry(s: Store, eid: nat, pe: ParameterInput) returns (ok: bool)
    modifies s
    ensures ok <==> ApplyEntry(old(s.Snapshot()), eid, pe).Ok?
    ensures ok ==> s.Snapshot() == ApplyEntry(old(s.Snapshot()), eid, pe).value
  {
    ghost var t0 := s.Snapshot();
    if pe.id.None? || pe.id.value == 0 {
      return true;
    }
    if pe.id.value < 0 || pe.id.value as nat !in s.parameters || s.parameters[pe.id.value as nat].equipment != eid {
      return true;
    }
    var pid := pe.id.value as nat;
    var q := s.parameters[pid];
    s.SaveParameter(pid, q.(name := pe.name.GetOr(q.name), isActive := pe.isActive.GetOr(q.isActive)));
    assert s.Snapshot() == EditParameter(t0, pid, pe);
    var j := 0;
    while j < |pe.values|
      invariant 0 <= j <= |pe.values|
      invariant JNull !in pe.values[..j]
      invariant s.Snapshot() == AddValues(EditParameter(t0, pid, pe), pid, pe.values[..j])
    {
      var c := pe.values[j];
      if c == JNull {
        return false;
      }
      assert pe.values[..j + 1] == pe.values[..j] + [c];
      AddValuesSnoc(EditParameter(t0, pid, pe), pid, pe.values[..j], c);
      var _ := s.InsertValue(NewParameterValue(pid, c));
      j := j + 1;
    }
    assert pe.values[..j] == pe.values;
    return true;
  }

  /**
   * Equipment update, one transaction: a partial update of the name and flag, every
   * detail of the document appended, then each parameter entry; a failing entry rolls
   * everything back.
   */
  method EquipmentUpdate(s: Store, eid: nat, inp: EquipmentInput) returns (r: Result<nat>)
    requires eid in s.equipments
    modifies s
    ensures var spec := EquipmentUpdated(old(s.Snapshot()), eid, inp);
      && (r.Ok? <==> spec.Ok?)
      && (r.Ok? ==> r.value == eid && s.Snapshot() == spec.value)
      && (r.Err? ==> r.failure == spec.failure && s.Snapshot() == old(s.Snapshot()))
  {
    var saved := s.Snapshot();
    s.SaveEquipment(eid, WithScalars(s.equipments[eid], inp.name, inp.isActive));
    InsertDetails(s, eid, inp.details);
    ghost var base := UpdateBase(saved, eid, inp);
    assert s.Snapshot() == base;
    var ps := inp.parameters;
    var i := 0;
    while i < |ps|
      invariant 0 <= i <= |ps|
      invariant ApplyEntries(base, eid, ps[..i]) == Ok(s.Snapshot())
    {
      var ok := ApplyParameterEntry(s, eid, ps[i]);
      assert ps[..i + 1] == ps[..i] + [ps[i]];
      ApplyEntriesSnoc(base, eid, ps[..i], ps[i]);
      if !ok {
        ApplyEntriesErrSticks(base, eid, ps, i + 1);
        s.Restore(saved);
        return Err(Internal);
      }
      i := i + 1;
    }
    assert ps[..i] == ps;
    return Ok(eid);
  }

  /**
   * Department create, not itself a transaction. The serializer has no `clinic` field, so
   * `clinic` is the clinic a caller passes to `save()`, if any; without an existing one the
   * department insert fails on its foreign key and nothing is stored. Otherwise: the
   * department, then each equipment through the equipment create. The first equipment
   * that fails is rolled back alone and ends the create; the department and the equipment
   * before it stay.
   */
  method DepartmentCreate(s: Store, clinic: Option<nat>, d: DepartmentInput) returns (r: Result<nat>)
    modifies s
    ensures clinic.None? || clinic.value !in old(s.clinics) ==>
      r == Err(Internal) && s.Snapshot() == old(s.Snapshot())
    ensures clinic.Some? && clinic.value in old(s.clinics) ==>
      && s.Snapshot() == DepartmentCreated(old(s.Snapshot()), clinic.value, d)
      && (r.Ok? <==> NoParameters(d.equipments))
      && (r.Ok? ==> r.value == old(s.nextId))
    ensures r.Err? ==> r.failure == Internal
  {
    if clinic.None? || clinic.value !in s.clinics {
      return Err(Internal);
    }
    var cid := clinic.value;
    var did := s.InsertDepartment(NewDepartment(cid, d.name, d.isActive));
    ghost var t1 := s.Snapshot();
    var es := d.equipments;
    var i := 0;
    while i < |es|
      invariant 0 <= i <= |es|
      invariant NoParameters(es[..i])
      invariant s.Snapshot() == AddEquipmentTrees(t1, did, es[..i])
      invariant did in t1.departments
    {
      AddEquipmentTreesFrame(t1, did, es[..i]);
      var created := EquipmentCreate(s, did, es[i]);
      if created.Err? {
        FirstWithParametersAt(es, i);
        return Err(Internal);
      }
      assert es[..i + 1] == es[..i] + [es[i]];
      AddEquipmentTreesSnoc(t1, did, es[..i], es[i]);
      i := i + 1;
    }
    assert es[..i] == es;
    FirstWithParametersAll(es);
    return Ok(did);
  }
}
