/**
 * The six persisted entities of the registry, their default flag values, the
 * table set that holds them, its referential integrity and the cascading delete
 * of a clinic's departments.
 *
 * Every child row carries the id of its one parent of the next level up:
 * Clinic <- Department <- Equipment <- {EquipmentDetail, Parameter <- ParameterValue}.
 * Creation timestamps are not kept: ids come from one increasing counter, so the
 * id order of rows is their insertion order.
 */
module Models {
  import opened Wrappers

  /** The schema-less JSON document stored in a parameter value; never inspected. */
  datatype Json =
    | JNull
    | JBool(b: bool)
    | JNumber(n: int)
    | JString(s: string)
    | JArray(items: seq<Json>)
    | JObject(members: seq<(string, Json)>)

  datatype Clinic = Clinic(name: string)

  datatype Department = Department(clinic: nat, name: string, isActive: bool)

  datatype Equipment = Equipment(dep: nat, name: string, isActive: bool, isDeleted: bool)

  datatype EquipmentDetail =
    EquipmentDetail(equipment: nat, equipmentNum: string, make: string, model: string, isActive: bool)

  datatype Parameter = Parameter(equipment: nat, name: string, isActive: bool)

  datatype ParameterValue = ParameterValue(parameter: nat, content: Json, isDeleted: bool)

  /** A department row as inserted: `is_active` is true unless a value is given. */
  function NewDepartment(clinic: nat, name: string, isActive: Option<bool>): (d: Department)
    ensures d.clinic == clinic && d.name == name
    ensures d.isActive <==> isActive != Some(false)
  {
    Department(clinic, name, isActive.GetOr(true))
  }

  /** An equipment row as inserted: active unless told otherwise, never born deleted. */
  function NewEquipment(dep: nat, name: string, isActive: Option<bool>): (e: Equipment)
    ensures e.dep == dep && e.name == name
    ensures e.isActive <==> isActive != Some(false)
    ensures !e.isDeleted
  {
    Equipment(dep, name, isActive.GetOr(true), false)
  }

  /** A detail row as inserted: `is_active` is true unless a value is given. */
  function NewDetail(equipment: nat, equipmentNum: string, make: string, model: string, isActive: Option<bool>)
    : (d: EquipmentDetail)
    ensures d.equipment == equipment
    ensures d.equipmentNum == equipmentNum && d.make == make && d.model == model
    ensures d.isActive <==> isActive != Some(false)
  {
    EquipmentDetail(equipment, equipmentNum, make, model, isActive.GetOr(true))
  }

  /** A parameter value as inserted: the content is kept as given and the row is not deleted. */
  function NewParameterValue(parameter: nat, content: Json): (v: ParameterValue)
    ensures v.parameter == parameter && v.content == content
    ensures !v.isDeleted
  {
    ParameterValue(parameter, content, false)
  }

  /** The persisted store as a value: one map from id to row per table, and the next fresh id. */
  datatype Tables = Tables(
    clinics: map<nat, Clinic>,
    departments: map<nat, Department>,
    equipments: map<nat, Equipment>,
    details: map<nat, EquipmentDetail>,
    parameters: map<nat, Parameter>,
    values: map<nat, ParameterValue>,
    nextId: nat)
  {
    /** Every id is below the counter and every child row's parent exists (the foreign keys). */
    ghost predicate Valid()
    {
      && (forall id :: id in clinics ==> id < nextId)
      && (forall id :: id in departments ==> id < nextId && departments[id].clinic in clinics)
      && (forall id :: id in equipments ==> id < nextId && equipments[id].dep in departments)
      && (forall id :: id in details ==> id < nextId && details[id].equipment in equipments)
      && (forall id :: id in parameters ==> id < nextId && parameters[id].equipment in equipments)
      && (forall id :: id in values ==> id < nextId && values[id].parameter in parameters)
    }

    function AddClinic(c: Clinic): Tables
    {
      this.(clinics := clinics[nextId := c], nextId := nextId + 1)
    }

    function AddDepartment(d: Department): Tables
    {
      this.(departments := departments[nextId := d], nextId := nextId + 1)
    }

    function AddEquipment(e: Equipment): Tables
    {
      this.(equipments := equipments[nextId := e], nextId := nextId + 1)
    }

    function AddDetail(d: EquipmentDetail): Tables
    {
      this.(details := details[nextId := d], nextId := nextId + 1)
    }

    function AddValue(v: ParameterValue): Tables
    {
      this.(values := values[nextId := v], nextId := nextId + 1)
    }

    /**
     * Deleting every department of clinic `cid`, with the CASCADE of each foreign key:
     * a row goes when its parent goes.
     */
    function WithoutDepartmentsOf(cid: nat): Tables
    {
      var deps := map d | d in departments && departments[d].clinic != cid :: departments[d];
      var eqs := map e | e in equipments && equipments[e].dep in deps :: equipments[e];
      var dets := map x | x in details && details[x].equipment in eqs :: details[x];
      var ps := map x | x in parameters && parameters[x].equipment in eqs :: parameters[x];
      var vs := map x | x in values && values[x].parameter in ps :: values[x];
      Tables(clinics, deps, eqs, dets, ps, vs, nextId)
    }

    /** The clinic that equipment `e` belongs to through its department. */
    ghost function ClinicOfEquipment(e: nat): nat
      requires Valid() && e in equipments
    {
      departments[equipments[e].dep].clinic
    }
  }

  /** An empty database: auto-increment ids start at 1, so no row ever has id 0. */
  const EmptyTables: Tables := Tables(map[], map[], map[], map[], map[], map[], 1)

  /*
   * The cascade removes exactly the subtree of clinic `cid`, judged from the clinic each
   * row hangs under: every row under another clinic stays, unchanged, and integrity holds.
   */

  lemma CascadeValid(t: Tables, cid: nat)
    requires t.Valid()
    ensures var t' := t.WithoutDepartmentsOf(cid);
      t'.Valid() && t'.clinics == t.clinics && t'.nextId == t.nextId
  {
  }

  lemma CascadeDepartments(t: Tables, cid: nat)
    ensures var t' := t.WithoutDepartmentsOf(cid);
      && (forall d :: d in t'.departments <==> d in t.departments && t.departments[d].clinic != cid)
      && (forall d :: d in t'.departments ==> t'.departments[d] == t.departments[d])
  {
  }

  lemma CascadeEquipments(t: Tables, cid: nat)
    requires t.Valid()
    ensures var t' := t.WithoutDepartmentsOf(cid);
      && (forall e :: e in t'.equipments <==> e in t.equipments && t.ClinicOfEquipment(e) != cid)
      && (forall e :: e in t'.equipments ==> t'.equipments[e] == t.equipments[e])
  {
  }

  lemma CascadeDetails(t: Tables, cid: nat)
    requires t.Valid()
    ensures var t' := t.WithoutDepartmentsOf(cid);
      && (forall x :: x in t'.details <==> x in t.details && t.ClinicOfEquipment(t.details[x].equipment) != cid)
      && (forall x :: x in t'.details ==> t'.details[x] == t.details[x])
  {
  }

  lemma CascadeParameters(t: Tables, cid: nat)
    requires t.Valid()
    ensures var t' := t.WithoutDepartmentsOf(cid);
      && (forall x :: x in t'.parameters <==> x in t.parameters && t.ClinicOfEquipment(t.parameters[x].equipment) != cid)
      && (forall x :: x in t'.parameters ==> t'.parameters[x] == t.parameters[x])
  {
  }

  lemma CascadeValues(t: Tables, cid: nat)
    requires t.Valid()
    ensures var t' := t.WithoutDepartmentsOf(cid);
      && (forall x :: x in t'.values <==>
            x in t.values && t.ClinicOfEquipment(t.parameters[t.values[x].parameter].equipment) != cid)
      && (forall x :: x in t'.values ==> t'.values[x] == t.values[x])
  {
  }
}
