/**
 * The database the serializers and views write through: one mutable map per table and
 * the id sequence. Each method is one ORM call (`objects.create`, `save`, a filtered
 * `delete`, `objects.get`); `Restore` is what leaving a failed `transaction.atomic`
 * block does.
 */
module Persistence {
  import opened Wrappers
  import opened Models

  class Store {
    var clinics: map<nat, Clinic>
    var departments: map<nat, Department>
    var equipments: map<nat, Equipment>
    var details: map<nat, EquipmentDetail>
    var parameters: map<nat, Parameter>
    var values: map<nat, ParameterValue>
    var nextId: nat

    /** The current contents of the database as a value. */
    function Snapshot(): Tables
      reads this
    {
      Tables(clinics, departments, equipments, details, parameters, values, nextId)
    }

    ghost predicate Valid()
      reads this
    {
      Snapshot().Valid()
    }

    /** An empty database. */
    constructor ()
      ensures Snapshot() == EmptyTables && Valid()
    {
      clinics, departments, equipments := map[], map[], map[];
      details, parameters, values := map[], map[], map[];
      nextId := 1;
    }

    method InsertClinic(c: Clinic) returns (id: nat)
      modifies this
      ensures id == old(nextId) && Snapshot() == old(Snapshot()).AddClinic(c)
    {
      id := nextId;
      clinics := clinics[id := c];
      nextId := nextId + 1;
    }

    method InsertDepartment(d: Department) returns (id: nat)
      modifies this
      ensures id == old(nextId) && Snapshot() == old(Snapshot()).AddDepartment(d)
    {
      id := nextId;
      departments := departments[id := d];
      nextId := nextId + 1;
    }

    method InsertEquipment(e: Equipment) returns (id: nat)
      modifies this
      ensures id == old(nextId) && Snapshot() == old(Snapshot()).AddEquipment(e)
    {
      id := nextId;
      equipments := equipments[id := e];
      nextId := nextId + 1;
    }

    method InsertDetail(d: EquipmentDetail) returns (id: nat)
      modifies this
      ensures id == old(nextId) && Snapshot() == old(Snapshot()).AddDetail(d)
    {
      id := nextId;
      details := details[id := d];
      nextId := nextId + 1;
    }

    method InsertValue(v: ParameterValue) returns (id: nat)
      modifies this
      ensures id == old(nextId) && Snapshot() == old(Snapshot()).AddValue(v)
    {
      id := nextId;
      values := values[id := v];
      nextId := nextId + 1;
    }

    /** `instance.save()` of an existing clinic. */
    method SaveClinic(id: nat, c: Clinic)
      requires id in clinics
      modifies this
      ensures Snapshot() == old(Snapshot()).(clinics := old(clinics)[id := c])
    {
      clinics := clinics[id := c];
    }

    method SaveEquipment(id: nat, e: Equipment)
      requires id in equipments
      modifies this
      ensures Snapshot() == old(Snapshot()).(equipments := old(equipments)[id := e])
    {
      equipments := equipments[id := e];
    }

    method SaveParameter(id: nat, p: Parameter)
      requires id in parameters
      modifies this
      ensures Snapshot() == old(Snapshot()).(parameters := old(parameters)[id := p])
    {
      parameters := parameters[id := p];
    }

    /** `Department.objects.filter(clinic=cid).delete()`, cascading to every row below. */
    method DeleteDepartmentsOf(cid: nat)
      modifies this
      ensures Snapshot() == old(Snapshot()).WithoutDepartmentsOf(cid)
    {
      var t := Snapshot().WithoutDepartmentsOf(cid);
      departments, equipments, details := t.departments, t.equipments, t.details;
      parameters, values := t.parameters, t.values;
    }

    /** The rollback of a failed transaction: every table and the sequence as they were at its start. */
    method Restore(saved: Tables)
      modifies this
      ensures Snapshot() == saved
    {
      clinics, departments, equipments := saved.clinics, saved.departments, saved.equipments;
      details, parameters, values := saved.details, saved.parameters, saved.values;
      nextId := saved.nextId;
    }
  }
}
