/**
 * The write documents, as the serializers receive them.
 *
 * The clinic serializers read their `department` list from the raw request body, so
 * every key below a clinic may be missing or null. `d.get(key)` answers `None` for
 * both, which is all a name needs; a flag read as `d.get("is_active", True)` and a
 * list read as `d.get(key, [])` tell them apart, so flags and lists are `Raw`: a
 * missing list is empty, a null one cannot be iterated. Each entry of a list is taken
 * to be an object, each name a string and each flag a boolean. The equipment and department serializers work on
 * validated data: details carry all their strings, and only the keys that the schema
 * gives a default, or that an update may leave out, are optional.
 */
module Payloads {
  import opened Wrappers
  import opened Models

  /** A raw document key: not sent, sent as `null`, or sent with a value. */
  datatype Raw<T> = Missing | Null | Given(value: T) {
    /** A key that is not null as an optional value: absent exactly when the key is missing. */
    function Flag(): (o: Option<T>)
      requires !Null?
      ensures o.Some? <==> Given?
      ensures Given? ==> o.value == value
    {
      if Given? then Some(value) else None
    }

    /** `d.get(key, default)` for a key that is not null: the value, or the default when missing. */
    function GetOr(default: T): (v: T)
      requires !Null?
      ensures Given? ==> v == value
      ensures Missing? ==> v == default
    {
      if Given? then value else default
    }
  }

  datatype RawDetail = RawDetail(
    equipmentNum: Option<string>, make: Option<string>, model: Option<string>, isActive: Raw<bool>)

  /** A parameter entry of a clinic document; its `format` key is not modelled. */
  datatype RawParameter = RawParameter(name: Option<string>, isActive: Raw<bool>)

  datatype RawEquipment = RawEquipment(
    name: Option<string>, isActive: Raw<bool>, details: Raw<seq<RawDetail>>, parameters: Raw<seq<RawParameter>>)
  {
    /** The `equipment_details` entries the serializer iterates. */
    function Details(): seq<RawDetail>
      requires !details.Null?
    {
      details.GetOr([])
    }
  }

  datatype RawDepartment = RawDepartment(name: Option<string>, isActive: Raw<bool>, equipments: Raw<seq<RawEquipment>>)
  {
    /** The `equipments` entries the serializer iterates. */
    function Equipments(): seq<RawEquipment>
      requires !equipments.Null?
    {
      equipments.GetOr([])
    }
  }

  /** A clinic document: the validated `name` and the raw `department` list. */
  datatype ClinicPayload = ClinicPayload(name: Option<string>, departments: Raw<seq<RawDepartment>>)
  {
    /** The `department` entries the serializer iterates. */
    function Departments(): seq<RawDepartment>
      requires !departments.Null?
    {
      departments.GetOr([])
    }

    /** The `department` list can be iterated and every department in it stored. */
    predicate DepartmentsStorable()
    {
      !departments.Null? && DepartmentsInsertable(Departments())
    }
  }

  datatype DetailInput = DetailInput(equipmentNum: string, make: string, model: string, isActive: Option<bool>)

  /**
   * A parameter entry of an equipment document: an optional id, optional scalars and the
   * `content` of each value to append (`JNull` standing for a null or missing content).
   */
  datatype ParameterInput = ParameterInput(id: Option<int>, name: Option<string>, isActive: Option<bool>, values: seq<Json>)

  datatype EquipmentInput = EquipmentInput(
    name: Option<string>, isActive: Option<bool>, details: seq<DetailInput>, parameters: seq<ParameterInput>)

  /** The validated data of a department document. */
  datatype DepartmentInput = DepartmentInput(name: string, isActive: Option<bool>, equipments: seq<EquipmentInput>)

  /** Equipment documents without parameter entries: the only ones whose insert can succeed. */
  predicate NoParameters(es: seq<EquipmentInput>)
  {
    forall i :: 0 <= i < |es| ==> es[i].parameters == []
  }

  /** Department documents whose every equipment can be inserted. */
  predicate Buildable(ds: seq<DepartmentInput>)
  {
    forall i :: 0 <= i < |ds| ==> NoParameters(ds[i].equipments)
  }

  /**
   * A raw detail can be stored: its three columns are NOT NULL, and so is `is_active`
   * once an explicit `null` overrides the default.
   */
  predicate DetailInsertable(d: RawDetail)
  {
    d.equipmentNum.Some? && d.make.Some? && d.model.Some? && !d.isActive.Null?
  }

  /**
   * A raw equipment can be stored with all its details. Any parameter entry at all
   * makes the insert fail: `Parameters` is created with a `format` keyword that is
   * not one of its columns.
   */
  predicate EquipmentInsertable(e: RawEquipment)
  {
    && e.name.Some? && !e.isActive.Null? && !e.details.Null?
    && (forall i :: 0 <= i < |e.Details()| ==> DetailInsertable(e.Details()[i]))
    && (e.parameters == Missing || e.parameters == Given([]))
  }

  predicate DepartmentInsertable(d: RawDepartment)
  {
    && d.name.Some? && !d.isActive.Null? && !d.equipments.Null?
    && (forall i :: 0 <= i < |d.Equipments()| ==> EquipmentInsertable(d.Equipments()[i]))
  }

  predicate DepartmentsInsertable(ds: seq<RawDepartment>)
  {
    forall i :: 0 <= i < |ds| ==> DepartmentInsertable(ds[i])
  }

  /** The detail a storable raw detail becomes, in the validated shape. */
  function DetailOfRaw(d: RawDetail): (r: DetailInput)
    requires DetailInsertable(d)
    ensures r.equipmentNum == d.equipmentNum.value && r.make == d.make.value && r.model == d.model.value
    ensures r.isActive == d.isActive.Flag()
  {
    DetailInput(d.equipmentNum.value, d.make.value, d.model.value, d.isActive.Flag())
  }

  function DetailsOfRaw(ds: seq<RawDetail>): (r: seq<DetailInput>)
    requires forall i :: 0 <= i < |ds| ==> DetailInsertable(ds[i])
    ensures |r| == |ds| && forall i :: 0 <= i < |ds| ==> r[i] == DetailOfRaw(ds[i])
  {
    seq(|ds|, i requires 0 <= i < |ds| => DetailOfRaw(ds[i]))
  }

  /** The equipment a storable raw equipment becomes, in the validated shape. */
  function EquipmentOfRaw(e: RawEquipment): (r: EquipmentInput)
    requires EquipmentInsertable(e)
    ensures r.name == e.name && r.isActive == e.isActive.Flag() && r.parameters == []
    ensures r.details == DetailsOfRaw(e.Details())
  {
    EquipmentInput(e.name, e.isActive.Flag(), DetailsOfRaw(e.Details()), [])
  }

  function EquipmentsOfRaw(es: seq<RawEquipment>): (r: seq<EquipmentInput>)
    requires forall i :: 0 <= i < |es| ==> EquipmentInsertable(es[i])
    ensures |r| == |es| && forall i :: 0 <= i < |es| ==> r[i] == EquipmentOfRaw(es[i])
    ensures NoParameters(r)
  {
    seq(|es|, i requires 0 <= i < |es| => EquipmentOfRaw(es[i]))
  }

  /** The department a storable raw department becomes, in the validated shape. */
  function DepartmentOfRaw(d: RawDepartment): (r: DepartmentInput)
    requires DepartmentInsertable(d)
    ensures r.name == d.name.value && r.isActive == d.isActive.Flag()
    ensures r.equipments == EquipmentsOfRaw(d.Equipments())
  {
    DepartmentInput(d.name.value, d.isActive.Flag(), EquipmentsOfRaw(d.Equipments()))
  }

  function DepartmentsOfRaw(ds: seq<RawDepartment>): (r: seq<DepartmentInput>)
    requires DepartmentsInsertable(ds)
    ensures |r| == |ds| && forall i :: 0 <= i < |ds| ==> r[i] == DepartmentOfRaw(ds[i])
    ensures Buildable(r)
  {
    seq(|ds|, i requires 0 <= i < |ds| => DepartmentOfRaw(ds[i]))
  }
}
