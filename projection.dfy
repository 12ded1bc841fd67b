/**
 * The read serializers: the nested, read-shaped view of a clinic. Children are listed
 * in insertion order, the order the model fixes for reverse foreign-key reads. A
 * department lists only equipment that is not soft-deleted (whatever its `is_active`),
 * while a parameter lists every value, deleted or not.
 */
module ReadProjection {
  import opened Wrappers
  import opened Models
  import opened Relations

  datatype ValueView = ValueView(id: nat, content: Json, isDeleted: bool)

  datatype ParameterView = ParameterView(id: nat, name: string, isActive: bool, values: seq<ValueView>)

  datatype DetailView = DetailView(id: nat, equipmentNum: string, make: string, model: string, isActive: bool)

  /** The equipment read shape carries neither `is_active` nor `is_deleted`. */
  datatype EquipmentView =
    EquipmentView(id: nat, name: string, details: seq<DetailView>, parameters: seq<ParameterView>)

  datatype DepartmentView = DepartmentView(id: nat, name: string, isActive: bool, equipments: seq<EquipmentView>)

  datatype ClinicView = ClinicView(id: nat, name: string, departments: seq<DepartmentView>)

  function ShowValue(id: nat, v: ParameterValue): ValueView
  {
    ValueView(id, v.content, v.isDeleted)
  }

  function ShowDetail(id: nat, d: EquipmentDetail): DetailView
  {
    DetailView(id, d.equipmentNum, d.make, d.model, d.isActive)
  }

  /** Every value of parameter `pid`: no filter on `is_deleted`. */
  function ValueViews(t: Tables, pid: nat): seq<ValueView>
  {
    var ids := ValueIds(t, pid);
    seq(|ids|, i requires 0 <= i < |ids| => ShowValue(ids[i], t.values[ids[i]]))
  }

  function ParameterViewOf(t: Tables, pid: nat): ParameterView
    requires pid in t.parameters
  {
    var p := t.parameters[pid];
    ParameterView(pid, p.name, p.isActive, ValueViews(t, pid))
  }

  function ParameterViews(t: Tables, eid: nat): seq<ParameterView>
  {
    var ids := ParameterIds(t, eid);
    seq(|ids|, i requires 0 <= i < |ids| => ParameterViewOf(t, ids[i]))
  }

  function DetailViews(t: Tables, eid: nat): seq<DetailView>
  {
    var ids := DetailIds(t, eid);
    seq(|ids|, i requires 0 <= i < |ids| => ShowDetail(ids[i], t.details[ids[i]]))
  }

  function EquipmentViewOf(t: Tables, eid: nat): EquipmentView
    requires eid in t.equipments
  {
    EquipmentView(eid, t.equipments[eid].name, DetailViews(t, eid), ParameterViews(t, eid))
  }

  /** `DepartmentReadSerializer.get_equipments`: the department's equipment that is not soft-deleted. */
  function EquipmentViews(t: Tables, did: nat): seq<EquipmentView>
  {
    var ids := ListedEquipmentIds(t, did);
    seq(|ids|, i requires 0 <= i < |ids| => EquipmentViewOf(t, ids[i]))
  }

  function DepartmentViewOf(t: Tables, did: nat): DepartmentView
    requires did in t.departments
  {
    var d := t.departments[did];
    DepartmentView(did, d.name, d.isActive, EquipmentViews(t, did))
  }

  /** `ClinicSerializer.get_department` and the `department` field of the clinic read shape: all departments. */
  function DepartmentViews(t: Tables, cid: nat): seq<DepartmentView>
  {
    var ids := DepartmentIds(t, cid);
    seq(|ids|, i requires 0 <= i < |ids| => DepartmentViewOf(t, ids[i]))
  }

  /** `ClinicReadSerializer` applied to the clinic with id `cid`, if there is one. */
  function ReadClinic(t: Tables, cid: nat): Option<ClinicView>
  {
    if cid in t.clinics then Some(ClinicView(cid, t.clinics[cid].name, DepartmentViews(t, cid))) else None
  }

  /**
   * An equipment of department `did` is shown in the department's read shape exactly when
   * it is not soft-deleted; `is_active` plays no part.
   */
  lemma ListedExactlyWhenNotDeleted(t: Tables, did: nat, eid: nat)
    requires t.Valid()
    ensures var vs := EquipmentViews(t, did);
      (exists i :: 0 <= i < |vs| && vs[i].id == eid)
        <==> eid in t.equipments && t.equipments[eid].dep == did && !t.equipments[eid].isDeleted
  {
    var ids := ListedEquipmentIds(t, did);
    var vs := EquipmentViews(t, did);
    RelatedMember(t.equipments, ListedIn, did, t.nextId, eid);
    if eid in ids {
      var i :| 0 <= i < |ids| && ids[i] == eid;
      assert vs[i].id == eid;
    }
    if exists i :: 0 <= i < |vs| && vs[i].id == eid {
      var i :| 0 <= i < |vs| && vs[i].id == eid;
      assert ids[i] == eid;
    }
  }

  /** A parameter's read shape lists every one of its values, soft-deleted ones included. */
  lemma ValuesShownIncludingDeleted(t: Tables, pid: nat, vid: nat)
    requires t.Valid()
    ensures var vs := ValueViews(t, pid);
      (exists i :: 0 <= i < |vs| && vs[i].id == vid)
        <==> vid in t.values && t.values[vid].parameter == pid
    ensures var vs := ValueViews(t, pid);
      forall i :: 0 <= i < |vs| ==> vs[i].isDeleted == t.values[vs[i].id].isDeleted
  {
    var ids := ValueIds(t, pid);
    var vs := ValueViews(t, pid);
    RelatedMember(t.values, ValueOf, pid, t.nextId, vid);
    if vid in ids {
      var i :| 0 <= i < |ids| && ids[i] == vid;
      assert vs[i].id == vid;
    }
    if exists i :: 0 <= i < |vs| && vs[i].id == vid {
      var i :| 0 <= i < |vs| && vs[i].id == vid;
      assert ids[i] == vid;
    }
  }

  /** The values of an existing parameter do not change when only fresh rows are added beneath fresh rows. */
  lemma ParameterViewStable(t: Tables, t': Tables, pid: nat)
    requires t.Valid() && pid in t.parameters
    requires Grows(t, t') && FreshChildren(t, t')
    ensures pid in t'.parameters && ParameterViewOf(t', pid) == ParameterViewOf(t, pid)
  {
    RelatedUnchanged(t.values, t'.values, ValueOf, pid, t.nextId, t'.nextId);
    var ids := ValueIds(t, pid);
    assert ValueIds(t', pid) == ids;
    forall i | 0 <= i < |ids|
      ensures t'.values[ids[i]] == t.values[ids[i]]
    {
    }
    assert ValueViews(t', pid) == ValueViews(t, pid);
  }

  lemma DetailViewsStable(t: Tables, t': Tables, eid: nat)
    requires t.Valid() && eid in t.equipments
    requires Grows(t, t') && FreshChildren(t, t')
    ensures DetailViews(t', eid) == DetailViews(t, eid)
  {
    RelatedUnchanged(t.details, t'.details, DetailOf, eid, t.nextId, t'.nextId);
    var ids := DetailIds(t, eid);
    forall i | 0 <= i < |ids|
      ensures t'.details[ids[i]] == t.details[ids[i]]
    {
    }
  }

  lemma ParameterViewsStable(t: Tables, t': Tables, eid: nat)
    requires t.Valid() && eid in t.equipments
    requires Grows(t, t') && FreshChildren(t, t')
    ensures ParameterViews(t', eid) == ParameterViews(t, eid)
  {
    RelatedUnchanged(t.parameters, t'.parameters, ParameterOf, eid, t.nextId, t'.nextId);
    var ids := ParameterIds(t, eid);
    forall i | 0 <= i < |ids|
      ensures ParameterViewOf(t', ids[i]) == ParameterViewOf(t, ids[i])
    {
      ParameterViewStable(t, t', ids[i]);
    }
  }

  /** An existing equipment reads the same once only fresh rows are added beneath fresh rows. */
  lemma EquipmentViewStable(t: Tables, t': Tables, eid: nat)
    requires t.Valid() && eid in t.equipments
    requires Grows(t, t') && FreshChildren(t, t')
    ensures eid in t'.equipments && EquipmentViewOf(t', eid) == EquipmentViewOf(t, eid)
  {
    DetailViewsStable(t, t', eid);
    ParameterViewsStable(t, t', eid);
  }

  lemma DepartmentViewStable(t: Tables, t': Tables, did: nat)
    requires t.Valid() && did in t.departments
    requires Grows(t, t') && FreshChildren(t, t') && FreshEquipments(t, t')
    ensures did in t'.departments && DepartmentViewOf(t', did) == DepartmentViewOf(t, did)
  {
    RelatedUnchanged(t.equipments, t'.equipments, ListedIn, did, t.nextId, t'.nextId);
    var ids := ListedEquipmentIds(t, did);
    forall i | 0 <= i < |ids|
      ensures EquipmentViewOf(t', ids[i]) == EquipmentViewOf(t, ids[i])
    {
      EquipmentViewStable(t, t', ids[i]);
    }
  }

  /** A clinic whose department list is unchanged reads the same once only fresh rows are added beneath fresh rows. */
  lemma DepartmentViewsStable(t: Tables, t': Tables, cid: nat)
    requires t.Valid() && Grows(t, t') && FreshChildren(t, t') && FreshEquipments(t, t')
    requires DepartmentIds(t', cid) == DepartmentIds(t, cid)
    ensures DepartmentViews(t', cid) == DepartmentViews(t, cid)
  {
    var ids := DepartmentIds(t, cid);
    forall i | 0 <= i < |ids|
      ensures DepartmentViewOf(t', ids[i]) == DepartmentViewOf(t, ids[i])
    {
      DepartmentViewStable(t, t', ids[i]);
    }
  }

  /** A parameter that survives a cut reads the same: its values were cut with it or not at all. */
  lemma ParameterViewKept(t: Tables, t': Tables, pid: nat)
    requires Shrinks(t, t') && pid in t'.parameters
    ensures pid in t.parameters && ParameterViewOf(t', pid) == ParameterViewOf(t, pid)
  {
    RelatedRestrict(t.values, t'.values, ValueOf, pid, t.nextId);
    var ids := ValueIds(t, pid);
    forall i | 0 <= i < |ids|
      ensures t'.values[ids[i]] == t.values[ids[i]]
    {
    }
  }

  lemma DetailViewsKept(t: Tables, t': Tables, eid: nat)
    requires Shrinks(t, t') && eid in t'.equipments
    ensures DetailViews(t', eid) == DetailViews(t, eid)
  {
    RelatedRestrict(t.details, t'.details, DetailOf, eid, t.nextId);
    var ids := DetailIds(t, eid);
    forall i | 0 <= i < |ids|
      ensures t'.details[ids[i]] == t.details[ids[i]]
    {
    }
  }

  lemma ParameterViewsKept(t: Tables, t': Tables, eid: nat)
    requires Shrinks(t, t') && eid in t'.equipments
    ensures ParameterViews(t', eid) == ParameterViews(t, eid)
  {
    RelatedRestrict(t.parameters, t'.parameters, ParameterOf, eid, t.nextId);
    var ids := ParameterIds(t, eid);
    forall i | 0 <= i < |ids|
      ensures ParameterViewOf(t', ids[i]) == ParameterViewOf(t, ids[i])
    {
      ParameterViewKept(t, t', ids[i]);
    }
  }

  /** An equipment that survives a cut reads the same. */
  lemma EquipmentViewKept(t: Tables, t': Tables, eid: nat)
    requires Shrinks(t, t') && eid in t'.equipments
    ensures eid in t.equipments && EquipmentViewOf(t', eid) == EquipmentViewOf(t, eid)
  {
    DetailViewsKept(t, t', eid);
    ParameterViewsKept(t, t', eid);
  }

  /** A department that survives a cut reads the same. */
  lemma DepartmentViewKept(t: Tables, t': Tables, did: nat)
    requires Shrinks(t, t') && did in t'.departments
    ensures did in t.departments && DepartmentViewOf(t', did) == DepartmentViewOf(t, did)
  {
    RelatedRestrict(t.equipments, t'.equipments, ListedIn, did, t.nextId);
    var ids := ListedEquipmentIds(t, did);
    forall i | 0 <= i < |ids|
      ensures EquipmentViewOf(t', ids[i]) == EquipmentViewOf(t, ids[i])
    {
      EquipmentViewKept(t, t', ids[i]);
    }
  }

  /** A clinic whose departments all survive a cut reads the same. */
  lemma DepartmentViewsKept(t: Tables, t': Tables, cid: nat)
    requires Shrinks(t, t') && DepartmentIds(t', cid) == DepartmentIds(t, cid)
    ensures DepartmentViews(t', cid) == DepartmentViews(t, cid)
  {
    var ids := DepartmentIds(t', cid);
    forall i | 0 <= i < |ids|
      ensures DepartmentViewOf(t', ids[i]) == DepartmentViewOf(t, ids[i])
    {
      DepartmentViewKept(t, t', ids[i]);
    }
  }
}
