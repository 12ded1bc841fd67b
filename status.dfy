/**
 * The two status changes of an equipment, looked up by its id within a department:
 * inactivate clears `is_active` on any such equipment, soft-deleted or not; soft delete
 * finds only equipment that is not deleted yet, marks it deleted and inactive, and
 * removes nothing.
 */
module EquipmentStatus {
  import opened Wrappers
  import opened Models
  import opened Relations
  import opened ReadProjection

  /** `Equipments.objects.get(id=eid, dep_id=did)` finds a row. */
  predicate InDepartment(t: Tables, did: nat, eid: nat)
  {
    eid in t.equipments && t.equipments[eid].dep == did
  }

  /** The tables with equipment `eid` replaced by `e`. */
  function WithEquipment(t: Tables, eid: nat, e: Equipment): Tables
  {
    t.(equipments := t.equipments[eid := e])
  }

  function Inactivated(t: Tables, did: nat, eid: nat): Result<Tables>
  {
    if InDepartment(t, did, eid) then Ok(WithEquipment(t, eid, t.equipments[eid].(isActive := false)))
    else Err(NotFound)
  }

  /** The lookup of a soft delete also requires `is_deleted` to be false. */
  function SoftDeleted(t: Tables, did: nat, eid: nat): Result<Tables>
  {
    if InDepartment(t, did, eid) && !t.equipments[eid].isDeleted
    then Ok(WithEquipment(t, eid, t.equipments[eid].(isDeleted := true, isActive := false)))
    else Err(NotFound)
  }

  /** Rewriting an equipment's flags, its department kept, keeps integrity and every other row. */
  lemma WithEquipmentFrame(t: Tables, eid: nat, e: Equipment)
    requires t.Valid() && eid in t.equipments && e.dep == t.equipments[eid].dep
    ensures var t' := WithEquipment(t, eid, e);
      && t'.Valid() && t'.nextId == t.nextId
      && t'.clinics == t.clinics && t'.departments == t.departments && t'.details == t.details
      && t'.parameters == t.parameters && t'.values == t.values
      && t'.equipments.Keys == t.equipments.Keys
  {
  }

  /**
   * Inactivate finds the equipment exactly when it belongs to the department, then clears
   * its `is_active` and nothing else; otherwise it reports not found.
   */
  lemma InactivateOutcome(t: Tables, did: nat, eid: nat)
    requires t.Valid()
    ensures var r := Inactivated(t, did, eid);
      && (r.Ok? <==> eid in t.equipments && t.equipments[eid].dep == did)
      && (r.Err? ==> r.failure == NotFound)
      && (r.Ok? ==>
            && r.value.Valid() && r.value.equipments.Keys == t.equipments.Keys
            && !r.value.equipments[eid].isActive
            && r.value.equipments[eid].name == t.equipments[eid].name
            && r.value.equipments[eid].dep == did
            && r.value.equipments[eid].isDeleted == t.equipments[eid].isDeleted
            && (forall k :: k in t.equipments && k != eid ==> r.value.equipments[k] == t.equipments[k])
            && r.value.clinics == t.clinics && r.value.departments == t.departments
            && r.value.details == t.details && r.value.parameters == t.parameters && r.value.values == t.values
            && r.value.nextId == t.nextId)
  {
    if InDepartment(t, did, eid) {
      WithEquipmentFrame(t, eid, t.equipments[eid].(isActive := false));
    }
  }

  /** Inactivating twice is inactivating once. */
  lemma InactivateIdempotent(t: Tables, did: nat, eid: nat)
    requires Inactivated(t, did, eid).Ok?
    ensures Inactivated(Inactivated(t, did, eid).value, did, eid) == Inactivated(t, did, eid)
  {
    var t' := Inactivated(t, did, eid).value;
    assert t'.equipments[eid := t'.equipments[eid].(isActive := false)] == t'.equipments;
  }

  /** An equipment's read depends on its name and the rows below it, not on its flags. */
  lemma EquipmentViewIgnoresFlags(t: Tables, t': Tables, k: nat)
    requires k in t.equipments && k in t'.equipments && t'.equipments[k].name == t.equipments[k].name
    requires t'.details == t.details && t'.parameters == t.parameters && t'.values == t.values
    requires t'.nextId == t.nextId
    ensures EquipmentViewOf(t', k) == EquipmentViewOf(t, k)
  {
    assert DetailIds(t', k) == DetailIds(t, k);
    assert ParameterIds(t', k) == ParameterIds(t, k);
    var pids := ParameterIds(t, k);
    forall i | 0 <= i < |pids| && pids[i] in t.parameters
      ensures ParameterViewOf(t', pids[i]) == ParameterViewOf(t, pids[i])
    {
      assert ValueIds(t', pids[i]) == ValueIds(t, pids[i]);
    }
  }

  /** Rows whose flags differ, nothing else, look the same to every clinic read. */
  lemma EquipmentViewsIgnoreActive(t: Tables, t': Tables, eid: nat, did: nat)
    requires t.Valid() && eid in t.equipments
    requires t' == WithEquipment(t, eid, t.equipments[eid].(isActive := false))
    ensures EquipmentViews(t', did) == EquipmentViews(t, did)
  {
    RelatedRestrict(t.equipments, t'.equipments, ListedIn, did, t.nextId);
    var ids := ListedEquipmentIds(t, did);
    forall i | 0 <= i < |ids|
      ensures EquipmentViewOf(t', ids[i]) == EquipmentViewOf(t, ids[i])
    {
      EquipmentViewIgnoresFlags(t, t', ids[i]);
    }
  }

  /** No read shape carries `is_active` of an equipment: inactivating changes no clinic's read. */
  lemma InactivateInvisible(t: Tables, did: nat, eid: nat, cid: nat)
    requires t.Valid() && Inactivated(t, did, eid).Ok?
    ensures ReadClinic(Inactivated(t, did, eid).value, cid) == ReadClinic(t, cid)
  {
    var t' := WithEquipment(t, eid, t.equipments[eid].(isActive := false));
    assert Inactivated(t, did, eid).value == t';
    var ids := DepartmentIds(t, cid);
    assert DepartmentIds(t', cid) == ids;
    forall i | 0 <= i < |ids|
      ensures DepartmentViewOf(t', ids[i]) == DepartmentViewOf(t, ids[i])
    {
      EquipmentViewsIgnoreActive(t, t', eid, ids[i]);
    }
    assert DepartmentViews(t', cid) == DepartmentViews(t, cid);
  }

  /**
   * Soft delete finds the equipment exactly when it belongs to the department and is not
   * deleted yet, then marks it deleted and inactive, keeping the row and everything
   * below it; otherwise it reports not found.
   */
  lemma SoftDeleteOutcome(t: Tables, did: nat, eid: nat)
    requires t.Valid()
    ensures var r := SoftDeleted(t, did, eid);
      && (r.Ok? <==> eid in t.equipments && t.equipments[eid].dep == did && !t.equipments[eid].isDeleted)
      && (r.Err? ==> r.failure == NotFound)
      && (r.Ok? ==>
            && r.value.Valid() && r.value.equipments.Keys == t.equipments.Keys
            && r.value.equipments[eid].isDeleted && !r.value.equipments[eid].isActive
            && r.value.equipments[eid].name == t.equipments[eid].name
            && r.value.equipments[eid].dep == did
            && (forall k :: k in t.equipments && k != eid ==> r.value.equipments[k] == t.equipments[k])
            && r.value.clinics == t.clinics && r.value.departments == t.departments
            && r.value.details == t.details && r.value.parameters == t.parameters && r.value.values == t.values
            && r.value.nextId == t.nextId)
  {
    if InDepartment(t, did, eid) && !t.equipments[eid].isDeleted {
      WithEquipmentFrame(t, eid, t.equipments[eid].(isDeleted := true, isActive := false));
    }
  }

  /** A second soft delete of the same equipment reports not found and changes nothing. */
  lemma SoftDeleteTwice(t: Tables, did: nat, eid: nat)
    requires SoftDeleted(t, did, eid).Ok?
    ensures SoftDeleted(SoftDeleted(t, did, eid).value, did, eid) == Err(NotFound)
  {
  }

  /** A soft-deleted equipment can still be inactivated: that lookup does not look at `is_deleted`. */
  lemma InactivateAfterSoftDelete(t: Tables, did: nat, eid: nat)
    requires SoftDeleted(t, did, eid).Ok?
    ensures Inactivated(SoftDeleted(t, did, eid).value, did, eid).Ok?
  {
  }

  /** After a soft delete the department lists its equipment as before without this one. */
  lemma SoftDeleteHides(t: Tables, did: nat, eid: nat)
    requires SoftDeleted(t, did, eid).Ok?
    ensures ListedEquipmentIds(SoftDeleted(t, did, eid).value, did) == Remove(ListedEquipmentIds(t, did), eid)
  {
    var t' := SoftDeleted(t, did, eid).value;
    RelatedDrop(t.equipments, t'.equipments, ListedIn, did, t.nextId, eid);
  }

  /** Every other department lists the same equipment after a soft delete. */
  lemma SoftDeleteKeepsOtherLists(t: Tables, did: nat, eid: nat, x: nat)
    requires SoftDeleted(t, did, eid).Ok? && x != did
    ensures ListedEquipmentIds(SoftDeleted(t, did, eid).value, x) == ListedEquipmentIds(t, x)
  {
    var t' := SoftDeleted(t, did, eid).value;
    RelatedRestrict(t.equipments, t'.equipments, ListedIn, x, t.nextId);
  }
}
