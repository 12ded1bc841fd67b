/**
 * What the two clinic writes do to the tables, as functions of the tables before them:
 * create builds a clinic and its whole document tree; update deletes every department
 * of the clinic (with the cascade below it), renames the clinic when a name is given
 * and builds the document tree again. Both run in one transaction; the serializer
 * methods, proved against these functions, roll back when an insert fails.
 */
module ClinicWrites {
  import opened Wrappers
  import opened Models
  import opened Relations
  import opened ReadProjection
  import opened Payloads
  import opened Trees

  /** Every insert of a clinic create succeeds: the clinic has a name and each nested row can be stored. */
  predicate ClinicInsertable(p: ClinicPayload)
  {
    p.name.Some? && p.DepartmentsStorable()
  }

  /** The tables after a successful clinic create; the new clinic has id `t.nextId`. */
  function ClinicCreated(t: Tables, p: ClinicPayload): Tables
    requires ClinicInsertable(p)
  {
    AddDepartmentTrees(t.AddClinic(Clinic(p.name.value)), t.nextId, DepartmentsOfRaw(p.Departments()))
  }

  /** Clinic `cid` with every department (and all below) removed and the name taken from the document when given. */
  function ClinicCleared(t: Tables, cid: nat, name: Option<string>): Tables
    requires cid in t.clinics
  {
    var t1 := t.WithoutDepartmentsOf(cid);
    t1.(clinics := t1.clinics[cid := Clinic(name.GetOr(t.clinics[cid].name))])
  }

  /** The tables after a successful full replace of clinic `cid`. */
  function ClinicReplaced(t: Tables, cid: nat, p: ClinicPayload): Tables
    requires cid in t.clinics && p.DepartmentsStorable()
  {
    AddDepartmentTrees(ClinicCleared(t, cid, p.name), cid, DepartmentsOfRaw(p.Departments()))
  }

  /** No department of a clinic with id `t.nextId` can exist yet. */
  lemma FreshClinicHasNoDepartments(t: Tables, c: Clinic)
    requires t.Valid()
    ensures t.AddClinic(c).Valid() && DepartmentViews(t.AddClinic(c), t.nextId) == []
  {
    RelatedNone(t.departments, OfClinic, t.nextId, t.nextId + 1);
  }

  /** Clinic create keeps integrity and keeps every existing row unchanged. */
  lemma ClinicCreateValid(t: Tables, p: ClinicPayload)
    requires t.Valid() && ClinicInsertable(p)
    ensures ClinicCreated(t, p).Valid() && Grows(t, ClinicCreated(t, p))
  {
    var t1 := t.AddClinic(Clinic(p.name.value));
    FreshClinicHasNoDepartments(t, Clinic(p.name.value));
    AddDepartmentTreesValid(t1, t.nextId, DepartmentsOfRaw(p.Departments()));
    GrowsTransitive(t, t1, ClinicCreated(t, p));
  }

  /**
   * The created clinic reads back with the document's name and one department per
   * department document, in order, each with one equipment per equipment document and
   * `is_active` true wherever the document leaves it out.
   */
  lemma ClinicCreateReadBack(t: Tables, p: ClinicPayload)
    requires t.Valid() && ClinicInsertable(p)
    ensures var r := ReadClinic(ClinicCreated(t, p), t.nextId);
      && r.Some? && r.value.id == t.nextId && r.value.name == p.name.value
      && DepartmentsShow(r.value.departments, DepartmentsOfRaw(p.Departments()))
  {
    var t1 := t.AddClinic(Clinic(p.name.value));
    FreshClinicHasNoDepartments(t, Clinic(p.name.value));
    AddDepartmentTreesShows(t1, t.nextId, DepartmentsOfRaw(p.Departments()));
    AddDepartmentTreesValid(t1, t.nextId, DepartmentsOfRaw(p.Departments()));
  }

  /** Everything clinic create adds below the departments hangs below new departments. */
  lemma ClinicCreateFresh(t: Tables, p: ClinicPayload)
    requires t.Valid() && ClinicInsertable(p)
    ensures FreshChildren(t, ClinicCreated(t, p)) && FreshEquipments(t, ClinicCreated(t, p))
  {
    var t1 := t.AddClinic(Clinic(p.name.value));
    var ds := DepartmentsOfRaw(p.Departments());
    FreshClinicHasNoDepartments(t, Clinic(p.name.value));
    AddDepartmentTreesValid(t1, t.nextId, ds);
    AddDepartmentTreesFresh(t1, t.nextId, ds);
  }

  /** Every department clinic create adds belongs to the new clinic. */
  lemma ClinicCreateUnder(t: Tables, p: ClinicPayload)
    requires t.Valid() && ClinicInsertable(p)
    ensures NewDepartmentsUnder(t, ClinicCreated(t, p), t.nextId)
  {
    var t1 := t.AddClinic(Clinic(p.name.value));
    var ds := DepartmentsOfRaw(p.Departments());
    FreshClinicHasNoDepartments(t, Clinic(p.name.value));
    AddDepartmentTreesValid(t1, t.nextId, ds);
    AddDepartmentTreesFresh(t1, t.nextId, ds);
  }

  /** Creating a clinic changes the read shape of no existing clinic. */
  lemma ClinicCreateKeepsOtherClinics(t: Tables, p: ClinicPayload, c: nat)
    requires t.Valid() && ClinicInsertable(p) && c in t.clinics
    ensures ReadClinic(ClinicCreated(t, p), c) == ReadClinic(t, c)
  {
    var t' := ClinicCreated(t, p);
    ClinicCreateValid(t, p);
    ClinicCreateFresh(t, p);
    ClinicCreateUnder(t, p);
    RelatedUnchanged(t.departments, t'.departments, OfClinic, c, t.nextId, t'.nextId);
    DepartmentViewsStable(t, t', c);
  }

  /** Clearing a clinic keeps integrity and leaves it with no department at all. */
  lemma ClinicClearedValid(t: Tables, cid: nat, name: Option<string>)
    requires t.Valid() && cid in t.clinics
    ensures var t2 := ClinicCleared(t, cid, name);
      && t2.Valid() && t2.nextId == t.nextId && cid in t2.clinics
      && (forall d :: d in t2.departments ==> t2.departments[d].clinic != cid)
      && DepartmentViews(t2, cid) == []
  {
    CascadeValid(t, cid);
    CascadeDepartments(t, cid);
    var t2 := ClinicCleared(t, cid, name);
    RelatedNone(t2.departments, OfClinic, cid, t2.nextId);
  }

  /** Clinic update keeps integrity; past the clearing it only adds rows. */
  lemma ClinicReplaceValid(t: Tables, cid: nat, p: ClinicPayload)
    requires t.Valid() && cid in t.clinics && p.DepartmentsStorable()
    ensures var t2 := ClinicCleared(t, cid, p.name);
      var t' := ClinicReplaced(t, cid, p);
      t'.Valid() && Grows(t2, t') && NewDepartmentsUnder(t2, t', cid)
  {
    var t2 := ClinicCleared(t, cid, p.name);
    ClinicClearedValid(t, cid, p.name);
    AddDepartmentTreesValid(t2, cid, DepartmentsOfRaw(p.Departments()));
    AddDepartmentTreesFresh(t2, cid, DepartmentsOfRaw(p.Departments()));
  }

  /**
   * The updated clinic reads back with the document's name, or its old name when the
   * document has none, and exactly the departments of the document, in order.
   */
  lemma ClinicReplaceReadBack(t: Tables, cid: nat, p: ClinicPayload)
    requires t.Valid() && cid in t.clinics && p.DepartmentsStorable()
    ensures var r := ReadClinic(ClinicReplaced(t, cid, p), cid);
      && r.Some? && r.value.id == cid
      && (p.name.Some? ==> r.value.name == p.name.value)
      && (p.name.None? ==> r.value.name == t.clinics[cid].name)
      && DepartmentsShow(r.value.departments, DepartmentsOfRaw(p.Departments()))
  {
    var t2 := ClinicCleared(t, cid, p.name);
    ClinicClearedValid(t, cid, p.name);
    AddDepartmentTreesValid(t2, cid, DepartmentsOfRaw(p.Departments()));
    AddDepartmentTreesShows(t2, cid, DepartmentsOfRaw(p.Departments()));
  }

  /** The created clinic reads back as the raw document describes it. */
  lemma ClinicCreateShowsDocument(t: Tables, p: ClinicPayload)
    requires t.Valid() && ClinicInsertable(p)
    ensures var r := ReadClinic(ClinicCreated(t, p), t.nextId);
      r.Some? && Some(r.value.name) == p.name && RawDepartmentsShow(r.value.departments, p.Departments())
  {
    ClinicCreateReadBack(t, p);
    ShowsRawDocument(ReadClinic(ClinicCreated(t, p), t.nextId).value.departments, p.Departments());
  }

  /** The replaced clinic reads back as the raw document describes it. */
  lemma ClinicReplaceShowsDocument(t: Tables, cid: nat, p: ClinicPayload)
    requires t.Valid() && cid in t.clinics && p.DepartmentsStorable()
    ensures var r := ReadClinic(ClinicReplaced(t, cid, p), cid);
      r.Some? && RawDepartmentsShow(r.value.departments, p.Departments())
  {
    ClinicReplaceReadBack(t, cid, p);
    ShowsRawDocument(ReadClinic(ClinicReplaced(t, cid, p), cid).value.departments, p.Departments());
  }

  /**
   * No department the clinic had survives the update: every department it has afterwards
   * was created by the update.
   */
  lemma ClinicReplaceDropsOldDepartments(t: Tables, cid: nat, p: ClinicPayload)
    requires t.Valid() && cid in t.clinics && p.DepartmentsStorable()
    ensures var t' := ClinicReplaced(t, cid, p);
      && (forall d :: d in t.departments && t.departments[d].clinic == cid ==> d !in t'.departments)
      && (forall d :: d in t'.departments && t'.departments[d].clinic == cid ==> t.nextId <= d)
  {
    CascadeDepartments(t, cid);
    ClinicClearedValid(t, cid, p.name);
    ClinicReplaceValid(t, cid, p);
  }

  /** Clinic update leaves every other clinic and each of its departments as they were. */
  lemma ClinicReplaceKeepsOtherDepartments(t: Tables, cid: nat, p: ClinicPayload)
    requires t.Valid() && cid in t.clinics && p.DepartmentsStorable()
    ensures var t' := ClinicReplaced(t, cid, p);
      && (forall c :: c in t.clinics && c != cid ==> c in t'.clinics && t'.clinics[c] == t.clinics[c])
      && (forall d :: d in t.departments && t.departments[d].clinic != cid ==>
            d in t'.departments && t'.departments[d] == t.departments[d])
  {
    CascadeDepartments(t, cid);
    ClinicReplaceValid(t, cid, p);
  }

  /** An equipment survives clinic update, unchanged, exactly when it hangs under another clinic. */
  lemma ClinicReplaceEquipments(t: Tables, cid: nat, p: ClinicPayload)
    requires t.Valid() && cid in t.clinics && p.DepartmentsStorable()
    ensures var t' := ClinicReplaced(t, cid, p);
      forall e :: e in t.equipments ==>
        (e in t'.equipments <==> t.ClinicOfEquipment(e) != cid)
        && (e in t'.equipments ==> t'.equipments[e] == t.equipments[e])
  {
    CascadeEquipments(t, cid);
    ClinicReplaceValid(t, cid, p);
  }

  /** A detail survives clinic update, unchanged, exactly when its equipment hangs under another clinic. */
  lemma ClinicReplaceDetails(t: Tables, cid: nat, p: ClinicPayload)
    requires t.Valid() && cid in t.clinics && p.DepartmentsStorable()
    ensures var t' := ClinicReplaced(t, cid, p);
      forall x :: x in t.details ==>
        (x in t'.details <==> t.ClinicOfEquipment(t.details[x].equipment) != cid)
        && (x in t'.details ==> t'.details[x] == t.details[x])
  {
    CascadeDetails(t, cid);
    ClinicReplaceValid(t, cid, p);
  }

  /** A parameter survives clinic update, unchanged, exactly when its equipment hangs under another clinic. */
  lemma ClinicReplaceParameters(t: Tables, cid: nat, p: ClinicPayload)
    requires t.Valid() && cid in t.clinics && p.DepartmentsStorable()
    ensures var t' := ClinicReplaced(t, cid, p);
      forall x :: x in t.parameters ==>
        (x in t'.parameters <==> t.ClinicOfEquipment(t.parameters[x].equipment) != cid)
        && (x in t'.parameters ==> t'.parameters[x] == t.parameters[x])
  {
    CascadeParameters(t, cid);
    ClinicReplaceValid(t, cid, p);
  }

  /** A parameter value survives clinic update, unchanged, exactly when it hangs under another clinic. */
  lemma ClinicReplaceValues(t: Tables, cid: nat, p: ClinicPayload)
    requires t.Valid() && cid in t.clinics && p.DepartmentsStorable()
    ensures var t' := ClinicReplaced(t, cid, p);
      forall x :: x in t.values ==>
        (x in t'.values <==> t.ClinicOfEquipment(t.parameters[t.values[x].parameter].equipment) != cid)
        && (x in t'.values ==> t'.values[x] == t.values[x])
  {
    CascadeValues(t, cid);
    ClinicReplaceValid(t, cid, p);
  }

  /** Clearing one clinic changes the read shape of no other clinic. */
  lemma ClinicClearedKeepsOtherClinics(t: Tables, cid: nat, name: Option<string>, c: nat)
    requires cid in t.clinics && c != cid
    ensures DepartmentViews(ClinicCleared(t, cid, name), c) == DepartmentViews(t, c)
  {
    var t2 := ClinicCleared(t, cid, name);
    CascadeShrinks(t, cid);
    RelatedRestrict(t.departments, t2.departments, OfClinic, c, t.nextId);
    DepartmentViewsKept(t, t2, c);
  }

  /** Updating one clinic changes the read shape of no other clinic. */
  lemma ClinicReplaceKeepsOtherClinics(t: Tables, cid: nat, p: ClinicPayload, c: nat)
    requires t.Valid() && cid in t.clinics && p.DepartmentsStorable()
    requires c in t.clinics && c != cid
    ensures ReadClinic(ClinicReplaced(t, cid, p), c) == ReadClinic(t, c)
  {
    var t2 := ClinicCleared(t, cid, p.name);
    var t' := ClinicReplaced(t, cid, p);
    ClinicClearedKeepsOtherClinics(t, cid, p.name, c);
    ClinicClearedValid(t, cid, p.name);
    ClinicReplaceValid(t, cid, p);
    AddDepartmentTreesFresh(t2, cid, DepartmentsOfRaw(p.Departments()));
    RelatedUnchanged(t2.departments, t'.departments, OfClinic, c, t2.nextId, t'.nextId);
    DepartmentViewsStable(t2, t', c);
  }
}
