/**
 * Building a subtree from a document: one equipment row followed by its detail rows,
 * a batch of such equipment under one department, and a department followed by its
 * equipment. Every create path of the serializers inserts in this order, each row at
 * the next fresh id. The lemmas say what the read shape of a new subtree is and that
 * nothing that existed before changes.
 */
module Trees {
  import opened Wrappers
  import opened Models
  import opened Relations
  import opened Appends
  import opened ReadProjection
  import opened Payloads

  /** The detail rows of equipment `eid`, one per detail document, in order. */
  function DetailRows(eid: nat, ds: seq<DetailInput>): (rows: seq<EquipmentDetail>)
    ensures |rows| == |ds|
    ensures forall i :: 0 <= i < |ds| ==>
      rows[i] == NewDetail(eid, ds[i].equipmentNum, ds[i].make, ds[i].model, ds[i].isActive)
  {
    seq(|ds|, i requires 0 <= i < |ds| => NewDetail(eid, ds[i].equipmentNum, ds[i].make, ds[i].model, ds[i].isActive))
  }

  /**
   * An equipment of department `did` and then its details. A missing name is stored as
   * the column's empty default; an equipment document with parameters never gets this far.
   */
  function AddEquipmentTree(t: Tables, did: nat, e: EquipmentInput): Tables
    requires e.parameters == []
  {
    AddDetails(t.AddEquipment(NewEquipment(did, e.name.GetOr(""), e.isActive)), DetailRows(t.nextId, e.details))
  }

  function AddEquipmentTrees(t: Tables, did: nat, es: seq<EquipmentInput>): Tables
    requires NoParameters(es)
    decreases |es|
  {
    if es == [] then t else AddEquipmentTree(AddEquipmentTrees(t, did, es[..|es| - 1]), did, es[|es| - 1])
  }

  /** A department of clinic `cid` and then its equipment trees. */
  function AddDepartmentTree(t: Tables, cid: nat, d: DepartmentInput): Tables
    requires NoParameters(d.equipments)
  {
    AddEquipmentTrees(t.AddDepartment(NewDepartment(cid, d.name, d.isActive)), t.nextId, d.equipments)
  }

  /** The department trees of a clinic document, in order. */
  function AddDepartmentTrees(t: Tables, cid: nat, ds: seq<DepartmentInput>): Tables
    requires Buildable(ds)
    decreases |ds|
  {
    if ds == [] then t else AddDepartmentTree(AddDepartmentTrees(t, cid, ds[..|ds| - 1]), cid, ds[|ds| - 1])
  }

  /** A detail's read shape shows exactly the document it was built from, `is_active` defaulting to true. */
  predicate DetailShows(v: DetailView, d: DetailInput)
  {
    && v.equipmentNum == d.equipmentNum && v.make == d.make && v.model == d.model
    && (v.isActive <==> d.isActive != Some(false))
  }

  /** A new equipment reads back with the document's name, its details in order and no parameters. */
  predicate EquipmentShows(v: EquipmentView, e: EquipmentInput)
  {
    && v.name == e.name.GetOr("")
    && |v.details| == |e.details|
    && (forall i :: 0 <= i < |e.details| ==> DetailShows(v.details[i], e.details[i]))
    && v.parameters == []
  }

  predicate EquipmentsShow(vs: seq<EquipmentView>, es: seq<EquipmentInput>)
  {
    |vs| == |es| && forall i :: 0 <= i < |es| ==> EquipmentShows(vs[i], es[i])
  }

  predicate DepartmentShows(v: DepartmentView, d: DepartmentInput)
  {
    v.name == d.name && (v.isActive <==> d.isActive != Some(false)) && EquipmentsShow(v.equipments, d.equipments)
  }

  /** Each department of a document reads back as the document describes it. */
  predicate DepartmentsShow(vs: seq<DepartmentView>, ds: seq<DepartmentInput>)
  {
    |vs| == |ds| && forall i :: 0 <= i < |ds| ==> DepartmentShows(vs[i], ds[i])
  }

  /** Every row added since `t` that hangs under an equipment hangs under equipment of department `did`. */
  ghost predicate NewEquipmentsUnder(t: Tables, t': Tables, did: nat)
  {
    forall k :: k in t'.equipments && t.nextId <= k ==> t'.equipments[k].dep == did
  }

  ghost predicate NewDepartmentsUnder(t: Tables, t': Tables, cid: nat)
  {
    forall k :: k in t'.departments && t.nextId <= k ==> t'.departments[k].clinic == cid
  }

  lemma AddEquipmentKeepsValid(t: Tables, r: Equipment)
    requires t.Valid() && r.dep in t.departments
    ensures t.AddEquipment(r).Valid() && Grows(t, t.AddEquipment(r))
  {
  }

  lemma AddDepartmentKeepsValid(t: Tables, r: Department)
    requires t.Valid() && r.clinic in t.clinics
    ensures t.AddDepartment(r).Valid() && Grows(t, t.AddDepartment(r))
  {
  }

  /** An equipment tree keeps integrity and keeps every existing row. */
  lemma AddEquipmentTreeValid(t: Tables, did: nat, e: EquipmentInput)
    requires t.Valid() && did in t.departments && e.parameters == []
    ensures AddEquipmentTree(t, did, e).Valid() && Grows(t, AddEquipmentTree(t, did, e))
  {
    var t1 := t.AddEquipment(NewEquipment(did, e.name.GetOr(""), e.isActive));
    AddEquipmentKeepsValid(t, NewEquipment(did, e.name.GetOr(""), e.isActive));
    AddDetailsValid(t1, t.nextId, DetailRows(t.nextId, e.details));
    GrowsTransitive(t, t1, AddEquipmentTree(t, did, e));
  }

  /** Everything an equipment tree adds hangs below the new equipment, itself under `did`. */
  lemma AddEquipmentTreeFresh(t: Tables, did: nat, e: EquipmentInput)
    requires t.Valid() && e.parameters == []
    ensures var t' := AddEquipmentTree(t, did, e);
      && FreshChildren(t, t') && NewEquipmentsUnder(t, t', did)
      && t'.clinics == t.clinics && t'.departments == t.departments
  {
    var t1 := t.AddEquipment(NewEquipment(did, e.name.GetOr(""), e.isActive));
    AddDetailsPlacesRows(t1, DetailRows(t.nextId, e.details));
  }

  /** The new equipment is listed last under its department. */
  lemma AddEquipmentTreeListed(t: Tables, did: nat, e: EquipmentInput)
    requires t.Valid() && e.parameters == []
    ensures var t' := AddEquipmentTree(t, did, e);
      && t'.nextId == t.nextId + 1 + |e.details|
      && ListedEquipmentIds(t', did) == ListedEquipmentIds(t, did) + [t.nextId]
  {
    var t1 := t.AddEquipment(NewEquipment(did, e.name.GetOr(""), e.isActive));
    var rows := DetailRows(t.nextId, e.details);
    var t' := AddEquipmentTree(t, did, e);
    AddDetailsFrame(t1, rows);
    RelatedInsert(t.equipments, ListedIn, did, t.nextId, t'.nextId, NewEquipment(did, e.name.GetOr(""), e.isActive));
  }

  /** The details of the new equipment read back as their documents, in order. */
  lemma AddEquipmentTreeDetailViews(t: Tables, did: nat, e: EquipmentInput)
    requires t.Valid() && e.parameters == []
    ensures var v := DetailViews(AddEquipmentTree(t, did, e), t.nextId);
      |v| == |e.details| && forall i :: 0 <= i < |e.details| ==> DetailShows(v[i], e.details[i])
  {
    var n := t.nextId;
    var t1 := t.AddEquipment(NewEquipment(did, e.name.GetOr(""), e.isActive));
    RelatedNone(t1.details, DetailOf, n, t1.nextId);
    AddDetailsToBare(t1, n, DetailRows(n, e.details));
  }

  /** The new equipment reads back as its document describes it. */
  lemma AddEquipmentTreeShows(t: Tables, did: nat, e: EquipmentInput)
    requires t.Valid() && e.parameters == []
    ensures var t' := AddEquipmentTree(t, did, e);
      t.nextId in t'.equipments && EquipmentShows(EquipmentViewOf(t', t.nextId), e)
  {
    var n := t.nextId;
    var t1 := t.AddEquipment(NewEquipment(did, e.name.GetOr(""), e.isActive));
    var t' := AddEquipmentTree(t, did, e);
    AddDetailsFrame(t1, DetailRows(n, e.details));
    AddEquipmentTreeDetailViews(t, did, e);
    RelatedNone(t.parameters, ParameterOf, n, t'.nextId);
  }

  /** Adding rows that hang only below fresh rows, with one more equipment listed, adds one view. */
  lemma EquipmentViewsAppendOne(t: Tables, t': Tables, did: nat, m: nat)
    requires t.Valid() && Grows(t, t') && FreshChildren(t, t')
    requires m in t'.equipments
    requires ListedEquipmentIds(t', did) == ListedEquipmentIds(t, did) + [m]
    ensures EquipmentViews(t', did) == EquipmentViews(t, did) + [EquipmentViewOf(t', m)]
  {
    var ids := ListedEquipmentIds(t, did);
    forall i | 0 <= i < |ids|
      ensures EquipmentViewOf(t', ids[i]) == EquipmentViewOf(t, ids[i])
    {
      EquipmentViewStable(t, t', ids[i]);
    }
  }

  /** One equipment tree under `did`: integrity holds and the department lists one more view, shown as the document. */
  lemma AddEquipmentTreeStep(t: Tables, did: nat, e: EquipmentInput)
    requires t.Valid() && did in t.departments && e.parameters == []
    ensures var t' := AddEquipmentTree(t, did, e);
      && t.nextId in t'.equipments
      && EquipmentViews(t', did) == EquipmentViews(t, did) + [EquipmentViewOf(t', t.nextId)]
      && EquipmentShows(EquipmentViewOf(t', t.nextId), e)
  {
    var t' := AddEquipmentTree(t, did, e);
    AddEquipmentTreeValid(t, did, e);
    AddEquipmentTreeFresh(t, did, e);
    AddEquipmentTreeListed(t, did, e);
    AddEquipmentTreeShows(t, did, e);
    EquipmentViewsAppendOne(t, t', did, t.nextId);
  }

  /** Equipment trees leave the clinics and departments alone. */
  lemma {:induction false} AddEquipmentTreesFrame(t: Tables, did: nat, es: seq<EquipmentInput>)
    requires NoParameters(es)
    ensures var t' := AddEquipmentTrees(t, did, es);
      t'.clinics == t.clinics && t'.departments == t.departments && t.nextId <= t'.nextId
    decreases |es|
  {
    if es != [] {
      var init := es[..|es| - 1];
      AddEquipmentTreesFrame(t, did, init);
      var tp := AddEquipmentTrees(t, did, init);
      AddDetailsFrame(tp.AddEquipment(NewEquipment(did, es[|es| - 1].name.GetOr(""), es[|es| - 1].isActive)),
                      DetailRows(tp.nextId, es[|es| - 1].details));
    }
  }

  /** A batch of equipment trees under `did` keeps integrity and keeps every existing row. */
  lemma {:induction false} AddEquipmentTreesValid(t: Tables, did: nat, es: seq<EquipmentInput>)
    requires t.Valid() && did in t.departments && NoParameters(es)
    ensures AddEquipmentTrees(t, did, es).Valid() && Grows(t, AddEquipmentTrees(t, did, es))
    ensures AddEquipmentTrees(t, did, es).departments == t.departments
    decreases |es|
  {
    if es != [] {
      var init := es[..|es| - 1];
      AddEquipmentTreesValid(t, did, init);
      var tp := AddEquipmentTrees(t, did, init);
      AddEquipmentTreeValid(tp, did, es[|es| - 1]);
      AddEquipmentTreeFresh(tp, did, es[|es| - 1]);
      GrowsTransitive(t, tp, AddEquipmentTrees(t, did, es));
    }
  }

  /** Everything a batch of equipment trees adds hangs below new equipment of department `did`. */
  lemma {:induction false} AddEquipmentTreesFresh(t: Tables, did: nat, es: seq<EquipmentInput>)
    requires t.Valid() && did in t.departments && NoParameters(es)
    ensures var t' := AddEquipmentTrees(t, did, es);
      FreshChildren(t, t') && NewEquipmentsUnder(t, t', did) && t'.clinics == t.clinics
    decreases |es|
  {
    if es != [] {
      var init := es[..|es| - 1];
      AddEquipmentTreesFresh(t, did, init);
      AddEquipmentTreesValid(t, did, init);
      var tp := AddEquipmentTrees(t, did, init);
      AddEquipmentTreeValid(tp, did, es[|es| - 1]);
      AddEquipmentTreeFresh(tp, did, es[|es| - 1]);
      GrowsTransitive(t, tp, AddEquipmentTrees(t, did, es));
    }
  }

  lemma AddEquipmentTreesKeepsDepartment(t: Tables, did: nat, es: seq<EquipmentInput>)
    requires t.Valid() && did in t.departments && NoParameters(es)
    ensures AddEquipmentTrees(t, did, es).Valid() && did in AddEquipmentTrees(t, did, es).departments
  {
    AddEquipmentTreesValid(t, did, es);
  }

  lemma EquipmentsShowSnoc(vs: seq<EquipmentView>, es: seq<EquipmentInput>, v: EquipmentView, e: EquipmentInput)
    requires EquipmentsShow(vs, es) && EquipmentShows(v, e)
    ensures EquipmentsShow(vs + [v], es + [e])
  {
  }

  /** The equipment trees of a department that listed nothing read back as their documents, in order. */
  lemma {:induction false} AddEquipmentTreesShows(t: Tables, did: nat, es: seq<EquipmentInput>)
    requires t.Valid() && did in t.departments && NoParameters(es)
    requires EquipmentViews(t, did) == []
    ensures EquipmentsShow(EquipmentViews(AddEquipmentTrees(t, did, es), did), es)
    decreases |es|
  {
    if es != [] {
      var init, last := es[..|es| - 1], es[|es| - 1];
      AddEquipmentTreesShows(t, did, init);
      AddEquipmentTreesKeepsDepartment(t, did, init);
      var tp := AddEquipmentTrees(t, did, init);
      var t' := AddEquipmentTree(tp, did, last);
      assert t' == AddEquipmentTrees(t, did, es);
      AddEquipmentTreeStep(tp, did, last);
      EquipmentsShowSnoc(EquipmentViews(tp, did), init, EquipmentViewOf(t', tp.nextId), last);
      assert init + [last] == es;
    }
  }

  /** A department tree keeps integrity and keeps every existing row. */
  lemma AddDepartmentTreeValid(t: Tables, cid: nat, d: DepartmentInput)
    requires t.Valid() && cid in t.clinics && NoParameters(d.equipments)
    ensures var t' := AddDepartmentTree(t, cid, d);
      t'.Valid() && Grows(t, t') && t'.clinics == t.clinics
  {
    var t1 := t.AddDepartment(NewDepartment(cid, d.name, d.isActive));
    AddDepartmentKeepsValid(t, NewDepartment(cid, d.name, d.isActive));
    AddEquipmentTreesValid(t1, t.nextId, d.equipments);
    AddEquipmentTreesFresh(t1, t.nextId, d.equipments);
    GrowsTransitive(t, t1, AddDepartmentTree(t, cid, d));
  }

  /** Everything a department tree adds hangs below the new department. */
  lemma AddDepartmentTreeFresh(t: Tables, cid: nat, d: DepartmentInput)
    requires t.Valid() && cid in t.clinics && NoParameters(d.equipments)
    ensures var t' := AddDepartmentTree(t, cid, d);
      FreshChildren(t, t') && FreshEquipments(t, t')
  {
    var t1 := t.AddDepartment(NewDepartment(cid, d.name, d.isActive));
    AddDepartmentKeepsValid(t, NewDepartment(cid, d.name, d.isActive));
    AddEquipmentTreesValid(t1, t.nextId, d.equipments);
    AddEquipmentTreesFresh(t1, t.nextId, d.equipments);
  }

  /** The one department a department tree adds belongs to clinic `cid`. */
  lemma AddDepartmentTreeUnder(t: Tables, cid: nat, d: DepartmentInput)
    requires t.Valid() && NoParameters(d.equipments)
    ensures NewDepartmentsUnder(t, AddDepartmentTree(t, cid, d), cid)
  {
    AddEquipmentTreesFrame(t.AddDepartment(NewDepartment(cid, d.name, d.isActive)), t.nextId, d.equipments);
  }

  /** The new department is listed last under its clinic. */
  lemma AddDepartmentTreeListed(t: Tables, cid: nat, d: DepartmentInput)
    requires t.Valid() && cid in t.clinics && NoParameters(d.equipments)
    ensures var t' := AddDepartmentTree(t, cid, d);
      DepartmentIds(t', cid) == DepartmentIds(t, cid) + [t.nextId]
  {
    var t1 := t.AddDepartment(NewDepartment(cid, d.name, d.isActive));
    var t' := AddDepartmentTree(t, cid, d);
    AddEquipmentTreesFrame(t1, t.nextId, d.equipments);
    RelatedInsert(t.departments, OfClinic, cid, t.nextId, t'.nextId, NewDepartment(cid, d.name, d.isActive));
  }

  /** The new department reads back as its document describes it. */
  lemma AddDepartmentTreeShows(t: Tables, cid: nat, d: DepartmentInput)
    requires t.Valid() && cid in t.clinics && NoParameters(d.equipments)
    ensures var t' := AddDepartmentTree(t, cid, d);
      t.nextId in t'.departments && DepartmentShows(DepartmentViewOf(t', t.nextId), d)
  {
    var n := t.nextId;
    var t1 := t.AddDepartment(NewDepartment(cid, d.name, d.isActive));
    AddDepartmentKeepsValid(t, NewDepartment(cid, d.name, d.isActive));
    RelatedNone(t1.equipments, ListedIn, n, t1.nextId);
    AddEquipmentTreesShows(t1, n, d.equipments);
    AddEquipmentTreesValid(t1, n, d.equipments);
  }

  /** Adding rows below fresh rows only, with one more department listed, adds one view. */
  lemma DepartmentViewsAppendOne(t: Tables, t': Tables, cid: nat, m: nat)
    requires t.Valid() && Grows(t, t') && FreshChildren(t, t') && FreshEquipments(t, t')
    requires m in t'.departments
    requires DepartmentIds(t', cid) == DepartmentIds(t, cid) + [m]
    ensures DepartmentViews(t', cid) == DepartmentViews(t, cid) + [DepartmentViewOf(t', m)]
  {
    var ids := DepartmentIds(t, cid);
    forall i | 0 <= i < |ids|
      ensures DepartmentViewOf(t', ids[i]) == DepartmentViewOf(t, ids[i])
    {
      DepartmentViewStable(t, t', ids[i]);
    }
  }

  lemma AddDepartmentTreeStep(t: Tables, cid: nat, d: DepartmentInput)
    requires t.Valid() && cid in t.clinics && NoParameters(d.equipments)
    ensures var t' := AddDepartmentTree(t, cid, d);
      && t.nextId in t'.departments
      && DepartmentViews(t', cid) == DepartmentViews(t, cid) + [DepartmentViewOf(t', t.nextId)]
      && DepartmentShows(DepartmentViewOf(t', t.nextId), d)
  {
    var t' := AddDepartmentTree(t, cid, d);
    AddDepartmentTreeValid(t, cid, d);
    AddDepartmentTreeFresh(t, cid, d);
    AddDepartmentTreeListed(t, cid, d);
    AddDepartmentTreeShows(t, cid, d);
    DepartmentViewsAppendOne(t, t', cid, t.nextId);
  }

  /** The department trees of a document keep integrity and keep every existing row. */
  lemma {:induction false} AddDepartmentTreesValid(t: Tables, cid: nat, ds: seq<DepartmentInput>)
    requires t.Valid() && cid in t.clinics && Buildable(ds)
    ensures var t' := AddDepartmentTrees(t, cid, ds);
      t'.Valid() && Grows(t, t') && t'.clinics == t.clinics
    decreases |ds|
  {
    if ds != [] {
      var init := ds[..|ds| - 1];
      AddDepartmentTreesValid(t, cid, init);
      var tp := AddDepartmentTrees(t, cid, init);
      AddDepartmentTreeValid(tp, cid, ds[|ds| - 1]);
      GrowsTransitive(t, tp, AddDepartmentTrees(t, cid, ds));
    }
  }

  /** Everything the department trees of a document add hangs below new departments of clinic `cid`. */
  lemma {:induction false} AddDepartmentTreesFresh(t: Tables, cid: nat, ds: seq<DepartmentInput>)
    requires t.Valid() && cid in t.clinics && Buildable(ds)
    ensures var t' := AddDepartmentTrees(t, cid, ds);
      FreshChildren(t, t') && FreshEquipments(t, t') && NewDepartmentsUnder(t, t', cid)
    decreases |ds|
  {
    if ds != [] {
      var init := ds[..|ds| - 1];
      AddDepartmentTreesFresh(t, cid, init);
      AddDepartmentTreesValid(t, cid, init);
      var tp := AddDepartmentTrees(t, cid, init);
      var t' := AddDepartmentTree(tp, cid, ds[|ds| - 1]);
      assert t' == AddDepartmentTrees(t, cid, ds);
      AddDepartmentTreeValid(tp, cid, ds[|ds| - 1]);
      AddDepartmentTreeFresh(tp, cid, ds[|ds| - 1]);
      AddDepartmentTreeUnder(tp, cid, ds[|ds| - 1]);
      GrowsTransitive(t, tp, t');
    }
  }

  lemma AddDepartmentTreesKeepsClinic(t: Tables, cid: nat, ds: seq<DepartmentInput>)
    requires t.Valid() && cid in t.clinics && Buildable(ds)
    ensures AddDepartmentTrees(t, cid, ds).Valid() && cid in AddDepartmentTrees(t, cid, ds).clinics
  {
    AddDepartmentTreesValid(t, cid, ds);
  }

  lemma DepartmentsShowSnoc(vs: seq<DepartmentView>, ds: seq<DepartmentInput>, v: DepartmentView, d: DepartmentInput)
    requires DepartmentsShow(vs, ds) && DepartmentShows(v, d)
    ensures DepartmentsShow(vs + [v], ds + [d])
  {
  }

  /** The inductive step of `AddDepartmentTreesShows`, stated on the two department lists only. */
  lemma DepartmentsShowStep(vs: seq<DepartmentView>, vs': seq<DepartmentView>, v: DepartmentView,
                            ds: seq<DepartmentInput>, init: seq<DepartmentInput>, d: DepartmentInput)
    requires DepartmentsShow(vs, init) && DepartmentShows(v, d)
    requires vs' == vs + [v] && |ds| > 0 && init == ds[..|ds| - 1] && d == ds[|ds| - 1]
    ensures DepartmentsShow(vs', ds)
  {
    DepartmentsShowSnoc(vs, init, v, d);
    assert init + [d] == ds;
  }

  /** The department trees of a clinic that had no department read back as their documents, in order. */
  lemma {:induction false} AddDepartmentTreesShows(t: Tables, cid: nat, ds: seq<DepartmentInput>)
    requires t.Valid() && cid in t.clinics && Buildable(ds)
    requires DepartmentViews(t, cid) == []
    ensures DepartmentsShow(DepartmentViews(AddDepartmentTrees(t, cid, ds), cid), ds)
    decreases |ds|
  {
    if ds != [] {
      var init, d := ds[..|ds| - 1], ds[|ds| - 1];
      AddDepartmentTreesShows(t, cid, init);
      AddDepartmentTreesKeepsClinic(t, cid, init);
      var tp := AddDepartmentTrees(t, cid, init);
      var t' := AddDepartmentTree(tp, cid, d);
      assert t' == AddDepartmentTrees(t, cid, ds);
      AddDepartmentTreeStep(tp, cid, d);
      DepartmentsShowStep(DepartmentViews(tp, cid), DepartmentViews(t', cid), DepartmentViewOf(t', tp.nextId), ds, init, d);
    }
  }

  lemma AddEquipmentTreesSnoc(t: Tables, did: nat, es: seq<EquipmentInput>, e: EquipmentInput)
    requires NoParameters(es) && e.parameters == []
    ensures NoParameters(es + [e])
    ensures AddEquipmentTrees(t, did, es + [e]) == AddEquipmentTree(AddEquipmentTrees(t, did, es), did, e)
  {
    assert (es + [e])[..|es|] == es;
  }

  lemma AddDepartmentTreesSnoc(t: Tables, cid: nat, ds: seq<DepartmentInput>, d: DepartmentInput)
    requires Buildable(ds) && NoParameters(d.equipments)
    ensures Buildable(ds + [d])
    ensures AddDepartmentTrees(t, cid, ds + [d]) == AddDepartmentTree(AddDepartmentTrees(t, cid, ds), cid, d)
  {
    assert (ds + [d])[..|ds|] == ds;
  }

  /**
   * A detail's read shape shows the raw detail document itself: its strings as sent and
   * `is_active` false exactly when the document sends false.
   */
  predicate RawDetailShows(v: DetailView, d: RawDetail)
  {
    && d.equipmentNum == Some(v.equipmentNum) && d.make == Some(v.make) && d.model == Some(v.model)
    && (v.isActive <==> d.isActive != Given(false))
  }

  predicate RawEquipmentShows(v: EquipmentView, e: RawEquipment)
  {
    && e.name == Some(v.name) && !e.details.Null?
    && |v.details| == |e.Details()|
    && (forall i :: 0 <= i < |v.details| ==> RawDetailShows(v.details[i], e.Details()[i]))
    && v.parameters == []
  }

  predicate RawDepartmentShows(v: DepartmentView, d: RawDepartment)
  {
    && d.name == Some(v.name) && (v.isActive <==> d.isActive != Given(false)) && !d.equipments.Null?
    && |v.equipments| == |d.Equipments()|
    && (forall i :: 0 <= i < |v.equipments| ==> RawEquipmentShows(v.equipments[i], d.Equipments()[i]))
  }

  /** Each department of a raw clinic document reads back as the document describes it. */
  predicate RawDepartmentsShow(vs: seq<DepartmentView>, ds: seq<RawDepartment>)
  {
    |vs| == |ds| && forall i :: 0 <= i < |ds| ==> RawDepartmentShows(vs[i], ds[i])
  }

  lemma DetailShowsRaw(v: DetailView, d: RawDetail)
    requires DetailInsertable(d) && DetailShows(v, DetailOfRaw(d))
    ensures RawDetailShows(v, d)
  {
  }

  lemma EquipmentShowsRaw(v: EquipmentView, e: RawEquipment)
    requires EquipmentInsertable(e) && EquipmentShows(v, EquipmentOfRaw(e))
    ensures RawEquipmentShows(v, e)
  {
    var ds := e.Details();
    forall i | 0 <= i < |v.details|
      ensures RawDetailShows(v.details[i], ds[i])
    {
      assert DetailShows(v.details[i], DetailOfRaw(ds[i]));
      DetailShowsRaw(v.details[i], ds[i]);
    }
  }

  lemma DepartmentShowsRaw(v: DepartmentView, d: RawDepartment)
    requires DepartmentInsertable(d) && DepartmentShows(v, DepartmentOfRaw(d))
    ensures RawDepartmentShows(v, d)
  {
    var es := d.Equipments();
    forall i | 0 <= i < |v.equipments|
      ensures RawEquipmentShows(v.equipments[i], es[i])
    {
      assert EquipmentShows(v.equipments[i], EquipmentOfRaw(es[i]));
      EquipmentShowsRaw(v.equipments[i], es[i]);
    }
  }

  /**
   * Read shapes that show the validated form of a storable raw document show the raw
   * document itself: names and strings as sent, `is_active` false exactly where the
   * document sends false, one entry per document entry in order, and no parameters.
   */
  lemma ShowsRawDocument(vs: seq<DepartmentView>, ds: seq<RawDepartment>)
    requires DepartmentsInsertable(ds) && DepartmentsShow(vs, DepartmentsOfRaw(ds))
    ensures RawDepartmentsShow(vs, ds)
  {
    forall i | 0 <= i < |ds|
      ensures RawDepartmentShows(vs[i], ds[i])
    {
      DepartmentShowsRaw(vs[i], ds[i]);
    }
  }
}
