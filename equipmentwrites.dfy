/**
 * What the equipment and department serializers do to the tables, as functions of the
 * tables before them.
 *
 * Equipment create stores the equipment and its details (`Trees.AddEquipmentTree`);
 * a document with parameter entries fails. Equipment update is a partial update of
 * the two scalars, appends every detail of the document, and for each parameter entry
 * whose id names a parameter of this equipment, updates the parameter's scalars that
 * are given and appends one value per content. Department create is not one
 * transaction: an equipment that fails leaves the department and the equipment before
 * it in place.
 */
module EquipmentWrites {
  import opened Wrappers
  import opened Models
  import opened Relations
  import opened Appends
  import opened ReadProjection
  import opened Payloads
  import opened Trees

  /** The scalar columns after a partial update: a value that is not given keeps the stored one. */
  function WithScalars(e: Equipment, name: Option<string>, isActive: Option<bool>): (e': Equipment)
    ensures e'.dep == e.dep && e'.isDeleted == e.isDeleted
    ensures e'.name == (if name.Some? then name.value else e.name)
    ensures e'.isActive == (if isActive.Some? then isActive.value else e.isActive)
  {
    e.(name := name.GetOr(e.name), isActive := isActive.GetOr(e.isActive))
  }

  /**
   * The parameter an entry of an update of equipment `eid` edits. An id that is absent or
   * zero is skipped before any lookup; a lookup that finds no parameter with that id
   * belonging to `eid` is skipped as well.
   */
  function MatchedParameter(t: Tables, eid: nat, id: Option<int>): (r: Option<nat>)
    ensures r.Some? <==>
      id.Some? && id.value != 0 && id.value >= 0 && id.value as nat in t.parameters
      && t.parameters[id.value as nat].equipment == eid
    ensures r.Some? ==> r.value as int == id.value
  {
    if id.None? || id.value == 0 then None
    else if id.value > 0 && id.value as nat in t.parameters && t.parameters[id.value as nat].equipment == eid
    then Some(id.value as nat)
    else None
  }

  /** Parameter `pid` with the name and the flag that the entry gives; a value not given keeps the stored one. */
  function EditParameter(t: Tables, pid: nat, pe: ParameterInput): Tables
    requires pid in t.parameters
  {
    var q := t.parameters[pid];
    t.(parameters := t.parameters[pid := q.(name := pe.name.GetOr(q.name), isActive := pe.isActive.GetOr(q.isActive))])
  }

  /**
   * One parameter entry of an update. A matched parameter gets the name and the flag the
   * entry gives, then one new value per content; a null content cannot be stored, which
   * fails the whole update.
   */
  function ApplyEntry(t: Tables, eid: nat, pe: ParameterInput): Result<Tables>
  {
    match MatchedParameter(t, eid, pe.id)
    case None => Ok(t)
    case Some(pid) =>
      if JNull in pe.values then Err(Internal) else Ok(AddValues(EditParameter(t, pid, pe), pid, pe.values))
  }

  function ApplyEntries(t: Tables, eid: nat, ps: seq<ParameterInput>): Result<Tables>
    decreases |ps|
  {
    if ps == [] then Ok(t)
    else
      var r := ApplyEntries(t, eid, ps[..|ps| - 1]);
      if r.Err? then r else ApplyEntry(r.value, eid, ps[|ps| - 1])
  }

  function ScalarsUpdated(t: Tables, eid: nat, inp: EquipmentInput): Tables
    requires eid in t.equipments
  {
    t.(equipments := t.equipments[eid := WithScalars(t.equipments[eid], inp.name, inp.isActive)])
  }

  /** The update before its parameter entries: the scalar columns, then every detail of the document. */
  function UpdateBase(t: Tables, eid: nat, inp: EquipmentInput): Tables
    requires eid in t.equipments
  {
    AddDetails(ScalarsUpdated(t, eid, inp), DetailRows(eid, inp.details))
  }

  /** The tables after an update of equipment `eid`, or the failure that rolls it back. */
  function EquipmentUpdated(t: Tables, eid: nat, inp: EquipmentInput): Result<Tables>
    requires eid in t.equipments
  {
    ApplyEntries(UpdateBase(t, eid, inp), eid, inp.parameters)
  }

  /**
   * Equipment create under department `did`: the equipment and its details, or an
   * internal error when the document carries parameter entries, since the parameter
   * insert passes a column the table does not have.
   */
  function EquipmentCreated(t: Tables, did: nat, inp: EquipmentInput): Result<Tables>
  {
    if inp.parameters != [] then Err(Internal) else Ok(AddEquipmentTree(t, did, inp))
  }

  /** The number of equipment documents before the first one with a parameter entry. */
  function FirstWithParameters(es: seq<EquipmentInput>): (k: nat)
    ensures k <= |es| && NoParameters(es[..k])
    ensures k < |es| ==> es[k].parameters != []
    decreases |es|
  {
    if es == [] || es[0].parameters != [] then 0
    else
      var k := FirstWithParameters(es[1..]);
      assert es[..k + 1] == [es[0]] + es[1..][..k];
      k + 1
  }

  /**
   * The tables after a department create under clinic `cid`, successful or not: the
   * department and the equipment trees up to the first equipment that fails. The create
   * succeeds when no equipment document has parameter entries.
   */
  function DepartmentCreated(t: Tables, cid: nat, d: DepartmentInput): Tables
  {
    AddDepartmentTree(t, cid, d.(equipments := d.equipments[..FirstWithParameters(d.equipments)]))
  }

  /** The contents of parameter `pid`'s values, in insertion order. */
  function ValueContents(t: Tables, pid: nat): (cs: seq<Json>)
    ensures |cs| == |ValueIds(t, pid)|
  {
    var ids := ValueIds(t, pid);
    seq(|ids|, i requires 0 <= i < |ids| => t.values[ids[i]].content)
  }

  /**
   * The contents that the entries `ps` of an update of equipment `eid` append to
   * parameter `q`: those of every entry that names `q`, in order.
   */
  function MatchedContents(t: Tables, eid: nat, ps: seq<ParameterInput>, q: nat): seq<Json>
    decreases |ps|
  {
    if ps == [] then []
    else
      MatchedContents(t, eid, ps[..|ps| - 1], q)
        + (if MatchedParameter(t, eid, ps[|ps| - 1].id) == Some(q) then ps[|ps| - 1].values else [])
  }

  /** The same parameter ids, each owned by the same equipment. */
  ghost predicate SameParameterOwners(t: Tables, t': Tables)
  {
    && (forall k :: k in t'.parameters <==> k in t.parameters)
    && (forall k :: k in t.parameters ==> t'.parameters[k].equipment == t.parameters[k].equipment)
  }

  /**
   * What parameter entries may change: parameter scalars and new values, nothing above
   * them, no parameter added or moved, no stored value touched.
   */
  ghost predicate EntriesFrame(t: Tables, t': Tables)
  {
    && t.nextId <= t'.nextId
    && t'.clinics == t.clinics && t'.departments == t.departments
    && t'.equipments == t.equipments && t'.details == t.details
    && SameParameterOwners(t, t')
    && SubMap(t.values, t'.values)
  }

  /** Matching looks only at parameter ids and owners. */
  lemma MatchedStable(t: Tables, t': Tables, eid: nat, id: Option<int>)
    requires SameParameterOwners(t, t')
    ensures MatchedParameter(t', eid, id) == MatchedParameter(t, eid, id)
  {
  }

  lemma AddValuesKeepsRows(t: Tables, pid: nat, cs: seq<Json>)
    requires t.Valid() && pid in t.parameters
    ensures SubMap(t.values, AddValues(t, pid, cs).values)
  {
    AddValuesValid(t, pid, cs);
  }

  /** A value list extended by fresh ids whose rows hold `cs` has its contents extended by `cs`. */
  lemma ContentsExtended(t: Tables, t': Tables, pid: nat, cs: seq<Json>)
    requires ValueIds(t', pid) == ValueIds(t, pid) + Span(t.nextId, |cs|)
    requires SubMap(t.values, t'.values)
    requires forall k :: t.nextId <= k < t.nextId + |cs| ==> k in t'.values && t'.values[k].content == cs[k - t.nextId]
    ensures ValueContents(t', pid) == ValueContents(t, pid) + cs
  {
    var before := ValueIds(t, pid);
    var ids' := ValueIds(t', pid);
    forall i | 0 <= i < |ids'|
      ensures ValueContents(t', pid)[i] == (ValueContents(t, pid) + cs)[i]
    {
      if i >= |before| {
        assert ids'[i] == t.nextId + (i - |before|);
      } else {
        assert ids'[i] == before[i];
      }
    }
  }

  /** Appending values to `pid` appends their contents to those of `pid`. */
  lemma AddValuesOwnContents(t: Tables, pid: nat, cs: seq<Json>)
    requires t.Valid() && pid in t.parameters
    ensures ValueContents(AddValues(t, pid, cs), pid) == ValueContents(t, pid) + cs
  {
    AddValuesKeepsRows(t, pid, cs);
    AddValuesPlacesRows(t, pid, cs);
    AddValuesExtendsList(t, pid, cs);
    ContentsExtended(t, AddValues(t, pid, cs), pid, cs);
  }

  /** Appending values to `pid` leaves the contents of every other parameter as they were. */
  lemma AddValuesOtherContents(t: Tables, pid: nat, cs: seq<Json>, x: nat)
    requires t.Valid() && pid in t.parameters && x != pid
    ensures ValueContents(AddValues(t, pid, cs), x) == ValueContents(t, x)
  {
    AddValuesKeepsRows(t, pid, cs);
    AddValuesKeepsOtherLists(t, pid, cs, x);
  }

  /** Editing a parameter's scalars keeps integrity, its owner and every value. */
  lemma EditParameterFrame(t: Tables, pid: nat, pe: ParameterInput)
    requires t.Valid() && pid in t.parameters
    ensures var t' := EditParameter(t, pid, pe);
      t'.Valid() && EntriesFrame(t, t') && t'.values == t.values && t'.nextId == t.nextId
  {
  }

  /**
   * One entry: skipped when it names no parameter of the equipment, failing exactly when it
   * names one and carries a null content, and otherwise keeping integrity and its frame.
   */
  lemma ApplyEntryOutcome(t: Tables, eid: nat, pe: ParameterInput)
    requires t.Valid()
    ensures var r := ApplyEntry(t, eid, pe);
      && (MatchedParameter(t, eid, pe.id).None? ==> r == Ok(t))
      && (r.Err? <==> MatchedParameter(t, eid, pe.id).Some? && JNull in pe.values)
      && (r.Err? ==> r.failure == Internal)
      && (r.Ok? ==> r.value.Valid() && EntriesFrame(t, r.value))
  {
    var m := MatchedParameter(t, eid, pe.id);
    if m.Some? && JNull !in pe.values {
      var pid := m.value;
      var edited := EditParameter(t, pid, pe);
      EditParameterFrame(t, pid, pe);
      AddValuesValid(edited, pid, pe.values);
      AddValuesPlacesRows(edited, pid, pe.values);
    }
  }

  /**
   * A matched entry: the parameter takes the name and flag the entry gives, keeps its
   * owner, and gets one new, not deleted value per content after its old ones; no other
   * parameter changes.
   */
  lemma ApplyEntryMatched(t: Tables, eid: nat, pe: ParameterInput, pid: nat)
    requires t.Valid()
    requires MatchedParameter(t, eid, pe.id) == Some(pid) && JNull !in pe.values
    ensures ApplyEntry(t, eid, pe).Ok?
    ensures var t' := ApplyEntry(t, eid, pe).value;
      && SameParameterOwners(t, t')
      && t'.parameters[pid].name == (if pe.name.Some? then pe.name.value else t.parameters[pid].name)
      && t'.parameters[pid].isActive == (if pe.isActive.Some? then pe.isActive.value else t.parameters[pid].isActive)
      && (forall k :: k in t.parameters && k != pid ==> t'.parameters[k] == t.parameters[k])
      && ValueIds(t', pid) == ValueIds(t, pid) + Span(t.nextId, |pe.values|)
      && (forall k :: t.nextId <= k < t'.nextId ==> k in t'.values && !t'.values[k].isDeleted)
  {
    var edited := EditParameter(t, pid, pe);
    AddValuesExtendsList(edited, pid, pe.values);
    AddValuesPlacesRows(edited, pid, pe.values);
  }

  /** An entry appends its contents to the parameter it names and to no other. */
  lemma ApplyEntryContents(t: Tables, eid: nat, pe: ParameterInput, x: nat)
    requires t.Valid()
    requires ApplyEntry(t, eid, pe).Ok?
    ensures var t' := ApplyEntry(t, eid, pe).value;
      ValueContents(t', x) == ValueContents(t, x)
        + (if MatchedParameter(t, eid, pe.id) == Some(x) then pe.values else [])
  {
    var m := MatchedParameter(t, eid, pe.id);
    if m.Some? {
      EditParameterFrame(t, m.value, pe);
      if x == m.value {
        AddValuesOwnContents(EditParameter(t, m.value, pe), m.value, pe.values);
      } else {
        AddValuesOtherContents(EditParameter(t, m.value, pe), m.value, pe.values, x);
      }
    }
  }

  /** A parameter that an entry does not name keeps its row. */
  lemma ApplyEntryOthers(t: Tables, eid: nat, pe: ParameterInput, q: nat)
    requires t.Valid() && q in t.parameters
    requires ApplyEntry(t, eid, pe).Ok? && MatchedParameter(t, eid, pe.id) != Some(q)
    ensures q in ApplyEntry(t, eid, pe).value.parameters
    ensures ApplyEntry(t, eid, pe).value.parameters[q] == t.parameters[q]
  {
    var m := MatchedParameter(t, eid, pe.id);
    if m.Some? {
      ApplyEntryMatched(t, eid, pe, m.value);
    }
  }

  lemma EntriesFrameTransitive(t0: Tables, t1: Tables, t2: Tables)
    requires EntriesFrame(t0, t1) && EntriesFrame(t1, t2)
    ensures EntriesFrame(t0, t2)
  {
  }

  /** What the contents of `q` gain from the entries depends only on parameter ids and owners. */
  lemma {:induction false} MatchedContentsStable(t: Tables, t': Tables, eid: nat, ps: seq<ParameterInput>, q: nat)
    requires SameParameterOwners(t, t')
    ensures MatchedContents(t', eid, ps, q) == MatchedContents(t, eid, ps, q)
    decreases |ps|
  {
    if ps != [] {
      MatchedContentsStable(t, t', eid, ps[..|ps| - 1], q);
      MatchedStable(t, t', eid, ps[|ps| - 1].id);
    }
  }

  /** The entries of an update keep integrity and their frame, and fail only as an internal error. */
  lemma {:induction false} ApplyEntriesFrame(t: Tables, eid: nat, ps: seq<ParameterInput>)
    requires t.Valid()
    ensures var r := ApplyEntries(t, eid, ps);
      && (r.Err? ==> r.failure == Internal)
      && (r.Ok? ==> r.value.Valid() && EntriesFrame(t, r.value))
    decreases |ps|
  {
    if ps != [] {
      var init := ps[..|ps| - 1];
      ApplyEntriesFrame(t, eid, init);
      var r0 := ApplyEntries(t, eid, init);
      if r0.Ok? {
        ApplyEntryOutcome(r0.value, eid, ps[|ps| - 1]);
        if ApplyEntry(r0.value, eid, ps[|ps| - 1]).Ok? {
          EntriesFrameTransitive(t, r0.value, ApplyEntry(r0.value, eid, ps[|ps| - 1]).value);
        }
      }
    }
  }

  /** The entries succeed exactly when no entry that names a parameter of the equipment carries a null content. */
  lemma {:induction false} ApplyEntriesOkIff(t: Tables, eid: nat, ps: seq<ParameterInput>)
    requires t.Valid()
    ensures ApplyEntries(t, eid, ps).Ok? <==>
      forall i :: 0 <= i < |ps| && MatchedParameter(t, eid, ps[i].id).Some? ==> JNull !in ps[i].values
    decreases |ps|
  {
    if ps != [] {
      var init := ps[..|ps| - 1];
      var last := ps[|ps| - 1];
      ApplyEntriesOkIff(t, eid, init);
      ApplyEntriesFrame(t, eid, init);
      assert forall i :: 0 <= i < |init| ==> ps[i] == init[i];
      var r0 := ApplyEntries(t, eid, init);
      if r0.Ok? {
        ApplyEntryOutcome(r0.value, eid, last);
        MatchedStable(t, r0.value, eid, last.id);
      } else {
        var i :| 0 <= i < |init| && MatchedParameter(t, eid, init[i].id).Some? && JNull in init[i].values;
        assert ps[i] == init[i];
      }
    }
  }

  /** After the entries, each parameter's contents are its old ones followed by those of every entry naming it. */
  lemma {:induction false} ApplyEntriesContents(t: Tables, eid: nat, ps: seq<ParameterInput>, x: nat)
    requires t.Valid() && ApplyEntries(t, eid, ps).Ok?
    ensures ValueContents(ApplyEntries(t, eid, ps).value, x) == ValueContents(t, x) + MatchedContents(t, eid, ps, x)
    decreases |ps|
  {
    if ps != [] {
      var init := ps[..|ps| - 1];
      var last := ps[|ps| - 1];
      var r0 := ApplyEntries(t, eid, init);
      assert r0.Ok?;
      ApplyEntriesContents(t, eid, init, x);
      ApplyEntriesFrame(t, eid, init);
      ApplyEntryContents(r0.value, eid, last, x);
      MatchedStable(t, r0.value, eid, last.id);
    }
  }

  /** A parameter that no entry names keeps its row. */
  lemma {:induction false} ApplyEntriesUntouched(t: Tables, eid: nat, ps: seq<ParameterInput>, q: nat)
    requires t.Valid() && q in t.parameters && ApplyEntries(t, eid, ps).Ok?
    requires forall i :: 0 <= i < |ps| ==> MatchedParameter(t, eid, ps[i].id) != Some(q)
    ensures q in ApplyEntries(t, eid, ps).value.parameters
    ensures ApplyEntries(t, eid, ps).value.parameters[q] == t.parameters[q]
    decreases |ps|
  {
    if ps != [] {
      var init := ps[..|ps| - 1];
      var last := ps[|ps| - 1];
      var r0 := ApplyEntries(t, eid, init);
      assert r0.Ok?;
      assert forall i :: 0 <= i < |init| ==> init[i] == ps[i];
      ApplyEntriesUntouched(t, eid, init, q);
      ApplyEntriesFrame(t, eid, init);
      MatchedStable(t, r0.value, eid, last.id);
      ApplyEntryOthers(r0.value, eid, last, q);
    }
  }

  /** The first two steps of an update keep integrity and touch neither parameters nor values. */
  lemma UpdateBaseFrame(t: Tables, eid: nat, inp: EquipmentInput)
    requires t.Valid() && eid in t.equipments
    ensures var b := UpdateBase(t, eid, inp);
      && b.Valid() && b.nextId == t.nextId + |inp.details|
      && b.clinics == t.clinics && b.departments == t.departments
      && b.equipments == t.equipments[eid := WithScalars(t.equipments[eid], inp.name, inp.isActive)]
      && b.parameters == t.parameters && b.values == t.values
  {
    var scalars := ScalarsUpdated(t, eid, inp);
    ScalarsUpdatedValid(t, eid, inp);
    AddDetailsValid(scalars, eid, DetailRows(eid, inp.details));
    AddDetailsFrame(scalars, DetailRows(eid, inp.details));
  }

  /**
   * An update succeeds exactly when no parameter entry naming a parameter of this equipment
   * carries a null content; a failure is an internal error, and a success keeps integrity.
   */
  lemma EquipmentUpdateOutcome(t: Tables, eid: nat, inp: EquipmentInput)
    requires t.Valid() && eid in t.equipments
    ensures var r := EquipmentUpdated(t, eid, inp);
      && (r.Ok? <==> forall i :: 0 <= i < |inp.parameters| && MatchedParameter(t, eid, inp.parameters[i].id).Some?
                        ==> JNull !in inp.parameters[i].values)
      && (r.Err? ==> r.failure == Internal)
      && (r.Ok? ==> r.value.Valid())
  {
    var b := UpdateBase(t, eid, inp);
    UpdateBaseFrame(t, eid, inp);
    ApplyEntriesFrame(b, eid, inp.parameters);
    ApplyEntriesOkIff(b, eid, inp.parameters);
    forall i | 0 <= i < |inp.parameters|
      ensures MatchedParameter(b, eid, inp.parameters[i].id) == MatchedParameter(t, eid, inp.parameters[i].id)
    {
      MatchedStable(t, b, eid, inp.parameters[i].id);
    }
  }

  /**
   * A successful update is a partial update of the equipment's name and flag: its department
   * and deletion mark stay, as do every other equipment, department and clinic.
   */
  lemma EquipmentUpdateScalars(t: Tables, eid: nat, inp: EquipmentInput)
    requires t.Valid() && eid in t.equipments && EquipmentUpdated(t, eid, inp).Ok?
    ensures var t' := EquipmentUpdated(t, eid, inp).value;
      && t'.clinics == t.clinics && t'.departments == t.departments
      && t'.equipments == t.equipments[eid := WithScalars(t.equipments[eid], inp.name, inp.isActive)]
  {
    UpdateBaseFrame(t, eid, inp);
    ApplyEntriesFrame(UpdateBase(t, eid, inp), eid, inp.parameters);
  }

  /** Parameter entries leave every detail list as it was. */
  lemma EntriesKeepDetailLists(t: Tables, t': Tables, x: nat)
    requires t.Valid() && EntriesFrame(t, t')
    ensures DetailIds(t', x) == DetailIds(t, x)
  {
    RelatedUnchanged(t.details, t'.details, DetailOf, x, t.nextId, t'.nextId);
  }

  /** Updating the scalars keeps integrity. */
  lemma ScalarsUpdatedValid(t: Tables, eid: nat, inp: EquipmentInput)
    requires t.Valid() && eid in t.equipments
    ensures ScalarsUpdated(t, eid, inp).Valid()
  {
  }

  /** The details of the document go after the equipment's own, at the next fresh ids. */
  lemma UpdateBaseDetailIds(t: Tables, eid: nat, inp: EquipmentInput)
    requires eid in t.equipments
    ensures DetailIds(UpdateBase(t, eid, inp), eid) == DetailIds(t, eid) + Span(t.nextId, |inp.details|)
  {
    AddDetailsExtendsList(ScalarsUpdated(t, eid, inp), eid, DetailRows(eid, inp.details));
  }

  /** Every stored detail stays. */
  lemma UpdateBaseKeepsDetails(t: Tables, eid: nat, inp: EquipmentInput)
    requires t.Valid() && eid in t.equipments
    ensures SubMap(t.details, UpdateBase(t, eid, inp).details)
  {
    ScalarsUpdatedValid(t, eid, inp);
    AddDetailsValid(ScalarsUpdated(t, eid, inp), eid, DetailRows(eid, inp.details));
  }

  /** The new details hold the documents in order. */
  lemma UpdateBasePlacesDetails(t: Tables, eid: nat, inp: EquipmentInput)
    requires eid in t.equipments
    ensures var b := UpdateBase(t, eid, inp);
      forall k :: t.nextId <= k < t.nextId + |inp.details| ==>
        k in b.details && b.details[k] == DetailRows(eid, inp.details)[k - t.nextId]
  {
    AddDetailsPlacesRows(ScalarsUpdated(t, eid, inp), DetailRows(eid, inp.details));
  }

  lemma UpdateBaseOtherDetails(t: Tables, eid: nat, inp: EquipmentInput, x: nat)
    requires eid in t.equipments && x != eid
    ensures DetailIds(UpdateBase(t, eid, inp), x) == DetailIds(t, x)
  {
    var scalars := ScalarsUpdated(t, eid, inp);
    AddDetailsKeepsOtherLists(scalars, eid, DetailRows(eid, inp.details), x);
  }

  /**
   * A successful update appends one detail per detail document, in order, after the
   * equipment's existing details, which stay; no other equipment's details change.
   */
  lemma EquipmentUpdateDetails(t: Tables, eid: nat, inp: EquipmentInput)
    requires t.Valid() && eid in t.equipments && EquipmentUpdated(t, eid, inp).Ok?
    ensures var t' := EquipmentUpdated(t, eid, inp).value;
      && DetailIds(t', eid) == DetailIds(t, eid) + Span(t.nextId, |inp.details|)
      && (forall x :: x != eid ==> DetailIds(t', x) == DetailIds(t, x))
      && SubMap(t.details, t'.details)
      && (forall k :: t.nextId <= k < t.nextId + |inp.details| ==>
            k in t'.details && t'.details[k] == DetailRows(eid, inp.details)[k - t.nextId])
  {
    var b := UpdateBase(t, eid, inp);
    var t' := EquipmentUpdated(t, eid, inp).value;
    UpdateBaseFrame(t, eid, inp);
    ApplyEntriesFrame(b, eid, inp.parameters);
    UpdateBaseDetailIds(t, eid, inp);
    UpdateBaseKeepsDetails(t, eid, inp);
    UpdateBasePlacesDetails(t, eid, inp);
    EntriesKeepDetailLists(b, t', eid);
    forall x | x != eid
      ensures DetailIds(t', x) == DetailIds(t, x)
    {
      UpdateBaseOtherDetails(t, eid, inp, x);
      EntriesKeepDetailLists(b, t', x);
    }
  }

  /**
   * After a successful update each parameter's values are its old ones followed by the
   * contents of every entry naming it, in order.
   */
  lemma EquipmentUpdateValues(t: Tables, eid: nat, inp: EquipmentInput, x: nat)
    requires t.Valid() && eid in t.equipments && EquipmentUpdated(t, eid, inp).Ok?
    ensures ValueContents(EquipmentUpdated(t, eid, inp).value, x)
      == ValueContents(t, x) + MatchedContents(t, eid, inp.parameters, x)
  {
    var b := UpdateBase(t, eid, inp);
    UpdateBaseFrame(t, eid, inp);
    ApplyEntriesContents(b, eid, inp.parameters, x);
    MatchedContentsStable(t, b, eid, inp.parameters, x);
    RelatedUnchanged(t.values, b.values, ValueOf, x, t.nextId, b.nextId);
  }

  /** A parameter that no entry of a successful update names keeps its row. */
  lemma EquipmentUpdateUntouched(t: Tables, eid: nat, inp: EquipmentInput, q: nat)
    requires t.Valid() && eid in t.equipments && EquipmentUpdated(t, eid, inp).Ok? && q in t.parameters
    requires forall i :: 0 <= i < |inp.parameters| ==> MatchedParameter(t, eid, inp.parameters[i].id) != Some(q)
    ensures q in EquipmentUpdated(t, eid, inp).value.parameters
    ensures EquipmentUpdated(t, eid, inp).value.parameters[q] == t.parameters[q]
  {
    var b := UpdateBase(t, eid, inp);
    UpdateBaseFrame(t, eid, inp);
    ApplyEntriesUntouched(b, eid, inp.parameters, q);
  }

  /**
   * Equipment create fails exactly when the document has parameter entries. Otherwise the
   * new equipment is stored with the document's name and flag, not deleted, integrity
   * holds, nothing stored changes, and the department lists it last, shown as the document.
   */
  lemma EquipmentCreateOutcome(t: Tables, did: nat, inp: EquipmentInput)
    requires t.Valid() && did in t.departments
    ensures var r := EquipmentCreated(t, did, inp);
      && (r.Ok? <==> inp.parameters == [])
      && (r.Err? ==> r.failure == Internal)
      && (r.Ok? ==>
            && r.value.Valid() && Grows(t, r.value)
            && t.nextId in r.value.equipments
            && r.value.equipments[t.nextId] == NewEquipment(did, inp.name.GetOr(""), inp.isActive)
            && EquipmentViews(r.value, did) == EquipmentViews(t, did) + [EquipmentViewOf(r.value, t.nextId)]
            && EquipmentShows(EquipmentViewOf(r.value, t.nextId), inp))
  {
    if inp.parameters == [] {
      var t1 := t.AddEquipment(NewEquipment(did, inp.name.GetOr(""), inp.isActive));
      AddDetailsFrame(t1, DetailRows(t.nextId, inp.details));
      AddEquipmentTreeValid(t, did, inp);
      AddEquipmentTreeStep(t, did, inp);
    }
  }

  lemma FirstWithParametersAll(es: seq<EquipmentInput>)
    ensures FirstWithParameters(es) == |es| <==> NoParameters(es)
  {
    var k := FirstWithParameters(es);
    assert k == |es| ==> es[..k] == es;
  }

  /**
   * A department create without parameter entries stores the department and all its
   * equipment, listed last under the clinic and shown as the document.
   */
  lemma DepartmentCreateComplete(t: Tables, cid: nat, d: DepartmentInput)
    requires t.Valid() && cid in t.clinics && NoParameters(d.equipments)
    ensures var t' := DepartmentCreated(t, cid, d);
      && t'.Valid() && Grows(t, t') && t.nextId in t'.departments
      && DepartmentViews(t', cid) == DepartmentViews(t, cid) + [DepartmentViewOf(t', t.nextId)]
      && DepartmentShows(DepartmentViewOf(t', t.nextId), d)
  {
    FirstWithParametersAll(d.equipments);
    assert d.(equipments := d.equipments[..|d.equipments|]) == d;
    AddDepartmentTreeValid(t, cid, d);
    AddDepartmentTreeStep(t, cid, d);
  }

  /**
   * Department create is not one transaction: when an equipment document has parameter
   * entries, the department stays, with the equipment before the first such document
   * and nothing after it.
   */
  lemma DepartmentCreatePartial(t: Tables, cid: nat, d: DepartmentInput)
    requires t.Valid() && cid in t.clinics && !NoParameters(d.equipments)
    ensures var t' := DepartmentCreated(t, cid, d);
      var k := FirstWithParameters(d.equipments);
      && k < |d.equipments| && d.equipments[k].parameters != []
      && t'.Valid() && Grows(t, t') && t.nextId in t'.departments
      && DepartmentViews(t', cid) == DepartmentViews(t, cid) + [DepartmentViewOf(t', t.nextId)]
      && DepartmentShows(DepartmentViewOf(t', t.nextId), d.(equipments := d.equipments[..k]))
  {
    FirstWithParametersAll(d.equipments);
    var d' := d.(equipments := d.equipments[..FirstWithParameters(d.equipments)]);
    AddDepartmentTreeValid(t, cid, d');
    AddDepartmentTreeStep(t, cid, d');
  }

  lemma ApplyEntriesSnoc(t: Tables, eid: nat, ps: seq<ParameterInput>, pe: ParameterInput)
    requires ApplyEntries(t, eid, ps).Ok?
    ensures ApplyEntries(t, eid, ps + [pe]) == ApplyEntry(ApplyEntries(t, eid, ps).value, eid, pe)
  {
    assert (ps + [pe])[..|ps|] == ps;
  }

  /** Once an entry fails, the update has failed, with that failure, whatever entries follow. */
  lemma {:induction false} ApplyEntriesErrSticks(t: Tables, eid: nat, ps: seq<ParameterInput>, k: nat)
    requires k <= |ps| && ApplyEntries(t, eid, ps[..k]).Err?
    ensures ApplyEntries(t, eid, ps) == ApplyEntries(t, eid, ps[..k])
    decreases |ps|
  {
    if k < |ps| {
      var init := ps[..|ps| - 1];
      assert init[..k] == ps[..k];
      ApplyEntriesErrSticks(t, eid, init, k);
    } else {
      assert ps[..k] == ps;
    }
  }

  /** The first equipment document with parameter entries is the first one whose create fails. */
  lemma {:induction false} FirstWithParametersAt(es: seq<EquipmentInput>, i: nat)
    requires i < |es| && NoParameters(es[..i]) && es[i].parameters != []
    ensures FirstWithParameters(es) == i
    decreases i
  {
    if i > 0 {
      assert es[..i][0] == es[0];
      assert es[1..][..i - 1] == es[1..i];
      FirstWithParametersAt(es[1..], i - 1);
    }
  }
}
