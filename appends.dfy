/**
 * Batches of detail rows and of parameter values inserted one after the other, each
 * at the next fresh id: the shape of every `for ...: X.objects.create(...)` loop.
 */
module Appends {
  import opened Models
  import opened Relations

  function AddDetails(t: Tables, rows: seq<EquipmentDetail>): Tables
    decreases |rows|
  {
    if rows == [] then t else AddDetails(t, rows[..|rows| - 1]).AddDetail(rows[|rows| - 1])
  }

  function AddValues(t: Tables, pid: nat, contents: seq<Json>): Tables
    decreases |contents|
  {
    if contents == [] then t
    else AddValues(t, pid, contents[..|contents| - 1]).AddValue(NewParameterValue(pid, contents[|contents| - 1]))
  }

  /** `t'` is `t` with `rows` stored under the next fresh ids, in order, and no other table touched. */
  ghost predicate DetailsAppended(t: Tables, t': Tables, rows: seq<EquipmentDetail>)
  {
    && t'.nextId == t.nextId + |rows|
    && t'.clinics == t.clinics && t'.departments == t.departments && t'.equipments == t.equipments
    && t'.parameters == t.parameters && t'.values == t.values
    && (forall k :: t.nextId <= k < t'.nextId ==> k in t'.details && t'.details[k] == rows[k - t.nextId])
    && (forall k :: k in t'.details ==> (k in t.details && t'.details[k] == t.details[k]) || t.nextId <= k < t'.nextId)
  }

  /** `t'` is `t` with one fresh, not deleted value of parameter `pid` per content, in order. */
  ghost predicate ValuesAppended(t: Tables, t': Tables, pid: nat, contents: seq<Json>)
  {
    && t'.nextId == t.nextId + |contents|
    && t'.clinics == t.clinics && t'.departments == t.departments && t'.equipments == t.equipments
    && t'.details == t.details && t'.parameters == t.parameters
    && (forall k :: t.nextId <= k < t'.nextId ==>
          k in t'.values && t'.values[k] == ParameterValue(pid, contents[k - t.nextId], false))
    && (forall k :: k in t'.values ==> (k in t.values && t'.values[k] == t.values[k]) || t.nextId <= k < t'.nextId)
  }

  lemma AddDetailKeepsValid(t: Tables, r: EquipmentDetail)
    requires t.Valid() && r.equipment in t.equipments
    ensures t.AddDetail(r).Valid() && Grows(t, t.AddDetail(r))
  {
  }

  lemma AddValueKeepsValid(t: Tables, v: ParameterValue)
    requires t.Valid() && v.parameter in t.parameters
    ensures t.AddValue(v).Valid() && Grows(t, t.AddValue(v))
  {
  }

  /** Appending details touches no table but the details, and uses one fresh id per row. */
  lemma {:induction false} AddDetailsFrame(t: Tables, rows: seq<EquipmentDetail>)
    ensures var t' := AddDetails(t, rows);
      && t'.nextId == t.nextId + |rows|
      && t'.clinics == t.clinics && t'.departments == t.departments && t'.equipments == t.equipments
      && t'.parameters == t.parameters && t'.values == t.values
    decreases |rows|
  {
    if rows != [] {
      AddDetailsFrame(t, rows[..|rows| - 1]);
    }
  }

  /** Appending details of an existing equipment keeps integrity and keeps every existing row. */
  lemma {:induction false} AddDetailsValid(t: Tables, eid: nat, rows: seq<EquipmentDetail>)
    requires t.Valid() && eid in t.equipments
    requires forall i :: 0 <= i < |rows| ==> rows[i].equipment == eid
    ensures AddDetails(t, rows).Valid() && Grows(t, AddDetails(t, rows))
    ensures AddDetails(t, rows).equipments == t.equipments
    decreases |rows|
  {
    if rows != [] {
      var init := rows[..|rows| - 1];
      AddDetailsValid(t, eid, init);
      var tp := AddDetails(t, init);
      AddDetailKeepsValid(tp, rows[|rows| - 1]);
      GrowsTransitive(t, tp, AddDetails(t, rows));
    }
  }

  /** The appended detail rows sit, in order, at the next fresh ids. */
  lemma {:induction false} AddDetailsPlacesRows(t: Tables, rows: seq<EquipmentDetail>)
    ensures DetailsAppended(t, AddDetails(t, rows), rows)
    decreases |rows|
  {
    if rows != [] {
      var init := rows[..|rows| - 1];
      AddDetailsPlacesRows(t, init);
      var tp := AddDetails(t, init);
      var t' := AddDetails(t, rows);
      forall k | t.nextId <= k < t'.nextId
        ensures k in t'.details && t'.details[k] == rows[k - t.nextId]
      {
        if k < tp.nextId {
          assert init[k - t.nextId] == rows[k - t.nextId];
        }
      }
    }
  }

  /** The detail list of equipment `eid` grows by exactly the fresh ids of its new rows. */
  lemma {:induction false} AddDetailsExtendsList(t: Tables, eid: nat, rows: seq<EquipmentDetail>)
    requires forall i :: 0 <= i < |rows| ==> rows[i].equipment == eid
    ensures AddDetails(t, rows).nextId == t.nextId + |rows|
    ensures DetailIds(AddDetails(t, rows), eid) == DetailIds(t, eid) + Span(t.nextId, |rows|)
    decreases |rows|
  {
    if rows != [] {
      var init := rows[..|rows| - 1];
      AddDetailsExtendsList(t, eid, init);
      var tp := AddDetails(t, init);
      RelatedAgree(tp.details, AddDetails(t, rows).details, DetailOf, eid, tp.nextId);
      assert Span(t.nextId, |init|) + [tp.nextId] == Span(t.nextId, |rows|);
    }
  }

  /** The details of an equipment that had none are exactly the appended rows, in order. */
  lemma AddDetailsToBare(t: Tables, eid: nat, rows: seq<EquipmentDetail>)
    requires DetailIds(t, eid) == []
    requires forall i :: 0 <= i < |rows| ==> rows[i].equipment == eid
    ensures var t' := AddDetails(t, rows);
      && |DetailIds(t', eid)| == |rows|
      && forall i :: 0 <= i < |rows| ==> DetailIds(t', eid)[i] in t'.details && t'.details[DetailIds(t', eid)[i]] == rows[i]
  {
    var t' := AddDetails(t, rows);
    AddDetailsExtendsList(t, eid, rows);
    AddDetailsPlacesRows(t, rows);
    forall i | 0 <= i < |rows|
      ensures t'.details[DetailIds(t', eid)[i]] == rows[i]
    {
      assert DetailIds(t', eid)[i] == t.nextId + i;
    }
  }

  /** Details appended to equipment `eid` do not show up under any other equipment. */
  lemma {:induction false} AddDetailsKeepsOtherLists(t: Tables, eid: nat, rows: seq<EquipmentDetail>, x: nat)
    requires forall i :: 0 <= i < |rows| ==> rows[i].equipment == eid
    requires x != eid
    ensures DetailIds(AddDetails(t, rows), x) == DetailIds(t, x)
    decreases |rows|
  {
    if rows != [] {
      var init := rows[..|rows| - 1];
      AddDetailsKeepsOtherLists(t, eid, init, x);
      var tp := AddDetails(t, init);
      RelatedUnchanged(tp.details, AddDetails(t, rows).details, DetailOf, x, tp.nextId, tp.nextId + 1);
    }
  }

  /** Appending values of an existing parameter keeps integrity and keeps every existing row. */
  lemma {:induction false} AddValuesValid(t: Tables, pid: nat, contents: seq<Json>)
    requires t.Valid() && pid in t.parameters
    ensures AddValues(t, pid, contents).Valid() && Grows(t, AddValues(t, pid, contents))
    decreases |contents|
  {
    if contents != [] {
      var init := contents[..|contents| - 1];
      AddValuesValid(t, pid, init);
      var tp := AddValues(t, pid, init);
      AddValueKeepsValid(tp, NewParameterValue(pid, contents[|contents| - 1]));
      GrowsTransitive(t, tp, AddValues(t, pid, contents));
    }
  }

  /** The appended values sit, in order, at the next fresh ids, each holding its content, not deleted. */
  lemma {:induction false} AddValuesPlacesRows(t: Tables, pid: nat, contents: seq<Json>)
    ensures ValuesAppended(t, AddValues(t, pid, contents), pid, contents)
    decreases |contents|
  {
    if contents != [] {
      var init := contents[..|contents| - 1];
      AddValuesPlacesRows(t, pid, init);
      var tp := AddValues(t, pid, init);
      var t' := AddValues(t, pid, contents);
      forall k | t.nextId <= k < t'.nextId
        ensures k in t'.values && t'.values[k] == ParameterValue(pid, contents[k - t.nextId], false)
      {
        if k < tp.nextId {
          assert init[k - t.nextId] == contents[k - t.nextId];
        }
      }
    }
  }

  /** The value list of parameter `pid` grows by exactly one fresh id per content. */
  lemma {:induction false} AddValuesExtendsList(t: Tables, pid: nat, contents: seq<Json>)
    ensures AddValues(t, pid, contents).nextId == t.nextId + |contents|
    ensures ValueIds(AddValues(t, pid, contents), pid) == ValueIds(t, pid) + Span(t.nextId, |contents|)
    decreases |contents|
  {
    if contents != [] {
      var init := contents[..|contents| - 1];
      AddValuesExtendsList(t, pid, init);
      var tp := AddValues(t, pid, init);
      RelatedAgree(tp.values, AddValues(t, pid, contents).values, ValueOf, pid, tp.nextId);
      assert Span(t.nextId, |init|) + [tp.nextId] == Span(t.nextId, |contents|);
    }
  }

  /** Values appended to parameter `pid` do not show up under any other parameter. */
  lemma {:induction false} AddValuesKeepsOtherLists(t: Tables, pid: nat, contents: seq<Json>, q: nat)
    requires q != pid
    ensures ValueIds(AddValues(t, pid, contents), q) == ValueIds(t, q)
    decreases |contents|
  {
    if contents != [] {
      var init := contents[..|contents| - 1];
      AddValuesKeepsOtherLists(t, pid, init, q);
      var tp := AddValues(t, pid, init);
      RelatedUnchanged(tp.values, AddValues(t, pid, contents).values, ValueOf, q, tp.nextId, tp.nextId + 1);
    }
  }

  lemma AddDetailsSnoc(t: Tables, rows: seq<EquipmentDetail>, r: EquipmentDetail)
    ensures AddDetails(t, rows + [r]) == AddDetails(t, rows).AddDetail(r)
  {
    assert (rows + [r])[..|rows|] == rows;
  }

  lemma AddValuesSnoc(t: Tables, pid: nat, contents: seq<Json>, c: Json)
    ensures AddValues(t, pid, contents + [c]) == AddValues(t, pid, contents).AddValue(NewParameterValue(pid, c))
  {
    assert (contents + [c])[..|contents|] == contents;
  }
}
