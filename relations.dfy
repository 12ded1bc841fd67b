/**
 * The reverse side of each foreign key (Django's `department_set`, `equipments_set`, ...):
 * the ids of the rows owned by a parent. The source does not order these reads, so the
 * database decides; the model fixes id order, which is insertion order.
 * Also the relations between an older and a newer table set that the write paths keep.
 */
module Relations {
  import opened Models

  /**
   * The ids below `hi` of the rows of `m` that `owned` attaches to `owner`, ascending.
   */
  function Related<R>(m: map<nat, R>, owned: (R, nat) -> bool, owner: nat, hi: nat): (ids: seq<nat>)
    ensures forall i :: 0 <= i < |ids| ==> ids[i] < hi && ids[i] in m && owned(m[ids[i]], owner)
    ensures forall i, j :: 0 <= i < j < |ids| ==> ids[i] < ids[j]
    decreases hi
  {
    if hi == 0 then []
    else
      Related(m, owned, owner, hi - 1)
        + (if hi - 1 in m && owned(m[hi - 1], owner) then [hi - 1] else [])
  }

  predicate OfClinic(d: Department, cid: nat) { d.clinic == cid }

  /** The read side lists a department's equipment only while it is not soft-deleted. */
  predicate ListedIn(e: Equipment, did: nat) { e.dep == did && !e.isDeleted }

  predicate DetailOf(d: EquipmentDetail, eid: nat) { d.equipment == eid }

  predicate ParameterOf(p: Parameter, eid: nat) { p.equipment == eid }

  predicate ValueOf(v: ParameterValue, pid: nat) { v.parameter == pid }

  function DepartmentIds(t: Tables, cid: nat): seq<nat>
  {
    Related(t.departments, OfClinic, cid, t.nextId)
  }

  function ListedEquipmentIds(t: Tables, did: nat): seq<nat>
  {
    Related(t.equipments, ListedIn, did, t.nextId)
  }

  function DetailIds(t: Tables, eid: nat): seq<nat>
  {
    Related(t.details, DetailOf, eid, t.nextId)
  }

  function ParameterIds(t: Tables, eid: nat): seq<nat>
  {
    Related(t.parameters, ParameterOf, eid, t.nextId)
  }

  function ValueIds(t: Tables, pid: nat): seq<nat>
  {
    Related(t.values, ValueOf, pid, t.nextId)
  }

  /** The `n` consecutive ids from `lo`: the ids a batch of `n` inserts receives. */
  function Span(lo: nat, n: nat): (s: seq<nat>)
    ensures |s| == n && forall i :: 0 <= i < n ==> s[i] == lo + i
  {
    seq(n, i => lo + i)
  }

  /** `m` and `m'` hold the same rows under every id below `n`. */
  ghost predicate AgreeBelow<R>(m: map<nat, R>, m': map<nat, R>, n: nat)
  {
    forall k :: k < n ==> (k in m <==> k in m') && (k in m ==> m'[k] == m[k])
  }

  /** Membership in a related list: exactly the owned rows below the bound. */
  lemma {:induction false} RelatedMember<R>(m: map<nat, R>, owned: (R, nat) -> bool, owner: nat, hi: nat, x: nat)
    ensures x in Related(m, owned, owner, hi) <==> x < hi && x in m && owned(m[x], owner)
    decreases hi
  {
    if hi > 0 {
      RelatedMember(m, owned, owner, hi - 1, x);
    }
  }

  /** Two maps that agree below `hi` relate the same ids below `hi`. */
  lemma {:induction false} RelatedAgree<R>(m: map<nat, R>, m': map<nat, R>, owned: (R, nat) -> bool, owner: nat, hi: nat)
    requires AgreeBelow(m, m', hi)
    ensures Related(m', owned, owner, hi) == Related(m, owned, owner, hi)
    decreases hi
  {
    if hi > 0 {
      assert AgreeBelow(m, m', hi - 1);
      RelatedAgree(m, m', owned, owner, hi - 1);
    }
  }

  /**
   * Growing a map with rows at ids from `hi` up, none of them owned by `owner`, leaves
   * the related list of `owner` as it was.
   */
  lemma {:induction false} RelatedUnchanged<R>(
    m: map<nat, R>, m': map<nat, R>, owned: (R, nat) -> bool, owner: nat, hi: nat, hi': nat)
    requires hi <= hi'
    requires AgreeBelow(m, m', hi)
    requires forall k :: hi <= k < hi' && k in m' ==> !owned(m'[k], owner)
    ensures Related(m', owned, owner, hi') == Related(m, owned, owner, hi)
    decreases hi'
  {
    if hi' == hi {
      RelatedAgree(m, m', owned, owner, hi);
    } else {
      RelatedUnchanged(m, m', owned, owner, hi, hi' - 1);
    }
  }

  /**
   * Inserting a row at the first free id `hi` of a map whose ids are all below `hi`
   * appends that id to its owner's list, under any bound beyond it.
   */
  lemma RelatedInsert<R>(m: map<nat, R>, owned: (R, nat) -> bool, owner: nat, hi: nat, hi': nat, r: R)
    requires forall k :: k in m ==> k < hi
    requires hi < hi'
    ensures Related(m[hi := r], owned, owner, hi') == Related(m, owned, owner, hi) + (if owned(r, owner) then [hi] else [])
  {
    RelatedAgree(m, m[hi := r], owned, owner, hi);
    RelatedUnchanged(m[hi := r], m[hi := r], owned, owner, hi + 1, hi');
  }

  /** Two maps that own the same ids below `hi` relate the same list, whatever else they hold. */
  lemma {:induction false} RelatedRestrict<R>(m: map<nat, R>, m': map<nat, R>, owned: (R, nat) -> bool, owner: nat, hi: nat)
    requires forall k :: k < hi ==> ((k in m' && owned(m'[k], owner)) <==> (k in m && owned(m[k], owner)))
    ensures Related(m', owned, owner, hi) == Related(m, owned, owner, hi)
    decreases hi
  {
    if hi > 0 {
      RelatedRestrict(m, m', owned, owner, hi - 1);
    }
  }

  /** No owned row at all: the related list is empty. */
  lemma RelatedNone<R>(m: map<nat, R>, owned: (R, nat) -> bool, owner: nat, hi: nat)
    requires forall k :: k in m ==> !owned(m[k], owner)
    ensures Related(m, owned, owner, hi) == []
  {
  }

  /**
   * `t'` extends `t`: the counter only grows and every row with an id below `t.nextId`
   * is still there, unchanged; rows are added only at fresh ids.
   */
  ghost predicate Grows(t: Tables, t': Tables)
  {
    && t.nextId <= t'.nextId
    && AgreeBelow(t.clinics, t'.clinics, t.nextId)
    && AgreeBelow(t.departments, t'.departments, t.nextId)
    && AgreeBelow(t.equipments, t'.equipments, t.nextId)
    && AgreeBelow(t.details, t'.details, t.nextId)
    && AgreeBelow(t.parameters, t'.parameters, t.nextId)
    && AgreeBelow(t.values, t'.values, t.nextId)
  }

  /** Every detail, parameter and value row added since `t` hangs under a row added since `t`. */
  ghost predicate FreshChildren(t: Tables, t': Tables)
  {
    && (forall k :: k in t'.details && t.nextId <= k ==> t.nextId <= t'.details[k].equipment)
    && (forall k :: k in t'.parameters && t.nextId <= k ==> t.nextId <= t'.parameters[k].equipment)
    && (forall k :: k in t'.values && t.nextId <= k ==> t.nextId <= t'.values[k].parameter)
  }

  /** Every equipment row added since `t` hangs under a department added since `t`. */
  ghost predicate FreshEquipments(t: Tables, t': Tables)
  {
    forall k :: k in t'.equipments && t.nextId <= k ==> t.nextId <= t'.equipments[k].dep
  }

  lemma GrowsTransitive(t0: Tables, t1: Tables, t2: Tables)
    requires Grows(t0, t1) && Grows(t1, t2)
    ensures Grows(t0, t2)
    ensures FreshChildren(t0, t1) && FreshChildren(t1, t2) ==> FreshChildren(t0, t2)
    ensures FreshEquipments(t0, t1) && FreshEquipments(t1, t2) ==> FreshEquipments(t0, t2)
  {
  }

  /** Every row of `m'` is the row of `m` under the same id. */
  ghost predicate SubMap<R>(m': map<nat, R>, m: map<nat, R>)
  {
    forall k :: k in m' ==> k in m && m'[k] == m[k]
  }

  /**
   * `t'` is `t` with some subtrees cut off whole: its rows below the clinics are rows of
   * `t`, and a row of `t` whose parent is still there is still there too.
   */
  ghost predicate Shrinks(t: Tables, t': Tables)
  {
    && t'.nextId == t.nextId
    && SubMap(t'.departments, t.departments) && SubMap(t'.equipments, t.equipments)
    && SubMap(t'.details, t.details) && SubMap(t'.parameters, t.parameters) && SubMap(t'.values, t.values)
    && (forall k :: k in t.equipments && t.equipments[k].dep in t'.departments ==> k in t'.equipments)
    && (forall k :: k in t.details && t.details[k].equipment in t'.equipments ==> k in t'.details)
    && (forall k :: k in t.parameters && t.parameters[k].equipment in t'.equipments ==> k in t'.parameters)
    && (forall k :: k in t.values && t.values[k].parameter in t'.parameters ==> k in t'.values)
  }

  /** The cascade cuts off whole subtrees. */
  lemma CascadeShrinks(t: Tables, cid: nat)
    ensures Shrinks(t, t.WithoutDepartmentsOf(cid))
  {
  }

  /** `ids` without `x`, order kept. */
  function Remove(ids: seq<nat>, x: nat): (r: seq<nat>)
    ensures forall y :: y in r <==> y in ids && y != x
    decreases |ids|
  {
    if ids == [] then []
    else Remove(ids[..|ids| - 1], x) + (if ids[|ids| - 1] == x then [] else [ids[|ids| - 1]])
  }

  lemma RemoveSnoc(a: seq<nat>, y: nat, x: nat)
    ensures Remove(a + [y], x) == Remove(a, x) + (if y == x then [] else [y])
  {
    assert (a + [y])[..|a + [y]| - 1] == a;
  }

  /**
   * A row that stops being owned, everything else alike: the related list loses exactly
   * that id.
   */
  lemma {:induction false} RelatedDrop<R>(m: map<nat, R>, m': map<nat, R>, owned: (R, nat) -> bool, owner: nat, hi: nat, x: nat)
    requires forall k :: k < hi && k != x ==> ((k in m' && owned(m'[k], owner)) <==> (k in m && owned(m[k], owner)))
    requires !(x in m' && owned(m'[x], owner))
    ensures Related(m', owned, owner, hi) == Remove(Related(m, owned, owner, hi), x)
    decreases hi
  {
    if hi > 0 {
      var k := hi - 1;
      RelatedDrop(m, m', owned, owner, k, x);
      var before := Related(m, owned, owner, k);
      var was := k in m && owned(m[k], owner);
      var kept := k in m' && owned(m'[k], owner);
      assert Related(m, owned, owner, hi) == before + (if was then [k] else []);
      assert Related(m', owned, owner, hi) == Remove(before, x) + (if kept then [k] else []);
      if was {
        RemoveSnoc(before, k, x);
      } else {
        assert before + [] == before;
      }
    }
  }
}
