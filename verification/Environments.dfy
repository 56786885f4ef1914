/** Dense reordering of a project's environments (gulu/internal/logic/env_logic.go). */
module Environments {
  import opened ListMove

  datatype Env = Env(projectId: int, sort: int, isDelete: bool)

  datatype Outcome = Done | DraggedMissing | TargetMissing | OtherProject | SliceBoundsPanic

  predicate Live(rows: map<int, Env>, id: int) {
    id in rows && !rows[id].isDelete
  }

  /** Sort values of the project's live environments. */
  function ProjectSorts(rows: map<int, Env>, project: int): map<int, int> {
    map id | id in rows && rows[id].projectId == project && !rows[id].isDelete :: rows[id].sort
  }

  /** `rows` with the environments of `m` numbered by their position. */
  ghost function Renumbered(rows: map<int, Env>, m: seq<int>): map<int, Env> {
    map id | id in rows :: if id in m then rows[id].(sort := IndexOf(m, id)) else rows[id]
  }

  /** The order a request asks for; a request that names one environment twice is a bare splice. */
  ghost function Reordered(l: seq<int>, id: int, target: int, before: bool): seq<int>
    requires id in l && target in l
    requires id == target && !before ==> IndexOf(l, id) + 1 < |l|
  {
    if id != target then Place(l, id, target, before)
    else Spliced(l, IndexOf(l, id), IndexOf(l, id), before)
  }

  /** What decides the outcome, in the order the checks are made. */
  ghost function Verdict(rows: map<int, Env>, id: int, target: int, before: bool): Outcome {
    if !Live(rows, id) then DraggedMissing
    else if !Live(rows, target) then TargetMissing
    else if rows[id].projectId != rows[target].projectId then OtherProject
    else if id == target && !before && IsLast(ProjectSorts(rows, rows[id].projectId), id) then SliceBoundsPanic
    else Done
  }

  ghost predicate IsLast(s: map<int, int>, id: int) {
    id in s && forall x :: x in s && x != id ==> Earlier(s, x, id)
  }

  lemma LastIndex(s: map<int, int>, l: seq<int>, id: int)
    requires Listing(s, l) && id in l
    ensures IsLast(s, id) <==> IndexOf(l, id) == |l| - 1
  {
    var i := IndexOf(l, id);
    if i < |l| - 1 {
      assert Earlier(s, l[i], l[|l| - 1]);
      assert l[|l| - 1] in s;
    } else {
      forall x | x in s && x != id ensures Earlier(s, x, id) {
        assert x in l;
        assert Earlier(s, l[IndexOf(l, x)], l[i]);
      }
    }
  }

  /** Placing an environment next to itself leaves the order alone exactly for "before". */
  lemma SelfMove(l: seq<int>, id: int, before: bool)
    requires Distinct(l) && id in l && (!before ==> IndexOf(l, id) + 1 < |l|)
    ensures Reordered(l, id, id, before) == l <==> before
  {
    SelfSplice(l, IndexOf(l, id), before);
  }

  lemma RenumberedListing(rows: map<int, Env>, project: int, l: seq<int>, m: seq<int>)
    requires Listing(ProjectSorts(rows, project), l)
    requires Distinct(m) && |m| == |l| && forall x :: x in m <==> x in l
    ensures Listing(ProjectSorts(Renumbered(rows, m), project), m)
    ensures forall i :: 0 <= i < |m| ==> m[i] in rows && Renumbered(rows, m)[m[i]].sort == i
  {
    var s := ProjectSorts(Renumbered(rows, m), project);
    forall i | 0 <= i < |m| ensures m[i] in s && s[m[i]] == i {
      var x := m[i];
      assert x in m && x in l;
      assert l[IndexOf(l, x)] in ProjectSorts(rows, project);
      IndexAt(m, i);
    }
    NumberedListing(s, m);
  }

  /** The outcome of a request, on the fields of the rows: it panics exactly for the last environment of its
      project, by sort value and id, placed after itself. */
  lemma OutcomeOnRows(rows: map<int, Env>, id: int, target: int, before: bool)
    ensures var v := Verdict(rows, id, target, before);
            && (v.DraggedMissing? <==> id !in rows || rows[id].isDelete)
            && (!v.DraggedMissing? ==> (v.TargetMissing? <==> target !in rows || rows[target].isDelete))
            && (!v.DraggedMissing? && !v.TargetMissing? ==>
                 && (v.OtherProject? <==> rows[id].projectId != rows[target].projectId)
                 && (v.SliceBoundsPanic? <==>
                       && id == target && !before
                       && forall x :: x in rows && !rows[x].isDelete && rows[x].projectId == rows[id].projectId ==>
                            rows[x].sort < rows[id].sort || (rows[x].sort == rows[id].sort && x <= id)))
  {
    if Live(rows, id) {
      var s := ProjectSorts(rows, rows[id].projectId);
      forall x ensures x in s <==> x in rows && !rows[x].isDelete && rows[x].projectId == rows[id].projectId {}
    }
  }

  /** What a renumbering writes, on the fields of the rows: the environments of the project that are not
      deleted, and they alone, are numbered 0, 1, ... in the new order; the old order was by sort value and id. */
  lemma NumberedRows(rows: map<int, Env>, project: int, m: seq<int>)
    requires Distinct(m) && forall x :: x in m <==> x in Order(ProjectSorts(rows, project))
    ensures var l := Order(ProjectSorts(rows, project));
            forall i, j :: 0 <= i < j < |l| ==>
              && l[i] in rows && l[j] in rows
              && (rows[l[i]].sort < rows[l[j]].sort || (rows[l[i]].sort == rows[l[j]].sort && l[i] < l[j]))
    ensures forall x :: x in m <==> x in rows && !rows[x].isDelete && rows[x].projectId == project
    ensures var rows' := Renumbered(rows, m);
            && rows'.Keys == rows.Keys
            && (forall x :: x in rows && (rows[x].isDelete || rows[x].projectId != project) ==> rows'[x] == rows[x])
            && (forall i :: 0 <= i < |m| ==> m[i] in rows && rows'[m[i]] == rows[m[i]].(sort := i))
  {
    var s := ProjectSorts(rows, project);
    var l := Order(s);
    forall i, j | 0 <= i < j < |l|
      ensures l[i] in rows && l[j] in rows
      ensures rows[l[i]].sort < rows[l[j]].sort || (rows[l[i]].sort == rows[l[j]].sort && l[i] < l[j])
    {
      assert Earlier(s, l[i], l[j]);
      var x, y := l[i], l[j];
      assert x in s && y in s;
    }
    forall x ensures x in m <==> x in rows && !rows[x].isDelete && rows[x].projectId == project {
      if x in l { assert l[IndexOf(l, x)] in s; }
      if x in s { assert x in l; }
    }
    forall i | 0 <= i < |m| ensures m[i] in rows && Renumbered(rows, m)[m[i]] == rows[m[i]].(sort := i) {
      var x := m[i];
      assert x in m;
      IndexAt(m, i);
    }
  }

  lemma ReorderedKeepsAll(l: seq<int>, id: int, target: int, before: bool)
    requires Distinct(l) && id in l && target in l
    requires id == target && !before ==> IndexOf(l, id) + 1 < |l|
    ensures var m := Reordered(l, id, target, before);
            && Distinct(m) && |m| == |l| && (forall x :: x in m <==> x in l)
            && InsertIndex(IndexOf(l, id), IndexOf(l, target), before) < |l|
            && m == Spliced(l, IndexOf(l, id), IndexOf(l, target), before)
  {
    if id != target { SplicedIsPlace(l, IndexOf(l, id), IndexOf(l, target), before); }
    SplicedKeepsAll(l, IndexOf(l, id), IndexOf(l, target), before);
  }

  class EnvTable {
    var rows: map<int, Env>

    method FindIndices(envs: seq<int>, id: int, targetId: int) returns (draggedIdx: nat, targetIdx: nat)
      requires id in envs && targetId in envs
      ensures draggedIdx < |envs| && envs[draggedIdx] == id
      ensures targetIdx < |envs| && envs[targetIdx] == targetId
    {
      draggedIdx, targetIdx := 0, 0;
      for i := 0 to |envs|
        invariant id in envs[..i] ==> draggedIdx < |envs| && envs[draggedIdx] == id
        invariant targetId in envs[..i] ==> targetIdx < |envs| && envs[targetIdx] == targetId
      {
        if envs[i] == id { draggedIdx := i; }
        if envs[i] == targetId { targetIdx := i; }
      }
      assert envs[..|envs|] == envs;
    }

    /** The splice on the slice of environments; `ok` is false where it panics. */
    method MoveInList(envs: seq<int>, id: int, targetId: int, before: bool) returns (ok: bool, moved: seq<int>)
      requires Distinct(envs) && id in envs && targetId in envs
      ensures ok <==> !(id == targetId && !before && IndexOf(envs, id) == |envs| - 1)
      ensures ok ==> moved == Reordered(envs, id, targetId, before)
      ensures ok ==> Distinct(moved) && |moved| == |envs| && forall x :: x in moved <==> x in envs
    {
      var draggedIdx, targetIdx := FindIndices(envs, id, targetId);
      var a := new int[|envs|](i requires 0 <= i < |envs| => envs[i]);
      assert a[..] == envs;
      IndexAt(envs, draggedIdx);
      IndexAt(envs, targetIdx);
      ok := SpliceInPlace(a, draggedIdx, targetIdx, before);
      moved := a[..];
      if ok { ReorderedKeepsAll(envs, id, targetId, before); }
    }

    method UpdateSort(id: int, targetId: int, position: string) returns (outcome: Outcome)
      modifies this
      ensures outcome == Verdict(old(rows), id, targetId, position == "before")
      ensures !outcome.Done? ==> rows == old(rows)
      ensures outcome.Done? ==>
        var project := old(rows)[id].projectId;
        var l := Order(ProjectSorts(old(rows), project));
        && id in l && targetId in l
        && (id == targetId && position != "before" ==> IndexOf(l, id) + 1 < |l|)
        && var m := Reordered(l, id, targetId, position == "before");
           && rows == Renumbered(old(rows), m) && Order(ProjectSorts(rows, project)) == m
           && (forall x :: x in m <==>
                 x in old(rows) && !old(rows)[x].isDelete && old(rows)[x].projectId == project)
           && (forall x :: x in old(rows) && x !in m ==> x in rows && rows[x] == old(rows)[x])
           && (forall i :: 0 <= i < |m| ==> m[i] in rows && rows[m[i]] == old(rows)[m[i]].(sort := i))
    {
      if !Live(rows, id) {
        return DraggedMissing;
      }
      if !Live(rows, targetId) {
        return TargetMissing;
      }
      if rows[id].projectId != rows[targetId].projectId {
        return OtherProject;
      }
      ghost var project := rows[id].projectId;
      var sorts := ProjectSorts(rows, rows[id].projectId);
      var envs := OrderBySort(sorts);
      var before := position == "before";
      ListingDistinct(sorts, envs);
      LastIndex(sorts, envs, id);

      assert id in sorts && targetId in sorts;
      assert id in envs && targetId in envs;
      var ok, moved := MoveInList(envs, id, targetId, before);
      if !ok {
        return SliceBoundsPanic;
      }
      RenumberedListing(rows, project, envs, moved);
      ListingUnique(sorts, envs, Order(sorts));
      NumberedRows(rows, project, moved);
      NumberRows(moved);
      ListingUnique(ProjectSorts(rows, project), moved, Order(ProjectSorts(rows, project)));
      outcome := Done;
    }

    /** One `UPDATE ... SET sort = i` per environment, in list order. */
    method NumberRows(envs: seq<int>)
      requires Distinct(envs) && forall i :: 0 <= i < |envs| ==> envs[i] in rows
      modifies this
      ensures rows == Renumbered(old(rows), envs)
    {
      for i := 0 to |envs|
        invariant rows.Keys == old(rows).Keys
        invariant forall x :: x in rows ==>
          rows[x] == (if x in envs[..i] then old(rows)[x].(sort := IndexOf(envs, x)) else old(rows)[x])
      {
        IndexAt(envs, i);
        assert envs[..i + 1] == envs[..i] + [envs[i]];
        rows := rows[envs[i] := rows[envs[i]].(sort := i)];
      }
      assert envs[..|envs|] == envs;
      ghost var want := Renumbered(old(rows), envs);
      assert forall x :: x in rows ==> rows[x] == want[x];
      assert rows == want;
    }
  }
}
