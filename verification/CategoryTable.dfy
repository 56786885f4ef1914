/** The category table object (gulu/internal/logic/category_workflow_logic.go). */
module CategoryTable {
  import opened ListMove
  import opened CategoryForest
  import opened CategoryOrder
  import TreeBuild

  /** `ORDER BY sort DESC LIMIT 1`, plus one. */
  method MaxSortPlusOne(s: map<int, int>) returns (v: int)
    ensures v == NextSort(s)
  {
    var l := OrderBySort(s);
    ListingUnique(s, l, Order(s));
    v := if |l| == 0 then 0 else s[l[|l| - 1]] + 1;
  }

  // ---------------------------------------------------------------- the project's tree

  /** Sort values of all live rows of a project. */
  function ProjectSorts(rows: map<int, Category>, project: int): map<int, int> {
    map x | x in rows && !rows[x].isDelete && rows[x].projectId == project :: rows[x].sort
  }

  function RowsOf(rows: map<int, Category>, l: seq<int>): (list: seq<TreeBuild.Row>)
    requires forall i :: 0 <= i < |l| ==> l[i] in rows
    ensures |list| == |l|
    ensures forall i :: 0 <= i < |l| ==> list[i] == TreeBuild.Row(l[i], rows[l[i]].parentId)
  {
    TreeBuild.RowsOf(l, map x | x in rows :: rows[x].parentId)
  }

  ghost predicate Listed(rows: map<int, Category>, project: int, l: seq<int>) {
    && Listing(ProjectSorts(rows, project), l) && 0 !in rows
    && forall i :: 0 <= i < |l| ==> l[i] in rows
  }

  lemma ListedRow(rows: map<int, Category>, project: int, l: seq<int>, x: int)
    requires Listed(rows, project, l)
    ensures TreeBuild.Keyed(RowsOf(rows, l))
    ensures TreeBuild.HasId(RowsOf(rows, l), x) <==> Live(rows, x) && rows[x].projectId == project
    ensures TreeBuild.HasId(RowsOf(rows, l), x) ==> TreeBuild.ParentOf(RowsOf(rows, l), x) == rows[x].parentId
  {
    var list := RowsOf(rows, l);
    ListingDistinct(ProjectSorts(rows, project), l);
    if x in ProjectSorts(rows, project) {
      assert x in l;
      assert list[IndexOf(l, x)].id == x;
    }
    if TreeBuild.HasId(list, x) {
      assert l[TreeBuild.IndexOfId(list, x)] in ProjectSorts(rows, project);
    }
  }

  /** Parent ids lead from `x` to 0 through `n` live rows of the project. */
  ghost predicate ProjectChain(rows: map<int, Category>, project: int, x: int, n: nat)
    decreases n
  {
    if n == 0 then x == 0
    else x != 0 && Live(rows, x) && rows[x].projectId == project && ProjectChain(rows, project, rows[x].parentId, n - 1)
  }

  ghost predicate InTree(rows: map<int, Category>, project: int, x: int) {
    exists n: nat :: n > 0 && ProjectChain(rows, project, x, n)
  }

  lemma {:induction false} ListedChain(rows: map<int, Category>, project: int, l: seq<int>, x: int, n: nat)
    requires Listed(rows, project, l)
    ensures TreeBuild.Chain(RowsOf(rows, l), x, n) <==> ProjectChain(rows, project, x, n)
    decreases n
  {
    if n > 0 {
      ListedRow(rows, project, l, x);
      if Live(rows, x) && rows[x].projectId == project { ListedChain(rows, project, l, rows[x].parentId, n - 1); }
    }
  }

  lemma ListedRooted(rows: map<int, Category>, project: int, l: seq<int>, x: int)
    requires Listed(rows, project, l)
    ensures TreeBuild.Rooted(RowsOf(rows, l), x) <==> InTree(rows, project, x)
  {
    forall n: nat ensures TreeBuild.Chain(RowsOf(rows, l), x, n) <==> ProjectChain(rows, project, x, n) {
      ListedChain(rows, project, l, x, n);
    }
  }

  lemma {:induction false} ForestChain(rows: map<int, Category>, project: int, x: int, n: nat)
    requires Chain(rows, x, n) && (n > 0 ==> rows[x].projectId == project)
    ensures ProjectChain(rows, project, x, n)
    decreases n
  {
    if n > 0 { ForestChain(rows, project, rows[x].parentId, n - 1); }
  }

  /** On a forest nothing of the project is missing from its tree. */
  lemma ForestInTree(rows: map<int, Category>, project: int, x: int)
    requires Forest(rows)
    ensures InTree(rows, project, x) <==> Live(rows, x) && rows[x].projectId == project
  {
    if Live(rows, x) && rows[x].projectId == project {
      ForestChain(rows, project, x, Depth(rows, x));
    }
  }

  lemma {:induction false} ChildIdsMembers(rows: map<int, Category>, l: seq<int>, parent: int)
    requires forall i :: 0 <= i < |l| ==> l[i] in rows
    ensures forall x ::
              x in TreeBuild.ChildIds(RowsOf(rows, l), parent) <==> x in l && x in rows && rows[x].parentId == parent
    decreases |l|
  {
    if l != [] {
      var a, t := l[0], l[1..];
      ChildIdsMembers(rows, t, parent);
      assert RowsOf(rows, l)[1..] == RowsOf(rows, t);
      assert l == [a] + t;
    }
  }

  lemma OrderedTail(s: map<int, int>, l: seq<int>)
    requires Ordered(s, l) && l != []
    ensures Ordered(s, l[1..])
  {
    var t := l[1..];
    forall i, j | 0 <= i < j < |t| ensures Earlier(s, t[i], t[j]) { assert Earlier(s, l[i + 1], l[j + 1]); }
  }

  lemma OrderedPush(sib: map<int, int>, a: int, rest: seq<int>)
    requires a in sib && Ordered(sib, rest) && forall j :: 0 <= j < |rest| ==> Earlier(sib, a, rest[j])
    ensures Ordered(sib, [a] + rest)
  {
    var m := [a] + rest;
    forall i, j | 0 <= i < j < |m| ensures Earlier(sib, m[i], m[j]) {
      if i > 0 { assert Earlier(sib, rest[i - 1], rest[j - 1]); }
    }
  }

  lemma {:induction false} ChildIdsOrdered(rows: map<int, Category>, s: map<int, int>, sib: map<int, int>,
                                           l: seq<int>, parent: int)
    requires Ordered(s, l) && forall i :: 0 <= i < |l| ==> l[i] in rows
    requires forall x :: x in sib <==> x in s && x in rows && rows[x].parentId == parent
    requires forall x :: x in sib ==> sib[x] == s[x]
    ensures Ordered(sib, TreeBuild.ChildIds(RowsOf(rows, l), parent))
    decreases |l|
  {
    if l != [] {
      var a, t := l[0], l[1..];
      OrderedTail(s, l);
      ChildIdsOrdered(rows, s, sib, t, parent);
      ChildIdsMembers(rows, t, parent);
      assert RowsOf(rows, l)[1..] == RowsOf(rows, t);
      var rest := TreeBuild.ChildIds(RowsOf(rows, t), parent);
      if rows[a].parentId == parent {
        forall j | 0 <= j < |rest| ensures Earlier(sib, a, rest[j]) {
          var x := rest[j];
          assert x in rest;
          FollowsHead(s, l, x);
        }
        OrderedPush(sib, a, rest);
      }
    }
  }

  lemma FollowsHead(s: map<int, int>, l: seq<int>, x: int)
    requires Ordered(s, l) && l != [] && x in l[1..]
    ensures x in s && Earlier(s, l[0], x)
  {
    var i :| 0 <= i < |l| - 1 && l[1..][i] == x;
    assert Earlier(s, l[0], l[i + 1]);
  }

  /** Under every parent, the tree's children come in sibling order. */
  lemma ChildrenInOrder(rows: map<int, Category>, project: int, l: seq<int>, parent: int)
    requires Listed(rows, project, l)
    ensures TreeBuild.ChildIds(RowsOf(rows, l), parent) == Order(Siblings(rows, project, parent))
  {
    var s, sib := ProjectSorts(rows, project), Siblings(rows, project, parent);
    var c := TreeBuild.ChildIds(RowsOf(rows, l), parent);
    ChildIdsOrdered(rows, s, sib, l, parent);
    ChildIdsMembers(rows, l, parent);
    forall x | x in sib ensures x in c { assert x in l; }
    ListingUnique(sib, c, Order(sib));
  }

  /** At every level the nodes are the siblings' listing. */
  ghost predicate InSiblingOrder(rows: map<int, Category>, project: int, parent: int, nodes: seq<TreeBuild.Node>)
    decreases nodes
  {
    && TreeBuild.Ids(nodes) == Order(Siblings(rows, project, parent))
    && forall k :: 0 <= k < |nodes| ==> InSiblingOrder(rows, project, nodes[k].id, nodes[k].children)
  }

  lemma {:induction false} ListOrderIsSiblingOrder(rows: map<int, Category>, project: int, l: seq<int>, parent: int,
                                                   nodes: seq<TreeBuild.Node>)
    requires Listed(rows, project, l) && TreeBuild.InListOrder(RowsOf(rows, l), parent, nodes)
    ensures InSiblingOrder(rows, project, parent, nodes)
    decreases nodes
  {
    ChildrenInOrder(rows, project, l, parent);
    forall k | 0 <= k < |nodes| ensures InSiblingOrder(rows, project, nodes[k].id, nodes[k].children) {
      ListOrderIsSiblingOrder(rows, project, l, nodes[k].id, nodes[k].children);
    }
  }

  /** The first `n` of the siblings have been moved up where they had to. */
  ghost function ShiftedFirst(rows: map<int, Category>, siblings: seq<int>, n: nat, v: int): map<int, Category>
    requires n <= |siblings|
  {
    map x | x in rows :: if x in siblings[..n] && rows[x].sort >= v then rows[x].(sort := rows[x].sort + 1) else rows[x]
  }

  lemma ShiftStep(rows: map<int, Category>, siblings: seq<int>, i: nat, v: int)
    requires Distinct(siblings) && i < |siblings| && siblings[i] in rows
    ensures var x, now := siblings[i], ShiftedFirst(rows, siblings, i, v);
            && x in now
            && ShiftedFirst(rows, siblings, i + 1, v)
               == if now[x].sort >= v then now[x := now[x].(sort := now[x].sort + 1)] else now
  {
    var x := siblings[i];
    assert siblings[..i + 1] == siblings[..i] + [x];
    assert x !in siblings[..i];
  }

  lemma AllShifted(rows': map<int, Category>, rows: map<int, Category>, id: int, parent: int, v: int,
                   s: map<int, int>, siblings: seq<int>)
    requires id in rows && s == Siblings(rows, rows[id].projectId, parent) - {id} && Listing(s, siblings)
    requires rows' == ShiftedFirst(rows, siblings, |siblings|, v)
    ensures rows' == Shifted(rows, id, parent, v)
  {
    assert siblings[..|siblings|] == siblings;
    forall x | x in rows ensures x in siblings <==> x in s {
      if x in siblings { assert siblings[IndexOf(siblings, x)] in s; }
      if x in s { assert x in siblings; }
    }
  }

  lemma NoChildren(rows: map<int, Category>, id: int)
    ensures |Children(rows, id)| == 0 <==> forall x :: x in rows && !rows[x].isDelete ==> rows[x].parentId != id
  {
    var s := Children(rows, id);
    if s != map[] { NonEmpty(s.Keys); assert s.Keys != {}; }
    assert forall x :: x in s <==> x in rows && !rows[x].isDelete && rows[x].parentId == id;
  }

  class CategoryRows {
    var rows: map<int, Category>

    method Create(id: int, project: int, parent: int, kind: string, sourceId: int) returns (ok: bool)
      requires id != 0 && id !in rows
      modifies this
      ensures ok <==> !(kind == "workflow" && sourceId == 0)
      ensures forall x :: x in old(rows) ==> x in rows && rows[x] == old(rows)[x]
      ensures ok ==> rows.Keys == old(rows).Keys + {id} && !rows[id].isDelete && rows[id].kind == kind
      ensures ok ==> rows[id].projectId == project && rows[id].parentId == parent
      ensures ok ==> forall x ::
                (x in old(rows) && !rows[x].isDelete && rows[x].projectId == project && rows[x].parentId == parent) ==>
                rows[x].sort < rows[id].sort
      ensures rows == Apply(old(rows), CreateStep(id, project, parent, kind, sourceId != 0))
    {
      if kind == WORKFLOW && sourceId == 0 {
        return false;
      }
      var sort := MaxSortPlusOne(Siblings(rows, project, parent));
      NextSortAbove(Siblings(rows, project, parent));
      assert forall x :: x in rows && !rows[x].isDelete && rows[x].projectId == project && rows[x].parentId == parent
               ==> x in Siblings(rows, project, parent);
      rows := rows[id := Category(project, parent, kind, sort, false)];
      ok := true;
    }

    method Delete(id: int) returns (ok: bool)
      modifies this
      ensures ok <==>
        && id in old(rows) && !old(rows)[id].isDelete
        && (old(rows)[id].kind == "folder" ==>
              forall x :: x in old(rows) && !old(rows)[x].isDelete ==> old(rows)[x].parentId != id)
      ensures rows.Keys == old(rows).Keys && forall x :: x in rows && !(ok && x == id) ==> rows[x] == old(rows)[x]
      ensures ok ==> rows[id] == old(rows)[id].(isDelete := true)
      ensures rows == Apply(old(rows), DeleteStep(id))
      ensures Forest(old(rows)) ==> Forest(rows)
    {
      if !Live(rows, id) {
        return false;
      }
      NoChildren(rows, id);
      if rows[id].kind == FOLDER {
        var childCount := |Children(rows, id)|;
        if childCount > 0 {
          return false;
        }
      }
      if Forest(rows) { DeleteForest(rows, id); }
      rows := rows[id := rows[id].(isDelete := true)];
      ok := true;
    }

    /** The loop that moves the later siblings up by one. */
    method ShiftSiblings(id: int, parent: int, newSort: int)
      requires id in rows
      modifies this
      ensures rows == Shifted(old(rows), id, parent, newSort)
    {
      var s := Siblings(rows, rows[id].projectId, parent) - {id};
      var siblings := OrderBySort(s);
      ListingDistinct(s, siblings);
      for i := 0 to |siblings|
        invariant rows == ShiftedFirst(old(rows), siblings, i, newSort)
      {
        var x := siblings[i];
        assert x in s;
        ShiftStep(old(rows), siblings, i, newSort);
        if rows[x].sort >= newSort {
          rows := rows[x := rows[x].(sort := rows[x].sort + 1)];
        }
      }
      AllShifted(rows, old(rows), id, parent, newSort, s, siblings);
    }

    method Move(id: int, targetId: int, position: Position) returns (verdict: Verdict)
      requires !MoveVerdict(rows, id, targetId, position).Diverges?
      modifies this
      ensures verdict == MoveVerdict(old(rows), id, targetId, position)
      ensures rows == Apply(old(rows), MoveStep(id, targetId, position))
      ensures Forest(old(rows)) ==> (Forest(rows) <==> SoundStep(old(rows), MoveStep(id, targetId, position)))
    {
      if Forest(rows) { StepForest(rows, MoveStep(id, targetId, position)); }
      if !Live(rows, id) {
        return NodeMissing;
      }
      if !Live(rows, targetId) {
        return TargetMissing;
      }
      var newParentId, newSort;
      var drag := rows[id];
      if position.Inside? {
        if rows[targetId].kind != FOLDER {
          return NotAFolder;
        }
        if IsDescendant(rows, id, targetId) {
          return IntoDescendant;
        }
        newParentId := targetId;
        newSort := MaxSortPlusOne(Children(rows, newParentId));
      } else {
        newParentId := rows[targetId].parentId;
        if newParentId != 0 && IsDescendant(rows, id, newParentId) {
          return IntoDescendant;
        }
        newSort := if position.Before? then rows[targetId].sort else rows[targetId].sort + 1;
        ShiftSiblings(id, newParentId, newSort);
      }
      rows := rows[id := drag.(parentId := newParentId, sort := newSort)];
      verdict := Accepted;
    }

    /** GetTree: every live category of the project that leads to the root once, children in sibling order;
        on a forest that is every live category of the project. */
    method GetTree(project: int) returns (tree: seq<TreeBuild.Node>)
      requires 0 !in rows
      ensures forall x :: TreeBuild.Count(tree, x) == if InTree(rows, project, x) then 1 else 0
      ensures Forest(rows) ==>
        forall x :: TreeBuild.Count(tree, x)
                    == if x in rows && !rows[x].isDelete && rows[x].projectId == project then 1 else 0
      ensures InSiblingOrder(rows, project, 0, tree)
    {
      var categories := OrderBySort(ProjectSorts(rows, project));
      forall i | 0 <= i < |categories| ensures categories[i] in rows {
        assert categories[i] in ProjectSorts(rows, project);
      }
      ListedRow(rows, project, categories, 0);
      tree := TreeBuild.BuildTree(RowsOf(rows, categories), 0, 0);
      TreeBuild.TreeInListOrder(RowsOf(rows, categories));
      forall x ensures TreeBuild.Count(tree, x) == if InTree(rows, project, x) then 1 else 0 {
        TreeBuild.TreeHoldsRooted(RowsOf(rows, categories), x);
        ListedRooted(rows, project, categories, x);
      }
      forall x | Forest(rows) ensures InTree(rows, project, x) <==> Live(rows, x) && rows[x].projectId == project {
        ForestInTree(rows, project, x);
      }
      ListOrderIsSiblingOrder(rows, project, categories, 0, tree);
    }
  }
}
