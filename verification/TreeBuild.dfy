/** Turning a flat list of rows with parent ids into a tree: BuildResourceTree and BuildDeptTree
    (admin/internal/types/convert.go), buildTree (gulu/internal/logic/category_workflow_logic.go).
    Only ids and parent ids matter here; a missing parent id is read as 0 by all three. */
module TreeBuild {

  datatype Row = Row(id: int, parentId: int)
  datatype Node = Node(id: int, children: seq<Node>)

  /** The rows with these ids, in this order. */
  function RowsOf(ids: seq<int>, parents: map<int, int>): (list: seq<Row>)
    requires forall i :: 0 <= i < |ids| ==> ids[i] in parents
    ensures |list| == |ids| && forall i :: 0 <= i < |ids| ==> list[i] == Row(ids[i], parents[ids[i]])
  {
    seq(|ids|, i requires 0 <= i < |ids| => Row(ids[i], parents[ids[i]]))
  }

  /** Primary keys: distinct and never 0. Nothing is said about parent ids. */
  ghost predicate Keyed(list: seq<Row>) {
    && (forall i :: 0 <= i < |list| ==> list[i].id != 0)
    && (forall i, j :: 0 <= i < j < |list| ==> list[i].id != list[j].id)
  }

  ghost predicate HasId(list: seq<Row>, x: int) {
    exists i :: 0 <= i < |list| && list[i].id == x
  }

  ghost function IndexOfId(list: seq<Row>, x: int): (i: nat)
    requires HasId(list, x)
    ensures i < |list| && list[i].id == x
  {
    var i :| 0 <= i < |list| && list[i].id == x;
    i
  }

  ghost function ParentOf(list: seq<Row>, x: int): int
    requires HasId(list, x)
  {
    list[IndexOfId(list, x)].parentId
  }

  /** Following parent ids inside the list, `x` reaches 0 after exactly `n` rows. */
  ghost predicate Chain(list: seq<Row>, x: int, n: nat)
    decreases n
  {
    if n == 0 then x == 0 else x != 0 && HasId(list, x) && Chain(list, ParentOf(list, x), n - 1)
  }

  ghost predicate Rooted(list: seq<Row>, x: int) {
    exists n: nat :: n > 0 && Chain(list, x, n)
  }

  /** The `k`-th row above `x`. */
  ghost function Up(list: seq<Row>, x: int, k: nat): int
    decreases k
  {
    if k == 0 || !HasId(list, x) then x else Up(list, ParentOf(list, x), k - 1)
  }

  lemma {:induction false} ChainUnique(list: seq<Row>, x: int, m: nat, n: nat)
    requires Chain(list, x, m) && Chain(list, x, n)
    ensures m == n
    decreases m
  {
    if m > 0 && n > 0 { ChainUnique(list, ParentOf(list, x), m - 1, n - 1); }
  }

  lemma IndexOfIdIs(list: seq<Row>, i: nat)
    requires Keyed(list) && i < |list|
    ensures HasId(list, list[i].id) && IndexOfId(list, list[i].id) == i
  {
  }

  /** Rows whose chain is longer than `n`: what is left to visit below depth `n`. */
  ghost function Deeper(list: seq<Row>, n: nat): set<int> {
    set i | 0 <= i < |list| && IsDeeper(list, list[i].id, n) :: i
  }

  ghost predicate IsDeeper(list: seq<Row>, x: int, n: nat) {
    exists k: nat :: k > n && Chain(list, x, k)
  }

  lemma DeeperShrinks(list: seq<Row>, i: nat, n: nat)
    requires Keyed(list) && i < |list| && Chain(list, list[i].parentId, n)
    ensures Chain(list, list[i].id, n + 1)
    ensures Deeper(list, n + 1) < Deeper(list, n)
  {
    IndexOfIdIs(list, i);
    var x := list[i].id;
    assert Chain(list, x, n + 1);
    assert i in Deeper(list, n);
    forall k: nat | Chain(list, x, k) ensures k == n + 1 { ChainUnique(list, x, k, n + 1); }
    assert i !in Deeper(list, n + 1);
    forall j | j in Deeper(list, n + 1) ensures j in Deeper(list, n) {
      var k: nat :| k > n + 1 && Chain(list, list[j].id, k);
      assert k > n;
    }
  }

  /** The nodes built for `parent` from index `i` of the list on; `n` is the depth of `parent`.
      No condition is put on the parent ids: rows on a cycle are simply never reached. */
  function Build(list: seq<Row>, parent: int, i: nat, ghost n: nat): seq<Node>
    requires Keyed(list) && Chain(list, parent, n) && i <= |list|
    decreases Deeper(list, n), |list| - i
  {
    if i == |list| then []
    else if list[i].parentId == parent then
      DeeperShrinks(list, i, n);
      [Node(list[i].id, Build(list, list[i].id, 0, n + 1))] + Build(list, parent, i + 1, n)
    else
      Build(list, parent, i + 1, n)
  }

  /** The loop of the source; `n` is only there for the termination argument. */
  method BuildTree(list: seq<Row>, parent: int, ghost n: nat) returns (tree: seq<Node>)
    requires Keyed(list) && Chain(list, parent, n)
    ensures tree == Build(list, parent, 0, n)
    decreases Deeper(list, n)
  {
    tree := [];
    for i := 0 to |list|
      invariant tree + Build(list, parent, i, n) == Build(list, parent, 0, n)
    {
      if list[i].parentId == parent {
        DeeperShrinks(list, i, n);
        var children := BuildTree(list, list[i].id, n + 1);
        var node := Node(list[i].id, children);
        assert tree + Build(list, parent, i, n) == (tree + [node]) + Build(list, parent, i + 1, n);
        tree := tree + [node];
      }
    }
  }

  ghost function Tree(list: seq<Row>): seq<Node>
    requires Keyed(list)
  {
    Build(list, 0, 0, 0)
  }

  // ---------------------------------------------------------------- every rooted row exactly once

  /** How often `x` occurs in the forest. */
  ghost function Count(nodes: seq<Node>, x: int): nat {
    if nodes == [] then 0
    else (if nodes[0].id == x then 1 else 0) + Count(nodes[0].children, x) + Count(nodes[1..], x)
  }

  lemma {:induction false} UpChain(list: seq<Row>, x: int, d: nat, k: nat)
    requires Chain(list, x, d) && k <= d
    ensures Chain(list, Up(list, x, k), d - k)
    ensures k < d ==> HasId(list, Up(list, x, k)) && Up(list, x, k + 1) == ParentOf(list, Up(list, x, k))
    decreases k
  {
    if k > 0 { UpChain(list, ParentOf(list, x), d - 1, k - 1); }
  }

  /** `x` lies below `parent`, which has depth `n`, through a child at index `i` or later. */
  ghost predicate Below(list: seq<Row>, parent: int, i: nat, n: nat, x: int, d: nat) {
    && n < d && Chain(list, x, d) && Up(list, x, d - n) == parent
    && var b := Up(list, x, d - n - 1);
       HasId(list, b) && i <= IndexOfId(list, b)
  }

  lemma BuildStep(list: seq<Row>, parent: int, i: nat, n: nat, x: int)
    requires Keyed(list) && Chain(list, parent, n) && i < |list|
    ensures Count(Build(list, parent, i, n), x) == Count(Build(list, parent, i + 1, n), x) +
              if list[i].parentId != parent then 0
              else (if list[i].id == x then 1 else 0) +
                   (DeeperShrinks(list, i, n); Count(Build(list, list[i].id, 0, n + 1), x))
  {
    if list[i].parentId == parent {
      DeeperShrinks(list, i, n);
      var node := Node(list[i].id, Build(list, list[i].id, 0, n + 1));
      var rest := Build(list, parent, i + 1, n);
      assert ([node] + rest)[0] == node && ([node] + rest)[1..] == rest;
    }
  }

  lemma {:induction false} CountRooted(list: seq<Row>, parent: int, i: nat, n: nat, x: int, d: nat)
    requires Keyed(list) && Chain(list, parent, n) && i <= |list| && d > 0 && Chain(list, x, d)
    ensures Count(Build(list, parent, i, n), x) == if Below(list, parent, i, n, x, d) then 1 else 0
    decreases Deeper(list, n), |list| - i
  {
    if i < |list| {
      BuildStep(list, parent, i, n, x);
      CountRooted(list, parent, i + 1, n, x, d);
      IndexOfIdIs(list, i);
      if n < d { UpChain(list, x, d, d - n - 1); }
      if list[i].parentId == parent {
        DeeperShrinks(list, i, n);
        CountRooted(list, list[i].id, 0, n + 1, x, d);
        ChildOnPath(list, i, n, x, d);
      }
    }
  }

  /** The child at index `i` is `x` or above `x` exactly when it is the row at its depth on `x`'s chain. */
  lemma ChildOnPath(list: seq<Row>, i: nat, n: nat, x: int, d: nat)
    requires Keyed(list) && i < |list| && Chain(list, list[i].id, n + 1) && d > 0 && Chain(list, x, d)
    ensures (if list[i].id == x then 1 else 0) + (if Below(list, list[i].id, 0, n + 1, x, d) then 1 else 0)
            == if n < d && Up(list, x, d - n - 1) == list[i].id then 1 else 0
  {
    if list[i].id == x { ChainUnique(list, x, n + 1, d); }
    if n + 1 < d { UpChain(list, x, d, d - n - 2); }
  }

  lemma {:induction false} CountUnrooted(list: seq<Row>, parent: int, i: nat, n: nat, x: int)
    requires Keyed(list) && Chain(list, parent, n) && i <= |list| && !Rooted(list, x)
    ensures Count(Build(list, parent, i, n), x) == 0
    decreases Deeper(list, n), |list| - i
  {
    if i < |list| {
      BuildStep(list, parent, i, n, x);
      CountUnrooted(list, parent, i + 1, n, x);
      if list[i].parentId == parent {
        DeeperShrinks(list, i, n);
        CountUnrooted(list, list[i].id, 0, n + 1, x);
      }
    }
  }

  /** The tree holds exactly the rows whose chain inside the list reaches 0, each of them once. */
  lemma TreeHoldsRooted(list: seq<Row>, x: int)
    requires Keyed(list)
    ensures Count(Tree(list), x) == if Rooted(list, x) then 1 else 0
  {
    if Rooted(list, x) {
      var d: nat :| d > 0 && Chain(list, x, d);
      CountRooted(list, 0, 0, 0, x, d);
      UpChain(list, x, d, d);
      UpChain(list, x, d, d - 1);
      assert Below(list, 0, 0, 0, x, d);
    } else {
      CountUnrooted(list, 0, 0, 0, x);
    }
  }

  // ---------------------------------------------------------------- siblings in list order

  function Ids(nodes: seq<Node>): seq<int> {
    if nodes == [] then [] else [nodes[0].id] + Ids(nodes[1..])
  }

  /** Ids of the rows of `parent`, in list order. */
  function ChildIds(list: seq<Row>, parent: int): seq<int> {
    if list == [] then []
    else (if list[0].parentId == parent then [list[0].id] else []) + ChildIds(list[1..], parent)
  }

  ghost predicate InListOrder(list: seq<Row>, parent: int, nodes: seq<Node>)
    decreases nodes
  {
    && Ids(nodes) == ChildIds(list, parent)
    && forall k :: 0 <= k < |nodes| ==> InListOrder(list, nodes[k].id, nodes[k].children)
  }

  lemma {:induction false} BuildIds(list: seq<Row>, parent: int, i: nat, n: nat)
    requires Keyed(list) && Chain(list, parent, n) && i <= |list|
    ensures Ids(Build(list, parent, i, n)) == ChildIds(list[i..], parent)
    ensures forall k :: 0 <= k < |Build(list, parent, i, n)| ==>
              var node := Build(list, parent, i, n)[k]; InListOrder(list, node.id, node.children)
    decreases Deeper(list, n), |list| - i
  {
    if i < |list| {
      BuildIds(list, parent, i + 1, n);
      assert list[i..][1..] == list[i + 1..];
      if list[i].parentId == parent {
        DeeperShrinks(list, i, n);
        BuildIds(list, list[i].id, 0, n + 1);
        assert list[0..] == list;
        var node := Node(list[i].id, Build(list, list[i].id, 0, n + 1));
        var rest := Build(list, parent, i + 1, n);
        assert ([node] + rest)[1..] == rest;
      }
    }
  }

  lemma TreeInListOrder(list: seq<Row>)
    requires Keyed(list)
    ensures InListOrder(list, 0, Tree(list))
  {
    BuildIds(list, 0, 0, 0);
    assert list[0..] == list;
  }
}
