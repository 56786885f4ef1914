/** Sibling order and whole runs of the category operations
    (gulu/internal/logic/category_workflow_logic.go). */
module CategoryOrder {
  import opened ListMove
  import opened CategoryForest

  // ---------------------------------------------------------------- making room

  /** Values at or above `v` move up by one. */
  function Room(s: map<int, int>, v: int): map<int, int> {
    map x | x in s :: if s[x] >= v then s[x] + 1 else s[x]
  }

  lemma RoomListing(s: map<int, int>, l: seq<int>, v: int)
    requires Listing(s, l)
    ensures Listing(Room(s, v), l)
  {
    forall i, j | 0 <= i < j < |l| ensures Earlier(Room(s, v), l[i], l[j]) {
      assert Earlier(s, l[i], l[j]);
    }
  }

  predicate SameFolder(rows: map<int, Category>, x: int, y: int)
    requires x in rows && y in rows
  {
    rows[x].projectId == rows[y].projectId && rows[x].parentId == rows[y].parentId
  }

  /** Live siblings have pairwise different sort values. */
  ghost predicate DistinctSorts(rows: map<int, Category>) {
    forall x, y :: Live(rows, x) && Live(rows, y) && x != y && SameFolder(rows, x, y) ==> rows[x].sort != rows[y].sort
  }

  lemma DistinctInGroup(rows: map<int, Category>, project: int, parent: int, x: int, y: int)
    requires DistinctSorts(rows) && x != y
    requires x in Siblings(rows, project, parent) && y in Siblings(rows, project, parent)
    ensures Siblings(rows, project, parent)[x] != Siblings(rows, project, parent)[y]
  {
    assert Live(rows, x) && Live(rows, y);
  }

  lemma NextSortAbove(s: map<int, int>)
    ensures forall x :: x in s ==> s[x] < NextSort(s)
  {
    var l := Order(s);
    forall x | x in s ensures s[x] < NextSort(s) {
      assert x in l;
      var i := IndexOf(l, x);
      if i < |l| - 1 { assert Earlier(s, l[i], l[|l| - 1]); }
    }
  }

  lemma NextSortBelow(s: map<int, int>, b: nat)
    requires forall x :: x in s ==> 0 <= s[x] < b
    ensures 0 <= NextSort(s) <= b
  {
    var l := Order(s);
    if l != [] {
      var last := l[|l| - 1];
      assert last in s;
    }
  }

  // ---------------------------------------------------------------- where a moved node ends up

  /** Before and after: the destination group makes room and takes the node in. */
  lemma DestinationSorts(rows: map<int, Category>, id: int, target: int, pos: Position)
    requires Live(rows, id) && Live(rows, target) && !pos.Inside?
    ensures var p, v := NewParent(rows, target, pos), NewSort(rows, target, pos);
            var s := Siblings(rows, rows[id].projectId, p);
            Siblings(Moved(rows, id, target, pos), rows[id].projectId, p) == Room(s - {id}, v)[id := v]
  {
  }

  lemma OtherSorts(rows: map<int, Category>, id: int, target: int, pos: Position, project: int, parent: int)
    requires Live(rows, id) && Live(rows, target)
    requires (project, parent) != (rows[id].projectId, NewParent(rows, target, pos))
    ensures Siblings(Moved(rows, id, target, pos), project, parent) == Siblings(rows, project, parent) - {id}
  {
  }

  lemma InsideSorts(rows: map<int, Category>, id: int, target: int)
    requires Live(rows, id) && Live(rows, target)
    ensures var v := NextSort(Children(rows, target));
            Siblings(Moved(rows, id, target, Inside), rows[id].projectId, target)
            == Siblings(rows, rows[id].projectId, target)[id := v]
  {
  }

  /** Other folders only lose the node; the relative order of everyone else stays. */
  lemma MoveOtherOrder(rows: map<int, Category>, id: int, target: int, pos: Position, project: int, parent: int)
    requires Live(rows, id) && Live(rows, target)
    requires (project, parent) != (rows[id].projectId, NewParent(rows, target, pos))
    ensures Order(Siblings(Moved(rows, id, target, pos), project, parent))
            == Without(Order(Siblings(rows, project, parent)), id)
  {
    var s := Siblings(rows, project, parent);
    OtherSorts(rows, id, target, pos, project, parent);
    WithoutListing(s, Order(s), id);
    ListingUnique(s - {id}, Without(Order(s), id), Order(s - {id}));
  }

  /** Inside: the node becomes the last child. */
  lemma MoveInsideOrder(rows: map<int, Category>, id: int, target: int)
    requires Live(rows, id) && Live(rows, target)
    ensures var l := Order(Siblings(rows, rows[id].projectId, target));
            Order(Siblings(Moved(rows, id, target, Inside), rows[id].projectId, target)) == Without(l, id) + [id]
  {
    var s, v := Siblings(rows, rows[id].projectId, target), NextSort(Children(rows, target));
    var l := Order(s);
    var r := Without(l, id);
    InsideSorts(rows, id, target);
    WithoutListing(s, l, id);
    NextSortAbove(Children(rows, target));
    if r != [] {
      var last := r[|r| - 1];
      assert last in s - {id};
      assert last in Children(rows, target);
    }
    UpdateListing(s, r, |r|, id, v);
    assert InsertAt(r, |r|, id) == r + [id];
    ListingUnique(s[id := v], r + [id], Order(s[id := v]));
  }

  /** Room at `v` admits `d` between the values below and the values from `v` on. */
  lemma RoomInsert(s: map<int, int>, r: seq<int>, k: nat, d: int, v: int)
    requires d !in s && Listing(s, r) && k <= |r|
    requires k > 0 ==> s[r[k - 1]] < v
    requires k < |r| ==> v <= s[r[k]]
    ensures Listing(Room(s, v)[d := v], InsertAt(r, k, d))
  {
    RoomListing(s, r, v);
    InsertListing(Room(s, v), r, k, d, v);
  }

  /** Neighbours in the listing of a group with distinct sort values. */
  lemma NextIsGreater(rows: map<int, Category>, project: int, parent: int, r: seq<int>, id: int, i: nat)
    requires DistinctSorts(rows) && i + 1 < |r|
    requires Listing(Siblings(rows, project, parent) - {id}, r)
    ensures var s := Siblings(rows, project, parent);
            r[i] in s && r[i + 1] in s && s[r[i]] < s[r[i + 1]]
  {
    var s := Siblings(rows, project, parent);
    assert Earlier(s - {id}, r[i], r[i + 1]);
    var x, y := r[i], r[i + 1];
    assert x in s && y in s;
    if x != y { DistinctInGroup(rows, project, parent, x, y); }
  }

  /** Before and after: the node lands immediately next to its target, everyone else keeps the order. */
  lemma MoveNextToOrder(rows: map<int, Category>, id: int, target: int, pos: Position)
    requires DistinctSorts(rows) && Live(rows, id) && Live(rows, target) && !pos.Inside?
    requires rows[target].projectId == rows[id].projectId && id != target
    ensures var p := NewParent(rows, target, pos);
            var l := Order(Siblings(rows, rows[id].projectId, p));
            && target in l
            && Order(Siblings(Moved(rows, id, target, pos), rows[id].projectId, p)) == Place(l, id, target, pos.Before?)
  {
    var p, v, project := NewParent(rows, target, pos), NewSort(rows, target, pos), rows[id].projectId;
    var s := Siblings(rows, project, p);
    var l, s' := Order(s), Room(s - {id}, v)[id := v];
    var r := Without(l, id);
    DestinationSorts(rows, id, target, pos);
    assert target in s;
    assert target in l;
    WithoutListing(s, l, id);
    assert target in s - {id};
    assert target in r;
    var i := IndexOf(r, target);
    var k := if pos.Before? then i else i + 1;
    if pos.Before? && i > 0 { NextIsGreater(rows, project, p, r, id, i - 1); }
    if pos.After? && k < |r| { NextIsGreater(rows, project, p, r, id, i); }
    RoomInsert(s - {id}, r, k, id, v);
    assert Place(l, id, target, pos.Before?) == InsertAt(r, k, id);
    ListingUnique(s', Place(l, id, target, pos.Before?), Order(s'));
  }

  /** The node ends up next to its target exactly when both belong to the same project: the check for that
      is left to the caller, and across projects the target is not among the node's siblings at all. */
  lemma MoveNextToExact(rows: map<int, Category>, id: int, target: int, pos: Position)
    requires DistinctSorts(rows) && Live(rows, id) && Live(rows, target) && !pos.Inside? && id != target
    ensures var project, p := rows[id].projectId, NewParent(rows, target, pos);
            IsPlaced(Order(Siblings(rows, project, p)), Order(Siblings(Moved(rows, id, target, pos), project, p)),
                     id, target, pos.Before?)
            <==> rows[target].projectId == project
  {
    var project, p, rows' := rows[id].projectId, NewParent(rows, target, pos), Moved(rows, id, target, pos);
    var l, m := Order(Siblings(rows, project, p)), Order(Siblings(rows', project, p));
    if rows[target].projectId == project {
      MoveNextToOrder(rows, id, target, pos);
      PlaceIsPlaced(l, id, target, pos.Before?);
    }
  }

  /** A node dropped before or after itself stays where it is. */
  lemma MoveNextToItself(rows: map<int, Category>, id: int, pos: Position)
    requires DistinctSorts(rows) && Live(rows, id) && !pos.Inside?
    ensures var p := rows[id].parentId;
            Order(Siblings(Moved(rows, id, id, pos), rows[id].projectId, p))
            == Order(Siblings(rows, rows[id].projectId, p))
  {
    var p, v, project := rows[id].parentId, NewSort(rows, id, pos), rows[id].projectId;
    var s := Siblings(rows, project, p);
    var l, s' := Order(s), Room(s - {id}, v)[id := v];
    var r := Without(l, id);
    DestinationSorts(rows, id, id, pos);
    assert id in s;
    assert id in l;
    var k := IndexOf(l, id);
    assert r == l[..k] + l[k + 1..];
    WithoutListing(s, l, id);
    if k > 0 {
      assert Earlier(s, l[k - 1], l[k]);
      var x := l[k - 1];
      assert x in s;
      if x != id { DistinctInGroup(rows, project, p, x, id); }
    }
    if k < |r| {
      assert Earlier(s, l[k], l[k + 1]);
      var x := l[k + 1];
      assert x in s;
      if x != id { DistinctInGroup(rows, project, p, x, id); }
    }
    RoomInsert(s - {id}, r, k, id, v);
    assert InsertAt(r, k, id) == l;
    ListingUnique(s', l, Order(s'));
  }

  // ---------------------------------------------------------------- sort values stay distinct and small

  ghost predicate SortsBelow(rows: map<int, Category>, m: nat) {
    forall x :: Live(rows, x) ==> 0 <= rows[x].sort < m
  }

  lemma CreateSorts(rows: map<int, Category>, id: int, project: int, parent: int, kind: string, m: nat)
    requires id !in rows && DistinctSorts(rows) && SortsBelow(rows, m)
    ensures DistinctSorts(Created(rows, id, project, parent, kind))
    ensures SortsBelow(Created(rows, id, project, parent, kind), m + 1)
  {
    var s := Siblings(rows, project, parent);
    NextSortAbove(s);
    assert forall x :: x in s ==> Live(rows, x);
    NextSortBelow(s, m);
    var rows' := Created(rows, id, project, parent, kind);
    forall x | Live(rows', x) && x != id && SameFolder(rows', x, id) ensures rows'[x].sort < rows'[id].sort {
      assert x in s;
    }
    forall x, y | Live(rows', x) && Live(rows', y) && x != y && SameFolder(rows', x, y)
      ensures rows'[x].sort != rows'[y].sort
    {
      if x != id && y != id { assert Live(rows, x) && Live(rows, y) && SameFolder(rows, x, y); }
    }
  }

  /** A new category becomes the last of its siblings; every other folder stays as it is. */
  lemma CreateOrder(rows: map<int, Category>, id: int, project: int, parent: int, kind: string)
    requires id !in rows
    ensures Order(Siblings(Created(rows, id, project, parent, kind), project, parent))
            == Order(Siblings(rows, project, parent)) + [id]
    ensures forall q, p :: (q, p) != (project, parent) ==>
              Siblings(Created(rows, id, project, parent, kind), q, p) == Siblings(rows, q, p)
  {
    var s := Siblings(rows, project, parent);
    var l, s' := Order(s), Siblings(Created(rows, id, project, parent, kind), project, parent);
    NextSortAbove(s);
    assert s' == s[id := NextSort(s)];
    assert s - {id} == s;
    UpdateListing(s, l, |l|, id, NextSort(s));
    assert InsertAt(l, |l|, id) == l + [id];
    ListingUnique(s', l + [id], Order(s'));
  }

  /** A deleted category leaves its folder; the others keep their order, and every other folder stays. */
  lemma DeleteOrder(rows: map<int, Category>, id: int)
    requires id in rows && !rows[id].isDelete
    ensures var q, p := rows[id].projectId, rows[id].parentId;
            id in Order(Siblings(rows, q, p)) &&
            Order(Siblings(Deleted(rows, id), q, p)) == Without(Order(Siblings(rows, q, p)), id)
    ensures forall q, p :: (q, p) != (rows[id].projectId, rows[id].parentId) ==>
              Siblings(Deleted(rows, id), q, p) == Siblings(rows, q, p)
  {
    var s := Siblings(rows, rows[id].projectId, rows[id].parentId);
    assert id in s;
    assert Siblings(Deleted(rows, id), rows[id].projectId, rows[id].parentId) == s - {id};
    WithoutListing(s, Order(s), id);
    ListingUnique(s - {id}, Without(Order(s), id), Order(s - {id}));
  }

  lemma NewSortFree(rows: map<int, Category>, id: int, target: int, pos: Position, x: int)
    requires Live(rows, id) && Live(rows, target) && x != id
    requires var rows' := Moved(rows, id, target, pos); Live(rows', x) && SameFolder(rows', x, id)
    ensures Moved(rows, id, target, pos)[x].sort != NewSort(rows, target, pos)
  {
    if pos.Inside? {
      NextSortAbove(Children(rows, target));
      assert x in Children(rows, target);
    }
  }

  lemma MoveSorts(rows: map<int, Category>, id: int, target: int, pos: Position, m: nat)
    requires Live(rows, id) && Live(rows, target) && DistinctSorts(rows) && SortsBelow(rows, m)
    ensures DistinctSorts(Moved(rows, id, target, pos))
    ensures SortsBelow(Moved(rows, id, target, pos), m + 1)
  {
    var rows' := Moved(rows, id, target, pos);
    if pos.Inside? {
      assert forall x :: x in Children(rows, target) ==> Live(rows, x);
      NextSortBelow(Children(rows, target), m);
    }
    forall x, y | Live(rows', x) && Live(rows', y) && x != y && SameFolder(rows', x, y)
      ensures rows'[x].sort != rows'[y].sort
    {
      if x == id {
        NewSortFree(rows, id, target, pos, y);
      } else if y == id {
        NewSortFree(rows, id, target, pos, x);
      } else {
        assert Live(rows, x) && Live(rows, y) && SameFolder(rows, x, y);
      }
    }
    forall x | Live(rows', x) ensures 0 <= rows'[x].sort < m + 1 {
      assert Live(rows, x);
    }
  }

  lemma DeleteSorts(rows: map<int, Category>, id: int, m: nat)
    requires Live(rows, id) && DistinctSorts(rows) && SortsBelow(rows, m)
    ensures DistinctSorts(Deleted(rows, id)) && SortsBelow(Deleted(rows, id), m + 1)
  {
    var rows' := Deleted(rows, id);
    forall x, y | Live(rows', x) && Live(rows', y) && x != y && SameFolder(rows', x, y)
      ensures rows'[x].sort != rows'[y].sort
    {
      assert Live(rows, x) && Live(rows, y) && SameFolder(rows, x, y);
    }
    forall x | Live(rows', x) ensures 0 <= rows'[x].sort < m + 1 {
      assert Live(rows, x);
    }
  }

  // ---------------------------------------------------------------- whole runs

  /** `id` of a Create is the key the database assigns. */
  datatype Step =
    | CreateStep(id: int, project: int, parent: int, kind: string, hasSource: bool)
    | MoveStep(id: int, target: int, pos: Position)
    | DeleteStep(id: int)

  /** A workflow entry must name its workflow. */
  predicate CanCreate(kind: string, hasSource: bool) {
    kind == WORKFLOW ==> hasSource
  }

  /** A refused step, and a move that never returns, leave the table as it is. */
  ghost function Apply(rows: map<int, Category>, step: Step): map<int, Category> {
    match step
    case CreateStep(id, project, parent, kind, hasSource) =>
      if CanCreate(kind, hasSource) then Created(rows, id, project, parent, kind) else rows
    case MoveStep(id, target, pos) =>
      if MoveVerdict(rows, id, target, pos).Accepted? then Moved(rows, id, target, pos) else rows
    case DeleteStep(id) =>
      if CanDelete(rows, id) then Deleted(rows, id) else rows
  }

  /** The database hands out new, non-zero keys. */
  predicate FreshKey(rows: map<int, Category>, step: Step) {
    step.CreateStep? ==> step.id != 0 && step.id !in rows
  }

  /** What a caller has to see to: an accepted Create names the root or a live folder of the project,
      an accepted Move does not make a node its own parent or cross projects. Deletes need nothing. */
  ghost predicate SoundStep(rows: map<int, Category>, step: Step) {
    match step
    case CreateStep(id, project, parent, kind, hasSource) =>
      CanCreate(kind, hasSource) ==>
        parent == 0 || (Live(rows, parent) && rows[parent].kind == FOLDER && rows[parent].projectId == project)
    case MoveStep(id, target, pos) =>
      MoveVerdict(rows, id, target, pos).Accepted? ==> SoundMove(rows, id, target, pos)
    case DeleteStep(_) => true
  }

  /** One step keeps the forest exactly when it is sound. */
  lemma StepForest(rows: map<int, Category>, step: Step)
    requires Forest(rows) && FreshKey(rows, step)
    ensures Forest(Apply(rows, step)) <==> SoundStep(rows, step)
  {
    match step
    case CreateStep(id, project, parent, kind, hasSource) =>
      if CanCreate(kind, hasSource) { CreateForest(rows, id, project, parent, kind); }
    case MoveStep(id, target, pos) =>
      if MoveVerdict(rows, id, target, pos).Accepted? { MoveForest(rows, id, target, pos); }
    case DeleteStep(id) =>
      if CanDelete(rows, id) { DeleteForest(rows, id); }
  }

  lemma StepSorts(rows: map<int, Category>, step: Step, m: nat)
    requires FreshKey(rows, step) && DistinctSorts(rows) && SortsBelow(rows, m)
    ensures DistinctSorts(Apply(rows, step)) && SortsBelow(Apply(rows, step), m + 1)
  {
    match step
    case CreateStep(id, project, parent, kind, hasSource) =>
      CreateSorts(rows, id, project, parent, kind, m);
    case MoveStep(id, target, pos) =>
      if MoveVerdict(rows, id, target, pos).Accepted? { MoveSorts(rows, id, target, pos, m); }
    case DeleteStep(id) =>
      if CanDelete(rows, id) { DeleteSorts(rows, id, m); }
  }

  ghost predicate FreshRun(rows: map<int, Category>, steps: seq<Step>)
    decreases |steps|
  {
    steps == [] || (FreshKey(rows, steps[0]) && FreshRun(Apply(rows, steps[0]), steps[1..]))
  }

  ghost predicate SoundRun(rows: map<int, Category>, steps: seq<Step>)
    decreases |steps|
  {
    steps == [] || (SoundStep(rows, steps[0]) && SoundRun(Apply(rows, steps[0]), steps[1..]))
  }

  ghost function Run(rows: map<int, Category>, steps: seq<Step>): map<int, Category>
    decreases |steps|
  {
    if steps == [] then rows else Run(Apply(rows, steps[0]), steps[1..])
  }

  /** The table is a forest after every prefix of the run. */
  ghost predicate ForestThroughout(rows: map<int, Category>, steps: seq<Step>)
    decreases |steps|
  {
    Forest(rows) && (steps == [] || ForestThroughout(Apply(rows, steps[0]), steps[1..]))
  }

  /** A run keeps the forest throughout exactly when every step of it is sound. */
  lemma {:induction false} RunForest(rows: map<int, Category>, steps: seq<Step>)
    requires Forest(rows) && FreshRun(rows, steps)
    ensures ForestThroughout(rows, steps) <==> SoundRun(rows, steps)
    ensures ForestThroughout(rows, steps) ==> Forest(Run(rows, steps))
    decreases |steps|
  {
    if steps != [] {
      StepForest(rows, steps[0]);
      if SoundStep(rows, steps[0]) { RunForest(Apply(rows, steps[0]), steps[1..]); }
    }
  }

  /** Sort values stay distinct and small over every run, sound or not. */
  lemma {:induction false} RunSorts(rows: map<int, Category>, steps: seq<Step>, m: nat)
    requires FreshRun(rows, steps) && DistinctSorts(rows) && SortsBelow(rows, m)
    ensures DistinctSorts(Run(rows, steps)) && SortsBelow(Run(rows, steps), m + |steps|)
    decreases |steps|
  {
    if steps != [] {
      StepSorts(rows, steps[0], m);
      RunSorts(Apply(rows, steps[0]), steps[1..], m + 1);
    }
  }

  /** From the empty table: live siblings' sort values are distinct and below the number of steps after
      every run, so int32 suffices for 2^31 steps, and the table is a forest all along exactly if every
      step was sound. */
  lemma RunFromEmpty(steps: seq<Step>)
    requires FreshRun(map[], steps)
    ensures DistinctSorts(Run(map[], steps)) && SortsBelow(Run(map[], steps), |steps|)
    ensures ForestThroughout(map[], steps) <==> SoundRun(map[], steps)
    ensures SoundRun(map[], steps) ==> Forest(Run(map[], steps))
  {
    RunSorts(map[], steps, 0);
    RunForest(map[], steps);
  }
}
