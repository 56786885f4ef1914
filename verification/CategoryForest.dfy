/** Workflow categories (gulu/internal/logic/category_workflow_logic.go): rows with parent ids, and what
    creating, deleting and moving does to the folder structure and to the siblings' sort values. */
module CategoryForest {
  import opened ListMove

  const FOLDER := "folder"
  const WORKFLOW := "workflow"

  datatype Category = Category(projectId: int, parentId: int, kind: string, sort: int, isDelete: bool)
  datatype Position = Before | After | Inside
  /** Diverges: the descendant check recurses for ever and the call never returns. */
  datatype Verdict = Accepted | NodeMissing | TargetMissing | NotAFolder | IntoDescendant | Diverges

  predicate Live(rows: map<int, Category>, id: int) {
    id in rows && !rows[id].isDelete
  }

  /** The parent is the root, or a live folder of the same project. */
  predicate Linked(rows: map<int, Category>, x: int)
    requires x in rows
  {
    var p := rows[x].parentId;
    p == 0 || (Live(rows, p) && rows[p].kind == FOLDER && rows[p].projectId == rows[x].projectId)
  }

  /** The parent chain of `x` reaches 0 after `n` rows, through live folders of one project. */
  ghost predicate Chain(rows: map<int, Category>, x: int, n: nat)
    decreases n
  {
    if n == 0 then x == 0
    else x != 0 && Live(rows, x) && Linked(rows, x) && Chain(rows, rows[x].parentId, n - 1)
  }

  ghost predicate Rooted(rows: map<int, Category>, x: int) {
    exists n: nat :: Chain(rows, x, n)
  }

  ghost predicate Forest(rows: map<int, Category>) {
    0 !in rows && forall x :: Live(rows, x) ==> Rooted(rows, x)
  }

  lemma {:induction false} ChainUnique(rows: map<int, Category>, x: int, m: nat, n: nat)
    requires Chain(rows, x, m) && Chain(rows, x, n)
    ensures m == n
    decreases m
  {
    if m > 0 && n > 0 { ChainUnique(rows, rows[x].parentId, m - 1, n - 1); }
  }

  ghost function Depth(rows: map<int, Category>, x: int): (n: nat)
    requires Rooted(rows, x)
    ensures Chain(rows, x, n)
  {
    var n: nat :| Chain(rows, x, n);
    n
  }

  lemma DepthStep(rows: map<int, Category>, x: int)
    requires Forest(rows) && Live(rows, x)
    ensures Linked(rows, x) && Rooted(rows, rows[x].parentId)
    ensures Depth(rows, x) == Depth(rows, rows[x].parentId) + 1
  {
    var n := Depth(rows, x);
    assert Chain(rows, rows[x].parentId, n - 1);
    ChainUnique(rows, rows[x].parentId, n - 1, Depth(rows, rows[x].parentId));
  }

  // ---------------------------------------------------------------- the descendant check

  /** The check answers at `x`: the row is missing, or its parent is the root or `a`. */
  predicate Answers(rows: map<int, Category>, a: int, x: int) {
    !Live(rows, x) || rows[x].parentId == 0 || rows[x].parentId == a
  }

  /** Climbing from `x`, the check first answers after `n` more rows. */
  ghost predicate AnswersAfter(rows: map<int, Category>, a: int, x: int, n: nat)
    decreases n
  {
    if n == 0 then Answers(rows, a, x)
    else !Answers(rows, a, x) && AnswersAfter(rows, a, rows[x].parentId, n - 1)
  }

  /** The recursion ends, on whatever table. */
  ghost predicate ClimbEnds(rows: map<int, Category>, a: int, x: int) {
    exists n: nat :: AnswersAfter(rows, a, x, n)
  }

  lemma {:induction false} AnswersOnce(rows: map<int, Category>, a: int, x: int, m: nat, n: nat)
    requires AnswersAfter(rows, a, x, m) && AnswersAfter(rows, a, x, n)
    ensures m == n
    decreases m
  {
    if m > 0 && n > 0 { AnswersOnce(rows, a, rows[x].parentId, m - 1, n - 1); }
  }

  ghost function ClimbLength(rows: map<int, Category>, a: int, x: int): (n: nat)
    requires ClimbEnds(rows, a, x)
    ensures AnswersAfter(rows, a, x, n)
  {
    var n: nat :| AnswersAfter(rows, a, x, n);
    n
  }

  lemma ClimbOn(rows: map<int, Category>, a: int, x: int)
    requires ClimbEnds(rows, a, x) && !Answers(rows, a, x)
    ensures ClimbEnds(rows, a, rows[x].parentId)
    ensures ClimbLength(rows, a, x) == ClimbLength(rows, a, rows[x].parentId) + 1
  {
    var n, p := ClimbLength(rows, a, x), rows[x].parentId;
    assert AnswersAfter(rows, a, p, n - 1);
    AnswersOnce(rows, a, p, n - 1, ClimbLength(rows, a, p));
  }

  /** isDescendant: climb from `x` until the root, a missing row, or `a` as a parent. */
  function IsDescendant(rows: map<int, Category>, a: int, x: int): bool
    requires ClimbEnds(rows, a, x)
    decreases ClimbLength(rows, a, x)
  {
    if !Live(rows, x) then false
    else if rows[x].parentId == 0 then false
    else if rows[x].parentId == a then true
    else
      ClimbOn(rows, a, x);
      IsDescendant(rows, a, rows[x].parentId)
  }

  /** The `k`-th row above `x`, or 0. */
  ghost function Up(rows: map<int, Category>, x: int, k: nat): int
    decreases k
  {
    if k == 0 then x else if Live(rows, x) then Up(rows, rows[x].parentId, k - 1) else 0
  }

  lemma UpFromRoot(rows: map<int, Category>, k: nat)
    requires 0 !in rows
    ensures Up(rows, 0, k) == 0
  {
  }

  /** The row `k` above `x` is missing, or has the root or `a` for a parent. */
  ghost predicate AnswersAbove(rows: map<int, Category>, a: int, x: int, k: nat) {
    Answers(rows, a, Up(rows, x, k))
  }

  lemma {:induction false} EndsAtAnswer(rows: map<int, Category>, a: int, x: int, k: nat)
    requires AnswersAbove(rows, a, x, k) && 0 !in rows
    ensures ClimbEnds(rows, a, x)
    decreases k
  {
    if Answers(rows, a, x) {
      assert AnswersAfter(rows, a, x, 0);
    } else {
      var p := rows[x].parentId;
      EndsAtAnswer(rows, a, p, k - 1);
      assert AnswersAfter(rows, a, x, ClimbLength(rows, a, p) + 1);
    }
  }

  lemma {:induction false} AnswerIsAbove(rows: map<int, Category>, a: int, x: int, n: nat)
    requires AnswersAfter(rows, a, x, n)
    ensures AnswersAbove(rows, a, x, n)
    decreases n
  {
    if n > 0 { AnswerIsAbove(rows, a, rows[x].parentId, n - 1); }
  }

  /** The rows from which the check answers after 1 to `n` more rows. */
  ghost function Within(rows: map<int, Category>, a: int, n: nat): set<int> {
    set y | y in rows && exists m: nat :: 1 <= m <= n && AnswersAfter(rows, a, y, m)
  }

  /** Each row of the climb is at another distance from the answer. */
  lemma {:induction false} ClimbIsShort(rows: map<int, Category>, a: int, x: int, n: nat)
    requires AnswersAfter(rows, a, x, n)
    ensures n <= |Within(rows, a, n)| <= |rows|
    decreases n
  {
    var s := Within(rows, a, n);
    Fewer(s, rows.Keys);
    if n > 0 {
      var t := Within(rows, a, n - 1);
      ClimbIsShort(rows, a, rows[x].parentId, n - 1);
      if x in t {
        var m: nat :| 1 <= m <= n - 1 && AnswersAfter(rows, a, x, m);
        AnswersOnce(rows, a, x, m, n);
        assert false;
      }
      assert x in s;
      Fewer(t + {x}, s);
    }
  }

  lemma Fewer(s: set<int>, t: set<int>)
    requires s <= t
    ensures |s| <= |t|
  {
    assert t == s + (t - s);
  }

  /** On any table the recursion ends exactly if some row on the way up is missing, or has the root or `a`
      for a parent; looking as far up as there are rows is enough to tell. */
  lemma ClimbEndsExact(rows: map<int, Category>, a: int, x: int)
    requires 0 !in rows
    ensures ClimbEnds(rows, a, x) <==> exists k: nat :: k <= |rows| && AnswersAbove(rows, a, x, k)
  {
    if ClimbEnds(rows, a, x) {
      var n := ClimbLength(rows, a, x);
      AnswerIsAbove(rows, a, x, n);
      ClimbIsShort(rows, a, x, n);
    }
    if exists k: nat :: k <= |rows| && AnswersAbove(rows, a, x, k) {
      var k: nat :| k <= |rows| && AnswersAbove(rows, a, x, k);
      EndsAtAnswer(rows, a, x, k);
    }
  }

  lemma {:induction false} DescendantClimbs(rows: map<int, Category>, a: int, x: int) returns (k: nat)
    requires ClimbEnds(rows, a, x) && IsDescendant(rows, a, x)
    ensures k > 0 && Up(rows, x, k) == a
    decreases ClimbLength(rows, a, x)
  {
    var p := rows[x].parentId;
    if p == a {
      assert Up(rows, p, 0) == a;
      k := 1;
    } else {
      ClimbOn(rows, a, x);
      k := DescendantClimbs(rows, a, p);
      k := k + 1;
    }
  }

  lemma {:induction false} ClimbsIsDescendant(rows: map<int, Category>, a: int, x: int, k: nat)
    requires ClimbEnds(rows, a, x) && 0 !in rows && a != 0 && k > 0 && Up(rows, x, k) == a
    ensures IsDescendant(rows, a, x)
    decreases k
  {
    UpFromRoot(rows, k - 1);
    if Live(rows, x) && rows[x].parentId != a {
      ClimbOn(rows, a, x);
      ClimbsIsDescendant(rows, a, rows[x].parentId, k - 1);
    }
  }

  /** Climbing from `x`, at least one step, parent links lead through rows that are not deleted to `a`. */
  ghost predicate LeadsUpTo(rows: map<int, Category>, x: int, a: int) {
    exists k: nat :: k > 0 && Up(rows, x, k) == a
  }

  /** Whenever it ends, the check answers exactly the strict-ancestor question. */
  lemma DescendantExact(rows: map<int, Category>, a: int, x: int)
    requires 0 !in rows && a != 0 && ClimbEnds(rows, a, x)
    ensures IsDescendant(rows, a, x) <==> LeadsUpTo(rows, x, a)
  {
    if IsDescendant(rows, a, x) {
      var k := DescendantClimbs(rows, a, x);
      assert k > 0 && Up(rows, x, k) == a;
    }
    if LeadsUpTo(rows, x, a) {
      var k: nat :| k > 0 && Up(rows, x, k) == a;
      ClimbsIsDescendant(rows, a, x, k);
    }
  }

  lemma {:induction false} ChainEnds(rows: map<int, Category>, a: int, x: int, n: nat)
    requires Chain(rows, x, n) && 0 !in rows
    ensures ClimbEnds(rows, a, x)
    decreases n
  {
    if Answers(rows, a, x) {
      assert AnswersAfter(rows, a, x, 0);
    } else {
      ChainEnds(rows, a, rows[x].parentId, n - 1);
      assert AnswersAfter(rows, a, x, ClimbLength(rows, a, rows[x].parentId) + 1);
    }
  }

  /** On a forest it always ends. */
  lemma ForestClimbEnds(rows: map<int, Category>, a: int, x: int)
    requires Forest(rows)
    ensures ClimbEnds(rows, a, x)
  {
    if Live(rows, x) {
      ChainEnds(rows, a, x, Depth(rows, x));
    } else {
      assert AnswersAfter(rows, a, x, 0);
    }
  }

  /** The check ends and says yes. */
  ghost predicate Descends(rows: map<int, Category>, a: int, x: int) {
    ClimbEnds(rows, a, x) && IsDescendant(rows, a, x)
  }

  lemma DescendsStep(rows: map<int, Category>, a: int, x: int)
    requires Forest(rows) && Live(rows, x)
    ensures var p := rows[x].parentId; Descends(rows, a, x) <==> p != 0 && (p == a || Descends(rows, a, p))
  {
    ForestClimbEnds(rows, a, x);
    if !Answers(rows, a, x) { ClimbOn(rows, a, x); }
  }

  // ---------------------------------------------------------------- operations on values

  /** Sort values of the live rows of one project under one parent. */
  function Siblings(rows: map<int, Category>, project: int, parent: int): map<int, int> {
    map x | x in rows && !rows[x].isDelete && rows[x].projectId == project && rows[x].parentId == parent :: rows[x].sort
  }

  /** Sort values of the live rows under one parent, whatever their project. */
  function Children(rows: map<int, Category>, parent: int): map<int, int> {
    map x | x in rows && !rows[x].isDelete && rows[x].parentId == parent :: rows[x].sort
  }

  /** One more than the largest sort value, 0 if there is none. */
  ghost function NextSort(s: map<int, int>): int {
    var l := Order(s);
    if l == [] then 0 else var last := l[|l| - 1]; s[last] + 1
  }

  ghost function Created(rows: map<int, Category>, id: int, project: int, parent: int, kind: string)
    : map<int, Category>
  {
    rows[id := Category(project, parent, kind, NextSort(Siblings(rows, project, parent)), false)]
  }

  /** Delete is refused for a missing row and for a folder with live children. */
  predicate CanDelete(rows: map<int, Category>, id: int) {
    Live(rows, id) && (rows[id].kind == FOLDER ==> Children(rows, id) == map[])
  }

  function Deleted(rows: map<int, Category>, id: int): map<int, Category>
    requires id in rows
  {
    rows[id := rows[id].(isDelete := true)]
  }

  function NewParent(rows: map<int, Category>, target: int, pos: Position): int
    requires target in rows
  {
    if pos.Inside? then target else rows[target].parentId
  }

  /** What Move decides, on any table. */
  ghost function MoveVerdict(rows: map<int, Category>, id: int, target: int, pos: Position): Verdict {
    if !Live(rows, id) then NodeMissing
    else if !Live(rows, target) then TargetMissing
    else if pos.Inside? && rows[target].kind != FOLDER then NotAFolder
    else
      var p := NewParent(rows, target, pos);
      if !pos.Inside? && p == 0 then Accepted
      else if !ClimbEnds(rows, id, p) then Diverges
      else if IsDescendant(rows, id, p) then IntoDescendant
      else Accepted
  }

  lemma ForestDecides(rows: map<int, Category>, id: int, target: int, pos: Position)
    requires Forest(rows)
    ensures !MoveVerdict(rows, id, target, pos).Diverges?
  {
    if Live(rows, target) { ForestClimbEnds(rows, id, NewParent(rows, target, pos)); }
  }

  /** A climb that meets `a` above `x` answers on the row below it. */
  lemma LeadsUpEnds(rows: map<int, Category>, x: int, a: int)
    requires 0 !in rows && a != 0 && LeadsUpTo(rows, x, a)
    ensures ClimbEnds(rows, a, x)
  {
    var k: nat :| k > 0 && Up(rows, x, k) == a;
    UpParent(rows, x, k - 1);
    EndsAtAnswer(rows, a, x, k - 1);
  }

  lemma {:induction false} UpParent(rows: map<int, Category>, x: int, k: nat)
    requires 0 !in rows
    ensures var y := Up(rows, x, k); Up(rows, x, k + 1) == if Live(rows, y) then rows[y].parentId else 0
    decreases k
  {
    if k == 0 {
      if Live(rows, x) { assert Up(rows, rows[x].parentId, 0) == rows[x].parentId; }
    } else if Live(rows, x) {
      UpParent(rows, rows[x].parentId, k - 1);
    } else {
      UpFromRoot(rows, k);
    }
  }

  /** What a move answers, on the fields of the rows, on any table. With both rows there and a folder to go
      into, it is refused exactly if the new place lies below the node, and never returns exactly if the climb
      from there meets neither the root nor a missing row nor a child of the node. */
  lemma MoveOutcome(rows: map<int, Category>, id: int, target: int, pos: Position)
    requires 0 !in rows
    ensures var v := MoveVerdict(rows, id, target, pos);
            && (v.NodeMissing? <==> id !in rows || rows[id].isDelete)
            && (!v.NodeMissing? ==> (v.TargetMissing? <==> target !in rows || rows[target].isDelete))
            && (!v.NodeMissing? && !v.TargetMissing? ==>
                 && (v.NotAFolder? <==> pos == Inside && rows[target].kind != "folder")
                 && var p := if pos == Inside then target else rows[target].parentId;
                    && (v.IntoDescendant? <==> !v.NotAFolder? && LeadsUpTo(rows, p, id))
                    && (v.Diverges? <==> !v.NotAFolder?
                                         && forall k: nat :: k <= |rows| ==> !AnswersAbove(rows, id, p, k))
                    && (v.Accepted? <==> !v.NotAFolder? && !LeadsUpTo(rows, p, id)
                                         && exists k: nat :: k <= |rows| && AnswersAbove(rows, id, p, k)))
  {
    if Live(rows, id) && Live(rows, target) {
      var p := NewParent(rows, target, pos);
      ClimbEndsExact(rows, id, p);
      if ClimbEnds(rows, id, p) {
        DescendantExact(rows, id, p);
      }
      if LeadsUpTo(rows, p, id) { LeadsUpEnds(rows, p, id); }
      if p == 0 {
        assert AnswersAbove(rows, id, p, 0);
        forall k: nat ensures Up(rows, p, k) != id { UpFromRoot(rows, k); }
      }
    }
  }

  ghost function NewSort(rows: map<int, Category>, target: int, pos: Position): int
    requires target in rows
  {
    match pos
    case Inside => NextSort(Children(rows, target))
    case Before => rows[target].sort
    case After => rows[target].sort + 1
  }

  predicate Shifts(rows: map<int, Category>, id: int, parent: int, v: int, x: int)
    requires id in rows && x in rows
  {
    && x != id && !rows[x].isDelete
    && rows[x].projectId == rows[id].projectId && rows[x].parentId == parent && rows[x].sort >= v
  }

  /** The siblings of the new place at or after the new sort value make room. */
  function Shifted(rows: map<int, Category>, id: int, parent: int, v: int): map<int, Category>
    requires id in rows
  {
    map x | x in rows :: if Shifts(rows, id, parent, v, x) then rows[x].(sort := rows[x].sort + 1) else rows[x]
  }

  ghost function Moved(rows: map<int, Category>, id: int, target: int, pos: Position): map<int, Category>
    requires id in rows && target in rows
  {
    var parent, v := NewParent(rows, target, pos), NewSort(rows, target, pos);
    var room := if pos.Inside? then rows else Shifted(rows, id, parent, v);
    room[id := rows[id].(parentId := parent, sort := v)]
  }

  // ---------------------------------------------------------------- the forest is kept

  /** `rows'` has the same live rows, kinds and projects; only the parent of `id` may differ. */
  ghost predicate Reparented(rows: map<int, Category>, rows': map<int, Category>, id: int) {
    && rows'.Keys == rows.Keys
    && forall x :: x in rows ==>
         && rows'[x].isDelete == rows[x].isDelete && rows'[x].kind == rows[x].kind
         && rows'[x].projectId == rows[x].projectId && (x != id ==> rows'[x].parentId == rows[x].parentId)
  }

  lemma MovedReparents(rows: map<int, Category>, id: int, target: int, pos: Position)
    requires id in rows && target in rows
    ensures Reparented(rows, Moved(rows, id, target, pos), id)
    ensures Moved(rows, id, target, pos)[id].parentId == NewParent(rows, target, pos)
  {
  }

  /** A chain that does not pass through `id` is untouched. */
  lemma {:induction false} ChainAvoids(rows: map<int, Category>, rows': map<int, Category>, id: int, x: int, n: nat)
    requires Forest(rows) && Reparented(rows, rows', id) && Chain(rows, x, n)
    requires id != 0 && x != id && !Descends(rows, id, x)
    ensures Chain(rows', x, n)
    decreases n
  {
    if n > 0 {
      DescendsStep(rows, id, x);
      ChainAvoids(rows, rows', id, rows[x].parentId, n - 1);
    }
  }

  lemma {:induction false} ChainRerouted(rows: map<int, Category>, rows': map<int, Category>, id: int, x: int, n: nat)
    returns (m: nat)
    requires Forest(rows) && Reparented(rows, rows', id) && Chain(rows, x, n)
    requires Rooted(rows', id)
    ensures Chain(rows', x, m)
    decreases n
  {
    if x == id {
      m := Depth(rows', id);
    } else if n == 0 {
      m := 0;
    } else {
      m := ChainRerouted(rows, rows', id, rows[x].parentId, n - 1);
      m := m + 1;
    }
  }

  lemma {:induction false} OwnParentHasNoChain(rows: map<int, Category>, id: int, n: nat)
    requires id != 0 && id in rows && rows[id].parentId == id
    ensures !Chain(rows, id, n)
  {
    if n > 0 { OwnParentHasNoChain(rows, id, n - 1); }
  }

  lemma NewParentIsFolder(rows: map<int, Category>, id: int, target: int, pos: Position)
    requires Forest(rows) && MoveVerdict(rows, id, target, pos).Accepted?
    ensures var p := NewParent(rows, target, pos);
            p == 0 || (Live(rows, p) && rows[p].kind == FOLDER)
  {
    DepthStep(rows, target);
  }

  /** When an accepted move is sound: the new parent is not the node itself, and is in its project. */
  predicate SoundMove(rows: map<int, Category>, id: int, target: int, pos: Position)
    requires id in rows && target in rows
  {
    var p := NewParent(rows, target, pos);
    p != id && (p == 0 || (p in rows && rows[p].projectId == rows[id].projectId))
  }

  /** An accepted move keeps the forest exactly when it is sound; the descendant check alone is not enough. */
  lemma MoveForest(rows: map<int, Category>, id: int, target: int, pos: Position)
    requires Forest(rows) && MoveVerdict(rows, id, target, pos).Accepted?
    ensures Forest(Moved(rows, id, target, pos)) <==> SoundMove(rows, id, target, pos)
  {
    var rows', p := Moved(rows, id, target, pos), NewParent(rows, target, pos);
    MovedReparents(rows, id, target, pos);
    NewParentIsFolder(rows, id, target, pos);
    if SoundMove(rows, id, target, pos) {
      assert Chain(rows', 0, 0);
      if p != 0 { ChainAvoids(rows, rows', id, p, Depth(rows, p)); }
      assert Chain(rows', id, (if p == 0 then 0 else Depth(rows, p)) + 1);
      forall x | Live(rows', x) ensures Rooted(rows', x) {
        assert Live(rows, x);
        var m := ChainRerouted(rows, rows', id, x, Depth(rows, x));
      }
    } else if p == id {
      forall n: nat ensures !Chain(rows', id, n) { OwnParentHasNoChain(rows', id, n); }
      assert Live(rows', id);
    } else {
      assert !Linked(rows', id) && Live(rows', id);
      assert forall n: nat :: !Chain(rows', id, n);
    }
  }

  /** A folder dropped into itself passes every check and becomes its own parent. */
  lemma IntoItselfBreaks(rows: map<int, Category>, id: int)
    requires Forest(rows) && Live(rows, id) && rows[id].kind == FOLDER
    ensures MoveVerdict(rows, id, id, Inside).Accepted? && !Forest(Moved(rows, id, id, Inside))
  {
    ForestClimbEnds(rows, id, id);
    if Descends(rows, id, id) {
      NotOwnDescendant(rows, id, id);
      assert false;
    }
    MoveForest(rows, id, id, Inside);
  }

  lemma {:induction false} OwnParentNeverAnswers(rows: map<int, Category>, id: int, a: int, n: nat)
    requires id != 0 && Live(rows, id) && rows[id].parentId == id && a != id
    ensures !AnswersAfter(rows, a, id, n)
  {
    if n > 0 { OwnParentNeverAnswers(rows, id, a, n - 1); }
  }

  /** From then on, moving any other node into that folder never returns. */
  lemma IntoItselfThenDiverges(rows: map<int, Category>, id: int, other: int)
    requires Forest(rows) && Live(rows, id) && rows[id].kind == FOLDER && Live(rows, other) && other != id
    ensures MoveVerdict(Moved(rows, id, id, Inside), other, id, Inside).Diverges?
  {
    var rows' := Moved(rows, id, id, Inside);
    MovedReparents(rows, id, id, Inside);
    forall n: nat ensures !AnswersAfter(rows', other, id, n) { OwnParentNeverAnswers(rows', id, other, n); }
  }

  lemma {:induction false} NotOwnDescendant(rows: map<int, Category>, a: int, x: int)
    requires Forest(rows) && Live(rows, a) && Live(rows, x) && Descends(rows, a, x)
    ensures Depth(rows, a) < Depth(rows, x)
    decreases Depth(rows, x)
  {
    DepthStep(rows, x);
    DescendsStep(rows, a, x);
    if rows[x].parentId != a { NotOwnDescendant(rows, a, rows[x].parentId); }
  }

  /** Create keeps the forest exactly when the parent is 0 or a live folder of the project. */
  lemma CreateForest(rows: map<int, Category>, id: int, project: int, parent: int, kind: string)
    requires Forest(rows) && id != 0 && id !in rows
    ensures Forest(Created(rows, id, project, parent, kind)) <==>
            parent == 0 || (Live(rows, parent) && rows[parent].kind == FOLDER && rows[parent].projectId == project)
  {
    var rows' := Created(rows, id, project, parent, kind);
    if parent == 0 || (Live(rows, parent) && rows[parent].kind == FOLDER && rows[parent].projectId == project) {
      forall x | Live(rows, x) ensures Rooted(rows', x) { ChainKept(rows, rows', x, Depth(rows, x)); }
      assert Chain(rows', 0, 0);
      assert Chain(rows', id, (if parent == 0 then 0 else Depth(rows', parent)) + 1);
    } else {
      assert Live(rows', id);
      if parent == id {
        forall n: nat ensures !Chain(rows', id, n) { OwnParentHasNoChain(rows', id, n); }
      } else {
        assert !Linked(rows', id);
        assert forall n: nat :: !Chain(rows', id, n);
      }
    }
  }

  /** Chains survive when every row on them does. */
  lemma {:induction false} ChainKept(rows: map<int, Category>, rows': map<int, Category>, x: int, n: nat)
    requires Chain(rows, x, n) && Forest(rows)
    requires forall y :: Live(rows, y) ==> y in rows' && rows'[y] == rows[y]
    ensures Chain(rows', x, n)
    decreases n
  {
    if n > 0 { ChainKept(rows, rows', rows[x].parentId, n - 1); }
  }

  lemma {:induction false} ChainWithout(rows: map<int, Category>, id: int, x: int, n: nat)
    requires Forest(rows) && CanDelete(rows, id) && Chain(rows, x, n) && x != id
    ensures Chain(Deleted(rows, id), x, n)
    decreases n
  {
    if n > 0 {
      assert rows[x].parentId == id ==> x in Children(rows, id);
      ChainWithout(rows, id, rows[x].parentId, n - 1);
    }
  }

  lemma DeleteForest(rows: map<int, Category>, id: int)
    requires Forest(rows) && CanDelete(rows, id)
    ensures Forest(Deleted(rows, id))
  {
    var rows' := Deleted(rows, id);
    forall x | Live(rows', x) ensures Rooted(rows', x) {
      assert Live(rows, x);
      ChainWithout(rows, id, x, Depth(rows, x));
    }
  }
}
