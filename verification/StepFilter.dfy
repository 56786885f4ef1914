/** Running only the selected steps of a workflow: filterSteps
    (gulu/internal/handler/stream_execution.go). */
module StepFilter {

  /** A step with the parts the filter looks at: `loop` holds the steps of its loop ([] if it has none),
      `branches` the steps inside its condition branches, which the filter never looks into. */
  datatype Step = Step(id: string, loop: seq<Step>, children: seq<Step>, branches: seq<Step>)

  /** One step: kept whole if selected; otherwise one copy for each of loop and children that still
      holds something after filtering. */
  function FilterOne(step: Step, ids: set<string>): seq<Step>
    decreases step, 1
  {
    if step.id in ids then [step]
    else
      var loop, children := FilterAll(step.loop, ids), FilterAll(step.children, ids);
      (if loop != [] then [step.(loop := loop)] else []) +
      (if children != [] then [step.(children := children)] else [])
  }

  function FilterAll(steps: seq<Step>, ids: set<string>): seq<Step>
    decreases steps, 0
  {
    if steps == [] then [] else FilterOne(steps[0], ids) + FilterAll(steps[1..], ids)
  }

  function Filter(steps: seq<Step>, ids: set<string>): seq<Step> {
    if ids == {} then steps else FilterAll(steps, ids)
  }

  function IdSet(selectedIds: seq<string>): set<string> {
    set id | id in selectedIds
  }

  method CollectIds(selectedIds: seq<string>) returns (idSet: set<string>)
    ensures idSet == IdSet(selectedIds)
  {
    idSet := {};
    for i := 0 to |selectedIds|
      invariant idSet == set id | id in selectedIds[..i]
    {
      assert selectedIds[..i + 1] == selectedIds[..i] + [selectedIds[i]];
      idSet := idSet + {selectedIds[i]};
    }
    assert selectedIds[..|selectedIds|] == selectedIds;
  }

  lemma IdSetNonEmpty(selectedIds: seq<string>)
    requires selectedIds != []
    ensures IdSet(selectedIds) != {}
  {
    assert selectedIds[0] in IdSet(selectedIds);
  }

  /** The recursive loop of the source. */
  method FilterSteps(steps: seq<Step>, selectedIds: seq<string>) returns (filtered: seq<Step>)
    ensures filtered == Filter(steps, IdSet(selectedIds))
    ensures selectedIds == [] ==> filtered == steps
    decreases steps, 1
  {
    if |selectedIds| == 0 {
      return steps;
    }
    var idSet := CollectIds(selectedIds);
    IdSetNonEmpty(selectedIds);
    filtered := [];
    for i := 0 to |steps|
      invariant filtered == FilterAll(steps[..i], idSet)
    {
      assert steps[..i + 1] == steps[..i] + [steps[i]];
      FilterAppend(steps[..i], [steps[i]], idSet);
      SingleStep(steps[i], idSet);
      var kept := FilterStep(steps[i], selectedIds, idSet);
      filtered := filtered + kept;
    }
    assert steps[..|steps|] == steps;
  }

  /** The body of the loop: what is appended for one step. */
  method FilterStep(step: Step, selectedIds: seq<string>, idSet: set<string>) returns (kept: seq<Step>)
    requires idSet == IdSet(selectedIds) && selectedIds != []
    ensures kept == FilterOne(step, idSet)
    decreases step, 2
  {
    IdSetNonEmpty(selectedIds);
    kept := [];
    if step.id in idSet {
      kept := kept + [step];
    } else {
      if |step.loop| > 0 {
        var inLoop := FilterSteps(step.loop, selectedIds);
        if |inLoop| > 0 {
          kept := kept + [step.(loop := inLoop)];
        }
      }
      if |step.children| > 0 {
        var inChildren := FilterSteps(step.children, selectedIds);
        if |inChildren| > 0 {
          kept := kept + [step.(children := inChildren)];
        }
      }
    }
  }

  // ---------------------------------------------------------------- the selected subtrees

  /** The selected steps in running order, each with its whole subtree; a selected step inside another
      selected one is part of it. */
  function SelectedOne(step: Step, ids: set<string>): seq<Step>
    decreases step, 1
  {
    if step.id in ids then [step] else Selected(step.loop, ids) + Selected(step.children, ids)
  }

  function Selected(steps: seq<Step>, ids: set<string>): seq<Step>
    decreases steps, 0
  {
    if steps == [] then [] else SelectedOne(steps[0], ids) + Selected(steps[1..], ids)
  }

  /** No unselected step has selected steps both in its loop and among its children. */
  predicate NoClashOne(step: Step, ids: set<string>)
    decreases step, 1
  {
    step.id in ids ||
    (&& (Selected(step.loop, ids) == [] || Selected(step.children, ids) == [])
     && NoClash(step.loop, ids) && NoClash(step.children, ids))
  }

  predicate NoClash(steps: seq<Step>, ids: set<string>)
    decreases steps, 0
  {
    steps == [] || (NoClashOne(steps[0], ids) && NoClash(steps[1..], ids))
  }

  lemma Associative(x: seq<Step>, y: seq<Step>, z: seq<Step>)
    ensures x + (y + z) == (x + y) + z
  {
  }

  lemma {:induction false} FilterAppend(a: seq<Step>, b: seq<Step>, ids: set<string>)
    ensures FilterAll(a + b, ids) == FilterAll(a, ids) + FilterAll(b, ids)
    decreases |a|
  {
    if a == [] {
      assert a + b == b;
    } else {
      FilterAppend(a[1..], b, ids);
      assert (a + b)[1..] == a[1..] + b && (a + b)[0] == a[0];
      Associative(FilterOne(a[0], ids), FilterAll(a[1..], ids), FilterAll(b, ids));
    }
  }

  lemma {:induction false} SelectedAppend(a: seq<Step>, b: seq<Step>, ids: set<string>)
    ensures Selected(a + b, ids) == Selected(a, ids) + Selected(b, ids)
    decreases |a|
  {
    if a == [] {
      assert a + b == b;
    } else {
      SelectedAppend(a[1..], b, ids);
      assert (a + b)[1..] == a[1..] + b && (a + b)[0] == a[0];
      Associative(SelectedOne(a[0], ids), Selected(a[1..], ids), Selected(b, ids));
    }
  }

  lemma {:induction false} NoClashAppend(a: seq<Step>, b: seq<Step>, ids: set<string>)
    ensures NoClash(a + b, ids) <==> NoClash(a, ids) && NoClash(b, ids)
    decreases |a|
  {
    if a == [] {
      assert a + b == b;
    } else {
      NoClashAppend(a[1..], b, ids);
      assert (a + b)[1..] == a[1..] + b;
    }
  }

  lemma SingleStep(step: Step, ids: set<string>)
    ensures FilterAll([step], ids) == FilterOne(step, ids)
    ensures Selected([step], ids) == SelectedOne(step, ids)
    ensures NoClash([step], ids) == NoClashOne(step, ids)
  {
    assert [step][1..] == [];
  }

  /** Something is kept exactly when something is selected. */
  lemma {:induction false} KeptIffSelected(steps: seq<Step>, ids: set<string>)
    ensures FilterAll(steps, ids) == [] <==> Selected(steps, ids) == []
    decreases steps
  {
    if steps != [] {
      var s := steps[0];
      KeptIffSelected(s.loop, ids);
      KeptIffSelected(s.children, ids);
      KeptIffSelected(steps[1..], ids);
    }
  }

  /** Without a clash, one step stays one step with the same selected subtrees, and filtering again
      changes nothing. */
  lemma {:induction false} NoClashKeepsOne(step: Step, ids: set<string>)
    requires NoClashOne(step, ids)
    ensures Selected(FilterOne(step, ids), ids) == SelectedOne(step, ids)
    ensures FilterAll(FilterOne(step, ids), ids) == FilterOne(step, ids)
    decreases step, 1
  {
    if step.id in ids {
      SingleStep(step, ids);
    } else {
      NoClashKeeps(step.loop, ids);
      NoClashKeeps(step.children, ids);
      KeptIffSelected(step.loop, ids);
      KeptIffSelected(step.children, ids);
      var l, c := FilterAll(step.loop, ids), FilterAll(step.children, ids);
      SingleStep(step.(loop := l), ids);
      SingleStep(step.(children := c), ids);
    }
  }

  lemma {:induction false} NoClashKeeps(steps: seq<Step>, ids: set<string>)
    requires NoClash(steps, ids)
    ensures Selected(FilterAll(steps, ids), ids) == Selected(steps, ids)
    ensures FilterAll(FilterAll(steps, ids), ids) == FilterAll(steps, ids)
    decreases steps, 0
  {
    if steps != [] {
      var a, b := FilterOne(steps[0], ids), FilterAll(steps[1..], ids);
      NoClashKeepsOne(steps[0], ids);
      NoClashKeeps(steps[1..], ids);
      SelectedAppend(a, b, ids);
      FilterAppend(a, b, ids);
    }
  }

  lemma {:induction false} ClashHasSelected(steps: seq<Step>, ids: set<string>)
    requires !NoClash(steps, ids)
    ensures Selected(steps, ids) != []
    decreases steps
  {
    var s := steps[0];
    if !NoClash(steps[1..], ids) {
      ClashHasSelected(steps[1..], ids);
    } else {
      if !NoClash(s.loop, ids) { ClashHasSelected(s.loop, ids); }
      if !NoClash(s.children, ids) { ClashHasSelected(s.children, ids); }
    }
  }

  /** Filtering never loses a selected subtree; a clash doubles some and is still there afterwards. */
  lemma {:induction false} ClashGrowsOne(step: Step, ids: set<string>)
    ensures |Selected(FilterOne(step, ids), ids)| >= |SelectedOne(step, ids)|
    ensures !NoClashOne(step, ids) ==>
              && |Selected(FilterOne(step, ids), ids)| > |SelectedOne(step, ids)|
              && !NoClash(FilterOne(step, ids), ids)
    decreases step, 1
  {
    if step.id in ids {
      SingleStep(step, ids);
    } else {
      ClashGrows(step.loop, ids);
      ClashGrows(step.children, ids);
      KeptIffSelected(step.loop, ids);
      KeptIffSelected(step.children, ids);
      if !NoClash(step.loop, ids) { ClashHasSelected(step.loop, ids); }
      if !NoClash(step.children, ids) { ClashHasSelected(step.children, ids); }
      var x, y := step.(loop := FilterAll(step.loop, ids)), step.(children := FilterAll(step.children, ids));
      SingleStep(x, ids);
      SingleStep(y, ids);
      SelectedAppend([x], [y], ids);
      NoClashAppend([x], [y], ids);
    }
  }

  lemma {:induction false} ClashGrows(steps: seq<Step>, ids: set<string>)
    ensures |Selected(FilterAll(steps, ids), ids)| >= |Selected(steps, ids)|
    ensures !NoClash(steps, ids) ==>
              && |Selected(FilterAll(steps, ids), ids)| > |Selected(steps, ids)|
              && !NoClash(FilterAll(steps, ids), ids)
    decreases steps, 0
  {
    if steps != [] {
      var a, b := FilterOne(steps[0], ids), FilterAll(steps[1..], ids);
      ClashGrowsOne(steps[0], ids);
      ClashGrows(steps[1..], ids);
      SelectedAppend(a, b, ids);
      NoClashAppend(a, b, ids);
    }
  }

  /** The filter keeps every selected subtree exactly once and in order, and is idempotent, exactly when
      no unselected step has selected steps on both sides. */
  lemma FilterExact(steps: seq<Step>, ids: set<string>)
    requires ids != {}
    ensures Selected(Filter(steps, ids), ids) == Selected(steps, ids) <==> NoClash(steps, ids)
    ensures Filter(Filter(steps, ids), ids) == Filter(steps, ids) <==> NoClash(steps, ids)
  {
    ClashGrows(steps, ids);
    if NoClash(steps, ids) {
      NoClashKeeps(steps, ids);
    } else {
      ClashGrows(FilterAll(steps, ids), ids);
    }
  }

  // ---------------------------------------------------------------- where the selected steps are

  datatype Side = InLoop | InChildren
  /** One container on the way down: its id, its branches, and the side taken. */
  datatype Hop = Hop(id: string, branches: seq<Step>, side: Side)
  datatype Spot = Spot(path: seq<Hop>, step: Step)

  /** The selected steps, each with the containers around it. */
  function SpotsOne(step: Step, ids: set<string>, path: seq<Hop>): seq<Spot>
    decreases step, 1
  {
    if step.id in ids then [Spot(path, step)]
    else
      Spots(step.loop, ids, path + [Hop(step.id, step.branches, InLoop)]) +
      Spots(step.children, ids, path + [Hop(step.id, step.branches, InChildren)])
  }

  function Spots(steps: seq<Step>, ids: set<string>, path: seq<Hop>): seq<Spot>
    decreases steps, 0
  {
    if steps == [] then [] else SpotsOne(steps[0], ids, path) + Spots(steps[1..], ids, path)
  }

  lemma {:induction false} SpotsLength(steps: seq<Step>, ids: set<string>, path: seq<Hop>)
    ensures |Spots(steps, ids, path)| == |Selected(steps, ids)|
    decreases steps
  {
    if steps != [] {
      var s := steps[0];
      SpotsLength(s.loop, ids, path + [Hop(s.id, s.branches, InLoop)]);
      SpotsLength(s.children, ids, path + [Hop(s.id, s.branches, InChildren)]);
      SpotsLength(steps[1..], ids, path);
    }
  }

  lemma {:induction false} SpotsAppend(a: seq<Step>, b: seq<Step>, ids: set<string>, path: seq<Hop>)
    ensures Spots(a + b, ids, path) == Spots(a, ids, path) + Spots(b, ids, path)
    decreases |a|
  {
    if a == [] {
      assert a + b == b;
    } else {
      SpotsAppend(a[1..], b, ids, path);
      assert (a + b)[1..] == a[1..] + b && (a + b)[0] == a[0];
    }
  }

  lemma SpotsSingle(step: Step, ids: set<string>, path: seq<Hop>)
    ensures Spots([step], ids, path) == SpotsOne(step, ids, path)
  {
    assert [step][1..] == [];
  }

  lemma {:induction false} SpotsKeptOne(step: Step, ids: set<string>, path: seq<Hop>)
    requires NoClashOne(step, ids)
    ensures Spots(FilterOne(step, ids), ids, path) == SpotsOne(step, ids, path)
    decreases step, 1
  {
    if step.id in ids {
      SpotsSingle(step, ids, path);
    } else {
      var inLoop := path + [Hop(step.id, step.branches, InLoop)];
      var inChildren := path + [Hop(step.id, step.branches, InChildren)];
      SpotsKept(step.loop, ids, inLoop);
      SpotsKept(step.children, ids, inChildren);
      SpotsLength(step.loop, ids, inLoop);
      SpotsLength(step.children, ids, inChildren);
      KeptIffSelected(step.loop, ids);
      KeptIffSelected(step.children, ids);
      SpotsSingle(step.(loop := FilterAll(step.loop, ids)), ids, path);
      SpotsSingle(step.(children := FilterAll(step.children, ids)), ids, path);
    }
  }

  lemma {:induction false} SpotsKept(steps: seq<Step>, ids: set<string>, path: seq<Hop>)
    requires NoClash(steps, ids)
    ensures Spots(FilterAll(steps, ids), ids, path) == Spots(steps, ids, path)
    decreases steps, 0
  {
    if steps != [] {
      SpotsKeptOne(steps[0], ids, path);
      SpotsKept(steps[1..], ids, path);
      SpotsAppend(FilterOne(steps[0], ids), FilterAll(steps[1..], ids), ids, path);
    }
  }

  /** Every selected step stays where it was, in the same containers and on the same side of each, exactly
      when no unselected step has selected steps on both sides. */
  lemma SpotsExact(steps: seq<Step>, ids: set<string>)
    requires ids != {}
    ensures Spots(Filter(steps, ids), ids, []) == Spots(steps, ids, []) <==> NoClash(steps, ids)
  {
    if NoClash(steps, ids) {
      SpotsKept(steps, ids, []);
    } else {
      ClashGrows(steps, ids);
      SpotsLength(steps, ids, []);
      SpotsLength(FilterAll(steps, ids), ids, []);
    }
  }

  /** What a clash does: the step comes out twice, first with its children as they were, then with its loop
      as it was; if neither side clashes within, all its selected steps come out twice, in place. */
  lemma ClashDoubles(step: Step, ids: set<string>, path: seq<Hop>)
    requires step.id !in ids && Selected(step.loop, ids) != [] && Selected(step.children, ids) != []
    ensures var f := FilterAll([step], ids);
            && |f| == 2 && IsCopy(step, f[0]) && IsCopy(step, f[1])
            && f[0].children == step.children && f[1].loop == step.loop
            && (NoClash(step.loop, ids) && NoClash(step.children, ids) ==>
                 && Spots(f[..1], ids, path) == SpotsOne(step, ids, path)
                 && Spots(f[1..], ids, path) == SpotsOne(step, ids, path)
                 && FilterAll(f[0].loop, ids) == f[0].loop && FilterAll(f[1].children, ids) == f[1].children)
  {
    SingleStep(step, ids);
    KeptIffSelected(step.loop, ids);
    KeptIffSelected(step.children, ids);
    var f := FilterAll([step], ids);
    if NoClash(step.loop, ids) && NoClash(step.children, ids) {
      SpotsKept(step.loop, ids, path + [Hop(step.id, step.branches, InLoop)]);
      SpotsKept(step.children, ids, path + [Hop(step.id, step.branches, InChildren)]);
      NoClashKeeps(step.loop, ids);
      NoClashKeeps(step.children, ids);
      SpotsSingle(f[0], ids, path);
      SpotsSingle(f[1], ids, path);
    }
  }

  /** With or without a clash, what is kept is the selected step itself or copies of a container that differ
      from it in one of loop and children only. */
  lemma {:induction false} KeptAreCopies(steps: seq<Step>, ids: set<string>, x: Step)
    requires x in FilterAll(steps, ids)
    ensures exists step :: step in steps && (if step.id in ids then x == step else IsCopy(step, x))
    decreases |steps|
  {
    var s := steps[0];
    assert s in steps;
    if x !in FilterOne(s, ids) { KeptAreCopies(steps[1..], ids, x); }
  }

  predicate IsCopy(step: Step, x: Step) {
    && x.id == step.id && x.branches == step.branches
    && (x.children == step.children || x.loop == step.loop)
  }

  // ---------------------------------------------------------------- nothing kept in vain

  /** Every unselected step outside the selected subtrees has a selected step below it. */
  predicate PrunedOne(step: Step, ids: set<string>)
    decreases step, 1
  {
    step.id in ids ||
    (SelectedOne(step, ids) != [] && Pruned(step.loop, ids) && Pruned(step.children, ids))
  }

  predicate Pruned(steps: seq<Step>, ids: set<string>)
    decreases steps, 0
  {
    steps == [] || (PrunedOne(steps[0], ids) && Pruned(steps[1..], ids))
  }

  /** A step kept for one side carries the other side along unfiltered; that side must need no pruning. */
  predicate CarriesPrunedOne(step: Step, ids: set<string>)
    decreases step, 1
  {
    step.id in ids ||
    (&& (Selected(step.loop, ids) != [] ==> CarriesPruned(step.loop, ids) && Pruned(step.children, ids))
     && (Selected(step.children, ids) != [] ==> CarriesPruned(step.children, ids) && Pruned(step.loop, ids)))
  }

  predicate CarriesPruned(steps: seq<Step>, ids: set<string>)
    decreases steps, 0
  {
    steps == [] || (CarriesPrunedOne(steps[0], ids) && CarriesPruned(steps[1..], ids))
  }

  lemma {:induction false} PrunedAppend(a: seq<Step>, b: seq<Step>, ids: set<string>)
    ensures Pruned(a + b, ids) <==> Pruned(a, ids) && Pruned(b, ids)
    decreases |a|
  {
    if a == [] {
      assert a + b == b;
    } else {
      PrunedAppend(a[1..], b, ids);
      assert (a + b)[1..] == a[1..] + b;
    }
  }

  lemma {:induction false} PrunedExactOne(step: Step, ids: set<string>)
    ensures Pruned(FilterOne(step, ids), ids) <==> CarriesPrunedOne(step, ids)
    decreases step, 1
  {
    assert forall x :: Pruned([x], ids) == PrunedOne(x, ids) by {
      forall x ensures Pruned([x], ids) == PrunedOne(x, ids) { assert [x][1..] == []; }
    }
    if step.id !in ids {
      PrunedExact(step.loop, ids);
      PrunedExact(step.children, ids);
      KeptIffSelected(step.loop, ids);
      KeptIffSelected(step.children, ids);
      ClashGrows(step.loop, ids);
      ClashGrows(step.children, ids);
      var x, y := step.(loop := FilterAll(step.loop, ids)), step.(children := FilterAll(step.children, ids));
      PrunedAppend([x], [y], ids);
    }
  }

  /** Exactly when what the filter leaves holds no container without a selected step below it. */
  lemma {:induction false} PrunedExact(steps: seq<Step>, ids: set<string>)
    ensures Pruned(FilterAll(steps, ids), ids) <==> CarriesPruned(steps, ids)
    decreases steps, 0
  {
    if steps != [] {
      PrunedExactOne(steps[0], ids);
      PrunedExact(steps[1..], ids);
      PrunedAppend(FilterOne(steps[0], ids), FilterAll(steps[1..], ids), ids);
    }
  }

  /** No step has both loop steps and children, at any depth the filter visits. */
  predicate OneSidedOne(step: Step)
    decreases step, 1
  {
    (step.loop == [] || step.children == []) && OneSided(step.loop) && OneSided(step.children)
  }

  predicate OneSided(steps: seq<Step>)
    decreases steps, 0
  {
    steps == [] || (OneSidedOne(steps[0]) && OneSided(steps[1..]))
  }

  /** On workflows where a step has a loop or children but not both, the filter has all three properties. */
  lemma {:induction false} OneSidedIsFine(steps: seq<Step>, ids: set<string>)
    requires OneSided(steps)
    ensures NoClash(steps, ids) && CarriesPruned(steps, ids)
    decreases steps
  {
    if steps != [] {
      OneSidedIsFine(steps[0].loop, ids);
      OneSidedIsFine(steps[0].children, ids);
      OneSidedIsFine(steps[1..], ids);
    }
  }

  // ---------------------------------------------------------------- condition branches

  /** The selected steps wherever they are: in loops, among children, and inside condition branches. */
  function EverywhereOne(step: Step, ids: set<string>): seq<Step>
    decreases step, 1
  {
    if step.id in ids then [step]
    else Everywhere(step.loop, ids) + Everywhere(step.children, ids) + Everywhere(step.branches, ids)
  }

  function Everywhere(steps: seq<Step>, ids: set<string>): seq<Step>
    decreases steps, 0
  {
    if steps == [] then [] else EverywhereOne(steps[0], ids) + Everywhere(steps[1..], ids)
  }

  /** A step that is dropped, for want of selected steps in loop and children, has none in a branch either. */
  predicate DropsNoneOne(step: Step, ids: set<string>)
    decreases step, 1
  {
    step.id in ids ||
    (if Selected(step.loop, ids) == [] && Selected(step.children, ids) == [] then EverywhereOne(step, ids) == []
     else
       && (Selected(step.loop, ids) != [] ==> DropsNone(step.loop, ids))
       && (Selected(step.children, ids) != [] ==> DropsNone(step.children, ids)))
  }

  predicate DropsNone(steps: seq<Step>, ids: set<string>)
    decreases steps, 0
  {
    steps == [] || (DropsNoneOne(steps[0], ids) && DropsNone(steps[1..], ids))
  }

  lemma {:induction false} EverywhereAppend(a: seq<Step>, b: seq<Step>, ids: set<string>)
    ensures Everywhere(a + b, ids) == Everywhere(a, ids) + Everywhere(b, ids)
    decreases |a|
  {
    if a == [] {
      assert a + b == b;
    } else {
      EverywhereAppend(a[1..], b, ids);
      assert (a + b)[1..] == a[1..] + b && (a + b)[0] == a[0];
      Associative(EverywhereOne(a[0], ids), Everywhere(a[1..], ids), Everywhere(b, ids));
    }
  }

  lemma EverywhereSingle(step: Step, ids: set<string>)
    ensures Everywhere([step], ids) == EverywhereOne(step, ids)
  {
    assert [step][1..] == [];
  }

  /** Without a clash a step can only lose selected steps, and loses some exactly if it drops some. */
  lemma {:induction false} DropsShrinkOne(step: Step, ids: set<string>)
    requires NoClashOne(step, ids)
    ensures DropsNoneOne(step, ids) ==> Everywhere(FilterOne(step, ids), ids) == EverywhereOne(step, ids)
    ensures |Everywhere(FilterOne(step, ids), ids)| <= |EverywhereOne(step, ids)|
    ensures !DropsNoneOne(step, ids) ==> |Everywhere(FilterOne(step, ids), ids)| < |EverywhereOne(step, ids)|
    decreases step, 1
  {
    if step.id in ids {
      EverywhereSingle(step, ids);
    } else {
      DropsShrink(step.loop, ids);
      DropsShrink(step.children, ids);
      KeptIffSelected(step.loop, ids);
      KeptIffSelected(step.children, ids);
      EverywhereSingle(step.(loop := FilterAll(step.loop, ids)), ids);
      EverywhereSingle(step.(children := FilterAll(step.children, ids)), ids);
    }
  }

  lemma {:induction false} DropsShrink(steps: seq<Step>, ids: set<string>)
    requires NoClash(steps, ids)
    ensures DropsNone(steps, ids) ==> Everywhere(FilterAll(steps, ids), ids) == Everywhere(steps, ids)
    ensures |Everywhere(FilterAll(steps, ids), ids)| <= |Everywhere(steps, ids)|
    ensures !DropsNone(steps, ids) ==> |Everywhere(FilterAll(steps, ids), ids)| < |Everywhere(steps, ids)|
    decreases steps, 0
  {
    if steps != [] {
      DropsShrinkOne(steps[0], ids);
      DropsShrink(steps[1..], ids);
      EverywhereAppend(FilterOne(steps[0], ids), FilterAll(steps[1..], ids), ids);
    }
  }

  /** Counting branches too, the selected steps come through unchanged exactly when no dropped step holds
      any: the filter never looks into branches. */
  lemma BranchesExact(steps: seq<Step>, ids: set<string>)
    requires ids != {} && NoClash(steps, ids)
    ensures Everywhere(Filter(steps, ids), ids) == Everywhere(steps, ids) <==> DropsNone(steps, ids)
  {
    DropsShrink(steps, ids);
  }

  /** A condition step whose only selected steps are inside its branches disappears with all of them. */
  lemma BranchStepsLost(step: Step, ids: set<string>)
    requires step.id !in ids && Selected(step.loop, ids) == [] && Selected(step.children, ids) == []
    requires Everywhere(step.branches, ids) != []
    ensures Filter([step], ids) == [] && Everywhere([step], ids) != []
  {
    SingleStep(step, ids);
    EverywhereSingle(step, ids);
    KeptIffSelected(step.loop, ids);
    KeptIffSelected(step.children, ids);
    assert ids != {} by { if ids == {} { NothingSelected(step.branches); assert false; } }
  }

  lemma {:induction false} NothingSelected(steps: seq<Step>)
    ensures Everywhere(steps, {}) == []
    decreases steps
  {
    if steps != [] {
      NothingSelected(steps[0].loop);
      NothingSelected(steps[0].children);
      NothingSelected(steps[0].branches);
      NothingSelected(steps[1..]);
    }
  }

  /** For example: step "a" selected inside a branch of the condition "if". */
  lemma BranchStepLostExample()
    ensures var a := Step("a", [], [], []);
            var condition := Step("if", [], [], [a]);
            Filter([condition], {"a"}) == [] && Everywhere([condition], {"a"}) == [a]
  {
    var a := Step("a", [], [], []);
    var condition := Step("if", [], [], [a]);
    EverywhereSingle(a, {"a"});
    EverywhereSingle(condition, {"a"});
    BranchStepsLost(condition, {"a"});
  }
}
