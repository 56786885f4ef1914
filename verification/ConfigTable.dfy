/** The configuration definition table and its sort operations
    (gulu/internal/logic/config_definition_logic.go, config_logic.go, env_logic.go), proved against
    ConfigDefinitions and ConfigValues. */
module ConfigTable {
  import opened ListMove
  import opened ConfigDefinitions
  import opened ConfigValues
  import Environments

  datatype Outcome = Done | DraggedMissing | TargetMissing

  /** `id` is the live definition with this code in the group. */
  predicate Named(rows: map<int, Definition>, project: int, configType: string, code: string, id: int) {
    InGroup(rows, project, configType, id) && rows[id].code == code
  }

  lemma MovedKeys(s: map<int, int>, d: int, t: int, before: bool)
    requires d in s && t in s
    ensures Moved(s, d, t, before).Keys == s.Keys
  {
    var l := Order(s);
    if MovePlan(s, d, t, before).Rebalance? {
      var m := Spliced(l, IndexOf(l, d), IndexOf(l, t), before);
      SplicedKeepsAll(l, IndexOf(l, d), IndexOf(l, t), before);
      forall x ensures x in m <==> x in s {
        if x in m { assert x in l; assert l[IndexOf(l, x)] in s; }
        if x in s { assert x in l; }
      }
    }
  }

  /** Writing a group's sort values is seen by that group and by no other. */
  lemma GroupAfterWrite(rows: map<int, Definition>, project: int, configType: string, s: map<int, int>)
    requires s.Keys == GroupSorts(rows, project, configType).Keys
    ensures GroupSorts(WithSorts(rows, s), project, configType) == s
    ensures forall p, c :: (p, c) != (project, configType) ==>
              GroupSorts(WithSorts(rows, s), p, c) == GroupSorts(rows, p, c)
  {
    forall p, c | (p, c) != (project, configType)
      ensures GroupSorts(WithSorts(rows, s), p, c) == GroupSorts(rows, p, c)
    {
      assert forall id :: id in s ==> !InGroup(rows, p, c, id);
    }
  }

  /** What the table does to a group is the group's own step. */
  lemma ReorderRefines(rows: map<int, Definition>, project: int, configType: string, d: int, t: int, before: bool)
    requires InGroup(rows, project, configType, d) && InGroup(rows, project, configType, t)
    ensures var s := GroupSorts(rows, project, configType);
            GroupSorts(WithSorts(rows, Moved(s, d, t, before)), project, configType)
            == ConfigDefinitions.Apply(s, ConfigDefinitions.Reorder(d, t, before))
  {
    var s := GroupSorts(rows, project, configType);
    MovedKeys(s, d, t, before);
    GroupAfterWrite(rows, project, configType, Moved(s, d, t, before));
  }

  /** A reorder request, seen in the table: when the group is listed as the abstract move says, that other
      groups keep their sort values, and that only a crowded place makes other rows than the dragged one differ. */
  lemma ReorderInTable(rows: map<int, Definition>, project: int, configType: string, d: int, t: int, before: bool)
    requires InGroup(rows, project, configType, d) && InGroup(rows, project, configType, t) && d != t
    requires AllInt32(GroupSorts(rows, project, configType))
    ensures var s := GroupSorts(rows, project, configType);
            var rows' := WithSorts(rows, Moved(s, d, t, before));
            && (Order(GroupSorts(rows', project, configType)) == Place(Order(s), d, t, before)
                <==> EndFits(s, t, before) && (Crowded(s, d, t, before) ==> SpreadFits(|Order(s)|)))
            && (forall p, c :: (p, c) != (project, configType) ==> GroupSorts(rows', p, c) == GroupSorts(rows, p, c))
            && (!Crowded(s, d, t, before) ==> forall x :: x in rows && x != d ==> rows'[x] == rows[x])
  {
    var s := GroupSorts(rows, project, configType);
    MovedKeys(s, d, t, before);
    MoveOrder(s, d, t, before);
    RebalanceExact(s, d, t, before);
    GroupAfterWrite(rows, project, configType, Moved(s, d, t, before));
  }

  /** A reorder writes sort values of the group, and only those. */
  lemma SortsInGroup(rows: map<int, Definition>, rows': map<int, Definition>, project: int, configType: string,
                     d: int, t: int, before: bool)
    requires InGroup(rows, project, configType, d) && InGroup(rows, project, configType, t)
    requires rows' == WithSorts(rows, Moved(GroupSorts(rows, project, configType), d, t, before))
    ensures rows'.Keys == rows.Keys
    ensures forall x :: x in rows ==> rows'[x] == rows[x].(sort := rows'[x].sort)
    ensures forall x :: x in rows && rows'[x].sort != rows[x].sort ==>
              rows[x].projectId == project && rows[x].configType == configType && !rows[x].isDelete
  {
    MovedKeys(GroupSorts(rows, project, configType), d, t, before);
  }

  lemma CreatedGroup(rows: map<int, Definition>, project: int, configType: string, id: int, code: string, sort: int)
    requires id !in rows
    ensures GroupSorts(rows[id := Definition(project, configType, code, sort, false)], project, configType)
            == GroupSorts(rows, project, configType)[id := sort]
  {
  }

  lemma DeletedGroup(rows: map<int, Definition>, id: int)
    requires id in rows && !rows[id].isDelete
    ensures var p, c := rows[id].projectId, rows[id].configType;
            GroupSorts(rows[id := rows[id].(isDelete := true)], p, c) == GroupSorts(rows, p, c) - {id}
  {
  }

  class ConfigStore {
    var rows: map<int, Definition>
    var envs: map<int, Environments.Env>
    var configs: map<ConfigKey, Config>

    function State(): (s: Store)
      reads this
    {
      Store(rows, envs, configs)
    }

    method FindByCode(project: int, configType: string, code: string) returns (found: bool, id: int)
      ensures found ==> Named(rows, project, configType, code, id)
      ensures !found ==> forall x :: !Named(rows, project, configType, code, x)
    {
      found, id := false, 0;
      var todo := rows.Keys;
      while todo != {}
        invariant todo <= rows.Keys
        invariant forall x :: x in rows && x !in todo ==> !Named(rows, project, configType, code, x)
        decreases todo
      {
        NonEmpty(todo);
        var x :| x in todo;
        if Named(rows, project, configType, code, x) {
          return true, x;
        }
        todo := todo - {x};
      }
    }

    /** Index of the definition with this code, scanning the listing from the front. */
    method IndexOfCode(l: seq<int>, code: string) returns (i: nat)
      requires forall k :: 0 <= k < |l| ==> l[k] in rows
      requires exists k :: 0 <= k < |l| && rows[l[k]].code == code
      ensures i < |l| && rows[l[i]].code == code
    {
      i := 0;
      while rows[l[i]].code != code
        invariant 0 <= i < |l|
        invariant forall k :: 0 <= k < i ==> rows[l[k]].code != code
        decreases |l| - i
      {
        i := i + 1;
      }
    }

    method WriteSort(id: int, sort: int)
      requires id in rows
      modifies this`rows
      ensures rows == old(rows)[id := old(rows)[id].(sort := sort)]
    {
      rows := rows[id := rows[id].(sort := sort)];
    }

    /** Sorts 1000, 2000, ... in list order, one update per row. */
    method SpreadRows(m: seq<int>)
      requires Distinct(m) && forall i :: 0 <= i < |m| ==> m[i] in rows
      modifies this`rows
      ensures rows == WithSorts(old(rows), Spread(m))
    {
      for i := 0 to |m|
        invariant rows.Keys == old(rows).Keys
        invariant forall x :: x in rows ==>
          rows[x]
            == (if x in m[..i] then old(rows)[x].(sort := Int32((IndexOf(m, x) + 1) * SORT_GAP)) else old(rows)[x])
      {
        IndexAt(m, i);
        assert m[..i + 1] == m[..i] + [m[i]];
        WriteSort(m[i], Int32((i + 1) * SORT_GAP));
      }
      assert m[..|m|] == m;
      ghost var want := WithSorts(old(rows), Spread(m));
      assert forall x :: x in rows ==> rows[x] == want[x];
      assert rows == want;
    }

    /** Renumber the whole group with the dragged definition in its new place. */
    method RebalanceSort(project: int, configType: string, d: int, t: int, draggedCode: string, targetCode: string,
                         before: bool)
      requires UniqueCodes(rows)
      requires Named(rows, project, configType, draggedCode, d) && Named(rows, project, configType, targetCode, t)
      requires MovePlan(GroupSorts(rows, project, configType), d, t, before).Rebalance?
      modifies this`rows
      ensures rows == WithSorts(old(rows), Moved(GroupSorts(old(rows), project, configType), d, t, before))
    {
      var s := GroupSorts(rows, project, configType);
      var definitions := OrderBySort(s);
      ListingUnique(s, definitions, Order(s));
      assert d in definitions && t in definitions;
      assert rows[definitions[IndexOf(definitions, d)]].code == draggedCode;
      assert rows[definitions[IndexOf(definitions, t)]].code == targetCode;
      var draggedIdx := IndexOfCode(definitions, draggedCode);
      var targetIdx := IndexOfCode(definitions, targetCode);
      IndexAt(definitions, draggedIdx);
      IndexAt(definitions, targetIdx);
      var a := new int[|definitions|](i requires 0 <= i < |definitions| => definitions[i]);
      assert a[..] == definitions;
      var ok := SpliceInPlace(a, draggedIdx, targetIdx, before);
      assert ok;
      SplicedKeepsAll(definitions, draggedIdx, targetIdx, before);
      forall i | 0 <= i < a.Length ensures a[i] in rows {
        var x := a[..][i];
        assert x in a[..];
        assert definitions[IndexOf(definitions, x)] in s;
      }
      SpreadRows(a[..]);
    }

    method UpdateSort(project: int, configType: string, code: string, targetCode: string, position: string)
      returns (outcome: Outcome)
      requires UniqueCodes(rows)
      modifies this`rows
      ensures outcome.DraggedMissing? <==> forall x :: !Named(old(rows), project, configType, code, x)
      ensures outcome.TargetMissing? <==>
                !outcome.DraggedMissing? && forall x :: !Named(old(rows), project, configType, targetCode, x)
      ensures !outcome.Done? ==> rows == old(rows)
      // on the fields: sort values of live definitions of the project and type, and nothing else
      ensures rows.Keys == old(rows).Keys
      ensures forall x :: x in rows ==> rows[x] == old(rows)[x].(sort := rows[x].sort)
      ensures forall x :: x in rows && rows[x].sort != old(rows)[x].sort ==>
                rows[x].projectId == project && rows[x].configType == configType && !rows[x].isDelete
      ensures outcome.Done? ==>
        forall d, t ::
          Named(old(rows), project, configType, code, d) && Named(old(rows), project, configType, targetCode, t) ==>
          && rows == WithSorts(old(rows), Moved(GroupSorts(old(rows), project, configType), d, t, position == "before"))
          && State() == Do(old(State()), ConfigValues.Reorder(project, configType, d, t, position == "before"))
      ensures outcome.Done? ==> exists t :: Named(old(rows), project, configType, targetCode, t)
      ensures UniqueCodes(rows)
    {
      var foundD, d := FindByCode(project, configType, code);
      if !foundD {
        return DraggedMissing;
      }
      var foundT, t := FindByCode(project, configType, targetCode);
      if !foundT {
        return TargetMissing;
      }
      var before := position == "before";
      ApplyMove(project, configType, d, t, code, targetCode, before);
      outcome := Done;
      SortsInGroup(old(rows), rows, project, configType, d, t, before);
    }

    /** What to do, from the listing of the group and the target's place in it. */
    method ChoosePlan(project: int, configType: string, d: int, t: int, targetCode: string, before: bool)
      returns (plan: Plan)
      requires UniqueCodes(rows)
      requires InGroup(rows, project, configType, d) && Named(rows, project, configType, targetCode, t)
      ensures plan == MovePlan(GroupSorts(rows, project, configType), d, t, before)
    {
      var s := GroupSorts(rows, project, configType);
      var definitions := OrderBySort(s);
      ListingUnique(s, definitions, Order(s));
      assert t in definitions;
      assert rows[definitions[IndexOf(definitions, t)]].code == targetCode;
      var targetIdx := IndexOfCode(definitions, targetCode);
      IndexAt(definitions, targetIdx);
      assert definitions[targetIdx] == t;
      plan := PlanMove(s, definitions, targetIdx, d, before);
    }

    method ApplyMove(project: int, configType: string, d: int, t: int, code: string, targetCode: string, before: bool)
      requires UniqueCodes(rows)
      requires Named(rows, project, configType, code, d) && Named(rows, project, configType, targetCode, t)
      modifies this`rows
      ensures rows == WithSorts(old(rows), Moved(GroupSorts(old(rows), project, configType), d, t, before))
    {
      ghost var s := GroupSorts(rows, project, configType);
      var plan := ChoosePlan(project, configType, d, t, targetCode, before);
      match plan
      case Keep =>
        assert rows == WithSorts(rows, s);
      case SetSort(v) =>
        WriteSort(d, v);
        assert rows == WithSorts(old(rows), s[d := v]);
      case Rebalance =>
        RebalanceSort(project, configType, d, t, code, targetCode, before);
    }

    method GetNextSort(project: int, configType: string) returns (sort: int)
      ensures sort == NextSort(GroupSorts(rows, project, configType))
      ensures var s := GroupSorts(rows, project, configType);
              && (s == map[] ==> sort == SORT_GAP)
              && (s != map[] ==> exists x :: x in s && sort == Int32(s[x] + SORT_GAP))
              && ((forall x :: x in s ==> s[x] <= MAX_INT32 - SORT_GAP && -0x8000_0000 <= s[x]) ==>
                  forall x :: x in s ==> s[x] + SORT_GAP <= sort)
    {
      var s := GroupSorts(rows, project, configType);
      NextSortAbove(s);
      var l := OrderBySort(s);
      ListingUnique(s, l, Order(s));
      sort := if |l| == 0 then SORT_GAP else Int32(s[l[|l| - 1]] + SORT_GAP);
    }

    method FindEnvs(project: int) returns (ids: seq<int>)
      ensures forall e :: e in ids <==> Environments.Live(envs, e) && envs[e].projectId == project
    {
      ids := [];
      var todo := envs.Keys;
      while todo != {}
        invariant todo <= envs.Keys
        invariant forall e :: e in ids <==> e !in todo && Environments.Live(envs, e) && envs[e].projectId == project
        decreases todo
      {
        NonEmpty(todo);
        var e :| e in todo;
        if Environments.Live(envs, e) && envs[e].projectId == project {
          ids := ids + [e];
        }
        todo := todo - {e};
      }
    }

    /** One row per environment, in any order. */
    method AddRows(ids: seq<int>, code: string, row: Config)
      modifies this`configs
      ensures forall p :: p in configs <==> p in old(configs) || (p.code == code && p.envId in ids)
      ensures forall p :: p in configs ==>
                configs[p] == if p.code == code && p.envId in ids then row else old(configs)[p]
    {
      for i := 0 to |ids|
        invariant forall p :: p in configs <==> p in old(configs) || (p.code == code && p.envId in ids[..i])
        invariant forall p :: p in configs ==>
                    configs[p] == if p.code == code && p.envId in ids[..i] then row else old(configs)[p]
      {
        assert ids[..i + 1] == ids[..i] + [ids[i]];
        configs := configs[ConfigKey(ids[i], code) := row];
      }
      assert ids[..|ids|] == ids;
    }

    /** `id` and `code` are the key the database assigns and the fresh uuid. */
    method Create(project: int, configType: string, id: int, code: string)
      requires Can(State(), AddDefinition(project, configType, id, code))
      modifies this`rows, this`configs
      ensures State() == Do(old(State()), AddDefinition(project, configType, id, code))
      ensures Inv(old(State())) ==> Inv(State())
      ensures var s := GroupSorts(old(rows), project, configType);
              rows == old(rows)[id := Definition(project, configType, code, NextSort(s), false)] &&
              GroupSorts(rows, project, configType) == ConfigDefinitions.Apply(s, ConfigDefinitions.Create(id))
    {
      if Inv(State()) { StepInv(State(), AddDefinition(project, configType, id, code)); }
      var sort := GetNextSort(project, configType);
      CreatedGroup(rows, project, configType, id, code, sort);
      rows := rows[id := Definition(project, configType, code, sort, false)];
      var ids := FindEnvs(project);
      var row := Config(project, configType, DefaultValue(configType));
      AddRows(ids, code, row);
      AddedRows(old(configs), configs, envs, project, configType, code, ids, row);
    }

    method FindLiveCode(code: string) returns (found: bool, id: int)
      ensures found ==> id in rows && rows[id].code == code && !rows[id].isDelete
      ensures !found ==> forall x :: x in rows && rows[x].code == code ==> rows[x].isDelete
    {
      found, id := false, 0;
      var todo := rows.Keys;
      while todo != {}
        invariant todo <= rows.Keys
        invariant forall x :: x in rows && x !in todo && rows[x].code == code ==> rows[x].isDelete
        decreases todo
      {
        NonEmpty(todo);
        var x :| x in todo;
        if rows[x].code == code && !rows[x].isDelete {
          return true, x;
        }
        todo := todo - {x};
      }
    }

    method Delete(code: string) returns (found: bool, id: int)
      requires UniqueCodes(rows)
      modifies this`rows, this`configs
      ensures State() == Changed(old(State()), RemoveDefinition(code))
      ensures Inv(old(State())) ==> Inv(State())
      ensures found <==> exists x :: x in old(rows) && old(rows)[x].code == code && !old(rows)[x].isDelete
      ensures found ==>
        && id in old(rows) && old(rows)[id].code == code && !old(rows)[id].isDelete
        && rows == old(rows)[id := old(rows)[id].(isDelete := true)]
        && var p, c := old(rows)[id].projectId, old(rows)[id].configType;
           GroupSorts(rows, p, c) ==
           ConfigDefinitions.Apply(GroupSorts(old(rows), p, c), ConfigDefinitions.Delete(id))
      ensures forall p :: p in configs <==> p in old(configs) && !(found && p.code == code)
      ensures forall p :: p in configs ==> configs[p] == old(configs)[p]
    {
      ghost var s := State();
      found, id := FindLiveCode(code);
      if found {
        assert Defines(rows, code, id) && DefinitionOf(rows, code) == id;
        DeletedGroup(rows, id);
        rows := rows[id := rows[id].(isDelete := true)];
        configs := WithoutCode(configs, code);
      }
      assert State() == Changed(s, RemoveDefinition(code));
      if Inv(s) { StepInv(s, RemoveDefinition(code)); }
    }

    /** `value` is what is stored, after encryption of sensitive variables. */
    method UpdateConfigValue(envId: int, code: string, value: string) returns (ok: bool)
      requires UniqueCodes(rows)
      modifies this`configs
      ensures ok <==>
        && envId in envs && !envs[envId].isDelete
        && exists x :: x in rows && rows[x].code == code && !rows[x].isDelete
      ensures ok ==> ConfigKey(envId, code) in configs && configs[ConfigKey(envId, code)].value == value
      ensures forall p :: p != ConfigKey(envId, code) || !ok ==>
                (p in configs <==> p in old(configs)) && (p in configs ==> configs[p] == old(configs)[p])
      ensures State() == Changed(old(State()), SetValue(envId, code, value))
      ensures Inv(old(State())) ==> Inv(State())
    {
      if Inv(State()) { StepInv(State(), SetValue(envId, code, value)); }
      if !Environments.Live(envs, envId) {
        return false;
      }
      var id;
      ok, id := FindLiveCode(code);
      if ok {
        assert Defines(rows, code, id) && DefinitionOf(rows, code) == id;
        var p := ConfigKey(envId, code);
        if p in configs {
          configs := configs[p := configs[p].(value := value)];
        } else {
          configs := configs[p := Config(envs[envId].projectId, rows[id].configType, value)];
        }
        assert id in rows && rows[id].code == code;
      }
    }

    /** `newId` is the key the database assigns to the copy. */
    method CopyEnv(source: int, newId: int) returns (ok: bool)
      requires newId !in envs
      modifies this`envs, this`configs
      ensures ok <==> source in old(envs) && !old(envs)[source].isDelete
      ensures ok ==> envs == old(envs)[newId := old(envs)[source]]
      ensures ok ==> forall code :: ConfigKey(source, code) in old(configs) ==>
                && ConfigKey(newId, code) in configs
                && configs[ConfigKey(newId, code)] == old(configs)[ConfigKey(source, code)]
      ensures State() == Changed(old(State()), ConfigValues.CopyEnv(source, newId))
      ensures Inv(old(State())) ==> Inv(State())
    {
      ghost var s := State();
      ok := Environments.Live(envs, source);
      if ok {
        envs := envs[newId := envs[source]];
        CopyRows(source, newId);
      }
      assert State() == Changed(s, ConfigValues.CopyEnv(source, newId));
      if Inv(s) { StepInv(s, ConfigValues.CopyEnv(source, newId)); }
    }

    method CopyRows(source: int, newId: int)
      requires source != newId
      modifies this`configs
      ensures configs == old(configs) + CopiedRows(old(configs), source, newId)
      ensures forall code :: ConfigKey(source, code) in old(configs) ==>
                && ConfigKey(newId, code) in configs
                && configs[ConfigKey(newId, code)] == old(configs)[ConfigKey(source, code)]
    {
      var todo := set p | p in configs && p.envId == source;
      CopyStarts(configs, source, newId, todo);
      while todo != {}
        invariant todo <= old(configs).Keys && forall p :: p in todo ==> p.envId == source
        invariant configs == CopiedBut(old(configs), source, newId, todo)
        decreases todo
      {
        NonEmptyConfigKeys(todo);
        var p :| p in todo;
        CopyOneMore(old(configs), source, newId, todo, p);
        configs := configs[ConfigKey(newId, p.code) := configs[p]];
        todo := todo - {p};
      }
      CopyEnds(old(configs), source, newId);
      CopiedAll(old(configs), source, newId);
    }

    /** The configuration a workflow runs with: definitions without a row are skipped. */
    method Merge(envId: int) returns (ok: bool, merged: map<string, string>)
      requires UniqueCodes(rows)
      ensures ok <==> envId in envs && !envs[envId].isDelete
      ensures ok ==> forall code :: code in merged ==>
                exists id :: id in rows && !rows[id].isDelete && rows[id].projectId == envs[envId].projectId
                             && rows[id].code == code
      ensures ok ==> forall id :: id in rows && !rows[id].isDelete && rows[id].projectId == envs[envId].projectId ==>
                && (rows[id].code in merged <==> ConfigKey(envId, rows[id].code) in configs)
                && (rows[id].code in merged ==>
                    merged[rows[id].code] == Shown(State(), envId, rows[id].code, rows[id].configType))
      ensures ok && Covered(State()) ==>
        forall id :: id in rows && !rows[id].isDelete && rows[id].projectId == envs[envId].projectId ==>
          rows[id].code in merged
    {
      ok, merged := Environments.Live(envs, envId), map[];
      if ok {
        var todo := set id | id in rows && Applies(State(), envId, id);
        while todo != {}
          invariant forall id :: id in todo ==> Applies(State(), envId, id)
          invariant forall code :: code in merged ==>
                      exists id :: Applies(State(), envId, id) && id !in todo && rows[id].code == code
          invariant forall id :: Applies(State(), envId, id) && id !in todo ==>
                      && (rows[id].code in merged <==> ConfigKey(envId, rows[id].code) in configs)
                      && (rows[id].code in merged ==>
                          merged[rows[id].code] == configs[ConfigKey(envId, rows[id].code)].value)
          decreases todo
        {
          NonEmpty(todo);
          var id :| id in todo;
          var key := ConfigKey(envId, rows[id].code);
          if key in configs {
            merged := merged[key.code := configs[key].value];
          }
          todo := todo - {id};
        }
      }
    }

    /** The listing of an environment: the definitions of its project by sort and id, each with the value
        shown; all types when `configType` is empty. */
    method GetConfigsByEnv(envId: int, configType: string) returns (ok: bool, ids: seq<int>, values: seq<string>)
      ensures ok <==> envId in envs && !envs[envId].isDelete
      ensures ok ==> forall x :: x in ids <==>
                && x in rows && !rows[x].isDelete && rows[x].projectId == envs[envId].projectId
                && (configType == "" || rows[x].configType == configType)
      ensures ok ==> Listing(ListedSorts(rows, envs[envId].projectId, configType), ids) && |values| == |ids|
      ensures ok ==> forall i :: 0 <= i < |ids| ==>
                ids[i] in rows && values[i] == Shown(State(), envId, rows[ids[i]].code, rows[ids[i]].configType)
    {
      ids, values, ok := [], [], Environments.Live(envs, envId);
      if ok {
        var sorts := ListedSorts(rows, envs[envId].projectId, configType);
        ids := OrderBySort(sorts);
        for i := 0 to |ids|
          invariant |values| == i
          invariant forall k :: 0 <= k < i ==>
                      ids[k] in rows && values[k] == Shown(State(), envId, rows[ids[k]].code, rows[ids[k]].configType)
        {
          var x := ids[i];
          assert x in sorts;
          var p := ConfigKey(envId, rows[x].code);
          values := values + [if p in configs then configs[p].value else DefaultValue(rows[x].configType)];
        }
        forall x ensures x in ids <==> x in sorts {
          if x in ids { assert ids[IndexOf(ids, x)] in sorts; }
        }
      }
    }
  }

  /** The rows with the copies of all but those still to do. */
  ghost function CopiedBut(configs: map<ConfigKey, Config>, source: int, newId: int, todo: set<ConfigKey>)
    : map<ConfigKey, Config>
  {
    var copied := CopiedRows(configs, source, newId);
    configs + map p | p in copied && ConfigKey(source, p.code) !in todo :: copied[p]
  }

  lemma CopyStarts(configs: map<ConfigKey, Config>, source: int, newId: int, todo: set<ConfigKey>)
    requires forall p :: p in configs && p.envId == source ==> p in todo
    ensures CopiedBut(configs, source, newId, todo) == configs
  {
    forall p | p in CopiedRows(configs, source, newId) ensures ConfigKey(source, p.code) in todo {
      CopiedRow(configs, source, newId, p.code);
    }
  }

  lemma CopyOneMore(configs: map<ConfigKey, Config>, source: int, newId: int, todo: set<ConfigKey>, p: ConfigKey)
    requires p in todo && p in configs && p.envId == source && newId != source
    ensures var now := CopiedBut(configs, source, newId, todo);
            && p in now && now[p] == configs[p]
            && CopiedBut(configs, source, newId, todo - {p}) == now[ConfigKey(newId, p.code) := configs[p]]
  {
    var now, next := CopiedBut(configs, source, newId, todo), CopiedBut(configs, source, newId, todo - {p});
    var more := now[ConfigKey(newId, p.code) := configs[p]];
    CopiedAt(configs, source, newId, todo, p);
    forall q ensures q in next <==> q in more
             ensures q in next ==> next[q] == more[q]
    {
      CopiedAt(configs, source, newId, todo, q);
      CopiedAt(configs, source, newId, todo - {p}, q);
    }
  }

  /** One place among the copies. */
  lemma CopiedAt(configs: map<ConfigKey, Config>, source: int, newId: int, todo: set<ConfigKey>, q: ConfigKey)
    requires newId != source
    ensures var m, from := CopiedBut(configs, source, newId, todo), ConfigKey(source, q.code);
            && var copied := q.envId == newId && from in configs && from !in todo;
            && (q in m <==> copied || q in configs)
            && (q in m ==> m[q] == if copied then configs[from] else configs[q])
  {
    CopiedRow(configs, source, newId, q.code);
  }

  lemma CopiedAll(configs: map<ConfigKey, Config>, source: int, newId: int)
    ensures var configs' := configs + CopiedRows(configs, source, newId);
            forall code :: ConfigKey(source, code) in configs ==>
              && ConfigKey(newId, code) in configs'
              && configs'[ConfigKey(newId, code)] == configs[ConfigKey(source, code)]
  {
    forall code | ConfigKey(source, code) in configs
      ensures ConfigKey(newId, code) in CopiedRows(configs, source, newId)
      ensures CopiedRows(configs, source, newId)[ConfigKey(newId, code)] == configs[ConfigKey(source, code)]
    {
      CopiedRow(configs, source, newId, code);
    }
  }

  lemma CopyEnds(configs: map<ConfigKey, Config>, source: int, newId: int)
    ensures CopiedBut(configs, source, newId, {}) == configs + CopiedRows(configs, source, newId)
  {
  }

  /** The rows added one by one are the rows of a new definition. */
  lemma AddedRows(configs: map<ConfigKey, Config>, configs': map<ConfigKey, Config>, envs: map<int, Environments.Env>,
                  project: int, configType: string, code: string, ids: seq<int>, row: Config)
    requires row == Config(project, configType, DefaultValue(configType))
    requires forall e :: e in ids <==> Environments.Live(envs, e) && envs[e].projectId == project
    requires forall p :: p in configs' <==> p in configs || (p.code == code && p.envId in ids)
    requires forall p :: p in configs' ==>
               configs'[p] == if p.code == code && p.envId in ids then row else configs[p]
    ensures configs' == configs + NewRows(envs, project, configType, code)
  {
    forall p ensures p in NewRows(envs, project, configType, code) <==> p.code == code && p.envId in ids {
      if p.code == code && p.envId in ids { assert p == ConfigKey(p.envId, code); }
    }
  }

  function ListedSorts(rows: map<int, Definition>, project: int, configType: string): map<int, int> {
    map id | id in rows && rows[id].projectId == project && !rows[id].isDelete
             && (configType == "" || rows[id].configType == configType) :: rows[id].sort
  }

  lemma NonEmptyConfigKeys(s: set<ConfigKey>)
    ensures s == {} || exists p :: p in s
  {
    if forall p: ConfigKey :: p !in s { assert s == {}; }
  }
}
