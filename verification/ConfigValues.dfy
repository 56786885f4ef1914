/** Configuration definitions belong to a project, their values to its environments
    (gulu/internal/logic/config_definition_logic.go, config_logic.go, env_logic.go). What the three tables
    hold after any sequence of operations, and what a reader of an environment sees. */
module ConfigValues {
  import ConfigDefinitions
  import Environments

  datatype Definition = Definition(projectId: int, configType: string, code: string, sort: int, isDelete: bool)

  /** The unique key of a configuration row. */
  datatype ConfigKey = ConfigKey(envId: int, code: string)
  datatype Config = Config(projectId: int, configType: string, value: string)

  datatype Store = Store(
    definitions: map<int, Definition>,
    envs: map<int, Environments.Env>,
    configs: map<ConfigKey, Config>)

  const EMPTY := Store(map[], map[], map[])

  function DefaultValue(configType: string): string {
    if configType == "domain" then "{\"base_url\":\"\",\"headers\":[]}"
    else if configType == "variable" then "{\"value\":\"\"}"
    else if configType == "database" then
      "{\"host\":\"\",\"port\":3306,\"database\":\"\",\"username\":\"\",\"password\":\"\",\"options\":\"\"}"
    else if configType == "mq" then
      "{\"host\":\"\",\"port\":5672,\"username\":\"\",\"password\":\"\",\"vhost\":\"/\",\"options\":\"\"}"
    else "{}"
  }

  predicate InGroup(rows: map<int, Definition>, project: int, configType: string, id: int) {
    id in rows && rows[id].projectId == project && rows[id].configType == configType && !rows[id].isDelete
  }

  function GroupSorts(rows: map<int, Definition>, project: int, configType: string): map<int, int> {
    map id | id in rows && InGroup(rows, project, configType, id) :: rows[id].sort
  }

  /** `rows` with the sort values of `s` written to the ids of `s`. */
  function WithSorts(rows: map<int, Definition>, s: map<int, int>): map<int, Definition> {
    map id | id in rows :: if id in s then rows[id].(sort := s[id]) else rows[id]
  }

  ghost predicate UniqueCodes(rows: map<int, Definition>) {
    forall a, b :: a in rows && b in rows && rows[a].code == rows[b].code ==> a == b
  }

  /** `id` is the live definition with this code. */
  predicate Defines(rows: map<int, Definition>, code: string, id: int) {
    id in rows && rows[id].code == code && !rows[id].isDelete
  }

  ghost predicate Defined(rows: map<int, Definition>, code: string) {
    exists id :: Defines(rows, code, id)
  }

  ghost function DefinitionOf(rows: map<int, Definition>, code: string): (id: int)
    requires Defined(rows, code)
    ensures Defines(rows, code, id)
  {
    var id :| Defines(rows, code, id);
    id
  }

  // ---------------------------------------------------------------- the operations

  datatype Change =
    | AddDefinition(project: int, configType: string, id: int, code: string)
    | RemoveDefinition(code: string)
    | Reorder(project: int, configType: string, dragged: int, target: int, before: bool)
    | AddEnv(envId: int, project: int, sort: int)
    | CopyEnv(source: int, envId: int)
    | RemoveEnv(envId: int)
    | SetValue(envId: int, code: string, value: string)

  /** Ids and codes handed out are new; what an operation looks up is there. */
  ghost predicate Can(s: Store, c: Change) {
    match c
    case AddDefinition(_, _, id, code) =>
      id !in s.definitions && forall x :: x in s.definitions ==> s.definitions[x].code != code
    case RemoveDefinition(code) => Defined(s.definitions, code)
    case Reorder(p, t, d, g, _) => InGroup(s.definitions, p, t, d) && InGroup(s.definitions, p, t, g)
    case AddEnv(e, _, _) => e !in s.envs
    case CopyEnv(source, e) => Environments.Live(s.envs, source) && e !in s.envs
    case RemoveEnv(e) => e in s.envs
    case SetValue(e, code, _) => Environments.Live(s.envs, e) && Defined(s.definitions, code)
  }

  /** A default row for every live environment of the project. */
  ghost function NewRows(envs: map<int, Environments.Env>, project: int, configType: string, code: string)
    : map<ConfigKey, Config>
  {
    map e | e in envs && Environments.Live(envs, e) && envs[e].projectId == project
      :: ConfigKey(e, code) := Config(project, configType, DefaultValue(configType))
  }

  function WithoutCode(configs: map<ConfigKey, Config>, code: string): map<ConfigKey, Config> {
    map p | p in configs && p.code != code :: configs[p]
  }

  ghost function CopiedRows(configs: map<ConfigKey, Config>, source: int, e: int): map<ConfigKey, Config> {
    map p | p in configs && p.envId == source :: ConfigKey(e, p.code) := configs[p]
  }

  ghost function Do(s: Store, c: Change): Store
    requires Can(s, c)
  {
    match c
    case AddDefinition(p, t, id, code) =>
      var sort := ConfigDefinitions.NextSort(GroupSorts(s.definitions, p, t));
      s.(definitions := s.definitions[id := Definition(p, t, code, sort, false)],
         configs := s.configs + NewRows(s.envs, p, t, code))
    case RemoveDefinition(code) =>
      var id := DefinitionOf(s.definitions, code);
      s.(definitions := s.definitions[id := s.definitions[id].(isDelete := true)],
         configs := WithoutCode(s.configs, code))
    case Reorder(p, t, d, g, before) =>
      var sorts := ConfigDefinitions.Moved(GroupSorts(s.definitions, p, t), d, g, before);
      s.(definitions := WithSorts(s.definitions, sorts))
    case AddEnv(e, p, sort) => s.(envs := s.envs[e := Environments.Env(p, sort, false)])
    case CopyEnv(source, e) =>
      s.(envs := s.envs[e := s.envs[source]], configs := s.configs + CopiedRows(s.configs, source, e))
    case RemoveEnv(e) => s.(envs := s.envs[e := s.envs[e].(isDelete := true)])
    case SetValue(e, code, v) =>
      var p, d := ConfigKey(e, code), s.definitions[DefinitionOf(s.definitions, code)];
      var row := if p in s.configs then s.configs[p] else Config(s.envs[e].projectId, d.configType, "");
      s.(configs := s.configs[p := row.(value := v)])
  }

  /** An operation that finds nothing to work on reports an error and changes nothing. */
  ghost function Changed(s: Store, c: Change): Store {
    if Can(s, c) then Do(s, c) else s
  }

  function Front(run: seq<Change>): seq<Change>
    requires run != []
  {
    run[..|run| - 1]
  }

  function Last(run: seq<Change>): Change
    requires run != []
  {
    run[|run| - 1]
  }

  ghost function After(run: seq<Change>): Store
    decreases |run|
  {
    if run == [] then EMPTY else Changed(After(Front(run)), Last(run))
  }

  // ---------------------------------------------------------------- no value without its definition

  /** The row at `p` belongs to a live definition of the row's type. */
  ghost predicate Belongs(s: Store, p: ConfigKey)
    requires p in s.configs
  {
    exists id :: Defines(s.definitions, p.code, id) && s.definitions[id].configType == s.configs[p].configType
  }

  ghost predicate Inv(s: Store) {
    && UniqueCodes(s.definitions)
    && forall p :: p in s.configs ==>
         p.envId in s.envs && Belongs(s, p) && s.configs[p].projectId == s.envs[p.envId].projectId
  }

  /** No operation but its own changes what defines a code. */
  lemma DefinitionKept(s: Store, c: Change, id: int)
    requires Can(s, c) && id in s.definitions
    ensures id in Do(s, c).definitions
    ensures var d, d' := s.definitions[id], Do(s, c).definitions[id];
            && d' == d.(sort := d'.sort, isDelete := d'.isDelete)
            && (d'.isDelete <==> d.isDelete || (c.RemoveDefinition? && id == DefinitionOf(s.definitions, c.code)))
  {
  }

  lemma CodesStayUnique(s: Store, c: Change)
    requires Can(s, c) && UniqueCodes(s.definitions)
    ensures UniqueCodes(Do(s, c).definitions)
  {
    var rows, rows' := s.definitions, Do(s, c).definitions;
    forall a, b | a in rows' && b in rows' && rows'[a].code == rows'[b].code ensures a == b {
      if a in rows { DefinitionKept(s, c, a); }
      if b in rows { DefinitionKept(s, c, b); }
    }
  }

  /** A row that was there still belongs, unless its definition was removed. */
  lemma StillBelongs(s: Store, c: Change, p: ConfigKey, kind: string)
    requires Can(s, c) && UniqueCodes(s.definitions)
    requires exists id :: Defines(s.definitions, p.code, id) && s.definitions[id].configType == kind
    requires c.RemoveDefinition? ==> c.code != p.code
    ensures exists id :: Defines(Do(s, c).definitions, p.code, id) && Do(s, c).definitions[id].configType == kind
  {
    var id :| Defines(s.definitions, p.code, id) && s.definitions[id].configType == kind;
    DefinitionKept(s, c, id);
    assert Defines(Do(s, c).definitions, p.code, id);
  }

  lemma RowBelongs(s: Store, c: Change, p: ConfigKey)
    requires Inv(s) && Can(s, c) && p in Do(s, c).configs
    ensures p.envId in Do(s, c).envs && Belongs(Do(s, c), p)
    ensures Do(s, c).configs[p].projectId == Do(s, c).envs[p.envId].projectId
  {
    var s' := Do(s, c);
    if c.AddDefinition? && p in NewRows(s.envs, c.project, c.configType, c.code) {
      assert Defines(s'.definitions, p.code, c.id);
    } else if c.CopyEnv? && p in CopiedRows(s.configs, c.source, c.envId) {
      assert Belongs(s, ConfigKey(c.source, p.code));
      StillBelongs(s, c, p, s'.configs[p].configType);
    } else if c.SetValue? && p !in s.configs {
      var id := DefinitionOf(s.definitions, c.code);
      StillBelongs(s, c, p, s.definitions[id].configType);
    } else {
      assert Belongs(s, p);
      StillBelongs(s, c, p, s.configs[p].configType);
    }
  }

  lemma StepInv(s: Store, c: Change)
    requires Inv(s)
    ensures Inv(Changed(s, c))
  {
    if Can(s, c) {
      CodesStayUnique(s, c);
      forall p | p in Do(s, c).configs
        ensures p.envId in Do(s, c).envs && Belongs(Do(s, c), p)
        ensures Do(s, c).configs[p].projectId == Do(s, c).envs[p.envId].projectId
      {
        RowBelongs(s, c, p);
      }
    }
  }

  /** After every run each configuration row belongs to an environment and to a live definition of its type. */
  lemma {:induction false} InvHolds(run: seq<Change>)
    ensures Inv(After(run))
    decreases |run|
  {
    if run != [] {
      InvHolds(Front(run));
      StepInv(After(Front(run)), Last(run));
    }
  }

  lemma RowHasOwners(run: seq<Change>, p: ConfigKey)
    requires p in After(run).configs
    ensures var s := After(run);
            && p.envId in s.envs && s.configs[p].projectId == s.envs[p.envId].projectId
            && exists id :: id in s.definitions && !s.definitions[id].isDelete && s.definitions[id].code == p.code
                            && s.definitions[id].configType == s.configs[p].configType
  {
    InvHolds(run);
    assert Belongs(After(run), p);
    var id :| Defines(After(run).definitions, p.code, id)
              && After(run).definitions[id].configType == After(run).configs[p].configType;
  }

  /** Rows are added for environments that are not deleted, by a new definition only in its own project and
      with the default; rows vanish with their definition only, and no value changes but the one that is set. */
  lemma RowChanges(s: Store, c: Change, p: ConfigKey)
    requires Inv(s)
    ensures var s' := Changed(s, c);
            && (p in s'.configs && p !in s.configs ==>
                 && p.envId in s'.envs && !s'.envs[p.envId].isDelete
                 && (c.AddDefinition? ==> s'.envs[p.envId].projectId == c.project && p.code == c.code
                                          && s'.configs[p].value == DefaultValue(c.configType))
                 && (c.AddDefinition? || (c.CopyEnv? && c.envId == p.envId)
                     || (c.SetValue? && c.envId == p.envId && c.code == p.code)))
            && (p in s.configs && p !in s'.configs ==> c == RemoveDefinition(p.code))
            && (p in s.configs && p in s'.configs ==>
                 s'.configs[p] == s.configs[p].(value := s'.configs[p].value)
                 && (s'.configs[p].value != s.configs[p].value ==> c == SetValue(p.envId, p.code, s'.configs[p].value)))
  {
    assert p in s.configs ==> Belongs(s, p);
  }

  // ---------------------------------------------------------------- what there is

  /** Some step of the run was `c` and was carried out. */
  ghost predicate Done(run: seq<Change>, c: Change)
    decreases |run|
  {
    run != [] && (Done(Front(run), c) || (Last(run) == c && Can(After(Front(run)), c)))
  }

  predicate Makes(c: Change, e: int) {
    (c.AddEnv? || c.CopyEnv?) && c.envId == e
  }

  /** The environment was created or copied in the run. */
  ghost predicate EnvMade(run: seq<Change>, e: int)
    decreases |run|
  {
    run != [] && (EnvMade(Front(run), e) || (Makes(Last(run), e) && Can(After(Front(run)), Last(run))))
  }

  /** The project it was created in, or the one its source was, and so on. */
  ghost function EnvProject(run: seq<Change>, e: int): int
    requires EnvMade(run, e)
    decreases |run|
  {
    if EnvMade(Front(run), e) then EnvProject(Front(run), e)
    else if Last(run).AddEnv? then Last(run).project
    else if EnvMade(Front(run), Last(run).source) then EnvProject(Front(run), Last(run).source)
    else 0
  }

  lemma EnvStep(s: Store, c: Change, e: int)
    ensures e in s.envs ==>
              && e in Changed(s, c).envs && Changed(s, c).envs[e].projectId == s.envs[e].projectId
              && (Changed(s, c).envs[e].isDelete <==> s.envs[e].isDelete || (c == RemoveEnv(e)))
              && !(Can(s, c) && (c.AddEnv? || c.CopyEnv?) && c.envId == e)
    ensures e !in s.envs ==>
              && (e in Changed(s, c).envs <==> Can(s, c) && (c.AddEnv? || c.CopyEnv?) && c.envId == e)
              && (e in Changed(s, c).envs ==>
                    && !Changed(s, c).envs[e].isDelete
                    && (c.AddEnv? ==> Changed(s, c).envs[e].projectId == c.project)
                    && (c.CopyEnv? ==>
                          c.source in s.envs && Changed(s, c).envs[e].projectId == s.envs[c.source].projectId))
  {
  }

  /** An environment is there exactly if it was created or copied; it is deleted exactly if it was removed
      since; and it stays in its project. */
  lemma {:induction false} EnvExact(run: seq<Change>, e: int)
    ensures e in After(run).envs <==> EnvMade(run, e)
    ensures Done(run, RemoveEnv(e)) ==> e in After(run).envs
    ensures e in After(run).envs ==>
              && (After(run).envs[e].isDelete <==> Done(run, RemoveEnv(e)))
              && After(run).envs[e].projectId == EnvProject(run, e)
    decreases |run|
  {
    if run != [] {
      EnvExact(Front(run), e);
      EnvStep(After(Front(run)), Last(run), e);
      if Last(run).CopyEnv? { EnvExact(Front(run), Last(run).source); }
    }
  }

  /** The definition was created in the run, with this project, type and code. */
  ghost predicate Added(run: seq<Change>, id: int, project: int, configType: string, code: string) {
    Done(run, AddDefinition(project, configType, id, code))
  }

  lemma DefinitionStep(s: Store, c: Change, id: int)
    ensures id in s.definitions ==>
              && id in Changed(s, c).definitions
              && !(c.AddDefinition? && Can(s, c) && c.id == id)
    ensures id !in s.definitions ==>
              (id in Changed(s, c).definitions <==> c.AddDefinition? && Can(s, c) && c.id == id)
    ensures id !in s.definitions && id in Changed(s, c).definitions ==>
              var d := Changed(s, c).definitions[id];
              !d.isDelete && c == AddDefinition(d.projectId, d.configType, id, d.code)
  {
  }

  /** A code that was removed still has its row, and no definition is added under it again. */
  lemma {:induction false} RemovedHasRow(run: seq<Change>, code: string)
    requires Done(run, RemoveDefinition(code))
    ensures exists x :: x in After(run).definitions && After(run).definitions[x].code == code
    decreases |run|
  {
    var s, c := After(Front(run)), Last(run);
    var x: int;
    if Done(Front(run), RemoveDefinition(code)) {
      RemovedHasRow(Front(run), code);
      x :| x in s.definitions && s.definitions[x].code == code;
    } else {
      x := DefinitionOf(s.definitions, code);
    }
    if Can(s, c) { DefinitionKept(s, c, x); }
    assert x in After(run).definitions && After(run).definitions[x].code == code;
  }

  /** A definition is there exactly if it was added, with the project, type and code it was added with; it is
      deleted exactly if its code was removed since. */
  lemma {:induction false} DefinitionExact(run: seq<Change>, id: int)
    ensures id in After(run).definitions ==>
              var d := After(run).definitions[id];
              && Added(run, id, d.projectId, d.configType, d.code)
              && (d.isDelete <==> Done(run, RemoveDefinition(d.code)))
    ensures id !in After(run).definitions ==> forall p, t, code :: !Added(run, id, p, t, code)
    decreases |run|
  {
    if run != [] {
      var s, c := After(Front(run)), Last(run);
      DefinitionExact(Front(run), id);
      DefinitionStep(s, c, id);
      InvHolds(Front(run));
      forall p, t, code
        ensures Added(run, id, p, t, code) <==>
                  Added(Front(run), id, p, t, code) || (c == AddDefinition(p, t, id, code) && Can(s, c))
      {
      }
      if id in s.definitions {
        if Can(s, c) { DefinitionKept(s, c, id); }
        if c == RemoveDefinition(s.definitions[id].code) && !s.definitions[id].isDelete {
          assert Defines(s.definitions, c.code, id);
        }
      } else if id in After(run).definitions && Done(Front(run), RemoveDefinition(c.code)) {
        RemovedHasRow(Front(run), c.code);
        assert false;
      }
    }
  }

  // ---------------------------------------------------------------- what an environment shows

  /** The value listed for a definition: the row's, or the default when there is no row. */
  function Shown(s: Store, e: int, code: string, configType: string): string {
    if ConfigKey(e, code) in s.configs then s.configs[ConfigKey(e, code)].value else DefaultValue(configType)
  }

  /** The last value set for the code in the environment or, before it was copied, in the one it was copied
      from. */
  ghost function LastWritten(run: seq<Change>, e: int, code: string, configType: string): string
    decreases |run|
  {
    if run == [] then DefaultValue(configType)
    else
      var c := Last(run);
      if c.SetValue? && Can(After(Front(run)), c) && c.envId == e && c.code == code then c.value
      else if c.CopyEnv? && Can(After(Front(run)), c) && c.envId == e then
        LastWritten(Front(run), c.source, code, configType)
      else LastWritten(Front(run), e, code, configType)
  }

  /** Nothing is written for a code that has no definition yet. */
  lemma {:induction false} NeverWritten(run: seq<Change>, e: int, code: string, configType: string)
    requires forall x :: x in After(run).definitions ==> After(run).definitions[x].code != code
    ensures LastWritten(run, e, code, configType) == DefaultValue(configType)
    decreases |run|
  {
    if run != [] {
      var s, c := After(Front(run)), Last(run);
      forall x | x in s.definitions ensures s.definitions[x].code != code {
        if Can(s, c) { DefinitionKept(s, c, x); }
        assert x in After(run).definitions;
      }
      NeverWritten(Front(run), e, code, configType);
      if c.CopyEnv? { NeverWritten(Front(run), c.source, code, configType); }
    }
  }

  /** The effect of one operation on what is shown for a definition that was there before and still is. */
  lemma StepShown(s: Store, c: Change, e: int, id: int)
    requires Inv(s) && Can(s, c) && id in s.definitions && !s.definitions[id].isDelete
    requires id in Do(s, c).definitions && !Do(s, c).definitions[id].isDelete
    ensures var d := s.definitions[id];
            Shown(Do(s, c), e, d.code, d.configType) ==
            if c.SetValue? && c.envId == e && c.code == d.code then c.value
            else Shown(s, if c.CopyEnv? && c.envId == e then c.source else e, d.code, d.configType)
  {
    var d, p := s.definitions[id], ConfigKey(e, s.definitions[id].code);
    match c
    case AddDefinition(_, _, _, _) =>
    case RemoveDefinition(code) =>
      DefinitionKept(s, c, id);
      assert code != d.code;
    case CopyEnv(source, e') =>
      if e' == e { assert p !in s.configs; CopiedRow(s.configs, source, e, d.code); }
    case _ =>
  }

  lemma CopiedRow(configs: map<ConfigKey, Config>, source: int, e: int, code: string)
    ensures ConfigKey(e, code) in CopiedRows(configs, source, e) <==> ConfigKey(source, code) in configs
    ensures ConfigKey(source, code) in configs ==>
              CopiedRows(configs, source, e)[ConfigKey(e, code)] == configs[ConfigKey(source, code)]
  {
    if ConfigKey(source, code) in configs {
      var p := ConfigKey(source, code);
      assert p.envId == source && ConfigKey(e, p.code) == ConfigKey(e, code);
    }
  }

  /** A definition just added is shown with its default everywhere. */
  lemma NewShown(s: Store, c: Change, e: int)
    requires Inv(s) && c.AddDefinition? && Can(s, c)
    ensures Shown(Do(s, c), e, c.code, c.configType) == DefaultValue(c.configType)
  {
    assert ConfigKey(e, c.code) in s.configs ==> Belongs(s, ConfigKey(e, c.code));
  }

  /** After every run, each environment shows for each live definition the last value written there, directly
      or before it was copied, and the default if there was none: whether a row was created in advance makes
      no difference. */
  lemma {:induction false} LastWriteShown(run: seq<Change>, e: int, id: int)
    requires id in After(run).definitions && !After(run).definitions[id].isDelete
    ensures var d := After(run).definitions[id];
            Shown(After(run), e, d.code, d.configType) == LastWritten(run, e, d.code, d.configType)
    decreases |run|
  {
    var s, c := After(Front(run)), Last(run);
    InvHolds(Front(run));
    if !Can(s, c) {
      LastWriteShown(Front(run), e, id);
    } else if id in s.definitions {
      DefinitionKept(s, c, id);
      StepShown(s, c, e, id);
      LastWriteShown(Front(run), e, id);
      if c.CopyEnv? { LastWriteShown(Front(run), c.source, id); }
    } else {
      NewShown(s, c, e);
      NeverWritten(Front(run), e, c.code, c.configType);
    }
  }

  // ---------------------------------------------------------------- when every environment has all its rows

  /** Every live environment has a row for every live definition of its project, so that none is skipped when
      the configuration of a workflow run is put together. */
  ghost predicate Covered(s: Store) {
    forall e, id :: Environments.Live(s.envs, e) && Applies(s, e, id) ==>
      ConfigKey(e, s.definitions[id].code) in s.configs
  }

  predicate Applies(s: Store, e: int, id: int) {
    && e in s.envs && id in s.definitions
    && !s.definitions[id].isDelete && s.definitions[id].projectId == s.envs[e].projectId
  }

  /** An environment created in a project that has definitions already. */
  ghost predicate StartsBare(s: Store, c: Change) {
    && c.AddEnv? && Can(s, c)
    && exists id :: id in s.definitions && !s.definitions[id].isDelete && s.definitions[id].projectId == c.project
  }

  lemma RowKept(s: Store, c: Change, e: int, id: int)
    requires Inv(s) && Covered(s) && Can(s, c) && !StartsBare(s, c)
    requires Environments.Live(Do(s, c).envs, e) && Applies(Do(s, c), e, id)
    ensures ConfigKey(e, Do(s, c).definitions[id].code) in Do(s, c).configs
  {
    if id in s.definitions {
      DefinitionKept(s, c, id);
      var code := s.definitions[id].code;
      if c.CopyEnv? && c.envId == e {
        assert Applies(s, c.source, id);
        CopiedRow(s.configs, c.source, e, code);
      } else if !(c.AddEnv? && c.envId == e) {
        assert Applies(s, e, id);
        assert c.RemoveDefinition? ==> c.code != code;
      }
    }
  }

  /** Creating an environment is the one operation that can leave rows out, and it does so exactly if its
      project has definitions. */
  lemma CoverStep(s: Store, c: Change)
    requires Inv(s) && Covered(s)
    ensures Covered(Changed(s, c)) <==> !StartsBare(s, c)
  {
    if StartsBare(s, c) {
      var id :| id in s.definitions && !s.definitions[id].isDelete && s.definitions[id].projectId == c.project;
      assert Applies(Do(s, c), c.envId, id) && Environments.Live(Do(s, c).envs, c.envId);
      assert ConfigKey(c.envId, s.definitions[id].code) !in s.configs;
    } else if Can(s, c) {
      forall e, id | Environments.Live(Do(s, c).envs, e) && Applies(Do(s, c), e, id)
        ensures ConfigKey(e, Do(s, c).definitions[id].code) in Do(s, c).configs
      {
        RowKept(s, c, e, id);
      }
    }
  }

  ghost predicate CoveredThroughout(run: seq<Change>)
    decreases |run|
  {
    Covered(After(run)) && (run == [] || CoveredThroughout(Front(run)))
  }

  ghost predicate NeverBare(run: seq<Change>)
    decreases |run|
  {
    run == [] || (NeverBare(Front(run)) && !StartsBare(After(Front(run)), Last(run)))
  }

  /** All rows are there after each step of a run exactly if no environment was created in a project that had
      definitions. */
  lemma {:induction false} CoverRun(run: seq<Change>)
    ensures CoveredThroughout(run) <==> NeverBare(run)
    decreases |run|
  {
    if run != [] {
      CoverRun(Front(run));
      InvHolds(Front(run));
      if CoveredThroughout(Front(run)) {
        assert Covered(After(Front(run)));
        CoverStep(After(Front(run)), Last(run));
      }
    }
  }

  /** For example: a definition, then an environment, in project 1. */
  lemma BareExample()
    ensures var run := [AddDefinition(1, "variable", 1, "c"), AddEnv(1, 1, 0)];
            !NeverBare(run) && !Covered(After(run)) && ConfigKey(1, "c") !in After(run).configs
  {
    var add, env := AddDefinition(1, "variable", 1, "c"), AddEnv(1, 1, 0);
    var one, run := [add], [add, env];
    assert Front(run) == one && Front(one) == [];
    var s := After(one);
    assert s == Do(EMPTY, add) && Can(s, env);
    assert s.definitions[1].projectId == 1 && StartsBare(s, env);
    InvHolds(one);
    assert Covered(s);
    CoverStep(s, env);
    assert s.envs == map[];
  }
}
