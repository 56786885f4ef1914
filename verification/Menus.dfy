/** A user's menu tree (admin/internal/logic/resource_logic.go): granted menus, completed with their
    enabled ancestors, built into a tree. Stored parent links are arbitrary and may form cycles. */
module Menus {
  import opened ListMove
  import TreeBuild

  datatype Resource = Resource(appId: int, parentId: int, kind: int, sort: int, status: int, isDelete: bool)
  datatype UserRole = UserRole(userId: int, roleId: int, appId: int, isDelete: bool)
  datatype RoleResource = RoleResource(roleId: int, resourceId: int, isDelete: bool)

  /** All applications (GetUserMenus) or one (GetUserMenusByAppCode). */
  datatype Scope = AllApps | OneApp(appId: int)

  predicate Covers(scope: Scope, appId: int) {
    scope.AllApps? || scope.appId == appId
  }

  /** What the parent query returns: status 1, not deleted, in scope. */
  predicate Enabled(db: map<int, Resource>, scope: Scope, id: int) {
    id in db && db[id].status == 1 && !db[id].isDelete && Covers(scope, db[id].appId)
  }

  /** From `g`, `k` steps up through enabled resources lead to `x`. */
  ghost predicate Climbs(db: map<int, Resource>, scope: Scope, g: int, x: int, k: nat)
    decreases k
  {
    if k == 0 then g == x
    else g in db && Enabled(db, scope, db[g].parentId) && Climbs(db, scope, db[g].parentId, x, k - 1)
  }

  /** `x` is one of `menus` or an ancestor of one through enabled resources. */
  ghost predicate Needed(db: map<int, Resource>, scope: Scope, menus: seq<int>, x: int) {
    exists g, k: nat :: g in menus && Climbs(db, scope, g, x, k)
  }

  ghost predicate Closed(db: map<int, Resource>, scope: Scope, s: set<int>) {
    forall x :: x in s && x in db && Enabled(db, scope, db[x].parentId) ==> db[x].parentId in s
  }

  lemma {:induction false} ClimbsOneMore(db: map<int, Resource>, scope: Scope, g: int, x: int, k: nat)
    requires Climbs(db, scope, g, x, k) && x in db && Enabled(db, scope, db[x].parentId)
    ensures Climbs(db, scope, g, db[x].parentId, k + 1)
    decreases k
  {
    if k > 0 { ClimbsOneMore(db, scope, db[g].parentId, x, k - 1); }
  }

  lemma NeededParent(db: map<int, Resource>, scope: Scope, menus: seq<int>, x: int)
    requires Needed(db, scope, menus, x) && x in db && Enabled(db, scope, db[x].parentId)
    ensures Needed(db, scope, menus, db[x].parentId)
  {
    var g, k: nat :| g in menus && Climbs(db, scope, g, x, k);
    ClimbsOneMore(db, scope, g, x, k);
  }

  lemma {:induction false} ClosedKeepsClimbs(db: map<int, Resource>, scope: Scope, s: set<int>, g: int, x: int, k: nat)
    requires Closed(db, scope, s) && g in s && Climbs(db, scope, g, x, k)
    ensures x in s
    decreases k
  {
    if k > 0 { ClosedKeepsClimbs(db, scope, s, db[g].parentId, x, k - 1); }
  }

  /** Needed is the least set that holds the granted menus and is closed under enabled parents. */
  lemma NeededIsLeast(db: map<int, Resource>, scope: Scope, menus: seq<int>, r: seq<int>, s: set<int>)
    requires forall x :: x in r <==> Needed(db, scope, menus, x)
    ensures forall x :: x in menus ==> x in r
    ensures Closed(db, scope, set x | x in r)
    ensures Closed(db, scope, s) && (forall x :: x in menus ==> x in s) ==> forall x :: x in r ==> x in s
  {
    forall x | x in menus ensures x in r {
      assert Climbs(db, scope, x, x, 0);
    }
    forall x | x in r && x in db && Enabled(db, scope, db[x].parentId) ensures db[x].parentId in r {
      NeededParent(db, scope, menus, x);
    }
    if Closed(db, scope, s) && forall x :: x in menus ==> x in s {
      forall x | x in r ensures x in s {
        var g, k: nat :| g in menus && Climbs(db, scope, g, x, k);
        ClosedKeepsClimbs(db, scope, s, g, x, k);
      }
    }
  }

  // ---------------------------------------------------------------- the worklist

  /** `SELECT ... WHERE id IN ids AND enabled`, rows in any order. */
  method FetchEnabled(db: map<int, Resource>, scope: Scope, ids: set<int>) returns (parents: seq<int>)
    ensures Distinct(parents)
    ensures forall x :: x in parents <==> x in ids && Enabled(db, scope, x)
    ensures NoneEnabled(db, scope, ids) ==> parents == []
  {
    parents := [];
    var todo := ids;
    while todo != {}
      invariant todo <= ids && Distinct(parents)
      invariant NoneEnabled(db, scope, ids) ==> parents == []
      invariant forall x :: x in parents <==> x in ids - todo && Enabled(db, scope, x)
      decreases todo
    {
      NonEmpty(todo);
      var x :| x in todo;
      if Enabled(db, scope, x) {
        parents := parents + [x];
      }
      todo := todo - {x};
    }
  }

  /** Where the parent of `p` stands: root, present, asked for, about to be handled, or not enabled. */
  ghost predicate Settled(db: map<int, Resource>, scope: Scope, p: int, existing: set<int>, need: set<int>,
                          pending: set<int>)
    requires p in db
  {
    var q := db[p].parentId;
    q == 0 || q in existing || q in need || q in pending || !Enabled(db, scope, q)
  }

  ghost predicate AllSettled(db: map<int, Resource>, scope: Scope, existing: set<int>, need: set<int>,
                             pending: set<int>)
  {
    && existing <= db.Keys
    && forall p :: p in existing ==> Settled(db, scope, p, existing, need, pending)
  }

  /** Every id asked for is the parent of a row already present. */
  ghost predicate AskedFor(db: map<int, Resource>, existing: set<int>, need: set<int>) {
    && existing <= db.Keys
    && forall y :: y in need ==> y != 0 && exists p :: p in existing && db[p].parentId == y
  }

  ghost predicate NoneEnabled(db: map<int, Resource>, scope: Scope, need: set<int>) {
    forall y :: y in need ==> !Enabled(db, scope, y)
  }

  ghost predicate Holds(menus: seq<int>, existing: set<int>) {
    Distinct(menus) && forall x :: x in menus <==> x in existing
  }

  ghost predicate AllNeeded(db: map<int, Resource>, scope: Scope, granted: seq<int>, s: set<int>) {
    forall x :: x in s ==> Needed(db, scope, granted, x)
  }

  /** One round's inner loop over the fetched parents. */
  method AddParents(db: map<int, Resource>, scope: Scope, ghost granted: seq<int>, menus: seq<int>,
                    existing: set<int>, parents: seq<int>)
    returns (menus': seq<int>, existing': set<int>, need': set<int>)
    requires Holds(menus, existing) && AllNeeded(db, scope, granted, existing)
    requires Distinct(parents) && forall x :: x in parents ==> Enabled(db, scope, x) && Needed(db, scope, granted, x)
    requires AllSettled(db, scope, existing, {}, set x | x in parents)
    ensures menus <= menus' && Holds(menus', existing') && AllNeeded(db, scope, granted, existing')
    ensures existing' == existing + set x | x in parents
    ensures AllSettled(db, scope, existing', need', {}) && AskedFor(db, existing', need')
    ensures parents == [] ==> need' == {} && menus' == menus
    ensures |menus'| == |menus| ==> existing' == existing && NoneEnabled(db, scope, need')
  {
    menus', existing', need' := menus, existing, {};
    for j := 0 to |parents|
      invariant menus <= menus' && Holds(menus', existing') && AllNeeded(db, scope, granted, existing')
      invariant existing' == existing + set x | x in parents[..j]
      invariant AllSettled(db, scope, existing', need', set x | x in parents[j..])
      invariant AskedFor(db, existing', need')
      invariant |menus'| == |menus| ==> existing' == existing && need' !! existing
      invariant j == 0 ==> need' == {} && menus' == menus
    {
      var p := parents[j];
      assert p in parents;
      assert parents[..j + 1] == parents[..j] + [p] && parents[j..] == [p] + parents[j + 1..];
      if p !in existing' {
        menus' := menus' + [p];
        existing' := existing' + {p};
      }
      var parentId := db[p].parentId;
      if parentId != 0 && parentId !in existing' {
        need' := need' + {parentId};
      }
    }
    assert parents[..|parents|] == parents && parents[|parents|..] == [];
    if |menus'| == |menus| {
      NothingNew(db, scope, existing, need', set x | x in parents);
    }
  }

  /** When all fetched rows were present already, what is still asked for is not enabled. */
  lemma NothingNew(db: map<int, Resource>, scope: Scope, existing: set<int>, need: set<int>, fetched: set<int>)
    requires AllSettled(db, scope, existing, {}, fetched) && fetched <= existing
    requires AskedFor(db, existing, need) && need !! existing
    ensures NoneEnabled(db, scope, need)
  {
    forall y | y in need ensures !Enabled(db, scope, y) {
      var p :| p in existing && db[p].parentId == y;
      assert Settled(db, scope, p, existing, {}, fetched);
    }
  }

  /** The rows whose parent is not root and not present, before the first round. */
  method FirstNeeds(db: map<int, Resource>, scope: Scope, resources: seq<int>)
    returns (existing: set<int>, need: set<int>)
    requires Distinct(resources) && forall i :: 0 <= i < |resources| ==> resources[i] in db
    ensures Holds(resources, existing) && need !! existing
    ensures AllSettled(db, scope, existing, need, {}) && AskedFor(db, existing, need)
  {
    existing := {};
    for i := 0 to |resources|
      invariant existing == set x | x in resources[..i]
    {
      assert resources[..i + 1] == resources[..i] + [resources[i]];
      existing := existing + {resources[i]};
    }
    assert resources[..|resources|] == resources;
    need := {};
    for i := 0 to |resources|
      invariant need !! existing && AskedFor(db, existing, need)
      invariant forall k :: 0 <= k < i ==> Settled(db, scope, resources[k], existing, need, {})
    {
      var parentId := db[resources[i]].parentId;
      if parentId != 0 && parentId !in existing {
        need := need + {parentId};
        var r := resources[i];
        assert r in existing && db[r].parentId == parentId;
      }
    }
    forall p | p in existing ensures Settled(db, scope, p, existing, need, {}) {
      var k :| 0 <= k < |resources| && resources[k] == p;
    }
  }

  /** How many rounds have been spent for how many added rows, and in what state the worklist then is. */
  ghost predicate RoundsSpent(db: map<int, Resource>, scope: Scope, rounds: nat, added: nat, need: set<int>) {
    && rounds + Stage(db, scope, need) <= added + 2
    && (added == 0 ==> rounds == 0 || (rounds == 1 && need == {}))
  }

  ghost function Unseen(db: map<int, Resource>, scope: Scope, existing: set<int>): set<int> {
    set x | x in db.Keys && x !in existing && Enabled(db, scope, x)
  }

  ghost function Stage(db: map<int, Resource>, scope: Scope, need: set<int>): nat {
    if !NoneEnabled(db, scope, need) then 2 else if need != {} then 1 else 0
  }

  lemma FetchedAreNeeded(db: map<int, Resource>, scope: Scope, granted: seq<int>, existing: set<int>, need: set<int>,
                         x: int)
    requires AllNeeded(db, scope, granted, existing) && AskedFor(db, existing, need) && x in need
             && Enabled(db, scope, x)
    ensures Needed(db, scope, granted, x)
  {
    var p :| p in existing && db[p].parentId == x;
    NeededParent(db, scope, granted, p);
  }

  lemma DisjointFetch(parents: seq<int>, need: set<int>, existing: set<int>)
    requires need !! existing && (forall x :: x in parents ==> x in need && x in existing)
    ensures parents == []
  {
    if parents != [] {
      HasHead(parents);
      assert false;
    }
  }

  lemma HasHead(l: seq<int>)
    requires l != []
    ensures exists x :: x in l
  {
    var x := l[0];
    assert x in l;
  }

  /** What holds between rounds. */
  ghost predicate Worklist(db: map<int, Resource>, scope: Scope, granted: seq<int>, menus: seq<int>,
                           existing: set<int>, need: set<int>)
  {
    && granted <= menus && Holds(menus, existing) && AllNeeded(db, scope, granted, existing)
    && AllSettled(db, scope, existing, need, {}) && AskedFor(db, existing, need)
  }

  /** One round of the worklist loop. */
  method Round(db: map<int, Resource>, scope: Scope, ghost granted: seq<int>, menus: seq<int>, existing: set<int>,
               need: set<int>)
    returns (menus': seq<int>, existing': set<int>, need': set<int>)
    requires Worklist(db, scope, granted, menus, existing, need)
    ensures Worklist(db, scope, granted, menus', existing', need')
    ensures |menus'| >= |menus|
    ensures |menus'| == |menus| ==> existing' == existing && NoneEnabled(db, scope, need')
    ensures |menus'| > |menus| ==> Unseen(db, scope, existing') < Unseen(db, scope, existing)
    ensures NoneEnabled(db, scope, need) ==> need' == {} && |menus'| == |menus|
    ensures need !! existing && |menus'| == |menus| ==> need' == {}
  {
    var parents := FetchEnabled(db, scope, need);
    ghost var fetched := set x | x in parents;
    forall x | x in parents ensures Needed(db, scope, granted, x) {
      FetchedAreNeeded(db, scope, granted, existing, need, x);
    }
    menus', existing', need' := AddParents(db, scope, granted, menus, existing, parents);
    if |menus'| == |menus| {
      assert fetched <= existing;
      if need !! existing { DisjointFetch(parents, need, existing); }
    } else {
      SomeAdded(menus, menus', existing, existing');
      var x :| x in existing' && x !in existing;
      assert x in fetched && x in Unseen(db, scope, existing);
    }
  }

  lemma SomeAdded(menus: seq<int>, menus': seq<int>, existing: set<int>, existing': set<int>)
    requires Holds(menus, existing) && Holds(menus', existing') && menus < menus'
    ensures exists x :: x in existing' && x !in existing
  {
    var x := menus'[|menus|];
    assert x in menus' && x !in menus;
  }

  lemma GrantedAreNeeded(db: map<int, Resource>, scope: Scope, granted: seq<int>, existing: set<int>)
    requires Holds(granted, existing)
    ensures AllNeeded(db, scope, granted, existing)
  {
    forall x | x in existing ensures Needed(db, scope, granted, x) {
      assert Climbs(db, scope, x, x, 0);
    }
  }

  lemma RoundCounted(db: map<int, Resource>, scope: Scope, rounds: nat, added: nat, need: set<int>, added': nat,
                     need': set<int>)
    requires RoundsSpent(db, scope, rounds, added, need) && need != {} && added <= added'
    requires added' == added ==> NoneEnabled(db, scope, need') && (rounds == 0 ==> need' == {})
    requires NoneEnabled(db, scope, need) ==> need' == {} && added' == added
    ensures RoundsSpent(db, scope, rounds + 1, added', need')
  {
  }

  /** Bounds the rounds to come. */
  ghost function Work(db: map<int, Resource>, scope: Scope, existing: set<int>, need: set<int>): nat {
    3 * |Unseen(db, scope, existing)| + Stage(db, scope, need)
  }

  lemma FewerLeft(s: set<int>, t: set<int>)
    requires s < t
    ensures |s| < |t|
  {
    assert t == s + (t - s) && s + {} == s;
    assert |t| == |s| + |t - s|;
  }

  lemma WorkFalls(db: map<int, Resource>, scope: Scope, existing: set<int>, need: set<int>, existing': set<int>,
                  need': set<int>)
    requires need != {}
    requires Unseen(db, scope, existing') < Unseen(db, scope, existing) ||
             (existing' == existing && NoneEnabled(db, scope, need') && (NoneEnabled(db, scope, need) ==> need' == {}))
    ensures Work(db, scope, existing', need') < Work(db, scope, existing, need)
  {
    if Unseen(db, scope, existing') < Unseen(db, scope, existing) {
      FewerLeft(Unseen(db, scope, existing'), Unseen(db, scope, existing));
    }
  }

  /** completeParentMenus and completeParentMenusByAppID. */
  method CompleteParents(db: map<int, Resource>, scope: Scope, resources: seq<int>)
    returns (menus: seq<int>, ghost rounds: nat)
    requires 0 !in db && Distinct(resources) && forall i :: 0 <= i < |resources| ==> resources[i] in db
    ensures resources <= menus && Distinct(menus)
    ensures forall x :: x in menus <==> Needed(db, scope, resources, x)
    ensures var added := |menus| - |resources|; rounds <= added + 2 && rounds <= 2 * added + 1
  {
    var existing, need := FirstNeeds(db, scope, resources);
    menus, rounds := resources, 0;
    GrantedAreNeeded(db, scope, resources, existing);
    while need != {}
      invariant Worklist(db, scope, resources, menus, existing, need)
      invariant RoundsSpent(db, scope, rounds, |menus| - |resources|, need)
      invariant rounds == 0 ==> need !! existing
      decreases Work(db, scope, existing, need)
    {
      var menus', existing', need' := Round(db, scope, resources, menus, existing, need);
      RoundCounted(db, scope, rounds, |menus| - |resources|, need, |menus'| - |resources|, need');
      WorkFalls(db, scope, existing, need, existing', need');
      menus, existing, need, rounds := menus', existing', need', rounds + 1;
    }
    SettledIsAll(db, scope, resources, menus, existing);
  }

  lemma SettledIsAll(db: map<int, Resource>, scope: Scope, resources: seq<int>, menus: seq<int>, existing: set<int>)
    requires 0 !in db && Worklist(db, scope, resources, menus, existing, {})
    ensures resources <= menus && Distinct(menus)
    ensures forall x :: x in menus <==> Needed(db, scope, resources, x)
  {
    assert Closed(db, scope, existing) by {
      forall x | x in existing && Enabled(db, scope, db[x].parentId) ensures db[x].parentId in existing {
        assert Settled(db, scope, x, existing, {}, {});
      }
    }
    forall x | Needed(db, scope, resources, x) ensures x in menus {
      var g, k: nat :| g in resources && Climbs(db, scope, g, x, k);
      assert menus[..|resources|] == resources;
      assert g in menus;
      ClosedKeepsClimbs(db, scope, existing, g, x, k);
    }
  }

  // ---------------------------------------------------------------- end to end

  /** `x` and all its ancestors are enabled, and the chain ends at 0 after `n` resources. */
  ghost predicate EnabledChain(db: map<int, Resource>, scope: Scope, x: int, n: nat)
    decreases n
  {
    if n == 0 then x == 0 else Enabled(db, scope, x) && EnabledChain(db, scope, db[x].parentId, n - 1)
  }

  ghost predicate LeadsToRoot(db: map<int, Resource>, scope: Scope, x: int) {
    exists n: nat :: n > 0 && EnabledChain(db, scope, x, n)
  }

  function RowsOf(db: map<int, Resource>, menus: seq<int>): (rows: seq<TreeBuild.Row>)
    requires forall i :: 0 <= i < |menus| ==> menus[i] in db
    ensures |rows| == |menus|
    ensures forall i :: 0 <= i < |menus| ==> rows[i] == TreeBuild.Row(menus[i], db[menus[i]].parentId)
  {
    TreeBuild.RowsOf(menus, map x | x in db :: db[x].parentId)
  }

  /** `menus` is the completed list of enabled menus. */
  ghost predicate Completed(db: map<int, Resource>, scope: Scope, granted: seq<int>, menus: seq<int>) {
    && 0 !in db && Distinct(menus)
    && (forall x :: x in menus <==> Needed(db, scope, granted, x))
    && (forall i :: 0 <= i < |menus| ==> Enabled(db, scope, menus[i]))
  }

  lemma RowOf(db: map<int, Resource>, scope: Scope, granted: seq<int>, menus: seq<int>, x: int)
    requires Completed(db, scope, granted, menus)
    ensures TreeBuild.Keyed(RowsOf(db, menus))
    ensures TreeBuild.HasId(RowsOf(db, menus), x) <==> x in menus
    ensures x in menus ==> Enabled(db, scope, x) && TreeBuild.ParentOf(RowsOf(db, menus), x) == db[x].parentId
  {
    var rows := RowsOf(db, menus);
    if x in menus {
      var i :| 0 <= i < |menus| && menus[i] == x;
      assert rows[i].id == x;
    }
  }

  lemma {:induction false} ListChain(db: map<int, Resource>, scope: Scope, granted: seq<int>, menus: seq<int>, x: int,
                                     n: nat)
    requires Completed(db, scope, granted, menus)
    ensures n > 0 ==> (TreeBuild.Chain(RowsOf(db, menus), x, n) <==> x in menus && EnabledChain(db, scope, x, n))
    decreases n
  {
    RowOf(db, scope, granted, menus, x);
    if n > 1 && x in menus {
      ListChain(db, scope, granted, menus, db[x].parentId, n - 1);
      if Enabled(db, scope, db[x].parentId) {
        NeededParent(db, scope, granted, x);
      }
    }
  }

  /** The tree of the completed list shows a resource exactly once if it is granted or above a granted
      one and its enabled chain reaches the root, and otherwise not at all. */
  lemma TreeShows(db: map<int, Resource>, scope: Scope, granted: seq<int>, menus: seq<int>, x: int)
    requires Completed(db, scope, granted, menus)
    ensures TreeBuild.Keyed(RowsOf(db, menus))
    ensures TreeBuild.Count(TreeBuild.Tree(RowsOf(db, menus)), x)
            == if Needed(db, scope, granted, x) && LeadsToRoot(db, scope, x) then 1 else 0
  {
    var rows := RowsOf(db, menus);
    RowOf(db, scope, granted, menus, x);
    TreeBuild.TreeHoldsRooted(rows, x);
    forall n: nat | n > 0
      ensures TreeBuild.Chain(rows, x, n) <==> x in menus && EnabledChain(db, scope, x, n)
    {
      ListChain(db, scope, granted, menus, x, n);
    }
  }

  /** A live role of the user (in scope) holds the resource, which is an enabled directory or menu. */
  ghost predicate Granted(db: map<int, Resource>, userRoles: seq<UserRole>, roleResources: seq<RoleResource>,
                          userId: int, scope: Scope, x: int)
  {
    && Enabled(db, scope, x) && db[x].kind in {1, 2}
    && exists r :: HasRole(userRoles, userId, scope, r) && HoldsResource(roleResources, r, x)
  }

  /** Link `i` gives the user a role in scope, and link `j` gives that role the resource. */
  ghost predicate GrantedBy(userRoles: seq<UserRole>, roleResources: seq<RoleResource>, userId: int, scope: Scope,
                            x: int, i: int, j: int)
  {
    && 0 <= i < |userRoles| && userRoles[i].userId == userId && !userRoles[i].isDelete
    && (scope.AllApps? || userRoles[i].appId == scope.appId)
    && 0 <= j < |roleResources| && roleResources[j].roleId == userRoles[i].roleId && !roleResources[j].isDelete
    && roleResources[j].resourceId == x
  }

  /** What is granted, on the fields of the rows: resources of kind 1 or 2, status 1, not deleted and in scope,
      that some live link of a role of the user in scope gives. */
  lemma GrantedOnRows(db: map<int, Resource>, userRoles: seq<UserRole>, roleResources: seq<RoleResource>, userId: int,
                      scope: Scope, x: int)
    ensures Granted(db, userRoles, roleResources, userId, scope, x) <==>
              && x in db && db[x].status == 1 && !db[x].isDelete && (scope.AllApps? || db[x].appId == scope.appId)
              && (db[x].kind == 1 || db[x].kind == 2)
              && exists i, j :: GrantedBy(userRoles, roleResources, userId, scope, x, i, j)
  {
    if Granted(db, userRoles, roleResources, userId, scope, x) {
      var r :| HasRole(userRoles, userId, scope, r) && HoldsResource(roleResources, r, x);
      var i :| 0 <= i < |userRoles| && RoleLink(userRoles[i], userId, scope) && userRoles[i].roleId == r;
      var j :| 0 <= j < |roleResources| && roleResources[j] == RoleResource(r, x, false);
      assert GrantedBy(userRoles, roleResources, userId, scope, x, i, j);
    }
    if exists i, j :: GrantedBy(userRoles, roleResources, userId, scope, x, i, j) {
      var i, j :| GrantedBy(userRoles, roleResources, userId, scope, x, i, j);
      assert roleResources[j] == RoleResource(userRoles[i].roleId, x, false);
      assert HasRole(userRoles, userId, scope, userRoles[i].roleId);
      assert HoldsResource(roleResources, userRoles[i].roleId, x);
    }
  }

  /** What is completed, on the fields of the rows: only resources with status 1, not deleted and in scope, and
      with each of them such a parent too. */
  lemma CompletedOnRows(db: map<int, Resource>, scope: Scope, granted: seq<int>, menus: seq<int>, x: int)
    requires Completed(db, scope, granted, menus) && x in menus
    ensures x in db && db[x].status == 1 && !db[x].isDelete && (scope.AllApps? || db[x].appId == scope.appId)
    ensures var p := db[x].parentId;
            p in db && db[p].status == 1 && !db[p].isDelete && (scope.AllApps? || db[p].appId == scope.appId) ==>
              p in menus
  {
    NeededParentIn(db, scope, granted, menus, x);
  }

  lemma NeededParentIn(db: map<int, Resource>, scope: Scope, granted: seq<int>, menus: seq<int>, x: int)
    requires Completed(db, scope, granted, menus) && x in menus
    ensures Enabled(db, scope, x) && (Enabled(db, scope, db[x].parentId) ==> db[x].parentId in menus)
  {
    assert menus[IndexOf(menus, x)] == x;
    if Enabled(db, scope, db[x].parentId) { NeededParent(db, scope, granted, x); }
  }

  ghost predicate HasRole(userRoles: seq<UserRole>, userId: int, scope: Scope, roleId: int) {
    exists i :: 0 <= i < |userRoles| && RoleLink(userRoles[i], userId, scope) && userRoles[i].roleId == roleId
  }

  predicate RoleLink(ur: UserRole, userId: int, scope: Scope) {
    ur.userId == userId && !ur.isDelete && Covers(scope, ur.appId)
  }

  ghost predicate HoldsResource(roleResources: seq<RoleResource>, roleId: int, x: int) {
    exists j :: 0 <= j < |roleResources| && roleResources[j] == RoleResource(roleId, x, false)
  }

  method RoleIds(userRoles: seq<UserRole>, userId: int, scope: Scope) returns (roleIds: set<int>)
    ensures forall r :: r in roleIds <==> HasRole(userRoles, userId, scope, r)
  {
    roleIds := {};
    for i := 0 to |userRoles|
      invariant forall r :: r in roleIds <==>
        exists k :: 0 <= k < i && RoleLink(userRoles[k], userId, scope) && userRoles[k].roleId == r
    {
      if RoleLink(userRoles[i], userId, scope) {
        roleIds := roleIds + {userRoles[i].roleId};
      }
    }
  }

  method ResourceIds(roleResources: seq<RoleResource>, roleIds: set<int>) returns (ids: set<int>)
    ensures forall x :: x in ids <==> exists r :: r in roleIds && HoldsResource(roleResources, r, x)
  {
    ids := {};
    for i := 0 to |roleResources|
      invariant forall x :: x in ids <==>
        exists k :: 0 <= k < i && roleResources[k].roleId in roleIds && !roleResources[k].isDelete &&
          roleResources[k].resourceId == x
    {
      if roleResources[i].roleId in roleIds && !roleResources[i].isDelete {
        ids := ids + {roleResources[i].resourceId};
      }
    }
    forall x ensures x in ids <==> exists r :: r in roleIds && HoldsResource(roleResources, r, x) {
      if x in ids {
        var k :| 0 <= k < |roleResources| && roleResources[k].roleId in roleIds && !roleResources[k].isDelete &&
          roleResources[k].resourceId == x;
        assert roleResources[k] == RoleResource(roleResources[k].roleId, x, false);
        assert HoldsResource(roleResources, roleResources[k].roleId, x);
      }
    }
  }

  /** A granted menu, or an ancestor of one through enabled resources. */
  ghost predicate Wanted(db: map<int, Resource>, userRoles: seq<UserRole>, roleResources: seq<RoleResource>,
                         userId: int, scope: Scope, x: int)
  {
    exists g, k: nat :: Granted(db, userRoles, roleResources, userId, scope, g) && Climbs(db, scope, g, x, k)
  }

  lemma {:induction false} ClimbsEnabled(db: map<int, Resource>, scope: Scope, g: int, x: int, k: nat)
    requires Climbs(db, scope, g, x, k) && Enabled(db, scope, g)
    ensures Enabled(db, scope, x)
    decreases k
  {
    if k > 0 { ClimbsEnabled(db, scope, db[g].parentId, x, k - 1); }
  }

  /** GetUserMenus and, with one application, GetUserMenusByAppCode. */
  method GetUserMenus(db: map<int, Resource>, userRoles: seq<UserRole>, roleResources: seq<RoleResource>, userId: int,
                      scope: Scope)
    returns (tree: seq<TreeBuild.Node>, ghost granted: seq<int>, ghost menus: seq<int>)
    requires 0 !in db
    ensures forall x :: TreeBuild.Count(tree, x) ==
              if Wanted(db, userRoles, roleResources, userId, scope, x) && LeadsToRoot(db, scope, x) then 1 else 0
    // siblings: the granted menus by sort and id, then the completed ones
    ensures forall x :: x in granted <==> Granted(db, userRoles, roleResources, userId, scope, x)
    ensures BySort(db, granted)
    ensures granted <= menus && Completed(db, scope, granted, menus)
    ensures TreeBuild.InListOrder(RowsOf(db, menus), 0, tree)
  {
    var roleIds := RoleIds(userRoles, userId, scope);
    var ids := ResourceIds(roleResources, roleIds);
    var sorts := map x | x in ids && Enabled(db, scope, x) && db[x].kind in {1, 2} :: db[x].sort;
    var resources := OrderBySort(sorts);
    ListingDistinct(sorts, resources);
    forall x ensures x in resources <==> Granted(db, userRoles, roleResources, userId, scope, x) {
      GrantedQuery(db, userRoles, roleResources, userId, scope, roleIds, ids, sorts, resources, x);
    }
    forall i | 0 <= i < |resources| ensures resources[i] in db {
      assert resources[i] in sorts;
    }
    ghost var rounds;
    var all;
    all, rounds := CompleteParents(db, scope, resources);
    granted, menus := resources, all;
    GrantsBySort(db, sorts, resources);
    forall i | 0 <= i < |menus| ensures Enabled(db, scope, menus[i]) {
      var x := menus[i];
      assert x in menus;
      var g, k: nat :| g in resources && Climbs(db, scope, g, x, k);
      ClimbsEnabled(db, scope, g, x, k);
    }
    forall x ensures Needed(db, scope, resources, x) <==> Wanted(db, userRoles, roleResources, userId, scope, x) {
      NeededIsWanted(db, userRoles, roleResources, userId, scope, resources, x);
    }
    RowOf(db, scope, resources, menus, 0);
    tree := TreeBuild.BuildTree(RowsOf(db, all), 0, 0);
    TreeBuild.TreeInListOrder(RowsOf(db, menus));
    forall x ensures TreeBuild.Count(tree, x) ==
      if Wanted(db, userRoles, roleResources, userId, scope, x) && LeadsToRoot(db, scope, x) then 1 else 0
    {
      TreeShows(db, scope, resources, menus, x);
    }
  }

  /** Each id once, by sort value and then by id. */
  ghost predicate BySort(db: map<int, Resource>, l: seq<int>) {
    && (forall i :: 0 <= i < |l| ==> l[i] in db)
    && forall i, j :: 0 <= i < j < |l| ==>
        db[l[i]].sort < db[l[j]].sort || (db[l[i]].sort == db[l[j]].sort && l[i] < l[j])
  }

  lemma GrantsBySort(db: map<int, Resource>, sorts: map<int, int>, l: seq<int>)
    requires Listing(sorts, l) && forall x :: x in sorts ==> x in db && sorts[x] == db[x].sort
    ensures BySort(db, l)
  {
    forall i, j | 0 <= i < j < |l|
      ensures l[i] in db && l[j] in db
      ensures db[l[i]].sort < db[l[j]].sort || (db[l[i]].sort == db[l[j]].sort && l[i] < l[j])
    {
      assert Earlier(sorts, l[i], l[j]);
      var x, y := l[i], l[j];
      assert x in sorts && y in sorts;
    }
  }

  lemma GrantedQuery(db: map<int, Resource>, userRoles: seq<UserRole>, roleResources: seq<RoleResource>, userId: int,
                     scope: Scope, roleIds: set<int>, ids: set<int>, sorts: map<int, int>, resources: seq<int>, x: int)
    requires forall r :: r in roleIds <==> HasRole(userRoles, userId, scope, r)
    requires forall y :: y in ids <==> exists r :: r in roleIds && HoldsResource(roleResources, r, y)
    requires sorts == map y | y in ids && Enabled(db, scope, y) && db[y].kind in {1, 2} :: db[y].sort
    requires Listing(sorts, resources)
    ensures x in resources <==> Granted(db, userRoles, roleResources, userId, scope, x)
  {
    if x in resources { assert resources[IndexOf(resources, x)] in sorts; }
    if x in sorts { assert x in resources; }
    if x in ids {
      var r :| r in roleIds && HoldsResource(roleResources, r, x);
      assert HasRole(userRoles, userId, scope, r);
    }
    if Granted(db, userRoles, roleResources, userId, scope, x) {
      var r :| HasRole(userRoles, userId, scope, r) && HoldsResource(roleResources, r, x);
      assert r in roleIds;
    }
  }

  lemma NeededIsWanted(db: map<int, Resource>, userRoles: seq<UserRole>, roleResources: seq<RoleResource>,
                       userId: int, scope: Scope, resources: seq<int>, x: int)
    requires forall y :: y in resources <==> Granted(db, userRoles, roleResources, userId, scope, y)
    ensures Needed(db, scope, resources, x) <==> Wanted(db, userRoles, roleResources, userId, scope, x)
  {
    if Needed(db, scope, resources, x) {
      var g, k: nat :| g in resources && Climbs(db, scope, g, x, k);
      assert Granted(db, userRoles, roleResources, userId, scope, g);
    }
    if Wanted(db, userRoles, roleResources, userId, scope, x) {
      var g, k: nat :| Granted(db, userRoles, roleResources, userId, scope, g) && Climbs(db, scope, g, x, k);
      assert g in resources;
    }
  }
}
