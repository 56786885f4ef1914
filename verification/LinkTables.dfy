/** Association tables with soft delete and revive-or-insert: a user's roles per application
    (admin/internal/logic/user_logic.go) and a role's resources (admin/internal/logic/role_logic.go). */
module LinkTables {
  import opened ListMove

  /** Primary key of a user-role link. */
  datatype Key = Key(userId: int, appId: int, roleId: int)

  /** Rows by primary key; the value is the `is_delete` column. */
  type Links = map<Key, bool>

  predicate Live(links: Links, k: Key) {
    k in links && !links[k]
  }

  datatype AppRoles = AppRoles(appId: int, roleIds: seq<int>)

  /** The request names this role for this application. */
  ghost predicate Names(req: seq<AppRoles>, appId: int, roleId: int) {
    exists i :: 0 <= i < |req| && req[i].appId == appId && roleId in req[i].roleIds
  }

  ghost predicate OthersKept(old_: Links, new_: Links, userId: int) {
    && (forall k :: k in old_ ==> k in new_)
    && (forall k :: k in new_ && k.userId != userId ==> k in old_ && new_[k] == old_[k])
  }

  class UserRoleTable {
    var links: Links

    /** `UPDATE ... SET is_delete = true WHERE user_id = ?` */
    method DropAll(userId: int)
      modifies this
      ensures links.Keys == old(links).Keys
      ensures forall k :: k in links ==> links[k] == (k.userId == userId || old(links)[k])
    {
      links := map k | k in links :: k.userId == userId || links[k];
    }

    /** Revive the row, or insert it if the update reports no affected row. `countsMatched` says whether the
        driver reports matched rows or only changed ones; an insert of an existing key fails and is ignored. */
    method Revive(k: Key, countsMatched: bool)
      modifies this
      ensures links == old(links)[k := false]
    {
      var rowsAffected := if k !in links then 0 else if countsMatched || links[k] then 1 else 0;
      if k in links {
        links := links[k := false];
      }
      if rowsAffected == 0 {
        if k !in links {
          links := links[k := false];
        }
      }
    }

    /** The role part of UpdateUser, for a request that carries application roles. */
    method UpdateUserRoles(userId: int, appRoles: seq<AppRoles>, countsMatched: bool)
      modifies this
      ensures forall a, r :: Live(links, Key(userId, a, r)) <==> Names(appRoles, a, r)
      ensures forall a, r :: (Key(userId, a, r) in links && !links[Key(userId, a, r)]) <==>
                exists i :: 0 <= i < |appRoles| && appRoles[i].appId == a && r in appRoles[i].roleIds
      ensures OthersKept(old(links), links, userId)
    {
      DropAll(userId);
      for i := 0 to |appRoles|
        invariant OthersKept(old(links), links, userId)
        invariant forall a, r :: Live(links, Key(userId, a, r)) <==> Names(appRoles[..i], a, r)
      {
        var app := appRoles[i];
        assert appRoles[..i + 1] == appRoles[..i] + [app];
        for j := 0 to |app.roleIds|
          invariant OthersKept(old(links), links, userId)
          invariant forall a, r :: Live(links, Key(userId, a, r)) <==>
            Names(appRoles[..i], a, r) || (a == app.appId && r in app.roleIds[..j])
        {
          assert app.roleIds[..j + 1] == app.roleIds[..j] + [app.roleIds[j]];
          Revive(Key(userId, app.appId, app.roleIds[j]), countsMatched);
        }
        assert app.roleIds[..|app.roleIds|] == app.roleIds;
        forall a, r ensures Live(links, Key(userId, a, r)) <==> Names(appRoles[..i + 1], a, r) {
          NamesAppend(appRoles[..i], app, a, r);
        }
      }
      assert appRoles[..|appRoles|] == appRoles;
    }
  }

  lemma NamesAppend(req: seq<AppRoles>, app: AppRoles, a: int, r: int)
    ensures Names(req + [app], a, r) <==> Names(req, a, r) || (a == app.appId && r in app.roleIds)
  {
    var all := req + [app];
    if Names(req, a, r) {
      var i :| 0 <= i < |req| && req[i].appId == a && r in req[i].roleIds;
      assert all[i] == req[i];
    }
    if a == app.appId && r in app.roleIds { assert all[|req|] == app; }
  }

  // ---------------------------------------------------------------- reading back

  ghost predicate DistinctKeys(rows: seq<Key>) {
    forall i, j :: 0 <= i < j < |rows| ==> rows[i] != rows[j]
  }

  /** `SELECT ... WHERE user_id IN users AND NOT is_delete`, rows in any order. */
  method FindLive(links: Links, users: set<int>) returns (rows: seq<Key>)
    ensures forall k :: k in rows <==> Live(links, k) && k.userId in users
    ensures DistinctKeys(rows)
  {
    rows := [];
    var todo := links.Keys;
    while todo != {}
      invariant todo <= links.Keys
      invariant forall k :: k in rows <==> k !in todo && Live(links, k) && k.userId in users
      invariant DistinctKeys(rows)
      decreases todo
    {
      NonEmptyKeys(todo);
      var k :| k in todo;
      if Live(links, k) && k.userId in users {
        rows := rows + [k];
      }
      todo := todo - {k};
    }
  }

  lemma NonEmptyKeys(s: set<Key>)
    ensures s == {} || exists k :: k in s
  {
    if forall k: Key :: k !in s { assert s == {}; }
  }

  /** Application `a` is grouped once, with exactly the roles the user has there. */
  ghost predicate Grouped(links: Links, userId: int, groups: seq<AppRoles>) {
    && (forall i, j :: 0 <= i < j < |groups| ==> groups[i].appId != groups[j].appId)
    && (forall i :: 0 <= i < |groups| ==> groups[i].roleIds != [] && Distinct(groups[i].roleIds))
    && (forall a, r :: Names(groups, a, r) <==> Live(links, Key(userId, a, r)))
  }

  /** Grouping while scanning: each application holds the roles of its rows so far, once each. */
  ghost predicate ByApp(rows: seq<Key>, n: nat, m: map<int, seq<int>>)
    requires n <= |rows|
  {
    && (forall a :: a in m ==> m[a] != [] && Distinct(m[a]))
    && (forall i :: 0 <= i < n ==> rows[i].appId in m && rows[i].roleId in m[rows[i].appId])
    && (forall a, r :: a in m && r in m[a] ==> exists i :: 0 <= i < n && rows[i].appId == a && rows[i].roleId == r)
  }

  lemma ByAppStep(rows: seq<Key>, n: nat, m: map<int, seq<int>>, userId: int)
    requires n < |rows| && ByApp(rows, n, m)
    requires forall i :: 0 <= i < |rows| ==> rows[i].userId == userId
    requires DistinctKeys(rows)
    ensures var k := rows[n];
            ByApp(rows, n + 1, m[k.appId := (if k.appId in m then m[k.appId] else []) + [k.roleId]])
  {
    var k := rows[n];
    var l := if k.appId in m then m[k.appId] else [];
    assert k.roleId !in l;
    var m' := m[k.appId := l + [k.roleId]];
    forall a, r | a in m' && r in m'[a]
      ensures exists i :: 0 <= i < n + 1 && rows[i].appId == a && rows[i].roleId == r
    {
      if a == k.appId && r == k.roleId {
        assert rows[n].appId == a;
      } else {
        assert a in m && r in m[a];
      }
    }
  }

  method GetUserRoleIds(links: Links, userId: int) returns (groups: seq<AppRoles>)
    ensures Grouped(links, userId, groups)
  {
    var rows := FindLive(links, {userId});
    forall i | 0 <= i < |rows| ensures Live(links, rows[i]) && rows[i].userId == userId {
      assert rows[i] in rows;
    }
    var m: map<int, seq<int>> := map[];
    for n := 0 to |rows|
      invariant ByApp(rows, n, m)
    {
      ByAppStep(rows, n, m, userId);
      var k := rows[n];
      m := m[k.appId := (if k.appId in m then m[k.appId] else []) + [k.roleId]];
    }
    groups := [];
    var todo := m.Keys;
    while todo != {}
      invariant todo <= m.Keys
      invariant forall i :: 0 <= i < |groups| ==>
                  groups[i].appId in m && groups[i].appId !in todo && groups[i].roleIds == m[groups[i].appId]
      invariant forall i, j :: 0 <= i < j < |groups| ==> groups[i].appId != groups[j].appId
      invariant forall a :: a in m && a !in todo ==> AppRoles(a, m[a]) in groups
      decreases todo
    {
      NonEmpty(todo);
      var a :| a in todo;
      groups := groups + [AppRoles(a, m[a])];
      todo := todo - {a};
    }
    forall a, r ensures Names(groups, a, r) <==> Live(links, Key(userId, a, r)) {
      GroupsName(links, userId, rows, m, groups, a, r);
    }
  }

  lemma GroupsName(links: Links, userId: int, rows: seq<Key>, m: map<int, seq<int>>, groups: seq<AppRoles>, a: int,
                   r: int)
    requires forall k :: k in rows <==> Live(links, k) && k.userId == userId
    requires ByApp(rows, |rows|, m)
    requires forall i :: 0 <= i < |groups| ==> groups[i].appId in m && groups[i].roleIds == m[groups[i].appId]
    requires forall b :: b in m ==> AppRoles(b, m[b]) in groups
    ensures Names(groups, a, r) <==> Live(links, Key(userId, a, r))
  {
    if Names(groups, a, r) {
      var i :| 0 <= i < |rows| && rows[i].appId == a && rows[i].roleId == r;
      assert rows[i] in rows;
      assert rows[i] == Key(userId, a, r);
    }
    if Live(links, Key(userId, a, r)) {
      var k := Key(userId, a, r);
      assert k in rows;
      var i :| 0 <= i < |rows| && rows[i] == k;
      assert a in m && r in m[a];
      var g := AppRoles(a, m[a]);
      assert g in groups;
      var j :| 0 <= j < |groups| && groups[j] == g;
      assert groups[j].appId == a && r in groups[j].roleIds;
    }
  }

  /** Saving what was read back changes nothing. */
  method SaveWhatWasRead(t: UserRoleTable, userId: int, countsMatched: bool)
    modifies t
    ensures forall a, r :: Live(t.links, Key(userId, a, r)) <==> Live(old(t.links), Key(userId, a, r))
    ensures OthersKept(old(t.links), t.links, userId)
  {
    var groups := GetUserRoleIds(t.links, userId);
    t.UpdateUserRoles(userId, groups, countsMatched);
  }

  // ---------------------------------------------------------------- one user and many users

  /** Deleted flag of each role. */
  type Roles = map<int, bool>

  ghost predicate HoldsRole(links: Links, roles: Roles, userId: int, r: int) {
    r in roles && !roles[r] && exists a :: Live(links, Key(userId, a, r))
  }

  /** `SELECT ... WHERE id IN ids AND NOT is_delete`: each role once. */
  method FindRoles(roles: Roles, ids: set<int>) returns (found: seq<int>)
    ensures Distinct(found) && forall r :: r in found <==> r in ids && r in roles && !roles[r]
  {
    found := [];
    var todo := ids;
    while todo != {}
      invariant todo <= ids && Distinct(found)
      invariant forall r :: r in found <==> r in ids - todo && r in roles && !roles[r]
      decreases todo
    {
      NonEmpty(todo);
      var r :| r in todo;
      if r in roles && !roles[r] {
        found := found + [r];
      }
      todo := todo - {r};
    }
  }

  method GetUserRoles(links: Links, roles: Roles, userId: int) returns (result: seq<int>)
    ensures Distinct(result)
    ensures forall r :: r in result <==> HoldsRole(links, roles, userId, r)
  {
    var rows := FindLive(links, {userId});
    var ids := set k | k in rows :: k.roleId;
    result := FindRoles(roles, ids);
    forall r ensures r in ids <==> exists a :: Live(links, Key(userId, a, r)) {
      if r in ids {
        var k :| k in rows && k.roleId == r;
        assert k == Key(userId, k.appId, r);
      }
      if exists a :: Live(links, Key(userId, a, r)) {
        var a :| Live(links, Key(userId, a, r));
        assert Key(userId, a, r) in rows;
      }
    }
  }

  /** The live links that give `u` the role `r`, one per application. */
  ghost function LinksTo(links: Links, u: int, r: int): set<Key> {
    set k | k in links && Live(links, k) && k.userId == u && k.roleId == r
  }

  lemma LinksToExist(links: Links, u: int, r: int)
    ensures |LinksTo(links, u, r)| > 0 <==> exists a :: Live(links, Key(u, a, r))
  {
    var s := LinksTo(links, u, r);
    NonEmptyKeys(s);
    if s != {} {
      var k :| k in s;
      assert Live(links, Key(u, k.appId, r));
    }
    if exists a :: Live(links, Key(u, a, r)) {
      var a :| Live(links, Key(u, a, r));
      assert Key(u, a, r) in s;
    }
  }

  /** Those of the first `n` rows that give `u` the role `r`. */
  ghost function RowsTo(rows: seq<Key>, n: nat, u: int, r: int): set<Key>
    requires n <= |rows|
  {
    set i | 0 <= i < n && rows[i].userId == u && rows[i].roleId == r :: rows[i]
  }

  /** How often `u` has the role `r` in the map. */
  ghost function Times(m: map<int, seq<int>>, u: int, r: int): nat {
    if u in m then multiset(m[u])[r] else 0
  }

  /** Scanning the links of all users at once: `m[u]` holds the role ids of the rows of `u` so far. */
  ghost predicate ByUser(rows: seq<Key>, n: nat, m: map<int, seq<int>>)
    requires n <= |rows|
  {
    && (forall u, r :: Times(m, u, r) == |RowsTo(rows, n, u, r)|)
    && (forall u :: u in m ==> m[u] != [])
  }

  ghost predicate KeptOf(ids: seq<int>, found: set<int>, kept: seq<int>) {
    forall r :: multiset(kept)[r] == if r in found then multiset(ids)[r] else 0
  }

  method KeepFound(ids: seq<int>, found: set<int>) returns (kept: seq<int>)
    ensures KeptOf(ids, found, kept)
  {
    kept := [];
    for i := 0 to |ids|
      invariant KeptOf(ids[..i], found, kept)
    {
      assert ids[..i + 1] == ids[..i] + [ids[i]];
      if ids[i] in found {
        kept := kept + [ids[i]];
      }
    }
    assert ids[..|ids|] == ids;
  }

  lemma RowsToStep(rows: seq<Key>, n: nat, u: int, r: int)
    requires n < |rows| && DistinctKeys(rows)
    ensures |RowsTo(rows, n + 1, u, r)|
            == |RowsTo(rows, n, u, r)| + if rows[n].userId == u && rows[n].roleId == r then 1 else 0
  {
    var s, k := RowsTo(rows, n, u, r), rows[n];
    if k.userId == u && k.roleId == r {
      assert RowsTo(rows, n + 1, u, r) == s + {k};
    } else {
      assert RowsTo(rows, n + 1, u, r) == s;
    }
  }

  lemma TimesStep(m: map<int, seq<int>>, k: Key, u: int, r: int)
    ensures Times(AddRow(m, k), u, r) == Times(m, u, r) + if k.userId == u && k.roleId == r then 1 else 0
  {
  }

  lemma ByUserStep(rows: seq<Key>, n: nat, m: map<int, seq<int>>)
    requires n < |rows| && DistinctKeys(rows) && ByUser(rows, n, m)
    ensures ByUser(rows, n + 1, AddRow(m, rows[n]))
  {
    var m' := AddRow(m, rows[n]);
    forall u, r ensures Times(m', u, r) == |RowsTo(rows, n + 1, u, r)| {
      RowsToStep(rows, n, u, r);
      TimesStep(m, rows[n], u, r);
    }
  }

  ghost function GroupedUpTo(rows: seq<Key>, n: nat): map<int, seq<int>>
    requires n <= |rows|
  {
    if n == 0 then map[] else AddRow(GroupedUpTo(rows, n - 1), rows[n - 1])
  }

  /** `m[userID] = append(m[userID], roleID)` */
  function AddRow(m: map<int, seq<int>>, k: Key): map<int, seq<int>> {
    m[k.userId := (if k.userId in m then m[k.userId] else []) + [k.roleId]]
  }

  lemma {:induction false} GroupedByUser(rows: seq<Key>, n: nat)
    requires n <= |rows| && DistinctKeys(rows)
    ensures ByUser(rows, n, GroupedUpTo(rows, n))
  {
    if n > 0 {
      GroupedByUser(rows, n - 1);
      ByUserStep(rows, n - 1, GroupedUpTo(rows, n - 1));
    } else {
      assert forall u, r :: RowsTo(rows, 0, u, r) == {};
    }
  }

  method GroupByUser(rows: seq<Key>) returns (m: map<int, seq<int>>, idSet: set<int>)
    requires DistinctKeys(rows)
    ensures ByUser(rows, |rows|, m)
    ensures forall i :: 0 <= i < |rows| ==> rows[i].roleId in idSet
  {
    m, idSet := map[], {};
    for n := 0 to |rows|
      invariant m == GroupedUpTo(rows, n)
      invariant forall i :: 0 <= i < n ==> rows[i].roleId in idSet
    {
      idSet := idSet + {rows[n].roleId};
      m := AddRow(m, rows[n]);
    }
    GroupedByUser(rows, |rows|);
  }

  method Assemble(m: map<int, seq<int>>, found: set<int>) returns (result: map<int, seq<int>>)
    ensures result.Keys == m.Keys
    ensures forall u :: u in result ==> KeptOf(m[u], found, result[u])
  {
    result := map[];
    var todo := m.Keys;
    while todo != {}
      invariant todo <= m.Keys && result.Keys == m.Keys - todo
      invariant forall u :: u in result ==> KeptOf(m[u], found, result[u])
      decreases todo
    {
      NonEmpty(todo);
      var u :| u in todo;
      var kept := KeepFound(m[u], found);
      result := result[u := kept];
      todo := todo - {u};
    }
  }

  /** The batched form gives every asked user exactly the roles the one-user query gives, each as often as
      the user has live links to it; a user without links has no entry, and no one else has one. */
  method BatchGetUserRoles(links: Links, roles: Roles, users: seq<int>) returns (result: map<int, seq<int>>)
    ensures forall u :: u in result ==> u in users
    ensures forall u, r :: u in users ==> ((u in result && r in result[u]) <==> HoldsRole(links, roles, u, r))
    ensures forall u, r :: u in users ==>
              Times(result, u, r) == if HoldsRole(links, roles, u, r) then |LinksTo(links, u, r)| else 0
  {
    var rows := FindLive(links, set u | u in users);
    var m, idSet := GroupByUser(rows);
    var found := FindRoles(roles, idSet);
    var foundSet := set r | r in found;
    result := Assemble(m, foundSet);
    forall u | u in result ensures u in users {
      assert m[u][0] in m[u] && Times(m, u, m[u][0]) > 0;
      var k := RowFor(rows, m, u, m[u][0]);
    }
    forall u, r | u in users
      ensures Times(result, u, r) == if HoldsRole(links, roles, u, r) then |LinksTo(links, u, r)| else 0
      ensures (u in result && r in result[u]) <==> HoldsRole(links, roles, u, r)
    {
      BatchRow(links, users, rows, m, u, r);
      if u in result { assert KeptOf(m[u], foundSet, result[u]); }
      if Times(m, u, r) > 0 { var k := RowFor(rows, m, u, r); }
      assert Times(result, u, r) > 0 <==> u in result && r in result[u];
    }
  }

  /** Behind every collected role is a row. */
  lemma RowFor(rows: seq<Key>, m: map<int, seq<int>>, u: int, r: int) returns (k: Key)
    requires ByUser(rows, |rows|, m) && Times(m, u, r) > 0
    ensures k in rows && k.userId == u && k.roleId == r
  {
    var s := RowsTo(rows, |rows|, u, r);
    assert Times(m, u, r) == |s|;
    NonEmptyKeys(s);
    k :| k in s;
  }

  lemma BatchRow(links: Links, users: seq<int>, rows: seq<Key>, m: map<int, seq<int>>, u: int, r: int)
    requires u in users && ByUser(rows, |rows|, m)
    requires forall k :: k in rows <==> Live(links, k) && k.userId in users
    ensures Times(m, u, r) == |LinksTo(links, u, r)|
    ensures Times(m, u, r) > 0 <==> exists a :: Live(links, Key(u, a, r))
  {
    var s := RowsTo(rows, |rows|, u, r);
    assert Times(m, u, r) == |s|;
    forall k ensures k in s <==> k in LinksTo(links, u, r) {
      if k in LinksTo(links, u, r) { assert k in rows; }
      if k in s { assert k in rows; }
    }
    assert s == LinksTo(links, u, r);
    LinksToExist(links, u, r);
  }

  // ---------------------------------------------------------------- a role's resources

  /** Primary key of a role-resource link. */
  datatype Pair = Pair(roleId: int, resourceId: int)

  class RoleResourceTable {
    var links: map<Pair, bool>

    /** The resource part of UpdateRole: drop the live links, then look each resource up and revive or insert. */
    method UpdateRoleResources(roleId: int, resourceIds: seq<int>)
      modifies this
      ensures forall x :: (Pair(roleId, x) in links && !links[Pair(roleId, x)]) <==> x in resourceIds
      ensures forall k :: k in old(links) ==> k in links
      ensures forall k :: k in links && k.roleId != roleId ==> k in old(links) && links[k] == old(links)[k]
    {
      links := map k | k in links :: k.roleId == roleId || links[k];
      for i := 0 to |resourceIds|
        invariant forall x :: (Pair(roleId, x) in links && !links[Pair(roleId, x)]) <==> x in resourceIds[..i]
        invariant forall k :: k in old(links) ==> k in links
        invariant forall k :: k in links && k.roleId != roleId ==> k in old(links) && links[k] == old(links)[k]
      {
        assert resourceIds[..i + 1] == resourceIds[..i] + [resourceIds[i]];
        var k := Pair(roleId, resourceIds[i]);
        // one statement for both: reviving the row that was found, or inserting it
        links := links[k := false];
      }
      assert resourceIds[..|resourceIds|] == resourceIds;
    }

    method GetRoleResourceIds(roleId: int) returns (ids: seq<int>)
      ensures Distinct(ids)
      ensures forall x :: x in ids <==> Pair(roleId, x) in links && !links[Pair(roleId, x)]
    {
      var live := set k | k in links.Keys && k.roleId == roleId && !links[k] :: k.resourceId;
      forall x ensures x in live <==> Pair(roleId, x) in links && !links[Pair(roleId, x)] {
        if Pair(roleId, x) in links && !links[Pair(roleId, x)] {
          var k := Pair(roleId, x);
          assert k in links.Keys && k.resourceId == x;
        }
      }
      ids := [];
      var todo := live;
      while todo != {}
        invariant todo <= live && Distinct(ids)
        invariant forall x :: x in ids <==> x in live - todo
        decreases todo
      {
        NonEmpty(todo);
        var x :| x in todo;
        assert x !in ids;
        ids := ids + [x];
        todo := todo - {x};
      }
    }
  }
}
