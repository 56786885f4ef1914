/** One list operation behind three reorderings: take an item out and put it next to another.
    Also the order in which rows are listed: by sort value, ties by id. */
module ListMove {

  ghost predicate Distinct(l: seq<int>) {
    forall i, j :: 0 <= i < j < |l| ==> l[i] != l[j]
  }

  ghost function IndexOf(l: seq<int>, x: int): (i: nat)
    requires x in l
    ensures i < |l| && l[i] == x
  {
    var i :| 0 <= i < |l| && l[i] == x;
    i
  }

  ghost function Without(l: seq<int>, x: int): seq<int> {
    if x in l then l[..IndexOf(l, x)] + l[IndexOf(l, x) + 1..] else l
  }

  lemma WithoutMembers(l: seq<int>, x: int)
    ensures forall y :: y in l && y != x ==> y in Without(l, x)
    ensures forall y :: y in Without(l, x) ==> y in l
  {
    if x in l {
      var i := IndexOf(l, x);
      assert l == l[..i] + [x] + l[i + 1..];
    }
  }

  function InsertAt(l: seq<int>, k: nat, x: int): seq<int>
    requires k <= |l|
  {
    l[..k] + [x] + l[k..]
  }

  /** `d` taken out of `l` (if there) and put immediately before or after `t`. */
  ghost function Place(l: seq<int>, d: int, t: int, before: bool): seq<int>
    requires t in l
  {
    if d == t then l
    else
      WithoutMembers(l, d);
      var r := Without(l, d);
      InsertAt(r, IndexOf(r, t) + (if before then 0 else 1), d)
  }

  /** `r` holds `d` right next to `t`, and apart from `d` it is `l`. */
  ghost predicate IsPlaced(l: seq<int>, r: seq<int>, d: int, t: int, before: bool) {
    && Distinct(r) && d in r && t in r
    && Without(r, d) == Without(l, d)
    && (if before then IndexOf(r, t) == IndexOf(r, d) + 1 else IndexOf(r, d) == IndexOf(r, t) + 1)
  }

  lemma IndexAt(l: seq<int>, k: nat)
    requires Distinct(l) && k < |l|
    ensures IndexOf(l, l[k]) == k
  {
  }

  lemma WithoutDistinct(l: seq<int>, d: int)
    requires Distinct(l)
    ensures Distinct(Without(l, d)) && d !in Without(l, d)
  {
  }

  lemma WithoutInsert(r: seq<int>, k: nat, d: int)
    requires k <= |r| && Distinct(r) && d !in r
    ensures Distinct(InsertAt(r, k, d)) && Without(InsertAt(r, k, d), d) == r
    ensures IndexOf(InsertAt(r, k, d), d) == k
  {
    var m := InsertAt(r, k, d);
    IndexAt(m, k);
    assert m[..k] == r[..k] && m[k + 1..] == r[k..];
    assert r == r[..k] + r[k..];
  }

  /** Place does what its name says ... */
  lemma PlaceIsPlaced(l: seq<int>, d: int, t: int, before: bool)
    requires Distinct(l) && t in l && d != t
    ensures IsPlaced(l, Place(l, d, t, before), d, t, before)
    ensures forall x :: x in Place(l, d, t, before) <==> x in l || x == d
  {
    WithoutDistinct(l, d);
    WithoutMembers(l, d);
    var r := Without(l, d);
    var i := IndexOf(r, t);
    var k := i + if before then 0 else 1;
    var m := InsertAt(r, k, d);
    WithoutInsert(r, k, d);
    assert m[if before then i + 1 else i] == t;
    IndexAt(m, if before then i + 1 else i);
    InsertedMembers(r, k, d);
  }

  /** ... and nothing else does. */
  lemma PlacedIsPlace(l: seq<int>, r: seq<int>, d: int, t: int, before: bool)
    requires Distinct(l) && t in l && d != t && IsPlaced(l, r, d, t, before)
    ensures r == Place(l, d, t, before)
  {
    var i := IndexOf(r, d);
    var w := Without(r, d);
    assert w == r[..i] + r[i + 1..];
    WithoutDistinct(r, d);
    IndexAt(w, if before then i else i - 1);
    assert r == InsertAt(w, i, d);
  }

  // ---------------------------------------------------------------- listing order

  predicate Earlier(s: map<int, int>, a: int, b: int)
    requires a in s && b in s
  {
    s[a] < s[b] || (s[a] == s[b] && a < b)
  }

  ghost predicate Ordered(s: map<int, int>, l: seq<int>) {
    && (forall i :: 0 <= i < |l| ==> l[i] in s)
    && forall i, j {:trigger Earlier(s, l[i], l[j])} :: 0 <= i < j < |l| ==> Earlier(s, l[i], l[j])
  }

  /** `l` lists exactly the keys of `s`, by value and then by key. */
  ghost predicate Listing(s: map<int, int>, l: seq<int>) {
    Ordered(s, l) && forall x {:trigger x in l} :: x in s ==> x in l
  }

  lemma ListingDistinct(s: map<int, int>, l: seq<int>)
    requires Ordered(s, l)
    ensures Distinct(l)
  {
    forall i, j | 0 <= i < j < |l| ensures l[i] != l[j] {
      assert Earlier(s, l[i], l[j]);
    }
  }

  lemma ListingTail(s: map<int, int>, l: seq<int>)
    requires Listing(s, l) && l != []
    ensures Listing(s - {l[0]}, l[1..])
  {
    ListingDistinct(s, l);
    assert l == [l[0]] + l[1..];
    forall x | x in s - {l[0]} ensures x in l[1..] { assert x in l; }
    forall i, j | 0 <= i < j < |l| - 1 ensures Earlier(s - {l[0]}, l[1..][i], l[1..][j]) {
      assert Earlier(s, l[i + 1], l[j + 1]);
    }
  }

  lemma HeadIsLeast(s: map<int, int>, l: seq<int>, x: int)
    requires Listing(s, l) && x in s
    ensures l != [] && (x == l[0] || Earlier(s, l[0], x))
  {
    assert x in l;
    var i := IndexOf(l, x);
    if i > 0 { assert Earlier(s, l[0], l[i]); }
  }

  lemma {:induction false} ListingUnique(s: map<int, int>, l: seq<int>, m: seq<int>)
    requires Listing(s, l) && Listing(s, m)
    ensures l == m
    decreases |l|
  {
    if l != [] && m != [] {
      var x, y := l[0], m[0];
      HeadIsLeast(s, l, y);
      HeadIsLeast(s, m, x);
      ListingTail(s, l);
      ListingTail(s, m);
      ListingUnique(s - {x}, l[1..], m[1..]);
      assert l == [x] + l[1..] && m == [y] + m[1..];
    } else if l != [] {
      HeadIsLeast(s, m, l[0]);
      assert false;
    } else if m != [] {
      HeadIsLeast(s, l, m[0]);
      assert false;
    }
  }

  lemma WithoutListing(s: map<int, int>, l: seq<int>, d: int)
    requires Listing(s, l)
    ensures Listing(s - {d}, Without(l, d))
  {
    ListingDistinct(s, l);
    WithoutDistinct(l, d);
    WithoutMembers(l, d);
    var r := Without(l, d);
    if d in l {
      var k := IndexOf(l, d);
      forall i, j | 0 <= i < j < |r| ensures Earlier(s - {d}, r[i], r[j]) {
        var i', j' := if i < k then i else i + 1, if j < k then j else j + 1;
        assert Earlier(s, l[i'], l[j']);
      }
    } else {
      assert s - {d} == s;
    }
  }

  lemma InsertedMembers(l: seq<int>, k: nat, x: int)
    requires k <= |l|
    ensures forall y :: y in InsertAt(l, k, x) <==> y in l || y == x
  {
    var m := InsertAt(l, k, x);
    assert l == l[..k] + l[k..];
    assert m[k] == x;
  }

  /** Inserting at the first place that is not earlier keeps a listing a listing. */
  lemma InsertInOrder(s: map<int, int>, done: map<int, int>, l: seq<int>, k: nat, x: int)
    requires x in s && x !in done && Listing(done, l) && k <= |l|
    requires forall y :: y in done ==> y in s && done[y] == s[y]
    requires forall i :: 0 <= i < k ==> Earlier(s, l[i], x)
    requires k < |l| ==> !Earlier(s, l[k], x)
    ensures Listing(done[x := s[x]], InsertAt(l, k, x))
  {
    var m, d' := InsertAt(l, k, x), done[x := s[x]];
    InsertedMembers(l, k, x);
    forall i, j | 0 <= i < j < |m| ensures Earlier(d', m[i], m[j]) {
      if i != k && j != k {
        assert Earlier(done, l[if i < k then i else i - 1], l[if j < k then j else j - 1]);
      } else if i == k && j > k + 1 {
        assert Earlier(done, l[k], l[j - 1]);
      }
    }
  }

  /** A value strictly between its neighbours' values goes between them. */
  lemma InsertListing(s: map<int, int>, r: seq<int>, k: nat, d: int, v: int)
    requires d !in s && Listing(s, r) && k <= |r|
    requires k > 0 ==> s[r[k - 1]] < v
    requires k < |r| ==> v < s[r[k]]
    ensures Listing(s[d := v], InsertAt(r, k, d))
  {
    forall i | 0 <= i < k ensures Earlier(s[d := v], r[i], d) {
      if i < k - 1 { assert Earlier(s, r[i], r[k - 1]); }
    }
    InsertInOrder(s[d := v], s, r, k, d);
  }

  lemma UpdateListing(s: map<int, int>, r: seq<int>, k: nat, d: int, v: int)
    requires Listing(s - {d}, r) && k <= |r|
    requires k > 0 ==> r[k - 1] in s && s[r[k - 1]] < v
    requires k < |r| ==> r[k] in s && v < s[r[k]]
    ensures Listing(s[d := v], InsertAt(r, k, d))
  {
    InsertListing(s - {d}, r, k, d, v);
    assert (s - {d})[d := v] == s[d := v];
  }

  /** Numbering a list upwards makes the list its own listing. */
  lemma NumberedListing(s: map<int, int>, l: seq<int>)
    requires Distinct(l) && (forall i :: 0 <= i < |l| ==> l[i] in s) && (forall x :: x in s ==> x in l)
    requires forall i, j :: 0 <= i < j < |l| ==> s[l[i]] < s[l[j]]
    ensures Listing(s, l)
  {
  }

  lemma NonEmpty(s: set<int>)
    ensures s == {} || exists x :: x in s
  {
    if forall x :: x !in s { assert s == {}; }
  }

  /** `ORDER BY sort, id` over the rows whose sort values are `s`. */
  method OrderBySort(s: map<int, int>) returns (l: seq<int>)
    ensures Listing(s, l)
  {
    l := [];
    var todo := s.Keys;
    ghost var done: map<int, int> := map[];
    while todo != {}
      invariant todo <= s.Keys && done == s - todo
      invariant Listing(done, l)
      decreases todo
    {
      NonEmpty(todo);
      var x :| x in todo;
      var k := 0;
      while k < |l| && Earlier(s, l[k], x)
        invariant 0 <= k <= |l|
        invariant forall i :: 0 <= i < k ==> Earlier(s, l[i], x)
      {
        k := k + 1;
      }
      InsertInOrder(s, done, l, k, x);
      done := done[x := s[x]];
      todo := todo - {x};
      l := InsertAt(l, k, x);
      assert done == s - todo;
    }
    assert done == s;
  }

  lemma {:induction false} FirstNotEarlier(s: map<int, int>, l: seq<int>, x: int, k: nat) returns (p: nat)
    requires x in s && k <= |l| && forall i :: 0 <= i < |l| ==> l[i] in s
    requires forall i :: 0 <= i < k ==> Earlier(s, l[i], x)
    ensures p <= |l| && (p < |l| ==> !Earlier(s, l[p], x))
    ensures forall i :: 0 <= i < p ==> Earlier(s, l[i], x)
    decreases |l| - k
  {
    if k < |l| && Earlier(s, l[k], x) {
      p := FirstNotEarlier(s, l, x, k + 1);
    } else {
      p := k;
    }
  }

  lemma {:induction false} ListingExists(s: map<int, int>) returns (l: seq<int>)
    ensures Listing(s, l)
    decreases |s|
  {
    l := [];
    NonEmpty(s.Keys);
    if s.Keys != {} {
      var x :| x in s.Keys;
      var rest := s - {x};
      assert |rest.Keys| < |s.Keys| by { assert rest.Keys == s.Keys - {x}; }
      l := ListingExists(rest);
      var k := FirstNotEarlier(s, l, x, 0);
      InsertInOrder(s, rest, l, k, x);
      l := InsertAt(l, k, x);
      assert rest[x := s[x]] == s;
    }
  }

  lemma SomeListing(s: map<int, int>)
    ensures exists l :: Listing(s, l)
  {
    var l := ListingExists(s);
  }

  /** The one listing of `s`. */
  ghost function Order(s: map<int, int>): (l: seq<int>)
    ensures Listing(s, l) && Distinct(l)
  {
    SomeListing(s);
    var m :| Listing(s, m);
    ListingDistinct(s, m);
    m
  }

  // ---------------------------------------------------------------- the slice splice

  /** Removing index `di`, shifting the target index, inserting before or after it. */
  function Spliced(l: seq<int>, di: nat, ti: nat, before: bool): seq<int>
    requires di < |l| && ti < |l| && InsertIndex(di, ti, before) < |l|
  {
    InsertAt(l[..di] + l[di + 1..], InsertIndex(di, ti, before), l[di])
  }

  function InsertIndex(di: nat, ti: nat, before: bool): nat {
    (if di < ti then ti - 1 else ti) + (if before then 0 else 1)
  }

  lemma SplicedIndex(l: seq<int>, di: nat, ti: nat)
    requires Distinct(l) && di < |l| && ti < |l| && di != ti
    ensures Without(l, l[di]) == l[..di] + l[di + 1..] && l[ti] in Without(l, l[di])
    ensures IndexOf(Without(l, l[di]), l[ti]) == if di < ti then ti - 1 else ti
  {
    IndexAt(l, di);
    WithoutDistinct(l, l[di]);
    var r, k := Without(l, l[di]), if di < ti then ti - 1 else ti;
    assert r[k] == l[ti];
    IndexAt(r, k);
  }

  lemma SplicedIsPlace(l: seq<int>, di: nat, ti: nat, before: bool)
    requires Distinct(l) && di < |l| && ti < |l| && di != ti
    ensures InsertIndex(di, ti, before) < |l|
    ensures Spliced(l, di, ti, before) == Place(l, l[di], l[ti], before)
  {
    SplicedIndex(l, di, ti);
    PlaceAt(l, l[di], l[ti], before, InsertIndex(di, ti, before));
  }

  lemma PlaceAt(l: seq<int>, d: int, t: int, before: bool, k: nat)
    requires t in l && d != t && t in Without(l, d) && k == IndexOf(Without(l, d), t) + if before then 0 else 1
    ensures Place(l, d, t, before) == InsertAt(Without(l, d), k, d)
  {
  }

  lemma SlotNeighbours(l: seq<int>, di: nat, ti: nat, before: bool)
    requires di < |l| && ti < |l| && di != ti
    requires if before then di != ti - 1 else di != ti + 1
    ensures var r, k, k' := l[..di] + l[di + 1..], ti + (if before then 0 else 1), InsertIndex(di, ti, before);
            && k' <= |r|
            && (k' > 0 ==> k > 0 && r[k' - 1] == l[k - 1])
            && (k' < |r| ==> k < |l| && r[k'] == l[k])
  {
  }

  /** Unless the item already sits next to the target on that side, the slot beside the target has
      the same neighbours once the item is taken out. */
  lemma SlotWithout(l: seq<int>, di: nat, ti: nat, before: bool)
    requires Distinct(l) && di < |l| && ti < |l| && di != ti
    requires if before then di != ti - 1 else di != ti + 1
    ensures var r, k, k' := Without(l, l[di]), ti + (if before then 0 else 1), InsertIndex(di, ti, before);
            && k' <= |r| && Place(l, l[di], l[ti], before) == InsertAt(r, k', l[di])
            && (k' > 0 ==> k > 0 && r[k' - 1] == l[k - 1])
            && (k' < |r| ==> k < |l| && r[k'] == l[k])
  {
    SplicedIsPlace(l, di, ti, before);
    SplicedIndex(l, di, ti);
    SlotNeighbours(l, di, ti, before);
  }

  /** No item is lost or doubled by the splice, whatever the indices. */
  lemma SplicedKeepsAll(l: seq<int>, di: nat, ti: nat, before: bool)
    requires Distinct(l) && di < |l| && ti < |l| && InsertIndex(di, ti, before) < |l|
    ensures var m := Spliced(l, di, ti, before);
            Distinct(m) && |m| == |l| && forall x :: x in m <==> x in l
  {
    var r, k := l[..di] + l[di + 1..], InsertIndex(di, ti, before);
    IndexAt(l, di);
    WithoutDistinct(l, l[di]);
    WithoutInsert(r, k, l[di]);
    WithoutMembers(l, l[di]);
    InsertedMembers(r, k, l[di]);
  }

  /** Splicing an item next to itself changes nothing exactly for "before". */
  lemma SelfSplice(l: seq<int>, i: nat, before: bool)
    requires Distinct(l) && i < |l| && (before || i + 1 < |l|)
    ensures var m := Spliced(l, i, i, before);
            Distinct(m) && |m| == |l| && (m == l <==> before)
  {
    var m := Spliced(l, i, i, before);
    SplicedKeepsAll(l, i, i, before);
    if before { assert m == l; } else { assert m[i] == l[i + 1]; }
  }

  /** `append(a[:di], a[di+1:]...)`: the items behind `di` move one place down. */
  method RemoveInPlace(a: array<int>, di: nat)
    requires di < a.Length
    modifies a
    ensures a[..a.Length - 1] == old(a[..])[..di] + old(a[..])[di + 1..]
  {
    for i := di to a.Length - 1
      invariant forall j :: 0 <= j < di ==> a[j] == old(a[j])
      invariant forall j :: di <= j < i ==> a[j] == old(a[j + 1])
      invariant forall j :: i < j < a.Length ==> a[j] == old(a[j])
    {
      a[i] := a[i + 1];
    }
  }

  /** `append(a[:k], append([item], a[k:]...)...)` on the first `a.Length - 1` items: the tail is copied
      out, the item written, and the tail copied back one place up. */
  method InsertInPlace(a: array<int>, k: nat, item: int)
    requires k < a.Length
    modifies a
    ensures a[..] == InsertAt(old(a[..a.Length - 1]), k, item)
  {
    var tail := a[k..a.Length - 1];
    a[k] := item;
    for i := 0 to |tail|
      invariant forall j :: 0 <= j < k ==> a[j] == old(a[j])
      invariant a[k] == item
      invariant forall q :: k < q < k + 1 + i ==> a[q] == tail[q - k - 1]
    {
      a[k + 1 + i] := tail[i];
    }
  }

  /** The remove-and-insert on one backing array. `ok` is false where Go's slice bounds check panics. */
  method SpliceInPlace(a: array<int>, di: nat, ti: nat, before: bool) returns (ok: bool)
    requires di < a.Length && ti < a.Length
    modifies a
    ensures ok <==> !(di == ti == a.Length - 1 && !before)
    ensures ok ==> InsertIndex(di, ti, before) < a.Length
    ensures ok ==> a[..] == Spliced(old(a[..]), di, ti, before)
  {
    var item := a[di];
    RemoveInPlace(a, di);
    var k := InsertIndex(di, ti, before);
    if k > a.Length - 1 {
      return false;
    }
    InsertInPlace(a, k, item);
    ok := true;
  }
}
