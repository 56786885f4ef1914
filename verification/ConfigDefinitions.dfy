/** Sparse reordering of configuration definitions (gulu/internal/logic/config_definition_logic.go).
    A group is the live definitions of one project and type, seen as a map from id to sort value. */
module ConfigDefinitions {
  import opened ListMove

  const SORT_GAP := 1000
  const MIN_SORT_GAP := 1
  const MAX_INT32 := 0x7fff_ffff

  /** Go's int32 arithmetic keeps the low 32 bits. */
  function Int32(x: int): int {
    if -0x8000_0000 <= x <= MAX_INT32 then x else (x + 0x8000_0000) % 0x1_0000_0000 - 0x8000_0000
  }

  datatype Plan = Keep | SetSort(value: int) | Rebalance

  /** Half of the gap between two neighbours, as long as there is one. */
  function PlanBetween(prev: int, next: int): Plan {
    var gap := Int32(next - prev);
    if gap > MIN_SORT_GAP then SetSort(Int32(prev + gap / 2)) else Rebalance
  }

  /** The sort value chosen for `d` moving next to the definition at index `ti` of the listing `l`. */
  function PlanMove(s: map<int, int>, l: seq<int>, ti: nat, d: int, before: bool): (plan: Plan)
    requires ti < |l| && forall i :: 0 <= i < |l| ==> l[i] in s
    ensures plan.Rebalance? ==> before || ti + 1 < |l|
  {
    var t := s[l[ti]];
    if before then
      if ti == 0 then
        if t > SORT_GAP then SetSort(Int32(t - SORT_GAP))
        else if t > MIN_SORT_GAP then SetSort(t / 2)
        else Rebalance
      else if l[ti - 1] == d then Keep
      else PlanBetween(s[l[ti - 1]], t)
    else if ti == |l| - 1 then SetSort(Int32(t + SORT_GAP))
    else if l[ti + 1] == d then Keep
    else PlanBetween(t, s[l[ti + 1]])
  }

  ghost function MovePlan(s: map<int, int>, d: int, t: int, before: bool): Plan
    requires d in s && t in s
  {
    PlanMove(s, Order(s), IndexOf(Order(s), t), d, before)
  }

  /** A definition's sort value after the list `m` has been numbered 1000, 2000, ... */
  ghost function Spread(m: seq<int>): map<int, int> {
    map x | x in m :: Int32((IndexOf(m, x) + 1) * SORT_GAP)
  }

  ghost function Moved(s: map<int, int>, d: int, t: int, before: bool): map<int, int>
    requires d in s && t in s
  {
    var l := Order(s);
    match MovePlan(s, d, t, before)
    case Keep => s
    case SetSort(v) => s[d := v]
    case Rebalance => Spread(Spliced(l, IndexOf(l, d), IndexOf(l, t), before))
  }

  /** No int32 computation on this group leaves the int32 range. */
  ghost predicate NoOverflow(s: map<int, int>) {
    && (forall x :: x in s ==> -0x8000_0000 <= s[x] <= MAX_INT32 - SORT_GAP)
    && (forall x, y :: x in s && y in s ==> s[x] - s[y] <= MAX_INT32)
    && |Order(s)| * SORT_GAP <= MAX_INT32
  }

  /** What the int32 column can hold. */
  ghost predicate AllInt32(s: map<int, int>) {
    forall x :: x in s ==> -0x8000_0000 <= s[x] <= MAX_INT32
  }

  /** `n` definitions can be numbered 1000, 2000, ... within int32. */
  predicate SpreadFits(n: nat) {
    n * SORT_GAP <= MAX_INT32
  }

  // ---------------------------------------------------------------- the order after one move

  /** Any two sort values differ by at least `g`. */
  ghost predicate Apart(s: map<int, int>, g: nat) {
    forall x, y :: x in s && y in s && x != y ==> s[x] + g <= s[y] || s[y] + g <= s[x]
  }

  /** `v` is what the code picks for slot `k` of the listing: strictly inside it, in front of everything one
      gap or, when that is not left, in the middle between 0 and the first. */
  ghost predicate InSlot(s: map<int, int>, k: nat, v: int) {
    var l := Order(s);
    && l != [] && k <= |l|
    && (k == 0 ==> v < s[l[0]] && 1 <= v && InFront(s[l[0]], v))
    && (k == |l| ==> v == s[l[k - 1]] + SORT_GAP)
    && (0 < k < |l| ==> s[l[k - 1]] < v < s[l[k]] && v == s[l[k - 1]] + (s[l[k]] - s[l[k - 1]]) / 2)
  }

  predicate InFront(first: int, v: int) {
    if first > SORT_GAP then first - v == SORT_GAP else v <= first - v <= v + 1
  }

  ghost function Slot(s: map<int, int>, t: int, before: bool): nat
    requires t in s
  {
    IndexOf(Order(s), t) + if before then 0 else 1
  }

  /** Not behind the last definition, or there with room for the gap. */
  ghost predicate EndFits(s: map<int, int>, t: int, before: bool)
    requires t in s
  {
    before || IndexOf(Order(s), t) < |Order(s)| - 1 || s[t] + SORT_GAP <= MAX_INT32
  }

  /** The two sort values leave room between them, and their distance is an int32. */
  predicate Room(prev: int, next: int) {
    MIN_SORT_GAP < next - prev <= MAX_INT32
  }

  /** There is no room in front of the first definition, or between the target and its neighbour on the
      side asked for, unless `d` is that neighbour. */
  ghost predicate Crowded(s: map<int, int>, d: int, t: int, before: bool)
    requires t in s
  {
    var l, i := Order(s), IndexOf(Order(s), t);
    if before && i == 0 then s[t] <= MIN_SORT_GAP
    else if before then l[i - 1] != d && !Room(s[l[i - 1]], s[t])
    else i + 1 < |l| && l[i + 1] != d && !Room(s[t], s[l[i + 1]])
  }

  /** The whole group is renumbered exactly when it is crowded at the new place. */
  lemma RebalanceExact(s: map<int, int>, d: int, t: int, before: bool)
    requires d in s && t in s && AllInt32(s)
    ensures MovePlan(s, d, t, before).Rebalance? <==> Crowded(s, d, t, before)
  {
    var l, i := Order(s), IndexOf(Order(s), t);
    if before && i > 0 {
      assert l[i - 1] in s && Earlier(s, l[i - 1], l[i]);
      Halfway(s[l[i - 1]], s[t]);
    } else if !before && i + 1 < |l| {
      assert l[i + 1] in s && Earlier(s, l[i], l[i + 1]);
      Halfway(s[t], s[l[i + 1]]);
    }
  }

  lemma PlanPicksSlot(s: map<int, int>, d: int, t: int, before: bool)
    requires d in s && t in s && AllInt32(s) && EndFits(s, t, before) && MovePlan(s, d, t, before).SetSort?
    ensures InSlot(s, Slot(s, t, before), MovePlan(s, d, t, before).value)
  {
    if 0 < Slot(s, t, before) < |Order(s)| {
      PlanPicksMiddle(s, d, t, before);
    } else {
      PlanPicksEnd(s, d, t, before);
    }
  }

  lemma PlanPicksMiddle(s: map<int, int>, d: int, t: int, before: bool)
    requires d in s && t in s && AllInt32(s) && MovePlan(s, d, t, before).SetSort?
    requires 0 < Slot(s, t, before) < |Order(s)|
    ensures InSlot(s, Slot(s, t, before), MovePlan(s, d, t, before).value)
  {
    var l, k := Order(s), Slot(s, t, before);
    var a, b := l[k - 1], l[k];
    assert a in s && b in s && Earlier(s, a, b);
    assert MovePlan(s, d, t, before) == PlanBetween(s[a], s[b]);
    Halfway(s[a], s[b]);
  }

  lemma PlanPicksEnd(s: map<int, int>, d: int, t: int, before: bool)
    requires d in s && t in s && AllInt32(s) && EndFits(s, t, before) && MovePlan(s, d, t, before).SetSort?
    requires !(0 < Slot(s, t, before) < |Order(s)|)
    ensures InSlot(s, Slot(s, t, before), MovePlan(s, d, t, before).value)
  {
    assert Order(s)[IndexOf(Order(s), t)] in s;
  }

  lemma Halfway(a: int, b: int)
    requires -0x8000_0000 <= a <= b <= MAX_INT32
    ensures PlanBetween(a, b) == if Room(a, b) then SetSort(a + (b - a) / 2) else Rebalance
    ensures Room(a, b) ==> a < a + (b - a) / 2 < b
  {
    if b - a > MAX_INT32 { WrapsDown(b - a); }
  }

  /** A sum or difference of int32 values that is too large for int32 comes out negative. */
  lemma WrapsDown(x: int)
    requires MAX_INT32 < x < 0x1_0000_0000
    ensures Int32(x) == x - 0x1_0000_0000 < 0
  {
  }

  lemma BelowSlot(s: map<int, int>, k: nat, x: int)
    requires x in s && k <= |Order(s)|
    ensures var l := Order(s);
            (k > 0 && s[x] <= s[l[k - 1]]) || (k < |l| && s[l[k]] <= s[x])
  {
    var l := Order(s);
    var j := IndexOf(l, x);
    if j < k - 1 {
      assert Earlier(s, l[j], l[k - 1]);
    } else if j > k {
      assert Earlier(s, l[k], l[j]);
    }
  }

  /** A value in a slot differs from everyone else's; away from the front it keeps half the distance. */
  lemma SlotKeepsApart(s: map<int, int>, k: nat, v: int, d: int, g: nat)
    requires InSlot(s, k, v) && 1 <= g <= SORT_GAP
    requires g == 1 || (Apart(s, 2 * g) && k > 0)
    requires d in s && Apart(s, g)
    ensures Apart(s[d := v], g)
  {
    var l := Order(s);
    forall x | x in s && x != d ensures s[x] + g <= v || v + g <= s[x] {
      SlotDistance(s, k, v, x, g);
    }
  }

  lemma SlotDistance(s: map<int, int>, k: nat, v: int, x: int, g: nat)
    requires InSlot(s, k, v) && 1 <= g <= SORT_GAP && x in s
    requires g == 1 || (Apart(s, 2 * g) && k > 0)
    ensures s[x] + g <= v || v + g <= s[x]
  {
    var l := Order(s);
    BelowSlot(s, k, x);
    if 0 < k < |l| {
      var a, b := l[k - 1], l[k];
      assert a in s && b in s && a != b;
    }
  }

  lemma SlotBounds(s: map<int, int>, k: nat, v: int, hi: int)
    requires InSlot(s, k, v) && forall x :: x in s ==> 1 <= s[x] <= hi
    ensures 1 <= v <= hi + SORT_GAP
  {
    var l := Order(s);
    if k > 0 { var a := l[k - 1]; assert a in s; }
    if k < |l| { var b := l[k]; assert b in s; }
  }

  lemma KeepIsPlace(s: map<int, int>, d: int, t: int, before: bool)
    requires d in s && t in s && d != t && MovePlan(s, d, t, before).Keep?
    ensures Place(Order(s), d, t, before) == Order(s)
  {
    var l := Order(s);
    IndexAt(l, if before then IndexOf(l, t) - 1 else IndexOf(l, t) + 1);
    PlacedIsPlace(l, l, d, t, before);
  }

  lemma SpreadListing(m: seq<int>)
    requires Distinct(m) && SpreadFits(|m|)
    ensures Listing(Spread(m), m) && Order(Spread(m)) == m
    ensures forall i :: 0 <= i < |m| ==> m[i] in m && Spread(m)[m[i]] == (i + 1) * SORT_GAP
  {
    var s := Spread(m);
    forall i | 0 <= i < |m| ensures m[i] in m && s[m[i]] == (i + 1) * SORT_GAP {
      IndexAt(m, i);
    }
    NumberedListing(s, m);
    ListingUnique(s, m, Order(s));
  }

  /** In a list too long to number, the first wrapped value comes before the value of the first item. */
  lemma SpreadWraps(m: seq<int>)
    requires Distinct(m) && !SpreadFits(|m|)
    ensures |m| > 2147483 && m[0] in m && m[2147483] in m && Spread(m)[m[2147483]] < Spread(m)[m[0]]
  {
    IndexAt(m, 0);
    IndexAt(m, 2147483);
    WrapsDown(2147484 * SORT_GAP);
  }

  /** A listing never lists a larger sort value earlier. */
  lemma NotListed(s: map<int, int>, l: seq<int>, i: nat, j: nat)
    requires i < j < |l| && l[i] in s && l[j] in s && s[l[j]] < s[l[i]]
    ensures Order(s) != l
  {
    assert !Earlier(s, l[i], l[j]);
  }

  lemma SpreadExact(m: seq<int>)
    requires Distinct(m)
    ensures Order(Spread(m)) == m <==> SpreadFits(|m|)
  {
    if SpreadFits(|m|) {
      SpreadListing(m);
    } else {
      SpreadWraps(m);
      NotListed(Spread(m), m, 0, 2147483);
    }
  }

  lemma SetSortOrder(s: map<int, int>, d: int, t: int, before: bool, v: int)
    requires d in s && t in s && d != t && !MovePlan(s, d, t, before).Keep?
    requires InSlot(s, Slot(s, t, before), v)
    ensures Order(s[d := v]) == Place(Order(s), d, t, before)
  {
    var l := Order(s);
    var di, ti := IndexOf(l, d), IndexOf(l, t);
    InsertedBetween(s, l, di, ti, before, v);
    ListingUnique(s[d := v], Place(l, d, t, before), Order(s[d := v]));
  }

  lemma InsertedBetween(s: map<int, int>, l: seq<int>, di: nat, ti: nat, before: bool, v: int)
    requires Listing(s, l) && di < |l| && ti < |l| && di != ti
    requires if before then di != ti - 1 else di != ti + 1
    requires var k := ti + (if before then 0 else 1);
             (k > 0 ==> s[l[k - 1]] < v) && (k < |l| ==> v < s[l[k]])
    ensures Listing(s[l[di] := v], Place(l, l[di], l[ti], before))
  {
    var d := l[di];
    ListingDistinct(s, l);
    SlotWithout(l, di, ti, before);
    WithoutListing(s, l, d);
    UpdateListing(s, Without(l, d), InsertIndex(di, ti, before), d, v);
  }

  lemma RebalanceOrder(s: map<int, int>, d: int, t: int, before: bool)
    requires d in s && t in s && d != t && MovePlan(s, d, t, before).Rebalance?
    ensures Order(Moved(s, d, t, before)) == Place(Order(s), d, t, before) <==> SpreadFits(|Order(s)|)
  {
    var l := Order(s);
    SplicedIsPlace(l, IndexOf(l, d), IndexOf(l, t), before);
    SplicedKeepsAll(l, IndexOf(l, d), IndexOf(l, t), before);
    SpreadExact(Place(l, d, t, before));
  }

  /** A reorder gives the listing that the abstract move gives, exactly if a move behind the last definition
      fits int32 and, where the new place is crowded, so does the new numbering. */
  lemma MoveOrder(s: map<int, int>, d: int, t: int, before: bool)
    requires d in s && t in s && d != t && AllInt32(s)
    ensures Order(Moved(s, d, t, before)) == Place(Order(s), d, t, before)
            <==> EndFits(s, t, before) && (Crowded(s, d, t, before) ==> SpreadFits(|Order(s)|))
  {
    RebalanceExact(s, d, t, before);
    if !EndFits(s, t, before) {
      MoveLastExact(s, d, t);
    } else {
      match MovePlan(s, d, t, before)
      case Keep =>
        KeepIsPlace(s, d, t, before);
      case SetSort(v) =>
        PlanPicksSlot(s, d, t, before);
        SetSortOrder(s, d, t, before, v);
      case Rebalance =>
        RebalanceOrder(s, d, t, before);
    }
  }

  lemma ListedLater(s: map<int, int>, l: seq<int>, a: int, b: int)
    requires Listing(s, l) && a in l && b in l && IndexOf(l, a) < IndexOf(l, b)
    ensures a in s && b in s && s[a] <= s[b]
  {
    assert Earlier(s, l[IndexOf(l, a)], l[IndexOf(l, b)]);
  }

  lemma InsertedInPlace(s: map<int, int>, l: seq<int>, i: nat, v: int)
    requires Listing(s, l) && i < |l|
    requires i > 0 ==> s[l[i - 1]] < v
    requires i + 1 < |l| ==> v < s[l[i + 1]]
    ensures Listing(s[l[i] := v], l)
  {
    var d, r := l[i], l[..i] + l[i + 1..];
    ListingDistinct(s, l);
    IndexAt(l, i);
    WithoutListing(s, l, d);
    UpdateListing(s, r, i, d, v);
    assert InsertAt(r, i, d) == l;
  }

  lemma SelfSetSort(s: map<int, int>, d: int, before: bool, v: int)
    requires d in s && InSlot(s, Slot(s, d, before), v)
    ensures Order(s[d := v]) == Order(s)
  {
    var l := Order(s);
    var i := IndexOf(l, d);
    if i > 0 { assert Earlier(s, l[i - 1], l[i]); }
    if i + 1 < |l| { assert Earlier(s, l[i], l[i + 1]); }
    InsertedInPlace(s, l, i, v);
    ListingUnique(s[d := v], l, Order(s[d := v]));
  }

  /** Renumbering after a self-move keeps the order only for "before", and then if the numbers fit. */
  lemma SelfRebalance(l: seq<int>, i: nat, before: bool)
    requires Distinct(l) && i < |l| && (before || i + 1 < |l|)
    ensures Order(Spread(Spliced(l, i, i, before))) == l <==> before && SpreadFits(|l|)
  {
    var m := Spliced(l, i, i, before);
    SelfSplice(l, i, before);
    SpreadExact(m);
    if !before && !SpreadFits(|l|) {
      SpreadWraps(m);
      SwappedIndex(l, i, 0);
      SwappedIndex(l, i, 2147483);
      IndexAt(l, IndexOf(l, m[0]));
      NotListed(Spread(m), l, IndexOf(l, m[0]), IndexOf(l, m[2147483]));
    }
  }

  /** An item placed after itself changes places with the next one. */
  lemma SwappedIndex(l: seq<int>, i: nat, k: nat)
    requires Distinct(l) && i + 1 < |l| && k < |l|
    ensures var m := Spliced(l, i, i, false);
            |m| == |l| && m[k] in l && IndexOf(l, m[k]) == if k == i then i + 1 else if k == i + 1 then i else k
  {
    IndexAt(l, if k == i then i + 1 else if k == i + 1 then i else k);
  }

  /** The last definition stays last at the value written by a move after itself. */
  ghost predicate StaysLast(s: map<int, int>, d: int)
    requires d in s
  {
    var l, v := Order(s), Int32(s[d] + SORT_GAP);
    |l| == 1 || (|l| > 1 && Earlier(s[d := v], l[|l| - 2], d))
  }

  lemma LastMoveExact(s: map<int, int>, d: int)
    requires d in s && IndexOf(Order(s), d) == |Order(s)| - 1
    ensures Order(Moved(s, d, d, false)) == Order(s) <==> StaysLast(s, d)
  {
    var l, v := Order(s), Int32(s[d] + SORT_GAP);
    assert MovePlan(s, d, d, false) == SetSort(v);
    var s' := s[d := v];
    if StaysLast(s, d) {
      forall i, j | 0 <= i < j < |l| ensures Earlier(s', l[i], l[j]) {
        assert Earlier(s, l[i], l[j]);
        if i < |l| - 2 { assert Earlier(s, l[i], l[|l| - 2]); }
      }
      ListingUnique(s', l, Order(s'));
    } else {
      assert !Earlier(s', l[|l| - 2], l[|l| - 1]);
    }
  }

  /** When a definition placed next to itself stays where it is. */
  ghost predicate Stays(s: map<int, int>, d: int, before: bool)
    requires d in s
  {
    var l, i := Order(s), IndexOf(Order(s), d);
    if before then Crowded(s, d, d, true) ==> SpreadFits(|l|)
    else if i + 1 < |l| then Room(s[d], s[l[i + 1]])
    else StaysLast(s, d)
  }

  /** Placed before itself, a definition stays unless the group is crowded there and too large to number;
      placed after itself, it stays exactly if there is room behind it or it is last and remains so. */
  lemma SelfMoveExact(s: map<int, int>, d: int, before: bool)
    requires d in s && AllInt32(s)
    ensures Order(Moved(s, d, d, before)) == Order(s) <==> Stays(s, d, before)
  {
    var l, i := Order(s), IndexOf(Order(s), d);
    RebalanceExact(s, d, d, before);
    if !before && i == |l| - 1 {
      LastMoveExact(s, d);
    } else {
      if !before { IndexAt(l, i + 1); }
      match MovePlan(s, d, d, before)
      case SetSort(v) =>
        PlanPicksSlot(s, d, d, before);
        SelfSetSort(s, d, before, v);
      case Rebalance =>
        SelfRebalance(l, i, before);
      case Keep =>
    }
  }

  /** Two groups in which a definition placed after itself does not stay, the gap behind it notwithstanding:
      a last one whose new sort value wraps, and one too far from the next. */
  lemma WrappedSelfMoves()
    ensures var s := map[1 := 1000, 2 := 2147483000]; Order(s) == [1, 2] && Order(Moved(s, 2, 2, false)) == [2, 1]
    ensures var s := map[1 := -2000000000, 2 := 2000000000];
            Order(s) == [1, 2] && Order(Moved(s, 1, 1, false)) == [2, 1]
  {
    var s := map[1 := 1000, 2 := 2147483000];
    TwoInOrder(s, 1, 2);
    IndexAt([1, 2], 1);
    TwoInOrder(s[2 := -2147483296], 2, 1);
    var w := map[1 := -2000000000, 2 := 2000000000];
    TwoInOrder(w, 1, 2);
    IndexAt([1, 2], 0);
    assert MovePlan(w, 1, 1, false).Rebalance?;
    assert Spliced([1, 2], 0, 0, false) == [2, 1];
    SpreadExact([2, 1]);
  }

  lemma TwoInOrder(s: map<int, int>, a: int, b: int)
    requires s.Keys == {a, b} && a != b && Earlier(s, a, b)
    ensures Order(s) == [a, b]
  {
    ListingUnique(s, [a, b], Order(s));
  }

  /** Moving behind the last definition works exactly while its sort value leaves room for the gap. */
  lemma MoveLastExact(s: map<int, int>, d: int, t: int)
    requires d in s && t in s && d != t && IndexOf(Order(s), t) == |Order(s)| - 1
    requires -0x8000_0000 <= s[t] <= MAX_INT32
    ensures Order(Moved(s, d, t, false)) == Place(Order(s), d, t, false) <==> s[t] + SORT_GAP <= MAX_INT32
  {
    var v := Int32(s[t] + SORT_GAP);
    assert MovePlan(s, d, t, false) == SetSort(v);
    if s[t] + SORT_GAP <= MAX_INT32 {
      SetSortOrder(s, d, t, false, v);
    } else {
      WrappedIsNotLast(s, d, t, v);
    }
  }

  lemma WrappedIsNotLast(s: map<int, int>, d: int, t: int, v: int)
    requires d in s && t in s && d != t && v < s[t]
    ensures Order(s[d := v]) != Place(Order(s), d, t, false)
  {
    var p := Place(Order(s), d, t, false);
    PlaceIsPlaced(Order(s), d, t, false);
    if Listing(s[d := v], p) {
      ListedLater(s[d := v], p, t, d);
      assert false;
    }
  }

  // ---------------------------------------------------------------- whole runs of a group

  datatype Step = Create(id: int) | Reorder(dragged: int, target: int, before: bool) | Delete(id: int)

  ghost function NextSort(s: map<int, int>): int {
    var l := Order(s);
    if l == [] then SORT_GAP else var last := l[|l| - 1]; Int32(s[last] + SORT_GAP)
  }

  /** The next sort value is one gap above the largest one, and so above all while that fits. */
  lemma NextSortAbove(s: map<int, int>)
    ensures s == map[] ==> NextSort(s) == SORT_GAP
    ensures s != map[] ==> exists x :: x in s && NextSort(s) == Int32(s[x] + SORT_GAP)
    ensures (forall x :: x in s ==> -0x8000_0000 <= s[x] <= MAX_INT32 - SORT_GAP) ==>
              forall x :: x in s ==> s[x] + SORT_GAP <= NextSort(s)
  {
    var l := Order(s);
    if l == [] {
      NonEmpty(s.Keys);
      assert forall x :: x in s ==> x in l;
      assert s == map[];
    } else {
      var last := l[|l| - 1];
      assert last in s;
      forall x | x in s ensures s[x] <= s[last] {
        assert x in l;
        var i := IndexOf(l, x);
        if i < |l| - 1 { assert Earlier(s, l[i], l[|l| - 1]); }
      }
    }
  }

  /** A new id is one the table has not used in this group; anything missing leaves the group alone. */
  ghost function Apply(s: map<int, int>, step: Step): map<int, int> {
    match step
    case Create(id) => if id in s then s else s[id := NextSort(s)]
    case Reorder(d, t, before) => if d in s && t in s then Moved(s, d, t, before) else s
    case Delete(id) => s - {id}
  }

  ghost function Run(s: map<int, int>, steps: seq<Step>): map<int, int>
    decreases |steps|
  {
    if steps == [] then s else Run(Apply(s, steps[0]), steps[1..])
  }

  /** After `m` steps from the empty group. */
  ghost predicate Bounded(s: map<int, int>, m: nat) {
    && |Order(s)| <= m && Apart(s, 1)
    && forall x :: x in s ==> 1 <= s[x] <= SORT_GAP * m
  }

  lemma BoundedNoOverflow(s: map<int, int>, m: nat)
    requires Bounded(s, m) && SORT_GAP * (m + 1) <= MAX_INT32
    ensures NoOverflow(s)
  {
  }

  lemma {:induction false} ListingLength(s: map<int, int>, l: seq<int>)
    requires Listing(s, l)
    ensures |l| == |s|
    decreases |l|
  {
    if l == [] {
      NonEmpty(s.Keys);
      assert forall x :: x in s ==> x in l;
    } else {
      var a := l[0];
      assert a in s;
      ListingTail(s, l);
      ListingLength(s - {a}, l[1..]);
      assert (s - {a}).Keys == s.Keys - {a};
    }
  }

  lemma OrderLength(s: map<int, int>)
    ensures |Order(s)| == |s|
  {
    ListingLength(s, Order(s));
  }

  lemma CreateBounded(s: map<int, int>, id: int, m: nat)
    requires Bounded(s, m) && id !in s && SORT_GAP * (m + 1) <= MAX_INT32
    ensures Bounded(s[id := NextSort(s)], m + 1)
  {
    OrderLength(s);
    OrderLength(s[id := NextSort(s)]);
    NextSortAbove(s);
  }

  lemma RebalancedBounded(m: seq<int>, n: nat)
    requires Distinct(m) && |m| <= n && SORT_GAP * n <= MAX_INT32
    ensures Bounded(Spread(m), n) && Apart(Spread(m), SORT_GAP)
  {
    SpreadListing(m);
    var s := Spread(m);
    forall x | x in s ensures s[x] == (IndexOf(m, x) + 1) * SORT_GAP {
      assert s[m[IndexOf(m, x)]] == (IndexOf(m, x) + 1) * SORT_GAP;
    }
  }

  lemma WriteBounded(s: map<int, int>, d: int, k: nat, v: int, m: nat)
    requires Bounded(s, m) && d in s && SORT_GAP * (m + 1) <= MAX_INT32 && InSlot(s, k, v)
    ensures Bounded(s[d := v], m + 1)
  {
    SlotKeepsApart(s, k, v, d, 1);
    SlotBounds(s, k, v, SORT_GAP * m);
    OrderLength(s);
    OrderLength(s[d := v]);
    assert s[d := v].Keys == s.Keys;
  }

  lemma ReorderBounded(s: map<int, int>, d: int, t: int, before: bool, m: nat)
    requires Bounded(s, m) && d in s && t in s && SORT_GAP * (m + 1) <= MAX_INT32
    ensures Bounded(Moved(s, d, t, before), m + 1)
  {
    BoundedNoOverflow(s, m);
    var l := Order(s);
    match MovePlan(s, d, t, before)
    case Keep =>
    case SetSort(v) =>
      PlanPicksSlot(s, d, t, before);
      WriteBounded(s, d, Slot(s, t, before), v, m);
    case Rebalance =>
      SplicedKeepsAll(l, IndexOf(l, d), IndexOf(l, t), before);
      RebalancedBounded(Spliced(l, IndexOf(l, d), IndexOf(l, t), before), m + 1);
  }

  lemma DeleteBounded(s: map<int, int>, id: int, m: nat)
    requires Bounded(s, m)
    ensures Bounded(s - {id}, m + 1)
  {
    OrderLength(s);
    OrderLength(s - {id});
    assert (s - {id}).Keys == s.Keys - {id};
  }

  lemma {:induction false} RunStaysBounded(s: map<int, int>, steps: seq<Step>, m: nat)
    requires Bounded(s, m) && SORT_GAP * (m + |steps|) <= MAX_INT32
    ensures Bounded(Run(s, steps), m + |steps|)
    decreases |steps|
  {
    if steps != [] {
      match steps[0] {
        case Create(id) => if id !in s { CreateBounded(s, id, m); }
        case Reorder(d, t, before) => if d in s && t in s { ReorderBounded(s, d, t, before, m); }
        case Delete(id) => DeleteBounded(s, id, m);
      }
      RunStaysBounded(Apply(s, steps[0]), steps[1..], m + 1);
    }
  }

  /** From the empty group, up to 2147483 steps keep all sort values distinct, positive and in range,
      and no computation of the next step overflows. */
  lemma RunFromEmpty(steps: seq<Step>)
    requires |steps| <= 2147483
    ensures Bounded(Run(map[], steps), |steps|)
    ensures |steps| < 2147483 ==> NoOverflow(Run(map[], steps))
  {
    OrderLength(map[]);
    RunStaysBounded(map[], steps, 0);
    if |steps| < 2147483 { BoundedNoOverflow(Run(map[], steps), |steps|); }
  }

  // ---------------------------------------------------------------- moves that touch one row

  function Pow2(k: nat): nat {
    if k == 0 then 1 else 2 * Pow2(k - 1)
  }

  /** Room for `n` more moves to the end. */
  ghost predicate Roomy(s: map<int, int>, n: nat) {
    |Order(s)| * SORT_GAP <= MAX_INT32 && forall x :: x in s ==> 0 <= s[x] <= MAX_INT32 - SORT_GAP * n
  }

  /** Reorders inside the group, none of them in front of the first definition. */
  ghost predicate NotToFront(s: map<int, int>, steps: seq<Step>)
    decreases |steps|
  {
    steps == [] ||
    (&& steps[0].Reorder? && steps[0].dragged in s && steps[0].target in s
     && Slot(s, steps[0].target, steps[0].before) > 0
     && NotToFront(Apply(s, steps[0]), steps[1..]))
  }

  /** No row but `d` has a different sort value. */
  ghost predicate OneRow(s: map<int, int>, s': map<int, int>, d: int) {
    s'.Keys == s.Keys && forall x :: x in s && x != d ==> s'[x] == s[x]
  }

  /** Every step changes the dragged row at most, and none renumbers the group. */
  ghost predicate OneRowEach(s: map<int, int>, steps: seq<Step>)
    decreases |steps|
  {
    steps == [] ||
    (&& steps[0].Reorder? && steps[0].dragged in s && steps[0].target in s
     && !MovePlan(s, steps[0].dragged, steps[0].target, steps[0].before).Rebalance?
     && OneRow(s, Apply(s, steps[0]), steps[0].dragged)
     && OneRowEach(Apply(s, steps[0]), steps[1..]))
  }

  lemma ApartWeaker(s: map<int, int>, g: nat, h: nat)
    requires Apart(s, g) && h <= g
    ensures Apart(s, h)
  {
  }

  lemma RoomyNoOverflow(s: map<int, int>, n: nat)
    requires n > 0 && Roomy(s, n)
    ensures NoOverflow(s)
  {
  }

  lemma NoRebalance(s: map<int, int>, d: int, t: int, before: bool)
    requires d in s && t in s && Slot(s, t, before) > 0 && Apart(s, 2) && NoOverflow(s)
    ensures !MovePlan(s, d, t, before).Rebalance?
  {
    var l, k := Order(s), Slot(s, t, before);
    if 0 < k < |l| {
      var a, b := l[k - 1], l[k];
      assert a in s && b in s && Earlier(s, a, b) && a != b;
    }
  }

  lemma SlotRoomy(s: map<int, int>, k: nat, v: int, d: int, n: nat)
    requires d in s && n > 0 && Roomy(s, n) && k > 0 && InSlot(s, k, v)
    ensures Roomy(s[d := v], n - 1)
  {
    var l := Order(s);
    OrderLength(s);
    OrderLength(s[d := v]);
    assert s[d := v].Keys == s.Keys;
    var a := l[k - 1];
    assert a in s;
    if k < |l| { var b := l[k]; assert b in s; }
  }

  lemma OneMoveValue(s: map<int, int>, d: int, t: int, before: bool) returns (v: int)
    requires d in s && t in s && Slot(s, t, before) > 0 && Apart(s, 2) && NoOverflow(s)
    ensures !MovePlan(s, d, t, before).Rebalance?
    ensures Moved(s, d, t, before) == s ||
            (Moved(s, d, t, before) == s[d := v] && InSlot(s, Slot(s, t, before), v))
  {
    NoRebalance(s, d, t, before);
    v := 0;
    if MovePlan(s, d, t, before).SetSort? {
      v := MovePlan(s, d, t, before).value;
      PlanPicksSlot(s, d, t, before);
    }
  }

  lemma OneMoveEffect(s: map<int, int>, s': map<int, int>, d: int, k: nat, v: int, g: nat, n: nat)
    requires d in s && k > 0 && (s' == s || (s' == s[d := v] && InSlot(s, k, v)))
    requires 1 <= g <= SORT_GAP && Apart(s, 2 * g) && n > 0 && Roomy(s, n)
    ensures OneRow(s, s', d) && Apart(s', g) && Roomy(s', n - 1)
  {
    ApartWeaker(s, 2 * g, g);
    if s' != s {
      SlotKeepsApart(s, k, v, d, g);
      SlotRoomy(s, k, v, d, n);
    }
  }

  lemma OneMove(s: map<int, int>, d: int, t: int, before: bool, g: nat, n: nat)
    requires d in s && t in s && Slot(s, t, before) > 0
    requires 1 <= g <= SORT_GAP && Apart(s, 2 * g) && n > 0 && Roomy(s, n)
    ensures !MovePlan(s, d, t, before).Rebalance? && OneRow(s, Moved(s, d, t, before), d)
    ensures Apart(Moved(s, d, t, before), g) && Roomy(Moved(s, d, t, before), n - 1)
  {
    RoomyNoOverflow(s, n);
    ApartWeaker(s, 2 * g, 2);
    var v := OneMoveValue(s, d, t, before);
    OneMoveEffect(s, Moved(s, d, t, before), d, Slot(s, t, before), v, g, n);
  }

  lemma HalvingMove(s: map<int, int>, steps: seq<Step>, h: nat, g: nat)
    requires steps != [] && NotToFront(s, steps) && h == 2 * g && 1 <= g <= SORT_GAP && Apart(s, h) && Roomy(s, |steps|)
    ensures !MovePlan(s, steps[0].dragged, steps[0].target, steps[0].before).Rebalance?
    ensures OneRow(s, Apply(s, steps[0]), steps[0].dragged)
    ensures Apart(Apply(s, steps[0]), g) && Roomy(Apply(s, steps[0]), |steps| - 1)
  {
    OneMove(s, steps[0].dragged, steps[0].target, steps[0].before, g, |steps|);
  }

  lemma HalvingStep(s: map<int, int>, steps: seq<Step>, k: nat)
    requires steps != [] && NotToFront(s, steps) && 1 <= k <= 9 && Apart(s, Pow2(k)) && Roomy(s, |steps|)
    ensures !MovePlan(s, steps[0].dragged, steps[0].target, steps[0].before).Rebalance?
    ensures OneRow(s, Apply(s, steps[0]), steps[0].dragged)
    ensures Apart(Apply(s, steps[0]), Pow2(k - 1)) && Roomy(Apply(s, steps[0]), |steps| - 1)
  {
    Pow2Bound(k - 1);
    HalvingMove(s, steps, Pow2(k), Pow2(k - 1));
  }

  /** With all distances at least 2^k, k moves away from the front never rebalance. */
  lemma {:induction false} HalvingLasts(s: map<int, int>, steps: seq<Step>, k: nat)
    requires |steps| <= k <= 9 && Apart(s, Pow2(k)) && Roomy(s, |steps|) && NotToFront(s, steps)
    ensures OneRowEach(s, steps)
    decreases |steps|
  {
    if steps != [] {
      HalvingStep(s, steps, k);
      var next, rest := Apply(s, steps[0]), steps[1..];
      assert Apart(next, Pow2(k - 1)) && Roomy(next, |rest|) && NotToFront(next, rest);
      HalvingLasts(next, rest, k - 1);
    }
  }

  lemma Pow2Bound(k: nat)
    requires k <= 9
    ensures 1 <= Pow2(k) <= SORT_GAP
  {
    Pow2Small(k);
  }

  lemma {:induction false} Pow2Small(k: nat)
    requires k <= 9
    ensures 1 <= Pow2(k) <= 512
    ensures Pow2(9) == 512
  {
    assert Pow2(9) == 2 * Pow2(8) == 4 * Pow2(7) == 8 * Pow2(6) == 16 * Pow2(5);
    assert Pow2(5) == 2 * Pow2(4) == 4 * Pow2(3) == 8 * Pow2(2) == 16 * Pow2(1);
    Pow2Grows(k, 9);
  }

  lemma {:induction false} Pow2Grows(k: nat, n: nat)
    requires k <= n
    ensures 1 <= Pow2(k) <= Pow2(n)
    decreases n
  {
    if k < n { Pow2Grows(k, n - 1); } else if k > 0 { Pow2Grows(k - 1, n - 1); }
  }

  /** Right after a rebalance, nine moves away from the front are single-row updates. */
  lemma NineAfterRebalance(m: seq<int>, steps: seq<Step>)
    requires Distinct(m) && (|m| + 9) * SORT_GAP <= MAX_INT32
    requires |steps| <= 9 && NotToFront(Spread(m), steps)
    ensures OneRowEach(Spread(m), steps)
  {
    RebalancedBounded(m, |m|);
    SpreadListing(m);
    Pow2Small(9);
    ApartWeaker(Spread(m), SORT_GAP, Pow2(9));
    HalvingLasts(Spread(m), steps, 9);
  }

  // ---------------------------------------------------------------- moves to the front

  ghost function FirstSort(s: map<int, int>): int
    requires s != map[]
  {
    FirstListed(s);
    s[Order(s)[0]]
  }

  lemma FirstListed(s: map<int, int>)
    ensures s != map[] ==> Order(s) != [] && Order(s)[0] in s
  {
    if s != map[] {
      NonEmpty(s.Keys);
      assert s.Keys != {};
      var x :| x in s.Keys;
      assert x in Order(s);
    }
  }

  /** Reorders that each put a definition in front of the one then first. */
  ghost predicate ToFront(s: map<int, int>, steps: seq<Step>)
    decreases |steps|
  {
    steps == [] ||
    (&& steps[0].Reorder? && steps[0].dragged in s && steps[0].target in s && steps[0].before
     && Slot(s, steps[0].target, true) == 0
     && ToFront(Apply(s, steps[0]), steps[1..]))
  }

  /** The dragged definition is first, nobody else's value changed, the old first value stands `gap` above. */
  ghost predicate Fronted(s: map<int, int>, s': map<int, int>, d: int, gap: int) {
    && s != map[] && d in s' && OneRow(s, s', d)
    && [d] <= Order(s') && FirstSort(s) - s'[d] == gap
  }

  lemma FrontValue(s: map<int, int>, d: int, t: int) returns (v: int)
    requires d in s && t in s && AllInt32(s) && Slot(s, t, true) == 0 && s[t] > MIN_SORT_GAP
    ensures FirstSort(s) == s[t] && Moved(s, d, t, true) == s[d := v]
    ensures InFront(s[t], v) && 1 <= v < s[t] && [d] <= Order(s[d := v])
    ensures Fronted(s, Moved(s, d, t, true), d, s[t] - v)
  {
    var l := Order(s);
    assert l[0] == t;
    v := MovePlan(s, d, t, true).value;
    PlanPicksSlot(s, d, t, true);
    if d == t {
      SelfSetSort(s, d, true, v);
    } else {
      SetSortOrder(s, d, t, true, v);
      PlaceIsPlaced(l, d, t, true);
      FrontPlace(l, d, t);
    }
  }

  /** In front of the first item is the front. */
  lemma FrontPlace(l: seq<int>, d: int, t: int)
    requires Distinct(l) && l != [] && l[0] == t && d != t && d in l
    ensures [d] <= Place(l, d, t, true)
  {
    IndexAt(l, 0);
    WithoutDistinct(l, d);
    WithoutMembers(l, d);
    assert Without(l, d)[0] == t;
    IndexAt(Without(l, d), 0);
  }

  /** Every step puts the dragged definition exactly one gap in front, by one row. */
  ghost predicate GapEach(s: map<int, int>, steps: seq<Step>)
    decreases |steps|
  {
    steps == [] ||
    (&& steps[0].Reorder? && Fronted(s, Apply(s, steps[0]), steps[0].dragged, SORT_GAP)
     && GapEach(Apply(s, steps[0]), steps[1..]))
  }

  /** With the first sort value above n gaps, n moves to the front change one row each and leave one gap. */
  lemma {:induction false} FrontGaps(s: map<int, int>, steps: seq<Step>)
    requires AllInt32(s) && ToFront(s, steps) && (s != map[] ==> FirstSort(s) > SORT_GAP * |steps|)
    ensures GapEach(s, steps)
    decreases |steps|
  {
    if steps != [] {
      var d, t := steps[0].dragged, steps[0].target;
      var v := FrontValue(s, d, t);
      var s' := Apply(s, steps[0]);
      assert s' == s[d := v] && [d] <= Order(s') && FirstSort(s') == v;
      FrontGaps(Apply(s, steps[0]), steps[1..]);
    }
  }

  /** Every step puts the dragged definition in front by one row, at the middle of what is left there:
      step i leaves at least 2^(k-1-i) on either side. */
  ghost predicate HalfEach(s: map<int, int>, steps: seq<Step>, k: nat)
    decreases |steps|
  {
    steps == [] ||
    (&& k > 0 && steps[0].Reorder?
     && var s' := Apply(s, steps[0]);
        && s != map[] && s' != map[]
        && Fronted(s, s', steps[0].dragged, FirstSort(s) - FirstSort(s'))
        && FirstSort(s') >= Pow2(k - 1) && FirstSort(s) - FirstSort(s') >= Pow2(k - 1)
        && HalfEach(s', steps[1..], k - 1))
  }

  /** With the first sort value at least 2^k, but no more than a gap, k moves to the front change one row
      each; every one halves the room left. */
  lemma {:induction false} FrontHalves(s: map<int, int>, steps: seq<Step>, k: nat)
    requires AllInt32(s) && ToFront(s, steps) && |steps| <= k
    requires s != map[] ==> Pow2(k) <= FirstSort(s) <= SORT_GAP
    ensures HalfEach(s, steps, k)
    decreases |steps|
  {
    if steps != [] {
      var d, t := steps[0].dragged, steps[0].target;
      Pow2Grows(0, k - 1);
      var v := FrontValue(s, d, t);
      var s' := Apply(s, steps[0]);
      assert s' == s[d := v] && [d] <= Order(s') && FirstSort(s') == v;
      FrontHalves(s', steps[1..], k - 1);
    }
  }

  /** So right after a rebalance nine moves to the front change one row each. */
  lemma NineToFront(m: seq<int>, steps: seq<Step>)
    requires Distinct(m) && SpreadFits(|m|) && |steps| <= 9 && ToFront(Spread(m), steps)
    ensures HalfEach(Spread(m), steps, 9)
  {
    var s := Spread(m);
    SpreadListing(m);
    RebalancedBounded(m, |m|);
    Pow2Small(9);
    if s != map[] { FirstListed(s); }
    FrontHalves(s, steps, 9);
  }
}
