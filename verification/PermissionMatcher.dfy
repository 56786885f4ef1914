/** Wildcard permission codes (admin/internal/auth/permission.go).
    A code is a Go string read byte by byte; each `char` below stands for one byte. */
module PermissionMatcher {

  /** The documented meaning: from byte `i` on, the pattern describes the target from byte `j` on.
      `*` stands for any run of bytes, `?` for any one byte, everything else for itself. */
  ghost predicate Glob(p: string, t: string, i: nat, j: nat)
    requires i <= |p| && j <= |t|
    decreases |p| - i, |t| - j
  {
    if i == |p| then j == |t|
    else if p[i] == '*' then Glob(p, t, i + 1, j) || (j < |t| && Glob(p, t, i, j + 1))
    else j < |t| && (p[i] == '?' || p[i] == t[j]) && Glob(p, t, i + 1, j + 1)
  }

  ghost predicate GlobMatches(p: string, t: string) {
    Glob(p, t, 0, 0)
  }

  /** One byte of the pattern and one byte of the target agree literally. */
  predicate Same(p: string, t: string, i: nat, j: nat) {
    i < |p| && j < |t| && (p[i] == t[j] || p[i] == '?')
  }

  /** What the loop accepts, without its bookkeeping: a literal agreement is always taken, so a
      pattern star that faces a target star is only that star; any other star skips freely. */
  ghost predicate Greedy(p: string, t: string, i: nat, j: nat)
    requires i <= |p| && j <= |t|
    decreases |p| - i
  {
    if Same(p, t, i, j) then Greedy(p, t, i + 1, j + 1)
    else if i < |p| && p[i] == '*' then
      var a := i + 1;
      exists k: nat :: j <= k <= |t| && Greedy(p, t, a, k)
    else i == |p| && j == |t|
  }

  /** The pattern from `a` on is accepted from some target position at or after `c`. */
  ghost predicate StarFrom(p: string, t: string, a: nat, c: nat)
    requires a <= |p|
  {
    exists y: nat :: c <= y <= |t| && Greedy(p, t, a, y)
  }

  ghost predicate Accepts(p: string, t: string) {
    p == "*" || Greedy(p, t, 0, 0)
  }

  // ---------------------------------------------------------------- the greedy loop

  /** Pattern bytes `a..a+n` and target bytes `c..c+n` agree literally. */
  ghost predicate Aligned(p: string, t: string, a: nat, c: nat, n: nat) {
    a + n <= |p| && c + n <= |t| &&
    forall x :: a <= x < a + n ==> p[x] == t[c + (x - a)] || p[x] == '?'
  }

  lemma {:induction false} AlignedRun(p: string, t: string, a: nat, c: nat, n: nat)
    requires Aligned(p, t, a, c, n)
    ensures Greedy(p, t, a, c) == Greedy(p, t, a + n, c + n)
    decreases n
  {
    if n > 0 {
      assert Same(p, t, a + (n - 1), c + (n - 1));
      AlignedRun(p, t, a, c, n - 1);
    }
  }

  /** The reason one remembered star is enough: a match that starts the same pattern segment
      later than the aligned run can never reach the segment's end earlier than the run did. */
  lemma {:induction false} NeverAhead(p: string, t: string, a: nat, c: nat, n: nat, q: nat, y: nat)
    returns (z: nat)
    requires Aligned(p, t, a, c, n)
    requires q <= n && c + q <= y <= |t|
    requires Greedy(p, t, a + q, y)
    ensures c + n <= z <= |t| && Greedy(p, t, a + n, z)
    decreases n - q
  {
    if y == c + q {
      AlignedRun(p, t, a + q, c + q, n - q);
      z := c + n;
    } else if q == n {
      z := y;
    } else if Same(p, t, a + q, y) {
      z := NeverAhead(p, t, a, c, n, q + 1, y + 1);
    } else {
      var k: nat :| y <= k <= |t| && Greedy(p, t, a + q + 1, k);
      z := NeverAhead(p, t, a, c, n, q + 1, k);
    }
  }

  /** The segment after the remembered star is lined up with `c`; the future depends on `(a+n, c+n)`. */
  lemma SegmentDone(p: string, t: string, a: nat, c: nat, n: nat)
    requires Aligned(p, t, a, c, n)
    ensures StarFrom(p, t, a, c) ==> StarFrom(p, t, a + n, c + n)
    ensures Greedy(p, t, a + n, c + n) ==> StarFrom(p, t, a, c)
    ensures !Greedy(p, t, a + n, c + n) ==> (StarFrom(p, t, a, c) <==> StarFrom(p, t, a, c + 1))
  {
    AlignedRun(p, t, a, c, n);
    if StarFrom(p, t, a, c) {
      var y: nat :| c <= y <= |t| && Greedy(p, t, a, y);
      var z := NeverAhead(p, t, a, c, n, 0, y);
    }
  }

  lemma StarSkips(p: string, t: string, i: nat, j: nat)
    requires i < |p| && j <= |t| && p[i] == '*' && !Same(p, t, i, j)
    ensures Greedy(p, t, i, j) <==> StarFrom(p, t, i + 1, j)
  {
  }

  /** Meeting another star: the older star can be forgotten. */
  lemma NewStar(p: string, t: string, a: nat, c: nat, n: nat)
    requires Aligned(p, t, a, c, n)
    requires a + n < |p| && p[a + n] == '*' && !Same(p, t, a + n, c + n)
    ensures StarFrom(p, t, a, c) <==> StarFrom(p, t, a + n + 1, c + n)
  {
    SegmentDone(p, t, a, c, n);
    StarSkips(p, t, a + n, c + n);
    if StarFrom(p, t, a + n, c + n) {
      var y: nat :| c + n <= y <= |t| && Greedy(p, t, a + n, y);
      if Same(p, t, a + n, y) {
        assert Greedy(p, t, a + n + 1, y + 1);
      } else {
        StarSkips(p, t, a + n, y);
      }
    }
  }

  ghost predicate AllStars(p: string, i: nat)
  {
    forall k :: i <= k < |p| ==> p[k] == '*'
  }

  /** With the target used up, only stars may be left. */
  lemma {:induction false} AtEnd(p: string, t: string, i: nat)
    requires i <= |p|
    ensures Greedy(p, t, i, |t|) <==> AllStars(p, i)
    decreases |p| - i
  {
    if i < |p| && p[i] == '*' {
      AtEnd(p, t, i + 1);
    }
  }

  /** What the four indices of the loop mean: the pattern after the remembered star is lined up
      with the target from `matchIdx`, and the answer is still open exactly as `StarFrom` says. */
  ghost predicate Tracks(p: string, t: string, pIdx: nat, tIdx: nat, starIdx: int, matchIdx: nat) {
    && -1 <= starIdx && starIdx + 1 <= pIdx <= |p| && matchIdx <= tIdx <= |t|
    && tIdx - matchIdx == pIdx - (starIdx + 1)
    && Aligned(p, t, starIdx + 1, matchIdx, pIdx - (starIdx + 1))
    && (if starIdx == -1 then matchIdx == 0
        else Greedy(p, t, 0, 0) <==> StarFrom(p, t, starIdx + 1, matchIdx))
  }

  lemma LiteralStep(p: string, t: string, pIdx: nat, tIdx: nat, starIdx: int, matchIdx: nat)
    requires Tracks(p, t, pIdx, tIdx, starIdx, matchIdx) && Same(p, t, pIdx, tIdx)
    ensures Tracks(p, t, pIdx + 1, tIdx + 1, starIdx, matchIdx)
  {
  }

  lemma StarStep(p: string, t: string, pIdx: nat, tIdx: nat, starIdx: int, matchIdx: nat)
    requires Tracks(p, t, pIdx, tIdx, starIdx, matchIdx)
    requires pIdx < |p| && p[pIdx] == '*' && tIdx < |t| && !Same(p, t, pIdx, tIdx)
    ensures Tracks(p, t, pIdx + 1, tIdx, pIdx, tIdx)
  {
    if starIdx == -1 {
      AlignedRun(p, t, 0, 0, pIdx);
      StarSkips(p, t, pIdx, tIdx);
    } else {
      NewStar(p, t, starIdx + 1, matchIdx, pIdx - (starIdx + 1));
    }
  }

  lemma BackStep(p: string, t: string, pIdx: nat, tIdx: nat, starIdx: int, matchIdx: nat)
    requires Tracks(p, t, pIdx, tIdx, starIdx, matchIdx) && starIdx != -1
    requires tIdx < |t| && !Same(p, t, pIdx, tIdx) && !(pIdx < |p| && p[pIdx] == '*')
    ensures Tracks(p, t, starIdx + 1, matchIdx + 1, starIdx, matchIdx + 1)
  {
    SegmentDone(p, t, starIdx + 1, matchIdx, pIdx - (starIdx + 1));
  }

  lemma Stuck(p: string, t: string, pIdx: nat, tIdx: nat, matchIdx: nat)
    requires Tracks(p, t, pIdx, tIdx, -1, matchIdx)
    requires tIdx < |t| && !Same(p, t, pIdx, tIdx) && !(pIdx < |p| && p[pIdx] == '*')
    ensures !Greedy(p, t, 0, 0)
  {
    AlignedRun(p, t, 0, 0, pIdx);
  }

  lemma TargetDone(p: string, t: string, pIdx: nat, starIdx: int, matchIdx: nat)
    requires Tracks(p, t, pIdx, |t|, starIdx, matchIdx)
    ensures Greedy(p, t, 0, 0) <==> AllStars(p, pIdx)
  {
    var a, n := starIdx + 1, pIdx - (starIdx + 1);
    AtEnd(p, t, pIdx);
    if starIdx == -1 {
      AlignedRun(p, t, 0, 0, pIdx);
    } else {
      SegmentDone(p, t, a, matchIdx, n);
    }
  }

  /** `m` retries at `w` rounds each. */
  ghost function Budget(m: nat, w: nat): nat {
    if m == 0 then 0 else w + Budget(m - 1, w)
  }

  lemma {:induction false} BudgetIsProduct(m: nat, w: nat)
    ensures Budget(m, w) == m * w
  {
    if m > 0 {
      BudgetIsProduct(m - 1, w);
      assert m * w == (m - 1) * w + w;
    }
  }

  lemma {:induction false} BudgetGrows(m: nat, n: nat, w: nat)
    requires m <= n
    ensures Budget(m, w) <= Budget(n, w)
  {
    if m < n { BudgetGrows(m, n - 1, w); }
  }

  method MatchWildcard(pattern: string, target: string) returns (ok: bool, ghost rounds: nat)
    ensures ok <==> Accepts(pattern, target)
    ensures rounds <= |target| * (|pattern| + 1) + |pattern|
  {
    rounds := 0;
    if pattern == "*" {
      return true, 0;
    }
    BudgetIsProduct(|target|, |pattern| + 1);
    var pLen, tLen := |pattern|, |target|;
    var pIdx, tIdx := 0, 0;
    var starIdx, matchIdx := -1, 0;
    while tIdx < tLen
      invariant Tracks(pattern, target, pIdx, tIdx, starIdx, matchIdx)
      invariant rounds <= Budget(matchIdx, pLen + 1) + pIdx
      decreases pLen - starIdx, tLen - matchIdx, tLen - tIdx
    {
      rounds := rounds + 1;
      if pIdx < pLen && (pattern[pIdx] == target[tIdx] || pattern[pIdx] == '?') {
        LiteralStep(pattern, target, pIdx, tIdx, starIdx, matchIdx);
        pIdx := pIdx + 1;
        tIdx := tIdx + 1;
      } else if pIdx < pLen && pattern[pIdx] == '*' {
        BudgetGrows(matchIdx, tIdx, pLen + 1);
        StarStep(pattern, target, pIdx, tIdx, starIdx, matchIdx);
        starIdx := pIdx;
        matchIdx := tIdx;
        pIdx := pIdx + 1;
      } else if starIdx != -1 {
        BackStep(pattern, target, pIdx, tIdx, starIdx, matchIdx);
        pIdx := starIdx + 1;
        matchIdx := matchIdx + 1;
        tIdx := matchIdx;
      } else {
        BudgetGrows(matchIdx, tLen, pLen + 1);
        Stuck(pattern, target, pIdx, tIdx, matchIdx);
        return false, rounds;
      }
    }
    TargetDone(pattern, target, pIdx, starIdx, matchIdx);
    BudgetGrows(matchIdx, tLen, pLen + 1);
    ghost var stop := pIdx;
    while pIdx < pLen && pattern[pIdx] == '*'
      invariant stop <= pIdx <= pLen
      invariant forall k :: stop <= k < pIdx ==> pattern[k] == '*'
    {
      pIdx := pIdx + 1;
    }
    ok := pIdx == pLen;
  }

  // ---------------------------------------------------------------- against the documented meaning

  lemma {:induction false} GlobSkips(p: string, t: string, i: nat, j: nat, k: nat)
    requires i < |p| && p[i] == '*' && j <= k <= |t| && Glob(p, t, i + 1, k)
    ensures Glob(p, t, i, j)
    decreases k - j
  {
    if j < k { GlobSkips(p, t, i, j + 1, k); }
  }

  lemma {:induction false} GlobAligned(p: string, t: string, a: nat, c: nat, n: nat)
    requires Aligned(p, t, a, c, n) && Glob(p, t, a + n, c + n)
    ensures Glob(p, t, a, c)
    decreases n
  {
    if n > 0 {
      GlobAligned(p, t, a + 1, c + 1, n - 1);
      if p[a] == '*' { GlobSkips(p, t, a, c, c + 1); }
    }
  }

  /** Whatever the loop accepts, the documented meaning allows. */
  lemma {:induction false} GreedySound(p: string, t: string, i: nat, j: nat)
    requires i <= |p| && j <= |t| && Greedy(p, t, i, j)
    ensures Glob(p, t, i, j)
    decreases |p| - i
  {
    if Same(p, t, i, j) {
      GreedySound(p, t, i + 1, j + 1);
      GlobAligned(p, t, i, j, 1);
    } else if i < |p| {
      var k: nat :| j <= k <= |t| && Greedy(p, t, i + 1, k);
      GreedySound(p, t, i + 1, k);
      GlobSkips(p, t, i, j, k);
    }
  }

  /** On a target without stars nothing the documentation allows is missed. */
  lemma {:induction false} GreedyComplete(p: string, t: string, i: nat, j: nat)
    requires i <= |p| && j <= |t| && '*' !in t && Glob(p, t, i, j)
    ensures Greedy(p, t, i, j)
    decreases |p| - i, |t| - j
  {
    if i < |p| && p[i] == '*' {
      StarSkips(p, t, i, j);
      if Glob(p, t, i + 1, j) {
        GreedyComplete(p, t, i + 1, j);
      } else {
        GreedyComplete(p, t, i, j + 1);
        StarSkips(p, t, i, j + 1);
      }
    } else if i < |p| {
      GreedyComplete(p, t, i + 1, j + 1);
    }
  }

  lemma {:induction false} NoStarKeepsLength(p: string, t: string, i: nat, j: nat)
    requires i <= |p| && j <= |t| && Greedy(p, t, i, j)
    requires forall k :: i <= k < |p| ==> p[k] != '*'
    ensures |p| - i == |t| - j
    decreases |p| - i
  {
    if i < |p| { NoStarKeepsLength(p, t, i + 1, j + 1); }
  }

  lemma AcceptsOnlyMatches(p: string, t: string)
    requires Accepts(p, t)
    ensures GlobMatches(p, t)
  {
    if p == "*" {
      GlobSkips(p, t, 0, 0, |t|);
    } else {
      GreedySound(p, t, 0, 0);
    }
  }

  /** One pattern that matches `t` by the documentation and is rejected, for every `t` with a star at `k`. */
  function OneStarAmongQuestions(t: string, k: nat): (p: string)
    ensures |p| == |t| + 1
    ensures forall i :: 0 <= i < |p| ==> p[i] == if i == k then '*' else '?'
  {
    seq(|t| + 1, i => if i == k then '*' else '?')
  }

  lemma StarInTargetMisses(t: string, k: nat)
    requires k < |t| && t[k] == '*'
    ensures var p := OneStarAmongQuestions(t, k); GlobMatches(p, t) && !Accepts(p, t)
  {
    var p := OneStarAmongQuestions(t, k);
    GlobAligned(p, t, k + 1, k, |t| - k);
    GlobSkips(p, t, k, k, k);
    GlobAligned(p, t, 0, 0, k);
    AlignedRun(p, t, 0, 0, |t|);
  }

  /** The matcher means what its documentation says for every pattern, exactly on the targets without a star. */
  lemma ExactOnTarget(t: string)
    ensures (forall p: string :: Accepts(p, t) <==> GlobMatches(p, t)) <==> '*' !in t
  {
    if '*' in t {
      var k :| 0 <= k < |t| && t[k] == '*';
      StarInTargetMisses(t, k);
    } else {
      forall p: string ensures Accepts(p, t) <==> GlobMatches(p, t) {
        if Accepts(p, t) { AcceptsOnlyMatches(p, t); }
        if GlobMatches(p, t) { GreedyComplete(p, t, 0, 0); }
      }
    }
  }

  lemma StarInPatternMisses(p: string, k: nat)
    requires k < |p| && p[k] == '*' && forall i :: k < i < |p| ==> p[i] != '*'
    requires p != "*"
    ensures var t := p[..k + 1] + "x" + p[k + 1..]; GlobMatches(p, t) && !Accepts(p, t)
  {
    var t := p[..k + 1] + "x" + p[k + 1..];
    GlobAligned(p, t, k + 1, k + 2, |p| - (k + 1));
    GlobSkips(p, t, k, k, k + 2);
    GlobAligned(p, t, 0, 0, k);
    AlignedRun(p, t, 0, 0, k + 1);
    if Greedy(p, t, k + 1, k + 1) {
      NoStarKeepsLength(p, t, k + 1, k + 1);
    }
  }

  lemma {:induction false} LastStar(p: string, n: nat) returns (k: nat)
    requires n <= |p| && '*' in p[..n]
    ensures k < n && p[k] == '*' && forall i :: k < i < n ==> p[i] != '*'
  {
    if p[n - 1] == '*' {
      k := n - 1;
    } else {
      assert p[..n] == p[..n - 1] + [p[n - 1]];
      k := LastStar(p, n - 1);
    }
  }

  lemma {:induction false} NoStarPattern(p: string, t: string, i: nat, j: nat)
    requires '*' !in p && i <= |p| && j <= |t|
    ensures Greedy(p, t, i, j) <==> Glob(p, t, i, j)
    decreases |p| - i
  {
    if i < |p| && j < |t| { NoStarPattern(p, t, i + 1, j + 1); }
  }

  /** A pattern is read as documented on every target exactly when it is `*` itself or has no star. */
  lemma ExactOnPattern(p: string)
    ensures (forall t: string :: Accepts(p, t) <==> GlobMatches(p, t)) <==> p == "*" || '*' !in p
  {
    if p == "*" {
      forall t: string ensures GlobMatches(p, t) { GlobSkips(p, t, 0, 0, |t|); }
    } else if '*' in p {
      assert p[..|p|] == p;
      var k := LastStar(p, |p|);
      StarInPatternMisses(p, k);
    } else {
      forall t: string ensures Accepts(p, t) <==> GlobMatches(p, t) { NoStarPattern(p, t, 0, 0); }
    }
  }

  /** Every code is accepted by itself, stars and all. */
  lemma AcceptsItself(t: string)
    ensures Accepts(t, t)
  {
    AlignedRun(t, t, 0, 0, |t|);
  }

  lemma {:induction false} StarFreePrefix(w: string, t: string, i: nat)
    requires '*' !in w && i <= |w| && i <= |t|
    ensures Greedy(w + "*", t, i, i) <==>
              && |w| <= |t| && (forall x :: i <= x < |w| ==> w[x] == '?' || w[x] == t[x])
              && (|w| < |t| && t[|w|] == '*' ==> |t| == |w| + 1)
    decreases |w| - i
  {
    var p := w + "*";
    if i < |w| {
      assert p[i] == w[i] && w[i] in w;
      if Same(p, t, i, i) { StarFreePrefix(w, t, i + 1); }
    } else if i < |t| && t[i] == '*' {
      assert Same(p, t, i, i);
      assert Greedy(p, t, i, i) == Greedy(p, t, i + 1, i + 1);
    } else {
      assert Greedy(p, t, i + 1, |t|);
    }
  }

  /** The usual pattern, a star at the end, on all targets: it accepts what begins with the part before the
      star, whatever follows, except that a star may follow only if nothing comes after it. */
  lemma TrailingStarExact(w: string, t: string)
    requires '*' !in w && w != ""
    ensures Accepts(w + "*", t) <==>
              && |w| <= |t| && (forall x :: 0 <= x < |w| ==> w[x] == '?' || w[x] == t[x])
              && (|w| < |t| && t[|w|] == '*' ==> |t| == |w| + 1)
  {
    assert |w + "*"| > 1;
    StarFreePrefix(w, t, 0);
  }

  // ---------------------------------------------------------------- callers

  ghost predicate Grants(perm: string, code: string) {
    perm == code || Accepts(perm, code)
  }

  lemma GrantsIsGlob(perm: string, code: string)
    ensures Grants(perm, code) ==> GlobMatches(perm, code)
    ensures '*' !in code ==> (Grants(perm, code) <==> GlobMatches(perm, code))
  {
    if perm == code { GlobAligned(perm, code, 0, 0, |perm|); }
    if Accepts(perm, code) { AcceptsOnlyMatches(perm, code); }
    ExactOnTarget(code);
  }

  /** `permissions` is what GetUserPermissions returned. */
  method HasPermission(permissions: seq<string>, permissionCode: string) returns (ok: bool)
    ensures ok ==> exists perm :: perm in permissions && GlobMatches(perm, permissionCode)
    ensures '*' !in permissionCode ==>
      (ok <==> exists perm :: perm in permissions && GlobMatches(perm, permissionCode))
    ensures ok <==> exists perm :: perm in permissions && Grants(perm, permissionCode)
  {
    for i := 0 to |permissions|
      invariant forall k :: 0 <= k < i ==> !Grants(permissions[k], permissionCode)
    {
      var hit := permissions[i] == permissionCode;
      if !hit { ghost var rounds; hit, rounds := MatchWildcard(permissions[i], permissionCode); }
      if hit {
        GrantsIsGlob(permissions[i], permissionCode);
        return true;
      }
    }
    forall perm | perm in permissions ensures !Grants(perm, permissionCode) {}
    forall perm | perm in permissions && '*' !in permissionCode ensures !GlobMatches(perm, permissionCode) {
      GrantsIsGlob(perm, permissionCode);
    }
    ok := false;
  }

  method HasAnyPermission(permissions: seq<string>, permissionCodes: seq<string>) returns (ok: bool)
    ensures ok <==> exists perm, code :: perm in permissions && code in permissionCodes && Grants(perm, code)
    ensures ok ==> exists perm, code :: perm in permissions && code in permissionCodes && GlobMatches(perm, code)
    ensures (forall code :: code in permissionCodes ==> '*' !in code) ==>
      (ok <==> exists perm, code :: perm in permissions && code in permissionCodes && GlobMatches(perm, code))
  {
    for i := 0 to |permissions|
      invariant forall k, code :: 0 <= k < i && code in permissionCodes ==> !Grants(permissions[k], code)
    {
      for j := 0 to |permissionCodes|
        invariant forall k :: 0 <= k < j ==> !Grants(permissions[i], permissionCodes[k])
      {
        var hit := permissions[i] == permissionCodes[j];
        if !hit { ghost var rounds; hit, rounds := MatchWildcard(permissions[i], permissionCodes[j]); }
        if hit {
          assert Grants(permissions[i], permissionCodes[j]);
          GrantsIsGlob(permissions[i], permissionCodes[j]);
          return true;
        }
      }
    }
    forall perm, code | perm in permissions && code in permissionCodes && '*' !in code
      ensures !GlobMatches(perm, code)
    {
      GrantsIsGlob(perm, code);
    }
    ok := false;
  }
}
