/**
 * Forests given by parent pointers over 0..n, with no promise that the pointers are
 * acyclic: which nodes a traversal from the roots reaches, and how often.
 */
module Forest {
  import opened Wrappers

  type Parents = seq<Option<nat>>

  ghost predicate InRange(p: Parents) {
    forall i :: 0 <= i < |p| && p[i].Some? ==> p[i].value < |p|
  }

  /** The nodes below `n` whose parent is `q`, in index order; None asks for the roots. */
  ghost function Under(p: Parents, q: Option<nat>, n: nat): (cs: seq<nat>)
    requires n <= |p|
    ensures forall a :: 0 <= a < |cs| ==> cs[a] < n && p[cs[a]] == q
    ensures forall c: nat :: c < n && p[c] == q ==> c in cs
    ensures forall a, b :: 0 <= a < b < |cs| ==> cs[a] < cs[b]
  {
    if n == 0 then [] else Under(p, q, n - 1) + (if p[n - 1] == q then [n - 1] else [])
  }

  /** Preorder of the trees at `cs`, cut off below `depth` levels. */
  ghost function Preorder(p: Parents, cs: seq<nat>, depth: nat): seq<nat>
    decreases depth, |cs|
  {
    if depth == 0 || cs == [] then []
    else [cs[0]] + Preorder(p, Under(p, Some(cs[0]), |p|), depth - 1) + Preorder(p, cs[1..], depth)
  }

  ghost function Flatten(p: Parents): seq<nat> {
    Preorder(p, Under(p, None, |p|), |p|)
  }

  /** The chain of parents from `x` ends at a root after exactly `d` steps. */
  ghost predicate HasDepth(p: Parents, x: nat, d: nat)
    requires InRange(p)
    decreases d
  {
    && x < |p|
    && if d == 0 then p[x].None? else p[x].Some? && HasDepth(p, p[x].value, d - 1)
  }

  ghost predicate Rooted(p: Parents, x: nat)
    requires InRange(p)
  {
    exists d: nat :: HasDepth(p, x, d)
  }

  /** The m-th parent of `x`; stays at the root once there. */
  ghost function Ancestor(p: Parents, x: nat, m: nat): (y: nat)
    requires InRange(p) && x < |p|
    ensures y < |p|
    decreases m
  {
    if m == 0 || p[x].None? then x else Ancestor(p, p[x].value, m - 1)
  }

  lemma {:induction false} DepthIsUnique(p: Parents, x: nat, d: nat, e: nat)
    requires InRange(p) && HasDepth(p, x, d) && HasDepth(p, x, e)
    ensures d == e
    decreases d
  {
    if d > 0 && e > 0 { DepthIsUnique(p, p[x].value, d - 1, e - 1); }
  }

  lemma {:induction false} AncestorDepth(p: Parents, x: nat, d: nat, m: nat)
    requires InRange(p) && HasDepth(p, x, d) && m <= d
    ensures HasDepth(p, Ancestor(p, x, m), d - m)
    ensures m < d ==> p[Ancestor(p, x, m)].Some? && Ancestor(p, x, m + 1) == p[Ancestor(p, x, m)].value
    decreases m
  {
    if m > 0 { AncestorDepth(p, p[x].value, d - 1, m - 1); }
  }

  // ---------------------------------------------------------------- counting visits

  ghost predicate Level(p: Parents, cs: seq<nat>, level: nat)
    requires InRange(p)
  {
    forall a :: 0 <= a < |cs| ==> HasDepth(p, cs[a], level)
  }

  ghost predicate Ascending(cs: seq<nat>) {
    forall a, b :: 0 <= a < b < |cs| ==> cs[a] < cs[b]
  }

  lemma KidsLevel(p: Parents, cs: seq<nat>, level: nat)
    requires InRange(p) && cs != [] && Level(p, cs, level)
    ensures Level(p, Under(p, Some(cs[0]), |p|), level + 1) && Level(p, cs[1..], level)
  {
    assert HasDepth(p, cs[0], level);
  }

  /** How often the preorder of the trees at `cs` visits `x`. */
  ghost function Visits(p: Parents, cs: seq<nat>, depth: nat, x: nat): nat {
    multiset(Preorder(p, cs, depth))[x]
  }

  lemma VisitsSplit(p: Parents, cs: seq<nat>, depth: nat, x: nat)
    requires depth > 0 && cs != []
    ensures Visits(p, cs, depth, x)
         == (if x == cs[0] then 1 else 0) + Visits(p, Under(p, Some(cs[0]), |p|), depth - 1, x) + Visits(p, cs[1..], depth, x)
  {
    var a, b := Preorder(p, Under(p, Some(cs[0]), |p|), depth - 1), Preorder(p, cs[1..], depth);
    assert multiset([cs[0]] + a + b) == multiset{cs[0]} + multiset(a) + multiset(b);
  }

  /** The ancestor of `x` on this level, if it has one, is among `cs`. */
  ghost predicate HangsUnder(p: Parents, cs: seq<nat>, level: nat, x: nat, d: nat)
    requires InRange(p) && x < |p|
  {
    level <= d && Ancestor(p, x, d - level) in cs
  }

  lemma HangsUnderHead(p: Parents, cs: seq<nat>, level: nat, x: nat, d: nat)
    requires InRange(p) && HasDepth(p, x, d)
    requires cs != [] && Level(p, cs, level) && Ascending(cs)
    ensures x == cs[0] ==> d == level
    ensures HangsUnder(p, cs, level, x, d) <==>
      x == cs[0] || HangsUnder(p, Under(p, Some(cs[0]), |p|), level + 1, x, d) || HangsUnder(p, cs[1..], level, x, d)
    ensures x == cs[0] ==> !HangsUnder(p, cs[1..], level, x, d)
    ensures HangsUnder(p, Under(p, Some(cs[0]), |p|), level + 1, x, d) ==> !HangsUnder(p, cs[1..], level, x, d)
  {
    assert HasDepth(p, cs[0], level);
    if x == cs[0] { DepthIsUnique(p, x, d, level); }
    if level < d { AncestorDepth(p, x, d, d - level - 1); }
    assert cs == [cs[0]] + cs[1..];
    assert cs[0] !in cs[1..];
  }

  /** The visits due to a node at depth `d`: one if its tree is among `cs` and not cut off. */
  ghost function VisitsDue(p: Parents, cs: seq<nat>, depth: nat, level: nat, x: nat, d: nat): nat
    requires InRange(p) && x < |p|
  {
    if d < level + depth && HangsUnder(p, cs, level, x, d) then 1 else 0
  }

  lemma DueSplit(p: Parents, cs: seq<nat>, depth: nat, level: nat, x: nat, d: nat)
    requires InRange(p) && HasDepth(p, x, d)
    requires depth > 0 && cs != [] && Level(p, cs, level) && Ascending(cs)
    ensures VisitsDue(p, cs, depth, level, x, d) == (if x == cs[0] then 1 else 0)
         + VisitsDue(p, Under(p, Some(cs[0]), |p|), depth - 1, level + 1, x, d)
         + VisitsDue(p, cs[1..], depth, level, x, d)
  {
    HangsUnderHead(p, cs, level, x, d);
  }

  lemma {:induction false} VisitsOfRooted(p: Parents, cs: seq<nat>, depth: nat, level: nat, x: nat, d: nat)
    requires InRange(p) && HasDepth(p, x, d)
    requires Level(p, cs, level) && Ascending(cs)
    ensures Visits(p, cs, depth, x) == VisitsDue(p, cs, depth, level, x, d)
    decreases depth, |cs|
  {
    if depth > 0 && cs != [] {
      KidsLevel(p, cs, level);
      VisitsOfRooted(p, Under(p, Some(cs[0]), |p|), depth - 1, level + 1, x, d);
      VisitsOfRooted(p, cs[1..], depth, level, x, d);
      VisitsSplit(p, cs, depth, x);
      DueSplit(p, cs, depth, level, x, d);
    }
  }

  lemma {:induction false} OnlyRootedVisited(p: Parents, cs: seq<nat>, depth: nat, level: nat, x: nat)
    requires InRange(p) && x in Preorder(p, cs, depth)
    requires Level(p, cs, level)
    ensures Rooted(p, x)
    decreases depth, |cs|
  {
    var kids := Under(p, Some(cs[0]), |p|);
    KidsLevel(p, cs, level);
    if x == cs[0] {
      assert HasDepth(p, cs[0], level);
    } else if x in Preorder(p, kids, depth - 1) {
      OnlyRootedVisited(p, kids, depth - 1, level + 1, x);
    } else {
      OnlyRootedVisited(p, cs[1..], depth, level, x);
    }
  }

  lemma {:induction false} BelowCard(s: set<nat>, n: nat)
    requires forall i :: i in s ==> i < n
    ensures |s| <= n
  {
    if n == 0 {
      assert s == {};
    } else {
      BelowCard(s - {n - 1}, n - 1);
      if n - 1 in s { assert |s| == |s - {n - 1}| + 1; } else { assert s - {n - 1} == s; }
    }
  }

  ghost predicate DepthAtMost(p: Parents, y: nat, d: nat)
    requires InRange(p)
  {
    exists e: nat :: e <= d && HasDepth(p, y, e)
  }

  /** The chain of a node at depth `d` consists of d + 1 different nodes. */
  lemma {:induction false} ChainOf(p: Parents, x: nat, d: nat) returns (chain: set<nat>)
    requires InRange(p) && HasDepth(p, x, d)
    ensures |chain| == d + 1
    ensures forall y: nat :: y in chain ==> y < |p| && DepthAtMost(p, y, d)
    decreases d
  {
    assert DepthAtMost(p, x, d);
    if d == 0 {
      chain := {x};
    } else {
      var rest := ChainOf(p, p[x].value, d - 1);
      forall y: nat | y in rest ensures DepthAtMost(p, y, d) {
        var e: nat :| e <= d - 1 && HasDepth(p, y, e);
      }
      assert x !in rest by {
        if DepthAtMost(p, x, d - 1) {
          var e: nat :| e <= d - 1 && HasDepth(p, x, e);
          DepthIsUnique(p, x, d, e);
        }
      }
      chain := rest + {x};
    }
  }

  lemma DepthBelowSize(p: Parents, x: nat, d: nat)
    requires InRange(p) && HasDepth(p, x, d)
    ensures d < |p|
  {
    var chain := ChainOf(p, x, d);
    BelowCard(chain, |p|);
  }

  /** A traversal from the roots visits a node once if its chain of parents ends, else never. */
  lemma FlattenVisits(p: Parents, x: nat)
    requires InRange(p) && x < |p|
    ensures multiset(Flatten(p))[x] == if Rooted(p, x) then 1 else 0
  {
    var roots := Under(p, None, |p|);
    assert Level(p, roots, 0);
    if Rooted(p, x) {
      var d: nat :| HasDepth(p, x, d);
      DepthBelowSize(p, x, d);
      AncestorDepth(p, x, d, d);
      VisitsOfRooted(p, roots, |p|, 0, x, d);
    } else if x in Flatten(p) {
      OnlyRootedVisited(p, roots, |p|, 0, x);
    }
  }

  ghost predicate AllBelow(s: seq<nat>, n: nat) {
    forall k :: 0 <= k < |s| ==> s[k] < n
  }

  lemma ConcatBelow(a: seq<nat>, b: seq<nat>, n: nat)
    requires AllBelow(a, n) && AllBelow(b, n)
    ensures AllBelow(a + b, n)
  {
  }

  lemma {:induction false} PreorderBelow(p: Parents, cs: seq<nat>, depth: nat)
    requires AllBelow(cs, |p|)
    ensures AllBelow(Preorder(p, cs, depth), |p|)
    decreases depth, |cs|
  {
    if depth > 0 && cs != [] {
      PreorderBelow(p, Under(p, Some(cs[0]), |p|), depth - 1);
      PreorderBelow(p, cs[1..], depth);
      ConcatBelow([cs[0]], Preorder(p, Under(p, Some(cs[0]), |p|), depth - 1), |p|);
      ConcatBelow([cs[0]] + Preorder(p, Under(p, Some(cs[0]), |p|), depth - 1), Preorder(p, cs[1..], depth), |p|);
    }
  }

  lemma PreorderInRange(p: Parents, cs: seq<nat>, depth: nat)
    requires forall a :: 0 <= a < |cs| ==> cs[a] < |p|
    ensures forall x: nat :: x in Preorder(p, cs, depth) ==> x < |p|
    ensures forall k :: 0 <= k < |Preorder(p, cs, depth)| ==> Preorder(p, cs, depth)[k] < |p|
  {
    PreorderBelow(p, cs, depth);
  }

  // ---------------------------------------------------------------- cycles

  /** Following m > 0 parent pointers from `x` leads back to `x`. */
  ghost predicate OnCycle(p: Parents, x: nat, m: nat)
    requires InRange(p)
  {
    m > 0 && x < |p| && Follows(p, x, m, x)
  }

  /** `y` is reached from `x` over exactly `m` pointers. */
  ghost predicate Follows(p: Parents, x: nat, m: nat, y: nat)
    requires InRange(p) && x < |p|
    decreases m
  {
    if m == 0 then x == y else p[x].Some? && Follows(p, p[x].value, m - 1, y)
  }

  ghost predicate Acyclic(p: Parents)
    requires InRange(p)
  {
    forall x: nat, m: nat :: x < |p| ==> !OnCycle(p, x, m)
  }

  lemma {:induction false} FollowsDepth(p: Parents, x: nat, m: nat, y: nat, d: nat)
    requires InRange(p) && x < |p| && Follows(p, x, m, y) && HasDepth(p, x, d)
    ensures m <= d && HasDepth(p, y, d - m)
    decreases m
  {
    if m > 0 { FollowsDepth(p, p[x].value, m - 1, y, d - 1); }
  }

  lemma RootedByStep(p: Parents, x: nat)
    requires InRange(p) && x < |p|
    ensures p[x].None? || Rooted(p, p[x].value) ==> Rooted(p, x)
  {
    if p[x].None? {
      assert HasDepth(p, x, 0);
    } else if Rooted(p, p[x].value) {
      var d: nat :| HasDepth(p, p[x].value, d);
      assert HasDepth(p, x, d + 1);
    }
  }

  lemma {:induction false} UnrootedFollows(p: Parents, x: nat, m: nat)
    requires InRange(p) && x < |p| && !Rooted(p, x)
    ensures Follows(p, x, m, Ancestor(p, x, m))
    decreases m
  {
    RootedByStep(p, x);
    if m > 0 { UnrootedFollows(p, p[x].value, m - 1); }
  }

  lemma {:induction false} FollowsSplit(p: Parents, x: nat, a: nat, b: nat, z: nat)
    requires InRange(p) && x < |p| && !Rooted(p, x) && Follows(p, x, a + b, z)
    ensures Follows(p, Ancestor(p, x, a), b, z)
    decreases a
  {
    RootedByStep(p, x);
    if a > 0 { FollowsSplit(p, p[x].value, a - 1, b, z); }
  }

  /** n + 1 numbers below n are not all different. */
  lemma {:induction false} Pigeonhole(s: seq<nat>, n: nat) returns (a: nat, b: nat)
    requires |s| == n + 1 && forall i :: 0 <= i < |s| ==> s[i] < n
    ensures a < b < |s| && s[a] == s[b]
  {
    if i, k :| 0 <= i < k < |s| && s[i] == s[k] {
      return i, k;
    }
    var members := set i | 0 <= i < |s| :: s[i];
    DistinctCard(s, members);
    BelowCard(members, n);
    assert false;
  }

  lemma {:induction false} DistinctCard(s: seq<nat>, members: set<nat>)
    requires forall i, k :: 0 <= i < k < |s| ==> s[i] != s[k]
    requires members == set i | 0 <= i < |s| :: s[i]
    ensures |members| == |s|
  {
    if s != [] {
      var n := |s| - 1;
      var rest := set i | 0 <= i < n :: s[i];
      assert rest == set i | 0 <= i < n :: s[..n][i];
      DistinctCard(s[..n], rest);
      assert members == rest + {s[n]};
      assert s[n] !in rest;
    }
  }

  lemma {:induction false} FollowsJoin(p: Parents, x: nat, a: nat, y: nat, b: nat, z: nat)
    requires InRange(p) && x < |p| && y < |p| && Follows(p, x, a, y) && Follows(p, y, b, z)
    ensures Follows(p, x, a + b, z)
    decreases a
  {
    if a > 0 { FollowsJoin(p, p[x].value, a - 1, y, b, z); }
  }

  lemma {:induction false} FollowsOn(p: Parents, x: nat, k: nat, y: nat, m: nat, z: nat)
    requires InRange(p) && x < |p| && y < |p| && k <= m && Follows(p, x, k, y) && Follows(p, x, m, z)
    ensures Follows(p, y, m - k, z)
    decreases k
  {
    if k > 0 { FollowsOn(p, p[x].value, k - 1, y, m - 1, z); }
  }

  /** Whatever a cycle passes lies on it too. */
  lemma CycleRotates(p: Parents, x: nat, m: nat, k: nat, y: nat)
    requires InRange(p) && OnCycle(p, x, m) && k <= m && y < |p| && Follows(p, x, k, y)
    ensures OnCycle(p, y, m)
  {
    FollowsOn(p, x, k, y, m, x);
    FollowsJoin(p, y, m - k, x, k, y);
  }

  /** Every chain ends exactly when there is no cycle. */
  lemma AllRootedIffAcyclic(p: Parents)
    requires InRange(p)
    ensures Acyclic(p) <==> forall x: nat :: x < |p| ==> Rooted(p, x)
  {
    if Acyclic(p) {
      forall x: nat | x < |p| ensures Rooted(p, x) {
        if !Rooted(p, x) { CycleAbove(p, x); }
      }
    } else {
      var x: nat, m: nat :| x < |p| && OnCycle(p, x, m);
      if Rooted(p, x) {
        var d: nat :| HasDepth(p, x, d);
        FollowsDepth(p, x, m, x, d);
        DepthIsUnique(p, x, d, d - m);
      }
    }
  }

  lemma CycleAbove(p: Parents, x: nat)
    requires InRange(p) && x < |p| && !Rooted(p, x)
    ensures exists y: nat, m: nat :: y < |p| && OnCycle(p, y, m)
  {
    var steps := seq(|p| + 1, i requires 0 <= i => Ancestor(p, x, i));
    var a, b := Pigeonhole(steps, |p|);
    UnrootedFollows(p, x, b);
    FollowsSplit(p, x, a, b - a, Ancestor(p, x, b));
    assert OnCycle(p, Ancestor(p, x, a), b - a);
  }

  /** The traversal is a permutation of all nodes exactly when the pointers are acyclic. */
  lemma FlattenCompleteIffAcyclic(p: Parents)
    requires InRange(p)
    ensures Acyclic(p) <==> multiset(Flatten(p)) == multiset(Indices(|p|))
  {
    AllRootedIffAcyclic(p);
    PreorderInRange(p, Under(p, None, |p|), |p|);
    forall x: nat ensures multiset(Indices(|p|))[x] == if x < |p| then 1 else 0 {
      IndicesOnce(|p|, x);
    }
    forall x: nat | x < |p| ensures multiset(Flatten(p))[x] == if Rooted(p, x) then 1 else 0 {
      FlattenVisits(p, x);
    }
    if Acyclic(p) {
      forall x: nat ensures multiset(Flatten(p))[x] == multiset(Indices(|p|))[x] {
        if x >= |p| { assert x !in Flatten(p); }
      }
    }
  }

  ghost function Indices(n: nat): (s: seq<nat>) {
    if n == 0 then [] else Indices(n - 1) + [n - 1]
  }

  lemma {:induction false} IndicesOnce(n: nat, x: nat)
    ensures |Indices(n)| == n && multiset(Indices(n))[x] == if x < n then 1 else 0
    ensures forall i :: 0 <= i < n ==> Indices(n)[i] == i
  {
    if n > 0 { IndicesOnce(n - 1, x); }
  }

  /** Nodes are visited at most once, so a traversal as long as the forest misses none. */
  lemma AcyclicIffFullLength(p: Parents)
    requires InRange(p)
    ensures Acyclic(p) <==> |Flatten(p)| == |p|
  {
    FlattenCompleteIffAcyclic(p);
    IndicesOnce(|p|, 0);
    if Acyclic(p) {
      assert |multiset(Flatten(p))| == |Flatten(p)| && |multiset(Indices(|p|))| == |p|;
    } else {
      AllRootedIffAcyclic(p);
      var x: nat :| x < |p| && !Rooted(p, x);
      MissingNodeShortens(p, x);
    }
  }

  lemma RepeatCounts(f: seq<nat>, i: nat, k: nat)
    requires i < k < |f|
    ensures f[i] == f[k] ==> multiset(f)[f[i]] >= 2
  {
    assert f == f[..k] + [f[k]] + f[k + 1..];
    assert f[i] == f[..k][i] && f[i] in multiset(f[..k]);
    assert multiset(f) == multiset(f[..k]) + multiset{f[k]} + multiset(f[k + 1..]);
  }

  lemma MissingNodeShortens(p: Parents, x: nat)
    requires InRange(p) && x < |p| && !Rooted(p, x)
    ensures |Flatten(p)| < |p|
  {
    var f := Flatten(p);
    FlattenVisits(p, x);
    PreorderInRange(p, Under(p, None, |p|), |p|);
    forall i, k | 0 <= i < k < |f| ensures f[i] != f[k] {
      FlattenVisits(p, f[i]);
      RepeatCounts(f, i, k);
    }
    var members := set i | 0 <= i < |f| :: f[i];
    DistinctCard(f, members);
    assert x !in members by { assert x !in multiset(f); }
    BelowCard(members + {x}, |p|);
  }

  // ---------------------------------------------------------------- changing one pointer

  ghost predicate AllRooted(p: Parents)
    requires InRange(p)
  {
    forall x: nat :: x < |p| ==> Rooted(p, x)
  }

  lemma {:induction false} RootedAfterChange(p: Parents, after: Parents, i: nat, x: nat, d: nat)
    requires InRange(p) && InRange(after) && |p| <= |after| && HasDepth(p, x, d)
    requires forall k: nat :: k < |p| && k != i ==> after[k] == p[k]
    requires i < |after| && Rooted(after, i)
    ensures Rooted(after, x)
    decreases d
  {
    if x != i {
      RootedByStep(after, x);
      if d > 0 { RootedAfterChange(p, after, i, p[x].value, d - 1); }
    }
  }

  /** Changing or adding one pointer keeps every chain finite if the chain of that node is. */
  lemma AllRootedAfterChange(p: Parents, after: Parents, i: nat)
    requires InRange(p) && InRange(after) && AllRooted(p)
    requires i < |after| && |p| <= |after| <= |p| + 1 && (|after| == |p| + 1 ==> i == |p|)
    requires forall k: nat :: k < |p| && k != i ==> after[k] == p[k]
    requires Rooted(after, i)
    ensures AllRooted(after)
  {
    forall x: nat | x < |after| ensures Rooted(after, x) {
      if x != i {
        assert Rooted(p, x);
        var d: nat :| HasDepth(p, x, d);
        RootedAfterChange(p, after, i, x, d);
      }
    }
  }
}
