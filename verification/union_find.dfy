/** A model of `union_find`: a parent array `roots` whose roots stand for
    the groups, a `sizes` array meant for union by size, and a count of the
    groups. `find` follows parent links to the root and then points every
    node it passed straight at the root; `merge` links one root under the
    other. */
module UnionFind {

  /** `roots` and `sizes` are the two `std::vector<int>` members; `groups`
      is `groups_count`. */
  datatype State = State(roots: seq<int>, sizes: seq<int>, groups: int)

  predicate InRange(roots: seq<int>)
  {
    forall i :: 0 <= i < |roots| ==> 0 <= roots[i] < |roots|
  }

  /** `rank` witnesses that the parent links have no cycle: each link that
      is not a root's self-link leads to a node of smaller rank. */
  ghost predicate Ranked(roots: seq<int>, rank: seq<nat>)
  {
    InRange(roots) && |rank| == |roots| &&
    forall i :: 0 <= i < |roots| && roots[i] != i ==> rank[roots[i]] < rank[i]
  }

  ghost predicate Acyclic(roots: seq<int>)
  {
    exists rank: seq<nat> :: Ranked(roots, rank)
  }

  /** Some ranking of an acyclic parent array. */
  ghost function RankOf(roots: seq<int>): (rank: seq<nat>)
    requires Acyclic(roots)
    ensures Ranked(roots, rank)
  {
    var rank :| Ranked(roots, rank); rank
  }

  /** The root reached from `i` by following parent links. */
  ghost function RootBy(roots: seq<int>, rank: seq<nat>, i: int): (r: int)
    requires Ranked(roots, rank) && 0 <= i < |roots|
    ensures 0 <= r < |roots| && roots[r] == r
    decreases rank[i]
  {
    if roots[i] == i then i else RootBy(roots, rank, roots[i])
  }

  /** `i` lies on the path of parent links from `x` to its root. */
  ghost predicate AboveBy(roots: seq<int>, rank: seq<nat>, x: int, i: int)
    requires Ranked(roots, rank) && 0 <= x < |roots|
    decreases rank[x]
  {
    x == i || (roots[x] != x && AboveBy(roots, rank, roots[x], i))
  }

  /** The number of roots. */
  ghost function CountRoots(roots: seq<int>): nat
  {
    |set i | 0 <= i < |roots| && roots[i] == i|
  }

  /** What every `union_find` keeps: the arrays have one entry per
      element, the links have no cycle and `groups_count` counts the
      roots. */
  ghost predicate Valid(uf: State)
  {
    |uf.sizes| == |uf.roots| && Acyclic(uf.roots) && uf.groups == CountRoots(uf.roots)
  }

  /** The representative of `i`'s group: the root its links lead to. */
  ghost function Rep(uf: State, i: int): int
    requires Valid(uf) && 0 <= i < |uf.roots|
  {
    RootBy(uf.roots, RankOf(uf.roots), i)
  }

  /** `i` is on the path from `x` to its representative. */
  ghost predicate OnPath(uf: State, x: int, i: int)
    requires Valid(uf) && 0 <= x < |uf.roots|
  {
    AboveBy(uf.roots, RankOf(uf.roots), x, i)
  }

  /** Every size is still 0, as the constructor leaves them. */
  predicate SizesZero(uf: State)
  {
    forall i :: 0 <= i < |uf.sizes| ==> uf.sizes[i] == 0
  }

  /** The elements whose representative is `r`. */
  ghost function Group(uf: State, r: int): set<int>
    requires Valid(uf)
  {
    set i | 0 <= i < |uf.roots| && Rep(uf, i) == r
  }

  /** What union by size needs and the constructor does not set up: each
      root's size is the number of elements in its group. */
  ghost predicate SizesCount(uf: State)
  {
    Valid(uf) &&
    forall r :: 0 <= r < |uf.roots| && uf.roots[r] == r ==> uf.sizes[r] == |Group(uf, r)|
  }

  // ---------------------------------------------------------------------
  // Facts about roots and paths

  /** The root does not depend on which ranking is used to reach it. */
  lemma {:induction false} RootByUnique(roots: seq<int>, r1: seq<nat>, r2: seq<nat>, i: int)
    requires Ranked(roots, r1) && Ranked(roots, r2) && 0 <= i < |roots|
    ensures RootBy(roots, r1, i) == RootBy(roots, r2, i)
    decreases r1[i]
  {
    if roots[i] != i {
      RootByUnique(roots, r1, r2, roots[i]);
    }
  }

  lemma {:induction false} AboveByUnique(roots: seq<int>, r1: seq<nat>, r2: seq<nat>, x: int, i: int)
    requires Ranked(roots, r1) && Ranked(roots, r2) && 0 <= x < |roots|
    ensures AboveBy(roots, r1, x, i) == AboveBy(roots, r2, x, i)
    decreases r1[x]
  {
    if roots[x] != x {
      AboveByUnique(roots, r1, r2, roots[x], i);
    }
  }

  /** A node that is not a root ranks above its root. */
  lemma {:induction false} RootRankBelow(roots: seq<int>, rank: seq<nat>, x: int)
    requires Ranked(roots, rank) && 0 <= x < |roots| && roots[x] != x
    ensures rank[RootBy(roots, rank, x)] < rank[x]
    decreases rank[x]
  {
    if roots[roots[x]] != roots[x] {
      RootRankBelow(roots, rank, roots[x]);
    }
  }

  /** The nodes on a path rank at most as high as where it starts. */
  lemma {:induction false} AboveRank(roots: seq<int>, rank: seq<nat>, x: int, i: int)
    requires Ranked(roots, rank) && 0 <= x < |roots| && AboveBy(roots, rank, x, i)
    ensures 0 <= i < |roots| && rank[i] <= rank[x]
    decreases rank[x]
  {
    if x != i {
      AboveRank(roots, rank, roots[x], i);
    }
  }

  lemma {:induction false} AboveTrans(roots: seq<int>, rank: seq<nat>, x: int, y: int, z: int)
    requires Ranked(roots, rank) && 0 <= x < |roots| && 0 <= y < |roots|
    requires AboveBy(roots, rank, x, y) && AboveBy(roots, rank, y, z)
    ensures AboveBy(roots, rank, x, z)
    decreases rank[x]
  {
    if x != y {
      AboveTrans(roots, rank, roots[x], y, z);
    }
  }

  /** A path ends at its root. */
  lemma {:induction false} RootAbove(roots: seq<int>, rank: seq<nat>, x: int)
    requires Ranked(roots, rank) && 0 <= x < |roots|
    ensures AboveBy(roots, rank, x, RootBy(roots, rank, x))
    decreases rank[x]
  {
    if roots[x] != x {
      RootAbove(roots, rank, roots[x]);
    }
  }

  /** From a root the only node on the path is the root itself. */
  lemma AboveRoot(roots: seq<int>, rank: seq<nat>, x: int, i: int)
    requires Ranked(roots, rank) && 0 <= x < |roots| && roots[x] == x
    ensures AboveBy(roots, rank, x, i) <==> i == x
  {
  }

  /** Pointing a non-root `x` straight at its root keeps the links
      acyclic under the same ranking. */
  lemma RedirectRanked(roots: seq<int>, rank: seq<nat>, x: int)
    requires Ranked(roots, rank) && 0 <= x < |roots| && roots[x] != x
    ensures Ranked(roots[x := RootBy(roots, rank, x)], rank)
  {
    RootRankBelow(roots, rank, x);
  }

  /** ... and leaves every node's root where it was. */
  lemma {:induction false} RedirectKeepsRoot(roots: seq<int>, rank: seq<nat>, x: int, i: int)
    requires Ranked(roots, rank) && 0 <= x < |roots| && roots[x] != x && 0 <= i < |roots|
    ensures Ranked(roots[x := RootBy(roots, rank, x)], rank)
    ensures RootBy(roots[x := RootBy(roots, rank, x)], rank, i) == RootBy(roots, rank, i)
    decreases rank[i]
  {
    RedirectRanked(roots, rank, x);
    var r := RootBy(roots, rank, x);
    if roots[i] != i && i != x {
      RedirectKeepsRoot(roots, rank, x, roots[i]);
    }
  }

  /** Changing the link of a node that is a root neither before nor after
      keeps the number of roots. */
  lemma CountKeep(roots: seq<int>, x: int, p: int)
    requires 0 <= x < |roots| && roots[x] != x && p != x
    ensures CountRoots(roots[x := p]) == CountRoots(roots)
  {
    var roots' := roots[x := p];
    assert (set i | 0 <= i < |roots| && roots[i] == i) == set i | 0 <= i < |roots'| && roots'[i] == i;
  }

  /** Linking root `a` under another node removes exactly one root. */
  lemma CountLink(roots: seq<int>, a: int, b: int)
    requires 0 <= a < |roots| && roots[a] == a && a != b
    ensures CountRoots(roots[a := b]) == CountRoots(roots) - 1
  {
    var roots' := roots[a := b];
    assert (set i | 0 <= i < |roots'| && roots'[i] == i) == (set i | 0 <= i < |roots| && roots[i] == i) - {a};
  }

  /** The ranking after root `a` goes under root `b`: `a`'s whole tree
      moves up by `rank[b] + 1`. */
  ghost function Shift(roots: seq<int>, rank: seq<nat>, a: int, b: int): (r: seq<nat>)
    requires Ranked(roots, rank) && 0 <= a < |roots| && 0 <= b < |roots|
    ensures |r| == |roots|
    ensures forall x :: 0 <= x < |roots| ==>
      r[x] == if RootBy(roots, rank, x) == a then rank[x] + rank[b] + 1 else rank[x]
  {
    seq(|roots|, x requires 0 <= x < |roots| =>
      if RootBy(roots, rank, x) == a then rank[x] + rank[b] + 1 else rank[x])
  }

  lemma LinkRanked(roots: seq<int>, rank: seq<nat>, a: int, b: int)
    requires Ranked(roots, rank) && 0 <= a < |roots| && 0 <= b < |roots|
    requires roots[a] == a && roots[b] == b && a != b
    ensures Ranked(roots[a := b], Shift(roots, rank, a, b))
  {
    var roots', rank' := roots[a := b], Shift(roots, rank, a, b);
    forall x | 0 <= x < |roots| && roots'[x] != x
      ensures rank'[roots'[x]] < rank'[x]
    {
      if x != a {
        assert RootBy(roots, rank, roots[x]) == RootBy(roots, rank, x);
      }
    }
  }

  /** After root `a` goes under root `b`, the members of `a`'s group have
      root `b` and everyone else keeps theirs. */
  lemma {:induction false} LinkRoot(roots: seq<int>, rank: seq<nat>, a: int, b: int, i: int)
    requires Ranked(roots, rank) && 0 <= a < |roots| && 0 <= b < |roots|
    requires roots[a] == a && roots[b] == b && a != b && 0 <= i < |roots|
    ensures Ranked(roots[a := b], Shift(roots, rank, a, b))
    ensures RootBy(roots[a := b], Shift(roots, rank, a, b), i)
      == if RootBy(roots, rank, i) == a then b else RootBy(roots, rank, i)
    decreases rank[i]
  {
    LinkRanked(roots, rank, a, b);
    if i != a && roots[i] != i {
      LinkRoot(roots, rank, a, b, roots[i]);
    }
  }

  /** When every element is its own parent, all of them are roots. */
  lemma {:induction false} IdentityCount(n: nat)
    ensures CountRoots(seq(n, i => i)) == n
  {
    if n > 0 {
      IdentityCount(n - 1);
      var s, t := seq(n, i => i), seq(n - 1, i => i);
      assert (set i | 0 <= i < |s| && s[i] == i) == (set i | 0 <= i < |t| && t[i] == i) + {n - 1};
    }
  }

  /** An element is a root exactly when it is its own representative. */
  lemma RootIsRep(uf: State, r: int)
    requires Valid(uf) && 0 <= r < |uf.roots|
    ensures uf.roots[r] == r <==> Rep(uf, r) == r
  {
    if uf.roots[r] != r {
      RootRankBelow(uf.roots, RankOf(uf.roots), r);
    }
  }

  /** Sizes that count the groups keep doing so across a change of links
      that keeps every representative and every size. */
  lemma SizesSameReps(uf: State, uf': State)
    requires Valid(uf) && Valid(uf') && |uf'.roots| == |uf.roots| && uf'.sizes == uf.sizes
    requires forall i :: 0 <= i < |uf.roots| ==> Rep(uf', i) == Rep(uf, i)
    ensures SizesCount(uf) ==> SizesCount(uf')
  {
    if !SizesCount(uf) {
      return;
    }
    forall r | 0 <= r < |uf'.roots| && uf'.roots[r] == r
      ensures uf'.sizes[r] == |Group(uf', r)|
    {
      RootIsRep(uf', r);
      RootIsRep(uf, r);
      assert Group(uf', r) == Group(uf, r);
    }
  }

  /** Sizes that count the groups keep doing so when root `child` goes
      under root `parent` and `parent`'s size takes in `child`'s. */
  lemma SizesLinked(uf: State, uf': State, child: int, parent: int)
    requires Valid(uf) && Valid(uf') && |uf'.roots| == |uf.roots|
    requires 0 <= child < |uf.roots| && 0 <= parent < |uf.roots| && child != parent
    requires uf.roots[child] == child && uf.roots[parent] == parent
    requires uf'.sizes == uf.sizes[parent := uf.sizes[parent] + uf.sizes[child]]
    requires forall i :: 0 <= i < |uf.roots| ==>
      Rep(uf', i) == if Rep(uf, i) == child then parent else Rep(uf, i)
    ensures SizesCount(uf) ==> SizesCount(uf')
  {
    if !SizesCount(uf) {
      return;
    }
    RootIsRep(uf, child);
    RootIsRep(uf, parent);
    forall r | 0 <= r < |uf'.roots| && uf'.roots[r] == r
      ensures uf'.sizes[r] == |Group(uf', r)|
    {
      RootIsRep(uf', r);
      assert Rep(uf, r) == r;
      RootIsRep(uf, r);
      if r == parent {
        assert Group(uf', r) == Group(uf, parent) + Group(uf, child);
        assert Group(uf, parent) * Group(uf, child) == {};
      } else {
        assert Group(uf', r) == Group(uf, r);
      }
    }
  }

  // ---------------------------------------------------------------------
  // Operations

  /** The constructor: `roots` is first filled with 1s and then, by
      `std::iota`, set to `0, 1, ..., max_count - 1`, so every element is
      its own group. `sizes` is value-initialised to 0 and stays so. */
  function Init(maxCount: int): (uf: State)
    requires maxCount >= 0
    ensures Valid(uf) && |uf.roots| == maxCount && uf.groups == maxCount && SizesZero(uf)
    ensures forall i :: 0 <= i < maxCount ==> uf.roots[i] == i && Rep(uf, i) == i
  {
    var roots := seq(maxCount, i => i);
    assert Ranked(roots, seq(maxCount, _ => 0));
    IdentityCount(maxCount);
    State(roots, seq(maxCount, _ => 0), maxCount)
  }

  /** The constructor as evidently intended: every size 1, as line 14
      would have made them had it filled `sizes` rather than `roots`. Each
      root's size then counts its group, and `Merge` keeps it so. */
  function InitSized(maxCount: int): (uf: State)
    requires maxCount >= 0
    ensures SizesCount(uf) && |uf.roots| == maxCount && uf.groups == maxCount
    ensures forall i :: 0 <= i < maxCount ==> uf.roots[i] == i && uf.sizes[i] == 1
  {
    var uf0 := Init(maxCount);
    var uf := State(uf0.roots, seq(maxCount, _ => 1), maxCount);
    assert forall r :: 0 <= r < maxCount ==> |Group(uf, r)| == 1 by {
      forall r | 0 <= r < maxCount
        ensures |Group(uf, r)| == 1
      {
        assert Group(uf, r) == {r};
      }
    }
    uf
  }

  /** The constructor as written leaves sizes that do not count the
      groups: every element is a one-element group of size 0. */
  lemma InitSizesDoNotCount(maxCount: int)
    requires maxCount >= 1
    ensures !SizesCount(Init(maxCount))
  {
    var uf := Init(maxCount);
    assert 0 in Group(uf, 0);
    assert uf.roots[0] == 0 && uf.sizes[0] == 0;
  }

  /** The state of `find`'s second loop at node `i` of the path from
      `idx` to `root`: the links `roots` are acyclic under the original
      ranking and keep every node's root and the root count; the rest of
      the path from `i` on is untouched, the nodes before `i` point at
      `root`, and nothing off the path has changed. */
  ghost predicate CompressInv(roots0: seq<int>, rank: seq<nat>, idx: int, root: int, roots: seq<int>, i: int)
  {
    Ranked(roots0, rank) && 0 <= idx < |roots0| && 0 <= i < |roots0| &&
    |roots| == |roots0| && Ranked(roots, rank) &&
    AboveBy(roots0, rank, idx, i) && RootBy(roots0, rank, i) == root &&
    RootBy(roots0, rank, idx) == root &&
    CountRoots(roots) == CountRoots(roots0) &&
    (forall k :: 0 <= k < |roots0| ==> RootBy(roots, rank, k) == RootBy(roots0, rank, k)) &&
    (forall k :: 0 <= k < |roots0| && AboveBy(roots0, rank, i, k) ==> roots[k] == roots0[k]) &&
    (forall k :: 0 <= k < |roots0| && roots[k] != roots0[k] ==>
      AboveBy(roots0, rank, idx, k) && roots[k] == root) &&
    (forall k :: 0 <= k < |roots0| && AboveBy(roots0, rank, idx, k) && !AboveBy(roots0, rank, i, k) ==>
      roots[k] == root)
  }

  lemma CompressStart(roots0: seq<int>, rank: seq<nat>, idx: int, root: int)
    requires Ranked(roots0, rank) && 0 <= idx < |roots0| && root == RootBy(roots0, rank, idx)
    ensures CompressInv(roots0, rank, idx, root, roots0, idx)
  {
  }

  /** One step of `find`'s second loop: node `i`, not yet the root, is
      pointed at the root and the walk moves on to its old parent. */
  lemma CompressStep(roots0: seq<int>, rank: seq<nat>, idx: int, root: int, roots: seq<int>, i: int)
    requires CompressInv(roots0, rank, idx, root, roots, i) && i != root
    ensures roots[i] == roots0[i] && 0 <= roots[i] < |roots0| && rank[roots[i]] < rank[i]
    ensures CompressInv(roots0, rank, idx, root, roots[i := root], roots[i])
  {
    var n := |roots0|;
    var next := roots[i];
    assert next == roots0[i] && roots0[i] != i;
    assert RootBy(roots, rank, i) == root;
    RedirectRanked(roots, rank, i);
    forall k | 0 <= k < n
      ensures RootBy(roots[i := root], rank, k) == RootBy(roots, rank, k)
    {
      RedirectKeepsRoot(roots, rank, i, k);
    }
    CountKeep(roots, i, root);
    AboveTrans(roots0, rank, idx, i, next);
    forall k | 0 <= k < n && AboveBy(roots0, rank, next, k)
      ensures k != i
    {
      AboveRank(roots0, rank, next, k);
    }
  }

  /** When the walk reaches the root, the whole path points at it. */
  lemma CompressDone(roots0: seq<int>, rank: seq<nat>, idx: int, root: int, roots: seq<int>)
    requires CompressInv(roots0, rank, idx, root, roots, root)
    ensures forall k :: 0 <= k < |roots0| ==>
      roots[k] == if AboveBy(roots0, rank, idx, k) then root else roots0[k]
  {
    forall k | 0 <= k < |roots0| && AboveBy(roots0, rank, idx, k)
      ensures roots[k] == root
    {
      AboveRoot(roots0, rank, root, k);
    }
  }

  /** `find(idx)`: walk up to the root, then walk the same path again and
      point every node on it at the root. The result is `idx`'s
      representative, reached from `idx` by parent links; the nodes of the
      path now point at it, nothing else changes, and every element keeps
      its representative. */
  method Find(uf: State, idx: int) returns (root: int, uf': State)
    requires Valid(uf) && 0 <= idx < |uf.roots|
    ensures Valid(uf') && |uf'.roots| == |uf.roots|
    ensures uf'.sizes == uf.sizes && uf'.groups == uf.groups
    ensures root == Rep(uf, idx) && uf'.roots[root] == root && OnPath(uf, idx, root)
    ensures forall i :: 0 <= i < |uf.roots| ==>
      uf'.roots[i] == if OnPath(uf, idx, i) then root else uf.roots[i]
    ensures forall i :: 0 <= i < |uf.roots| ==> Rep(uf', i) == Rep(uf, i)
  {
    var roots := uf.roots;
    ghost var roots0, rank := uf.roots, RankOf(uf.roots);
    ghost var n := |roots0|;
    root := idx;
    while root != roots[root]
      invariant 0 <= root < n && AboveBy(roots0, rank, idx, root)
      invariant RootBy(roots0, rank, root) == RootBy(roots0, rank, idx)
      decreases rank[root]
    {
      AboveTrans(roots0, rank, idx, root, roots0[root]);
      root := roots[root];
    }
    var i := idx;
    CompressStart(roots0, rank, idx, root);
    while i != root
      invariant CompressInv(roots0, rank, idx, root, roots, i)
      decreases rank[i]
    {
      CompressStep(roots0, rank, idx, root, roots, i);
      var next := roots[i];
      roots := roots[i := root];
      i := next;
    }
    CompressDone(roots0, rank, idx, root, roots);
    RootAbove(roots0, rank, idx);
    uf' := State(roots, uf.sizes, uf.groups);
    assert Ranked(uf'.roots, rank);
    forall k | 0 <= k < n
      ensures Rep(uf', k) == Rep(uf, k)
    {
      RootByUnique(roots, rank, RankOf(roots), k);
    }
  }

  /** Root `a` going under root `b` keeps the state valid, and the
      members of `a`'s group now have representative `b`. */
  lemma Link(uf: State, a: int, b: int, sizes: seq<int>)
    requires Valid(uf) && 0 <= a < |uf.roots| && 0 <= b < |uf.roots|
    requires uf.roots[a] == a && uf.roots[b] == b && a != b && |sizes| == |uf.roots|
    ensures var uf' := State(uf.roots[a := b], sizes, uf.groups - 1);
      Valid(uf') && forall i :: 0 <= i < |uf.roots| ==>
        Rep(uf', i) == if Rep(uf, i) == a then b else Rep(uf, i)
  {
    var rank := RankOf(uf.roots);
    var roots := uf.roots[a := b];
    var rank' := Shift(uf.roots, rank, a, b);
    LinkRanked(uf.roots, rank, a, b);
    CountLink(uf.roots, a, b);
    var uf' := State(roots, sizes, uf.groups - 1);
    assert Valid(uf');
    forall i | 0 <= i < |uf.roots|
      ensures Rep(uf', i) == if Rep(uf, i) == a then b else Rep(uf, i)
    {
      LinkRoot(uf.roots, rank, a, b, i);
      RootByUnique(roots, rank', RankOf(roots), i);
    }
  }

  /** `merge(first, second)`: true, with no link added, when both are
      already in one group; otherwise one root goes under the other, the
      group count drops by one and `false` is returned. The root of the
      smaller-sized group (by `sizes`, `first`'s on a tie) is the one
      linked under. Either way both elements end in one group. While the
      sizes are all 0 — and nothing ever makes them otherwise — the size
      test never holds: `first`'s root always goes under `second`'s. */
  method Merge(uf: State, first: int, second: int) returns (joined: bool, uf': State)
    requires Valid(uf) && 0 <= first < |uf.roots| && 0 <= second < |uf.roots|
    ensures Valid(uf') && |uf'.roots| == |uf.roots|
    ensures joined <==> Rep(uf, first) == Rep(uf, second)
    ensures joined ==> (uf'.groups == uf.groups && uf'.sizes == uf.sizes &&
      forall i :: 0 <= i < |uf.roots| ==> Rep(uf', i) == Rep(uf, i))
    ensures !joined ==> (
      var a, b := Rep(uf, first), Rep(uf, second);
      var child, parent := if uf.sizes[a] > uf.sizes[b] then b else a, if uf.sizes[a] > uf.sizes[b] then a else b;
      uf'.groups == uf.groups - 1 && uf'.roots[child] == parent &&
      uf'.sizes == uf.sizes[parent := uf.sizes[parent] + uf.sizes[child]] &&
      forall i :: 0 <= i < |uf.roots| ==>
        Rep(uf', i) == if Rep(uf, i) == child then parent else Rep(uf, i))
    ensures Rep(uf', first) == Rep(uf', second)
    ensures SizesZero(uf) ==>
      SizesZero(uf') && (!joined ==> uf'.roots[Rep(uf, first)] == Rep(uf, second))
    ensures SizesCount(uf) ==> SizesCount(uf')
  {
    var firstRoot, uf1 := Find(uf, first);
    var secondRoot, uf2 := Find(uf1, second);
    SizesSameReps(uf, uf2);
    if firstRoot == secondRoot {
      return true, uf2;
    }
    var child, parent := firstRoot, secondRoot;
    if uf2.sizes[child] > uf2.sizes[parent] {
      child, parent := parent, child;
    }
    uf' := State(uf2.roots[child := parent], uf2.sizes[parent := uf2.sizes[parent] + uf2.sizes[child]], uf2.groups - 1);
    Link(uf2, child, parent, uf'.sizes);
    SizesLinked(uf2, uf', child, parent);
    joined := false;
  }

  /** `get_groups_count()`: the number of groups, that is of distinct
      representatives. */
  function GroupsCount(uf: State): (count: int)
    requires Valid(uf)
    ensures count == |set i | 0 <= i < |uf.roots| :: Rep(uf, i)|
  {
    var reps := set i | 0 <= i < |uf.roots| :: Rep(uf, i);
    assert reps == set i | 0 <= i < |uf.roots| && uf.roots[i] == i by {
      forall r | r in reps
        ensures 0 <= r < |uf.roots| && uf.roots[r] == r
      {
      }
      forall r | 0 <= r < |uf.roots| && uf.roots[r] == r
        ensures r in reps
      {
        assert Rep(uf, r) == r;
      }
    }
    uf.groups
  }
}
