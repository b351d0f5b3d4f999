/** Chains of node indices threaded through next fields.

    `links[i]` is the next index stored for node `i`; index 0 is the sentinel
    "no node". A chain from `start` is the sequence of indices visited by
    following next fields until the sentinel, which is what both iterator
    increments and the allocator do. */
module Chains {
  import opened Wrappers

  /** The indices visited from `i` until index 0, or None when that takes
      more than `fuel` steps or leaves the table. */
  function Walk(links: seq<nat>, i: nat, fuel: nat): Option<seq<nat>>
    decreases fuel
  {
    if i == 0 then Some([])
    else if fuel == 0 || i >= |links| then None
    else match Walk(links, links[i], fuel - 1)
      case None => None
      case Some(rest) => Some([i] + rest)
  }

  /** The index following position `j` of chain `c` (0 after the last). */
  function Succ(c: seq<nat>, j: nat): nat
    requires j < |c|
  {
    if j + 1 < |c| then c[j + 1] else 0
  }

  /** `c` is exactly the chain from `start`: each element is a node index
      whose next field holds the following element, and the last holds 0. */
  predicate Linked(links: seq<nat>, start: nat, c: seq<nat>)
  {
    (if c == [] then start == 0 else start == c[0]) &&
    forall j :: 0 <= j < |c| ==> 1 <= c[j] < |links| && links[c[j]] == Succ(c, j)
  }

  predicate Distinct(s: seq<nat>)
  {
    forall i, j :: 0 <= i < j < |s| ==> s[i] != s[j]
  }

  /** A walk that reaches the sentinel produces a linked chain. */
  lemma {:induction false} WalkLinked(links: seq<nat>, i: nat, fuel: nat)
    requires Walk(links, i, fuel).Some?
    ensures Linked(links, i, Walk(links, i, fuel).value)
    ensures |Walk(links, i, fuel).value| <= fuel
    decreases fuel
  {
    if i != 0 {
      WalkLinked(links, links[i], fuel - 1);
      var rest := Walk(links, links[i], fuel - 1).value;
      var c := [i] + rest;
      forall j | 0 <= j < |c|
        ensures 1 <= c[j] < |links| && links[c[j]] == Succ(c, j)
      {
        if j > 0 {
          assert c[j] == rest[j - 1];
        }
      }
    }
  }

  /** A linked chain is what the walk finds, given enough steps. */
  lemma {:induction false} LinkedWalk(links: seq<nat>, i: nat, c: seq<nat>, fuel: nat)
    requires Linked(links, i, c) && |c| <= fuel
    ensures Walk(links, i, fuel) == Some(c)
    decreases fuel
  {
    if c != [] {
      var rest := c[1..];
      assert Linked(links, links[i], rest) by {
        forall j | 0 <= j < |rest|
          ensures 1 <= rest[j] < |links| && links[rest[j]] == Succ(rest, j)
        {
          assert rest[j] == c[j + 1];
        }
      }
      LinkedWalk(links, links[i], rest, fuel - 1);
      assert c == [i] + rest;
    }
  }

  /** Chains are determined by their start: a linked chain from `i` is the
      walk from `i` for every sufficient fuel. */
  lemma WalkFuel(links: seq<nat>, i: nat, fuel: nat, fuel': nat)
    requires Walk(links, i, fuel).Some?
    requires |Walk(links, i, fuel).value| <= fuel'
    ensures Walk(links, i, fuel') == Walk(links, i, fuel)
  {
    WalkLinked(links, i, fuel);
    LinkedWalk(links, i, Walk(links, i, fuel).value, fuel');
  }

  /** Putting node `h` in front of chain `c`. */
  lemma LinkedCons(links: seq<nat>, h: nat, c: seq<nat>)
    requires 1 <= h < |links|
    requires Linked(links, if c == [] then 0 else c[0], c)
    requires links[h] == (if c == [] then 0 else c[0])
    ensures Linked(links, h, [h] + c)
  {
    var d := [h] + c;
    forall j | 0 <= j < |d|
      ensures 1 <= d[j] < |links| && links[d[j]] == Succ(d, j)
    {
      if j > 0 {
        assert d[j] == c[j - 1];
      }
    }
  }

  /** The chain after the first node of `c`. */
  lemma LinkedTail(links: seq<nat>, start: nat, c: seq<nat>)
    requires Linked(links, start, c) && c != []
    ensures Linked(links, links[c[0]], c[1..])
  {
    var rest := c[1..];
    forall j | 0 <= j < |rest|
      ensures 1 <= rest[j] < |links| && links[rest[j]] == Succ(rest, j)
    {
      assert rest[j] == c[j + 1];
    }
  }

  /** A chain survives any change to next fields of nodes outside it. */
  lemma LinkedFrame(links: seq<nat>, links': seq<nat>, start: nat, c: seq<nat>)
    requires Linked(links, start, c) && |links'| == |links|
    requires forall x :: x in c ==> links'[x] == links[x]
    ensures Linked(links', start, c)
  {
    forall j | 0 <= j < |c|
      ensures 1 <= c[j] < |links'| && links'[c[j]] == Succ(c, j)
    {
      assert c[j] in c;
    }
  }

  /** Insertion and removal at the ends of a sequence. */
  lemma SpliceEnds(c: seq<nat>, h: nat)
    ensures c[..0] + [h] + c[0..] == [h] + c
    ensures c[..|c|] + [h] + c[|c|..] == c + [h]
    ensures |c| > 0 ==> c[..0] + c[1..] == c[1..]
  {
  }

  /** Writes to two different indices commute. */
  lemma UpdateCommute(s: seq<nat>, i: nat, x: nat, j: nat, y: nat)
    requires i < |s| && j < |s| && i != j
    ensures s[i := x][j := y] == s[j := y][i := x]
  {
  }

  /** Writing a next field outside the chain (or index 0, never a node)
      keeps the chain. */
  lemma LinkedUpdate(links: seq<nat>, start: nat, c: seq<nat>, x: nat, v: nat)
    requires Linked(links, start, c) && x < |links| && (x == 0 || x !in c)
    ensures Linked(links[x := v], start, c)
  {
    forall j | 0 <= j < |c|
      ensures links[x := v][c[j]] == links[c[j]]
    {
      assert c[j] in c;
    }
  }

  /** The position after which insertion or removal at index `k` happens:
      index 0, whose next field is the head, for `k == 0`, and otherwise
      the `k`-th node of the chain. */
  function Before(c: seq<nat>, k: nat): nat
    requires k <= |c|
  {
    if k == 0 then 0 else c[k - 1]
  }

  /** Linking a fresh node `h` after position `k` of the chain held in
      `links[0]` yields the chain with `h` inserted at `k`. */
  lemma InsertSplice(links: seq<nat>, links': seq<nat>, c: seq<nat>, k: nat, h: nat)
    requires |links| > 0 && Linked(links, links[0], c) && Distinct(c)
    requires 1 <= h < |links| && h !in c && k <= |c| && |links'| == |links|
    requires links'[Before(c, k)] == h
    requires links'[h] == (if k < |c| then c[k] else 0)
    requires forall x :: x in c && x != Before(c, k) ==> links'[x] == links[x]
    requires k > 0 ==> links'[0] == links[0]
    ensures Linked(links', links'[0], c[..k] + [h] + c[k..])
  {
    var d := c[..k] + [h] + c[k..];
    InsertedAt(c, k, h);
    forall j | 0 <= j < |d|
      ensures 1 <= d[j] < |links'| && links'[d[j]] == Succ(d, j)
    {
      if j < k {
        InsertSpliceFront(links, links', c, k, h, j);
      } else if j > k {
        InsertSpliceBack(links, links', c, k, h, j);
      }
    }
  }

  /** The elements of `c` with `h` inserted at `k`. */
  lemma InsertedAt(c: seq<nat>, k: nat, h: nat)
    requires k <= |c|
    ensures var d := c[..k] + [h] + c[k..];
      |d| == |c| + 1 && d[k] == h &&
      (forall j :: 0 <= j < k ==> d[j] == c[j]) &&
      (forall j :: k < j < |d| ==> d[j] == c[j - 1])
  {
  }

  /** A node before the insertion point keeps its link (or, the last of
      them, now points at `h`). */
  lemma InsertSpliceFront(links: seq<nat>, links': seq<nat>, c: seq<nat>, k: nat, h: nat, j: nat)
    requires |links| > 0 && Linked(links, links[0], c) && Distinct(c)
    requires k <= |c| && |links'| == |links| && j < k
    requires links'[Before(c, k)] == h
    requires forall x :: x in c && x != Before(c, k) ==> links'[x] == links[x]
    ensures 1 <= c[j] < |links'| && links'[c[j]] == Succ(c[..k] + [h] + c[k..], j)
  {
    InsertedAt(c, k, h);
    assert c[j] in c;
    if j + 1 < k {
      assert c[j] != c[k - 1];
    }
  }

  /** A node after the insertion point keeps its link. */
  lemma InsertSpliceBack(links: seq<nat>, links': seq<nat>, c: seq<nat>, k: nat, h: nat, j: nat)
    requires |links| > 0 && Linked(links, links[0], c) && Distinct(c)
    requires k <= |c| && |links'| == |links| && k < j <= |c|
    requires forall x :: x in c && x != Before(c, k) ==> links'[x] == links[x]
    ensures 1 <= c[j - 1] < |links'| && links'[c[j - 1]] == Succ(c[..k] + [h] + c[k..], j)
  {
    InsertedAt(c, k, h);
    assert c[j - 1] in c;
    if k > 0 {
      assert c[j - 1] != c[k - 1];
    }
  }

  /** Unlinking the node after position `k` of the chain held in `links[0]`
      yields the chain without its `k`-th element. */
  lemma RemoveSplice(links: seq<nat>, links': seq<nat>, c: seq<nat>, k: nat)
    requires |links| > 0 && Linked(links, links[0], c) && Distinct(c)
    requires k < |c| && |links'| == |links|
    requires links'[Before(c, k)] == Succ(c, k)
    requires forall x :: x in c && x != Before(c, k) && x != c[k] ==> links'[x] == links[x]
    requires k > 0 ==> links'[0] == links[0]
    ensures Linked(links', links'[0], c[..k] + c[k + 1..])
  {
    var d := c[..k] + c[k + 1..];
    RemovedAt(c, k);
    forall j | 0 <= j < |d|
      ensures 1 <= d[j] < |links'| && links'[d[j]] == Succ(d, j)
    {
      RemoveSpliceAt(links, links', c, k, j);
    }
  }

  /** The elements of `c` without its `k`-th. */
  lemma RemovedAt(c: seq<nat>, k: nat)
    requires k < |c|
    ensures var d := c[..k] + c[k + 1..];
      |d| == |c| - 1 && forall j :: 0 <= j < |d| ==> d[j] == if j < k then c[j] else c[j + 1]
  {
  }

  /** Each node left in the chain links to the next one left. */
  lemma RemoveSpliceAt(links: seq<nat>, links': seq<nat>, c: seq<nat>, k: nat, j: nat)
    requires |links| > 0 && Linked(links, links[0], c) && Distinct(c)
    requires k < |c| && |links'| == |links| && j < |c| - 1
    requires links'[Before(c, k)] == Succ(c, k)
    requires forall x :: x in c && x != Before(c, k) && x != c[k] ==> links'[x] == links[x]
    ensures var d := c[..k] + c[k + 1..];
      1 <= d[j] < |links'| && links'[d[j]] == Succ(d, j)
  {
    RemovedAt(c, k);
    if j < k {
      assert c[j] in c;
      if j + 1 < k {
        assert c[j] != c[k - 1] && c[j] != c[k];
      }
    } else {
      assert c[j + 1] in c;
      assert c[j + 1] != c[k];
      if k > 0 {
        assert c[j + 1] != c[k - 1];
      }
    }
  }

  // ---------------------------------------------------------------------
  // Partitions of the slots 1..n

  /** The slots `1..n` in order. */
  function Range(n: nat): (r: seq<nat>)
    ensures |r| == n
  {
    if n == 0 then [] else Range(n - 1) + [n]
  }

  lemma {:induction false} RangeCounts(n: nat)
    ensures forall x :: multiset(Range(n))[x] == if 1 <= x <= n then 1 else 0
  {
    if n > 0 {
      RangeCounts(n - 1);
    }
  }

  lemma {:induction false} CountsDistinct(s: seq<nat>)
    requires forall x :: multiset(s)[x] <= 1
    ensures Distinct(s)
  {
    forall i, j | 0 <= i < j < |s|
      ensures s[i] != s[j]
    {
      var t := s[..i] + [s[i]] + s[i + 1..j] + [s[j]] + s[j + 1..];
      assert s == t;
      assert multiset(t)[s[i]] >= multiset([s[i]] + [s[j]])[s[i]];
    }
  }

  /** `live` and `free` are disjoint, repetition-free, and together hold
      exactly the slots `1..h` where `h`, the high-water slot, ends `free`. */
  predicate Partition(live: seq<nat>, free: seq<nat>)
  {
    |free| > 0 && multiset(live + free) == multiset(Range(free[|free| - 1]))
  }

  lemma PartitionFacts(live: seq<nat>, free: seq<nat>)
    requires Partition(live, free)
    ensures Distinct(live + free) && Distinct(live) && Distinct(free)
    ensures forall x :: x in live + free <==> 1 <= x <= free[|free| - 1]
    ensures forall x :: x in live ==> x !in free
    ensures |live| + |free| == free[|free| - 1]
  {
    var s := live + free;
    RangeCounts(free[|free| - 1]);
    CountsDistinct(s);
    assert forall x :: x in s <==> multiset(s)[x] > 0;
    forall i, j | 0 <= i < j < |live|
      ensures live[i] != live[j]
    {
      assert s[i] == live[i] && s[j] == live[j];
    }
    forall i, j | 0 <= i < j < |free|
      ensures free[i] != free[j]
    {
      assert s[|live| + i] == free[i] && s[|live| + j] == free[j];
    }
    forall x | x in live
      ensures x !in free
    {
      var i :| 0 <= i < |live| && live[i] == x;
      forall j | 0 <= j < |free|
        ensures free[j] != x
      {
        assert s[i] == live[i] && s[|live| + j] == free[j];
      }
    }
    assert |multiset(s)| == |Range(free[|free| - 1])|;
  }

  /** The free list after one allocation: its tail, or the next boundary slot. */
  function NextFree(free: seq<nat>): seq<nat>
    requires |free| > 0
  {
    if |free| >= 2 then free[1..] else [free[0] + 1]
  }

  /** Allocation moves the free head into the live chain, anywhere in it. */
  lemma PartitionAlloc(live: seq<nat>, free: seq<nat>, k: nat)
    requires Partition(live, free) && k <= |live|
    ensures Partition(live[..k] + [free[0]] + live[k..], NextFree(free))
  {
    InsertCount(live, k, free[0]);
    if |free| >= 2 {
      PartitionTakeListed(live, free, live[..k] + [free[0]] + live[k..]);
    } else {
      PartitionTakeBoundary(live, free, live[..k] + [free[0]] + live[k..]);
    }
  }

  lemma PartitionTakeListed(live: seq<nat>, free: seq<nat>, live': seq<nat>)
    requires Partition(live, free) && |free| >= 2
    requires multiset(live') == multiset(live) + multiset{free[0]}
    ensures Partition(live', free[1..])
  {
    assert free == [free[0]] + free[1..];
    assert multiset(live + free) == multiset(live) + multiset{free[0]} + multiset(free[1..]);
    assert multiset(live' + free[1..]) == multiset(live') + multiset(free[1..]);
  }

  lemma PartitionTakeBoundary(live: seq<nat>, free: seq<nat>, live': seq<nat>)
    requires Partition(live, free) && |free| == 1
    requires multiset(live') == multiset(live) + multiset{free[0]}
    ensures Partition(live', [free[0] + 1])
  {
    var h := free[0];
    assert free == [h];
    assert Range(h + 1) == Range(h) + [h + 1];
    assert multiset(Range(h + 1)) == multiset(Range(h)) + multiset{h + 1};
    assert multiset(live' + [h + 1]) == multiset(live') + multiset{h + 1};
  }

  lemma InsertCount(s: seq<nat>, k: nat, h: nat)
    requires k <= |s|
    ensures multiset(s[..k] + [h] + s[k..]) == multiset(s) + multiset{h}
  {
    assert s == s[..k] + s[k..];
  }

  /** Freeing a live node pushes it onto the free list. */
  lemma PartitionFree(live: seq<nat>, free: seq<nat>, k: nat)
    requires Partition(live, free) && k < |live|
    ensures Partition(live[..k] + live[k + 1..], [live[k]] + free)
  {
    var live' := live[..k] + live[k + 1..];
    assert multiset(live' + ([live[k]] + free)) == multiset(live + free) by {
      InsertCount(live', k, live[k]);
      assert live'[..k] + [live[k]] + live'[k..] == live;
    }
  }
}
