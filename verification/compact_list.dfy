/** `compact_forward_list<value_limit, max_size>`, stated on the decoded
    arena: a forward list whose nodes live in numbered slots, with a LIFO
    free list that grows lazily.

    Every operation is written as the same sequence of field reads and
    writes as the source (`GetField`/`SetField` are `load_*`/`store_*` on
    the decoded buffer; module PackedList lifts them to the bits). A view is
    valid when the chain from the first-element head (the live nodes) and
    the chain from the free-list head (the free nodes) are disjoint and
    together hold exactly the slots `1..h`, where `h`, the last free node,
    is the high-water slot whose next field is 0. Operations are specified
    against the sequence of values along the live chain. */
module CompactList {
  import opened Bits
  import opened Layout
  import opened Chains

  /** The list invariant. */
  predicate Valid(sh: Shape, w: View)
  {
    Shaped(sh, w) &&
    Walk(w.links, w.links[0], sh.maxSize).Some? &&
    Walk(w.links, w.free, sh.maxSize).Some? &&
    Partition(Walk(w.links, w.links[0], sh.maxSize).value, Walk(w.links, w.free, sh.maxSize).value)
  }

  /** The node indices of the list, front to back (what `++` visits). */
  function LiveNodes(sh: Shape, w: View): (r: seq<nat>)
    requires Valid(sh, w)
    ensures InSlots(r, sh.maxSize)
  {
    WalkLinked(w.links, w.links[0], sh.maxSize);
    Walk(w.links, w.links[0], sh.maxSize).value
  }

  /** The free list, from its head to the high-water slot. */
  function FreeNodes(sh: Shape, w: View): (r: seq<nat>)
    requires Valid(sh, w)
    ensures |r| > 0 && InSlots(r, sh.maxSize)
  {
    WalkLinked(w.links, w.free, sh.maxSize);
    Walk(w.links, w.free, sh.maxSize).value
  }

  /** Every element of `c` is a node index `1..n`. */
  predicate InSlots(c: seq<nat>, n: nat)
  {
    forall i :: 0 <= i < |c| ==> 1 <= c[i] <= n
  }

  /** The values held by the nodes `c`, in order. */
  function Values(vals: seq<nat>, c: seq<nat>): (r: seq<nat>)
    requires InSlots(c, |vals|)
    ensures |r| == |c|
  {
    seq(|c|, k requires 0 <= k < |c| => vals[c[k] - 1])
  }

  /** The values of the list, front to back: the abstract sequence. */
  function Elements(sh: Shape, w: View): (r: seq<nat>)
    requires Valid(sh, w)
    ensures |r| == |LiveNodes(sh, w)|
  {
    Expose(sh, w);
    Values(w.vals, LiveNodes(sh, w))
  }

  /** A stored value: the value type is truncated to `value_bits` bits. */
  function Fit(sh: Shape, v: nat): nat
  {
    v % Pow2(sh.ValueBits())
  }

  lemma FitKeepsValues(sh: Shape, v: nat)
    requires sh.Valid() && v < sh.valueLimit
    ensures Fit(sh, v) == v
  {
    WidthsSuffice(sh);
    ModBelow(v, Pow2(sh.ValueBits()));
  }

  // ---------------------------------------------------------------------
  // Facts about valid views

  lemma Expose(sh: Shape, w: View)
    requires Valid(sh, w)
    ensures Linked(w.links, w.links[0], LiveNodes(sh, w))
    ensures Linked(w.links, w.free, FreeNodes(sh, w))
    ensures var l, f := LiveNodes(sh, w), FreeNodes(sh, w);
      Distinct(l) && Distinct(f) && (forall x :: x in l ==> x !in f) &&
      |l| + |f| == f[|f| - 1] && f[|f| - 1] <= sh.maxSize
  {
    WalkLinked(w.links, w.links[0], sh.maxSize);
    WalkLinked(w.links, w.free, sh.maxSize);
    var l, f := LiveNodes(sh, w), FreeNodes(sh, w);
    PartitionFacts(l, f);
    assert f[|f| - 1] in f;
  }

  /** Chains that partition the slots make a valid view with those chains. */
  lemma Establish(sh: Shape, w: View, l: seq<nat>, f: seq<nat>)
    requires Shaped(sh, w)
    requires Linked(w.links, w.links[0], l) && Linked(w.links, w.free, f)
    requires Partition(l, f)
    ensures Valid(sh, w) && LiveNodes(sh, w) == l && FreeNodes(sh, w) == f
  {
    PartitionFacts(l, f);
    assert f[|f| - 1] < |w.links|;
    LinkedWalk(w.links, w.links[0], l, sh.maxSize);
    LinkedWalk(w.links, w.free, f, sh.maxSize);
  }

  /** The values along a chain with `h` inserted at `k`, after `h`'s value
      was set to `v`. */
  lemma ValuesInsert(vals: seq<nat>, c: seq<nat>, k: nat, h: nat, v: nat)
    requires InSlots(c, |vals|) && 1 <= h <= |vals| && h !in c && k <= |c|
    ensures InSlots(c[..k] + [h] + c[k..], |vals|)
    ensures Values(vals[h - 1 := v], c[..k] + [h] + c[k..]) == Values(vals, c)[..k] + [v] + Values(vals, c)[k..]
  {
    var d := c[..k] + [h] + c[k..];
    var vals' := vals[h - 1 := v];
    var e := Values(vals, c);
    var e' := e[..k] + [v] + e[k..];
    forall j | 0 <= j < |d|
      ensures 1 <= d[j] <= |vals| && Values(vals', d)[j] == e'[j]
    {
      if j < k {
        assert d[j] == c[j] && e'[j] == e[j];
        assert c[j] != h;
      } else if j > k {
        assert d[j] == c[j - 1] && e'[j] == e[j - 1];
        assert c[j - 1] != h;
      } else {
        assert d[j] == h && e'[j] == v;
      }
    }
  }

  /** The values along a chain with its `k`-th node removed. */
  lemma ValuesRemove(vals: seq<nat>, c: seq<nat>, k: nat)
    requires InSlots(c, |vals|) && k < |c|
    ensures InSlots(c[..k] + c[k + 1..], |vals|)
    ensures Values(vals, c[..k] + c[k + 1..]) == Values(vals, c)[..k] + Values(vals, c)[k + 1..]
  {
    var d := c[..k] + c[k + 1..];
    assert forall j :: 0 <= j < |d| ==> d[j] == if j < k then c[j] else c[j + 1];
  }

  // ---------------------------------------------------------------------
  // clear

  /** `clear()`: empties the list and resets the arena to a single free
      boundary slot, node 1, whatever the view held before. */
  function Clear(sh: Shape, w: View): (r: View)
    requires Shaped(sh, w)
    ensures Valid(sh, r)
    ensures Elements(sh, r) == [] && FreeNodes(sh, r) == [1]
    ensures r.vals == w.vals
  {
    var w1 := SetField(sh, w, FreeHead, 1);
    var w2 := SetField(sh, w1, FirstHead, 0);
    var r := SetField(sh, w2, Link(1), 0);
    WidthsSuffice(sh);
    assert r.free == 1 && r.links[0] == 0 && r.links[1] == 0;
    assert Linked(r.links, r.free, [1]);
    assert Range(1) == [1];
    Establish(sh, r, [], [1]);
    r
  }

  // ---------------------------------------------------------------------
  // The allocator

  /** `store_in_free_node` stays inside the arena: the free head is a slot
      whose next field names a slot or 0, and when it is the boundary slot
      (next index 0) the slot after it exists as well. */
  predicate CanAllocate(sh: Shape, w: View)
    requires Shaped(sh, w)
  {
    1 <= w.free <= sh.maxSize && w.links[w.free] <= sh.maxSize &&
    (w.links[w.free] != 0 || w.free + 1 <= sh.maxSize)
  }

  /** `store_in_free_node(value)`: takes the free head for `value`; when the
      head was the boundary slot, the slot after it becomes the new boundary. */
  function Allocate(sh: Shape, w: View, value: nat): (r: (View, nat))
    requires Shaped(sh, w) && CanAllocate(sh, w)
    ensures Shaped(sh, r.0) && 1 <= r.1 <= sh.maxSize && r.1 == w.free
    ensures r.0.vals == w.vals[r.1 - 1 := Fit(sh, value)]
    ensures r.0.free == (if w.links[w.free] == 0 then w.free + 1 else w.links[w.free])
    ensures r.0.links == (if w.links[w.free] == 0 then w.links[w.free + 1 := 0] else w.links)
  {
    WidthsSuffice(sh);
    var firstFree := GetField(sh, w, FreeHead);
    var nextFree := GetField(sh, w, Link(firstFree));
    var w1 := if nextFree == 0 then SetField(sh, w, Link(firstFree + 1), 0) else w;
    var w2 := SetField(sh, w1, FreeHead, if nextFree == 0 then firstFree + 1 else nextFree);
    var w3 := SetField(sh, w2, Value(firstFree), value);
    (w3, firstFree)
  }

  /** Allocation needs room for one node more than the list holds: at most
      `max_size - 1` nodes are ever live. */
  predicate HasRoom(sh: Shape, w: View)
    requires Valid(sh, w)
  {
    |Elements(sh, w)| + 2 <= sh.maxSize
  }

  /** In a valid view the allocator stays in bounds exactly when the list
      has room, so `max_size - 1` is the capacity. */
  lemma CapacityIsMaxSizeMinusOne(sh: Shape, w: View)
    requires Valid(sh, w)
    ensures CanAllocate(sh, w) <==> HasRoom(sh, w)
  {
    Expose(sh, w);
    var l, f := LiveNodes(sh, w), FreeNodes(sh, w);
    assert f[0] in f;
    if |f| >= 2 {
      assert f[1] in f;
    }
  }

  /** The allocator returns the current free head (LIFO reuse) and leaves
      the rest of the free list, extended by the next boundary slot when the
      head was the boundary; the new node is in neither chain and the live
      chain's links are untouched. */
  lemma AllocateSpec(sh: Shape, w: View, value: nat)
    requires Valid(sh, w) && HasRoom(sh, w)
    ensures CanAllocate(sh, w)
    ensures var a := Allocate(sh, w, value);
      var l := LiveNodes(sh, w);
      var f := FreeNodes(sh, w);
      a.1 == f[0] && a.1 !in l && a.1 !in NextFree(f) && InSlots(NextFree(f), sh.maxSize) &&
      |a.0.links| == |w.links| && a.0.links[0] == w.links[0] &&
      (forall x :: x in l ==> a.0.links[x] == w.links[x]) &&
      Linked(a.0.links, a.0.free, NextFree(f))
  {
    AllocateNode(sh, w, value);
    AllocateLinks(sh, w, value);
  }

  /** The node handed out is the free head, outside both chains left after
      the allocation. */
  lemma AllocateNode(sh: Shape, w: View, value: nat)
    requires Valid(sh, w) && HasRoom(sh, w)
    ensures CanAllocate(sh, w)
    ensures var a := Allocate(sh, w, value);
      var f := FreeNodes(sh, w);
      a.1 == f[0] && a.1 !in LiveNodes(sh, w) && a.1 !in NextFree(f) && InSlots(NextFree(f), sh.maxSize)
  {
    CapacityIsMaxSizeMinusOne(sh, w);
    Expose(sh, w);
    var l, f := LiveNodes(sh, w), FreeNodes(sh, w);
    assert f[0] in f;
    if |f| < 2 {
      AllocateBoundary(sh, w, Allocate(sh, w, value).0);
    }
  }

  /** After the allocation the live chain's links are as before and the
      free head holds the rest of the free list. */
  lemma AllocateLinks(sh: Shape, w: View, value: nat)
    requires Valid(sh, w) && HasRoom(sh, w)
    ensures CanAllocate(sh, w)
    ensures var a := Allocate(sh, w, value);
      var l := LiveNodes(sh, w);
      |a.0.links| == |w.links| && a.0.links[0] == w.links[0] &&
      (forall x :: x in l ==> a.0.links[x] == w.links[x]) &&
      Linked(a.0.links, a.0.free, NextFree(FreeNodes(sh, w)))
  {
    CapacityIsMaxSizeMinusOne(sh, w);
    Expose(sh, w);
    var f := FreeNodes(sh, w);
    var a := Allocate(sh, w, value);
    if |f| >= 2 {
      LinkedTail(w.links, w.free, f);
    } else {
      AllocateBoundary(sh, w, a.0);
    }
  }

  /** Allocating the boundary slot: the slot after it becomes the only free
      node, and it lies beyond every live node. */
  lemma AllocateBoundary(sh: Shape, w: View, w': View)
    requires Valid(sh, w) && |FreeNodes(sh, w)| == 1 && w.free + 1 <= sh.maxSize
    requires w'.free == w.free + 1 && w'.links == w.links[w.free + 1 := 0]
    ensures w.links[w.free] == 0 && w.free == FreeNodes(sh, w)[0]
    ensures Linked(w'.links, w'.free, [w.free + 1])
    ensures forall x :: x in LiveNodes(sh, w) ==> x < w.free + 1
  {
    Expose(sh, w);
    var l, f := LiveNodes(sh, w), FreeNodes(sh, w);
    PartitionFacts(l, f);
    forall x | x in l
      ensures x < w.free + 1
    {
      assert x in l + f;
    }
  }

  // ---------------------------------------------------------------------
  // Splicing, shared by every insertion and removal

  /** Positions usable with `insert_after`/`erase_after`: index 0 (whose next
      field is the head, so it acts as a position before the first node)
      followed by the nodes front to back. */
  function Positions(sh: Shape, w: View): seq<nat>
    requires Valid(sh, w)
  {
    [0] + LiveNodes(sh, w)
  }

  /** Where `x` first occurs in `s`. */
  function IndexOf(s: seq<nat>, x: nat): (k: nat)
    requires x in s
    ensures k < |s| && s[k] == x
  {
    if s[0] == x then 0 else 1 + IndexOf(s[1..], x)
  }

  lemma PositionsAreBefore(sh: Shape, w: View, k: nat)
    requires Valid(sh, w) && k <= |LiveNodes(sh, w)|
    ensures Positions(sh, w)[k] == Before(LiveNodes(sh, w), k)
    ensures w.links[Before(LiveNodes(sh, w), k)] == if k < |LiveNodes(sh, w)| then LiveNodes(sh, w)[k] else 0
  {
    Expose(sh, w);
    var l := LiveNodes(sh, w);
    if k > 0 {
      assert l[k - 1] in l;
    }
  }

  /** The list index a position names: the node at that index follows the
      position. */
  function PositionIndex(sh: Shape, w: View, position: nat): (k: nat)
    requires Valid(sh, w) && position in Positions(sh, w)
    ensures k <= |LiveNodes(sh, w)| && Before(LiveNodes(sh, w), k) == position
  {
    var k := IndexOf(Positions(sh, w), position);
    PositionsAreBefore(sh, w, k);
    k
  }

  /** The next field of the `k`-th node holds the node after it. */
  lemma NextOf(sh: Shape, w: View, k: nat)
    requires Valid(sh, w) && k < |LiveNodes(sh, w)|
    ensures w.links[LiveNodes(sh, w)[k]] == Succ(LiveNodes(sh, w), k)
  {
    PositionsAreBefore(sh, w, k + 1);
  }

  /** The heads: index 0's next field starts the list, the free head starts
      the free list. */
  lemma HeadFacts(sh: Shape, w: View)
    requires Valid(sh, w)
    ensures var l := LiveNodes(sh, w);
      w.links[0] == (if l == [] then 0 else l[0]) && w.free == FreeNodes(sh, w)[0]
  {
    Expose(sh, w);
  }

  /** Linking the free head in after position `k` makes it the `k`-th node
      and leaves the rest of the free list. */
  lemma InsertChains(sh: Shape, w: View, w3: View, k: nat)
    requires Valid(sh, w) && Shaped(sh, w3)
    requires var l := LiveNodes(sh, w); var f := FreeNodes(sh, w);
      k <= |l| && |l| + 2 <= sh.maxSize &&
      Linked(w3.links, w3.free, NextFree(f)) &&
      w3.links[Before(l, k)] == f[0] && w3.links[f[0]] == (if k < |l| then l[k] else 0) &&
      (forall x :: x in l && x != Before(l, k) ==> w3.links[x] == w.links[x]) &&
      (k > 0 ==> w3.links[0] == w.links[0])
    ensures Valid(sh, w3)
    ensures var l := LiveNodes(sh, w); var f := FreeNodes(sh, w);
      f[0] !in l && LiveNodes(sh, w3) == l[..k] + [f[0]] + l[k..] && FreeNodes(sh, w3) == NextFree(f)
  {
    Expose(sh, w);
    var l, f := LiveNodes(sh, w), FreeNodes(sh, w);
    var h := f[0];
    assert h in f;
    InsertSplice(w.links, w3.links, l, k, h);
    PartitionAlloc(l, f, k);
    Establish(sh, w3, l[..k] + [h] + l[k..], NextFree(f));
  }

  /** Unlinking the `k`-th node and making it the free head. */
  lemma RemoveChains(sh: Shape, w: View, w3: View, k: nat)
    requires Valid(sh, w) && Shaped(sh, w3)
    requires var l := LiveNodes(sh, w); var f := FreeNodes(sh, w);
      k < |l| && w3.free == l[k] && w3.links[l[k]] == w.free &&
      w3.links[Before(l, k)] == Succ(l, k) &&
      (forall x :: x in l && x != Before(l, k) && x != l[k] ==> w3.links[x] == w.links[x]) &&
      (forall x :: x in f ==> w3.links[x] == w.links[x]) &&
      (k > 0 ==> w3.links[0] == w.links[0])
    ensures Valid(sh, w3)
    ensures var l := LiveNodes(sh, w); var f := FreeNodes(sh, w);
      LiveNodes(sh, w3) == l[..k] + l[k + 1..] && FreeNodes(sh, w3) == [l[k]] + f
  {
    Expose(sh, w);
    var l, f := LiveNodes(sh, w), FreeNodes(sh, w);
    var x := l[k];
    assert x in l;
    RemoveSplice(w.links, w3.links, l, k);
    LinkedFrame(w.links, w3.links, w.free, f);
    LinkedCons(w3.links, x, f);
    PartitionFree(l, f, k);
    Establish(sh, w3, l[..k] + l[k + 1..], [x] + f);
  }

  /** The whole of an insertion at list position `k`: allocate the free
      head, point the next field before position `k` at it and its own next
      field at the node that was at `k`. */
  lemma InsertSteps(sh: Shape, w: View, value: nat, k: nat, r: View)
    requires Valid(sh, w) && HasRoom(sh, w) && CanAllocate(sh, w) && k <= |LiveNodes(sh, w)|
    requires var a := Allocate(sh, w, value); var l := LiveNodes(sh, w);
      Shaped(sh, r) && r.free == a.0.free && r.vals == a.0.vals &&
      r.links == a.0.links[Before(l, k) := a.1][a.1 := if k < |l| then l[k] else 0]
    ensures Valid(sh, r)
    ensures var l := LiveNodes(sh, w); var f := FreeNodes(sh, w);
      f[0] !in l && LiveNodes(sh, r) == l[..k] + [f[0]] + l[k..] && FreeNodes(sh, r) == NextFree(f)
  {
    var l, f := LiveNodes(sh, w), FreeNodes(sh, w);
    var a := Allocate(sh, w, value);
    var h := a.1;
    var p := Before(l, k);
    assert h == f[0] && h !in l && h !in NextFree(f) && |l| + 2 <= sh.maxSize && p != h &&
      (p == 0 || (p in l && p !in NextFree(f))) && (k > 0 ==> p != 0) &&
      (forall x :: x in l ==> a.0.links[x] == w.links[x]) && a.0.links[0] == w.links[0] &&
      Linked(a.0.links, a.0.free, NextFree(f)) by {
      AllocateSpec(sh, w, value);
      AllocateKeepsApart(sh, w, value);
      if k > 0 {
        assert l[k - 1] in l;
      }
    }
    assert Linked(r.links, r.free, NextFree(f)) by {
      LinkedUpdate(a.0.links, a.0.free, NextFree(f), p, h);
      LinkedUpdate(a.0.links[p := h], a.0.free, NextFree(f), h, if k < |l| then l[k] else 0);
    }
    forall x | x in l && x != p
      ensures r.links[x] == w.links[x]
    {
      assert x != h;
    }
    assert r.links[p] == h && r.links[h] == (if k < |l| then l[k] else 0);
    assert k > 0 ==> r.links[0] == w.links[0];
    InsertChains(sh, w, r, k);
  }

  /** The slots left free by an allocation are none of the live nodes. */
  lemma AllocateKeepsApart(sh: Shape, w: View, value: nat)
    requires Valid(sh, w) && HasRoom(sh, w)
    ensures forall x :: x in LiveNodes(sh, w) ==> x !in NextFree(FreeNodes(sh, w))
  {
    Expose(sh, w);
    var l, f := LiveNodes(sh, w), FreeNodes(sh, w);
    if |f| == 1 {
      CapacityIsMaxSizeMinusOne(sh, w);
      var a := Allocate(sh, w, value);
      AllocateBoundary(sh, w, a.0);
    } else {
      forall x | x in l
        ensures x !in f[1..]
      {
        assert x !in f;
      }
    }
  }

  /** The whole of a removal at list position `k`: the `k`-th node's next
      field takes the free head, the node becomes the free head, and the
      next field before it skips it. */
  lemma RemoveSteps(sh: Shape, w: View, k: nat, r: View)
    requires Valid(sh, w) && k < |LiveNodes(sh, w)|
    requires var l := LiveNodes(sh, w);
      Shaped(sh, r) && r.free == l[k] && r.vals == w.vals &&
      r.links == w.links[l[k] := w.free][Before(l, k) := Succ(l, k)]
    ensures Valid(sh, r)
    ensures var l := LiveNodes(sh, w); var f := FreeNodes(sh, w);
      LiveNodes(sh, r) == l[..k] + l[k + 1..] && FreeNodes(sh, r) == [l[k]] + f
  {
    var l, f := LiveNodes(sh, w), FreeNodes(sh, w);
    var p := Before(l, k);
    assert p != l[k] && (k > 0 ==> p != 0) && (forall y :: y in f ==> y != p && y != l[k]) by {
      Expose(sh, w);
      assert l[k] in l;
      if k > 0 {
        assert l[k - 1] in l;
      }
      forall y | y in f
        ensures y != p && y != l[k]
      {
        var i :| 0 <= i < |f| && f[i] == y;
      }
    }
    RemoveChains(sh, w, r, k);
  }

  /** The values seen along the list after node `h`, holding `v`, was linked
      in at position `k`. */
  lemma ElementsInsert(sh: Shape, w: View, w3: View, k: nat, h: nat, v: nat)
    requires Valid(sh, w) && Valid(sh, w3)
    requires 1 <= h <= sh.maxSize && h !in LiveNodes(sh, w) && k <= |LiveNodes(sh, w)|
    requires w3.vals == w.vals[h - 1 := v]
    requires LiveNodes(sh, w3) == LiveNodes(sh, w)[..k] + [h] + LiveNodes(sh, w)[k..]
    ensures Elements(sh, w3) == Elements(sh, w)[..k] + [v] + Elements(sh, w)[k..]
  {
    ValuesInsert(w.vals, LiveNodes(sh, w), k, h, v);
  }

  /** The values seen along the list after its `k`-th node was unlinked. */
  lemma ElementsRemove(sh: Shape, w: View, w3: View, k: nat)
    requires Valid(sh, w) && Valid(sh, w3)
    requires k < |LiveNodes(sh, w)| && w3.vals == w.vals
    requires LiveNodes(sh, w3) == LiveNodes(sh, w)[..k] + LiveNodes(sh, w)[k + 1..]
    ensures Elements(sh, w3) == Elements(sh, w)[..k] + Elements(sh, w)[k + 1..]
  {
    ValuesRemove(w.vals, LiveNodes(sh, w), k);
  }

  // ---------------------------------------------------------------------
  // The source's field reads and writes, one function per operation. Each
  // states the fields it leaves written, for a view whose loaded indices
  // name slots (so that no store truncates).

  /** The loads and stores of `push_front`. */
  function PushFrontCode(sh: Shape, w: View, value: nat): (r: View)
    requires Shaped(sh, w) && CanAllocate(sh, w) && w.links[0] <= sh.maxSize
    ensures var a := Allocate(sh, w, value);
      r.free == a.0.free && r.vals == a.0.vals && r.links == a.0.links[a.1 := w.links[0]][0 := a.1]
  {
    WidthsSuffice(sh);
    var a := Allocate(sh, w, value);
    var newElement := a.1;
    var w2 := SetField(sh, a.0, Link(newElement), GetField(sh, a.0, FirstHead));
    SetField(sh, w2, FirstHead, newElement)
  }

  /** The loads and stores of `pop_front`. */
  function PopFrontCode(sh: Shape, w: View): (r: View)
    requires Shaped(sh, w) && w.free <= sh.maxSize && w.links[0] <= sh.maxSize
    requires w.links[w.links[0]] <= sh.maxSize
    ensures var first := w.links[0];
      r.free == first && r.vals == w.vals && r.links == w.links[0 := w.links[first]][first := w.free]
  {
    WidthsSuffice(sh);
    var firstFree := GetField(sh, w, FreeHead);
    var firstElement := GetField(sh, w, FirstHead);
    var secondElement := GetField(sh, w, Link(firstElement));
    var w1 := SetField(sh, w, FirstHead, secondElement);
    var w2 := SetField(sh, w1, Link(firstElement), firstFree);
    SetField(sh, w2, FreeHead, firstElement)
  }

  /** The loads and stores of `insert_after`; the next index is read after
      the allocation, as in the source. */
  function InsertAfterCode(sh: Shape, w: View, position: nat, value: nat): (r: (View, nat))
    requires Shaped(sh, w) && CanAllocate(sh, w) && position <= sh.maxSize
    requires Allocate(sh, w, value).0.links[position] <= sh.maxSize
    ensures var a := Allocate(sh, w, value);
      r.1 == a.1 && r.0.free == a.0.free && r.0.vals == a.0.vals &&
      r.0.links == a.0.links[position := a.1][a.1 := a.0.links[position]]
  {
    WidthsSuffice(sh);
    var a := Allocate(sh, w, value);
    var newElement := a.1;
    var nextElement := GetField(sh, a.0, Link(position));
    var w2 := SetField(sh, a.0, Link(position), newElement);
    (SetField(sh, w2, Link(newElement), nextElement), newElement)
  }

  /** The loads and stores of `erase_after`. */
  function EraseAfterCode(sh: Shape, w: View, position: nat): (r: (View, nat))
    requires Shaped(sh, w) && w.free <= sh.maxSize && position <= sh.maxSize
    requires w.links[position] <= sh.maxSize && w.links[w.links[position]] <= sh.maxSize
    ensures var next := w.links[position];
      r.1 == w.links[next] && r.0.free == next && r.0.vals == w.vals &&
      r.0.links == w.links[next := w.free][position := w.links[next]]
  {
    WidthsSuffice(sh);
    var nextElement := GetField(sh, w, Link(position));
    var nextNextElement := GetField(sh, w, Link(nextElement));
    var firstFree := GetField(sh, w, FreeHead);
    var w1 := SetField(sh, w, Link(nextElement), firstFree);
    var w2 := SetField(sh, w1, FreeHead, nextElement);
    (SetField(sh, w2, Link(position), nextNextElement), nextNextElement)
  }

  // ---------------------------------------------------------------------
  // The list operations

  /** `push_front(value)`: the allocated node becomes the first. */
  function PushFront(sh: Shape, w: View, value: nat): (r: View)
    requires Valid(sh, w) && HasRoom(sh, w)
    ensures Valid(sh, r)
    ensures var e, l, f := Elements(sh, w), LiveNodes(sh, w), FreeNodes(sh, w);
      Elements(sh, r) == [Fit(sh, value)] + e && LiveNodes(sh, r) == [f[0]] + l &&
      FreeNodes(sh, r) == NextFree(f)
  {
    PushFrontSteps(sh, w, value);
    PushFrontCode(sh, w, value)
  }

  lemma PushFrontSteps(sh: Shape, w: View, value: nat)
    requires Valid(sh, w) && HasRoom(sh, w)
    ensures CanAllocate(sh, w) && w.links[0] <= sh.maxSize
    ensures var r, e, l, f := PushFrontCode(sh, w, value), Elements(sh, w), LiveNodes(sh, w), FreeNodes(sh, w);
      Valid(sh, r) && Elements(sh, r) == [Fit(sh, value)] + e && LiveNodes(sh, r) == [f[0]] + l &&
      FreeNodes(sh, r) == NextFree(f)
  {
    AllocateSpec(sh, w, value);
    HeadFacts(sh, w);
    InsertAfterAt(sh, w, 0, value, 0);
    var a := Allocate(sh, w, value);
    assert PushFrontCode(sh, w, value) == InsertAfterCode(sh, w, 0, value).0 by {
      UpdateCommute(a.0.links, a.1, w.links[0], 0, a.1);
    }
    SpliceEnds(LiveNodes(sh, w), FreeNodes(sh, w)[0]);
    SpliceEnds(Elements(sh, w), Fit(sh, value));
  }

  /** `pop_front()` on a non-empty list: the first node leaves the list and
      becomes the new free head. */
  function PopFront(sh: Shape, w: View): (r: View)
    requires Valid(sh, w) && Elements(sh, w) != []
    ensures Valid(sh, r)
    ensures var e, l := Elements(sh, w), LiveNodes(sh, w);
      Elements(sh, r) == e[1..] && LiveNodes(sh, r) == l[1..] && FreeNodes(sh, r) == [l[0]] + FreeNodes(sh, w)
  {
    PopFrontSteps(sh, w);
    PopFrontCode(sh, w)
  }

  lemma PopFrontSteps(sh: Shape, w: View)
    requires Valid(sh, w) && Elements(sh, w) != []
    ensures w.links[0] != 0 && w.links[0] <= sh.maxSize && w.free <= sh.maxSize && w.links[w.links[0]] <= sh.maxSize
    ensures var r, e, l := PopFrontCode(sh, w), Elements(sh, w), LiveNodes(sh, w);
      Valid(sh, r) &&
      Elements(sh, r) == e[1..] && LiveNodes(sh, r) == l[1..] && FreeNodes(sh, r) == [l[0]] + FreeNodes(sh, w)
  {
    HeadFacts(sh, w);
    NextOf(sh, w, 0);
    EraseAfterAt(sh, w, 0, 0);
    var first := w.links[0];
    assert PopFrontCode(sh, w) == EraseAfterCode(sh, w, 0).0 by {
      UpdateCommute(w.links, first, w.free, 0, w.links[first]);
    }
    SpliceEnds(LiveNodes(sh, w), 0);
    SpliceEnds(Elements(sh, w), 0);
  }

  /** `insert_after(position, value)`: the new node follows `position` and
      the returned index is that node. Position 0, the head's field, makes
      this a push to the front. */
  function InsertAfter(sh: Shape, w: View, position: nat, value: nat): (r: (View, nat))
    requires Valid(sh, w) && HasRoom(sh, w) && position in Positions(sh, w)
    ensures Valid(sh, r.0)
    ensures var k := PositionIndex(sh, w, position);
      Elements(sh, r.0) == Elements(sh, w)[..k] + [Fit(sh, value)] + Elements(sh, w)[k..] &&
      LiveNodes(sh, r.0) == LiveNodes(sh, w)[..k] + [FreeNodes(sh, w)[0]] + LiveNodes(sh, w)[k..]
    ensures r.1 == FreeNodes(sh, w)[0]
    ensures FreeNodes(sh, r.0) == NextFree(FreeNodes(sh, w))
  {
    InsertAfterAt(sh, w, position, value, PositionIndex(sh, w, position));
    InsertAfterCode(sh, w, position, value)
  }

  /** `insert_after` at the position naming list index `k`. */
  lemma InsertAfterAt(sh: Shape, w: View, position: nat, value: nat, k: nat)
    requires Valid(sh, w) && HasRoom(sh, w)
    requires k <= |LiveNodes(sh, w)| && Before(LiveNodes(sh, w), k) == position
    ensures CanAllocate(sh, w) && position <= sh.maxSize
    ensures Allocate(sh, w, value).0.links[position] <= sh.maxSize
    ensures var r, e, l, f := InsertAfterCode(sh, w, position, value), Elements(sh, w), LiveNodes(sh, w), FreeNodes(sh, w);
      Valid(sh, r.0) &&
      Elements(sh, r.0) == e[..k] + [Fit(sh, value)] + e[k..] &&
      LiveNodes(sh, r.0) == l[..k] + [f[0]] + l[k..] &&
      r.1 == f[0] && FreeNodes(sh, r.0) == NextFree(f)
  {
    InsertAfterLinks(sh, w, position, value, k);
    var h := FreeNodes(sh, w)[0];
    var r := InsertAfterCode(sh, w, position, value);
    InsertSteps(sh, w, value, k, r.0);
    ElementsInsert(sh, w, r.0, k, h, Fit(sh, value));
  }

  /** The stores of `insert_after` at list index `k` are the generic
      insertion's: the allocated node goes between index `k - 1` and `k`. */
  lemma InsertAfterLinks(sh: Shape, w: View, position: nat, value: nat, k: nat)
    requires Valid(sh, w) && HasRoom(sh, w)
    requires k <= |LiveNodes(sh, w)| && Before(LiveNodes(sh, w), k) == position
    ensures CanAllocate(sh, w) && position <= sh.maxSize
    ensures Allocate(sh, w, value).0.links[position] <= sh.maxSize
    ensures var a, r, l := Allocate(sh, w, value), InsertAfterCode(sh, w, position, value), LiveNodes(sh, w);
      r.1 == a.1 == FreeNodes(sh, w)[0] &&
      r.0.free == a.0.free && r.0.vals == a.0.vals && r.0.vals == w.vals[a.1 - 1 := Fit(sh, value)] &&
      r.0.links == a.0.links[Before(l, k) := a.1][a.1 := if k < |l| then l[k] else 0]
  {
    var l := LiveNodes(sh, w);
    CapacityIsMaxSizeMinusOne(sh, w);
    var a := Allocate(sh, w, value);
    AllocateSpec(sh, w, value);
    PositionsAreBefore(sh, w, k);
    if k > 0 {
      assert l[k - 1] in l;
    }
  }

  /** `erase_after(position)` for a position that has a successor: that
      successor leaves the list and becomes the free head; the returned
      index is the node after it (0 for the end). */
  function EraseAfter(sh: Shape, w: View, position: nat): (r: (View, nat))
    requires Valid(sh, w) && position in Positions(sh, w)
    requires PositionIndex(sh, w, position) < |Elements(sh, w)|
    ensures Valid(sh, r.0)
    ensures var k, e, l := PositionIndex(sh, w, position), Elements(sh, w), LiveNodes(sh, w);
      Elements(sh, r.0) == e[..k] + e[k + 1..] &&
      LiveNodes(sh, r.0) == l[..k] + l[k + 1..] &&
      FreeNodes(sh, r.0) == [l[k]] + FreeNodes(sh, w) &&
      r.1 == Succ(l, k)
  {
    EraseAfterAt(sh, w, position, PositionIndex(sh, w, position));
    EraseAfterCode(sh, w, position)
  }

  /** `erase_after` at the position naming list index `k`. */
  lemma EraseAfterAt(sh: Shape, w: View, position: nat, k: nat)
    requires Valid(sh, w) && k < |LiveNodes(sh, w)| && Before(LiveNodes(sh, w), k) == position
    ensures w.free <= sh.maxSize && position <= sh.maxSize &&
      w.links[position] <= sh.maxSize && w.links[w.links[position]] <= sh.maxSize
    ensures var r := EraseAfterCode(sh, w, position);
      Valid(sh, r.0) &&
      Elements(sh, r.0) == Elements(sh, w)[..k] + Elements(sh, w)[k + 1..] &&
      LiveNodes(sh, r.0) == LiveNodes(sh, w)[..k] + LiveNodes(sh, w)[k + 1..] &&
      FreeNodes(sh, r.0) == [LiveNodes(sh, w)[k]] + FreeNodes(sh, w) &&
      r.1 == Succ(LiveNodes(sh, w), k)
  {
    HeadFacts(sh, w);
    PositionsAreBefore(sh, w, k);
    NextOf(sh, w, k);
    var r := EraseAfterCode(sh, w, position);
    RemoveSteps(sh, w, k, r.0);
    ElementsRemove(sh, w, r.0, k);
  }

  /** The stores `push_back` leaves behind append the allocated node. */
  lemma PushBackAt(sh: Shape, w: View, value: nat, r: View)
    requires Valid(sh, w) && HasRoom(sh, w) && CanAllocate(sh, w)
    requires var a := Allocate(sh, w, value); var l := LiveNodes(sh, w);
      Shaped(sh, r) && r.free == a.0.free && r.vals == a.0.vals &&
      r.links == a.0.links[a.1 := 0][Before(l, |l|) := a.1]
    ensures Valid(sh, r)
    ensures Elements(sh, r) == Elements(sh, w) + [Fit(sh, value)]
    ensures LiveNodes(sh, r) == LiveNodes(sh, w) + [FreeNodes(sh, w)[0]]
    ensures FreeNodes(sh, r) == NextFree(FreeNodes(sh, w))
  {
    var l := LiveNodes(sh, w);
    var a := Allocate(sh, w, value);
    var h := FreeNodes(sh, w)[0];
    assert a.1 == h && r.vals == w.vals[h - 1 := Fit(sh, value)] && Before(l, |l|) != a.1 by {
      AllocateSpec(sh, w, value);
      if l != [] {
        assert l[|l| - 1] in l;
      }
    }
    UpdateCommute(a.0.links, a.1, 0, Before(l, |l|), a.1);
    InsertSteps(sh, w, value, |l|, r);
    ElementsInsert(sh, w, r, |l|, h, Fit(sh, value));
    SpliceEnds(l, h);
    SpliceEnds(Elements(sh, w), Fit(sh, value));
  }

  /** After the allocation, and with the new node's next field cleared, the
      list's chain and its last node are as before; the first-element head
      is unchanged. */
  lemma LastLinked(sh: Shape, w: View, value: nat)
    requires Valid(sh, w) && HasRoom(sh, w) && CanAllocate(sh, w)
    ensures var a := Allocate(sh, w, value); var l := LiveNodes(sh, w);
      a.1 < |a.0.links| && a.0.links[a.1 := 0][0] == w.links[0] &&
      w.links[0] == (if l == [] then 0 else l[0]) &&
      Linked(a.0.links[a.1 := 0], w.links[0], l) &&
      Before(l, |l|) == (if l == [] then 0 else l[|l| - 1]) &&
      (l != [] ==> 1 <= l[|l| - 1] <= sh.maxSize)
  {
    AllocateSpec(sh, w, value);
    Expose(sh, w);
    var l := LiveNodes(sh, w);
    var a := Allocate(sh, w, value);
    LinkedFrame(w.links, a.0.links, w.links[0], l);
    LinkedUpdate(a.0.links, w.links[0], l, a.1, 0);
  }

  // ---------------------------------------------------------------------
  // Consequences of the layout

  /** `insert_after` at index 0 does exactly what `push_front` does, because
      index 0's next field is the first-element head. */
  lemma InsertAfterZeroIsPushFront(sh: Shape, w: View, value: nat)
    requires Valid(sh, w) && HasRoom(sh, w)
    ensures 0 in Positions(sh, w) && PositionIndex(sh, w, 0) == 0
    ensures InsertAfter(sh, w, 0, value).0 == PushFront(sh, w, value)
  {
    ZeroIsFront(sh, w);
    AllocateSpec(sh, w, value);
    HeadFacts(sh, w);
    var a := Allocate(sh, w, value);
    UpdateCommute(a.0.links, 0, a.1, a.1, w.links[0]);
  }

  /** `erase_after` at index 0 does exactly what `pop_front` does. */
  lemma EraseAfterZeroIsPopFront(sh: Shape, w: View)
    requires Valid(sh, w) && Elements(sh, w) != []
    ensures 0 in Positions(sh, w) && PositionIndex(sh, w, 0) == 0
    ensures EraseAfter(sh, w, 0).0 == PopFront(sh, w)
  {
    ZeroIsFront(sh, w);
    HeadFacts(sh, w);
    NextOf(sh, w, 0);
    var first := w.links[0];
    UpdateCommute(w.links, first, w.free, 0, w.links[first]);
  }

  /** Position 0 names the front of the list. */
  lemma ZeroIsFront(sh: Shape, w: View)
    requires Valid(sh, w)
    ensures 0 in Positions(sh, w) && PositionIndex(sh, w, 0) == 0
  {
    assert Positions(sh, w)[0] == 0;
  }

  /** A node freed by `pop_front` is the very next one `push_front` reuses,
      and the free list is as it was. */
  lemma PopThenPushReusesNode(sh: Shape, w: View, value: nat)
    requires Valid(sh, w) && Elements(sh, w) != []
    ensures Valid(sh, PopFront(sh, w)) && HasRoom(sh, PopFront(sh, w))
    ensures var r := PushFront(sh, PopFront(sh, w), value);
      LiveNodes(sh, r) == LiveNodes(sh, w) &&
      Elements(sh, r) == [Fit(sh, value)] + Elements(sh, w)[1..] &&
      FreeNodes(sh, r) == FreeNodes(sh, w)
  {
    Expose(sh, w);
    var p := PopFront(sh, w);
    var l := LiveNodes(sh, w);
    var f := FreeNodes(sh, w);
    assert FreeNodes(sh, p) == [l[0]] + f;
    assert l == [l[0]] + l[1..];
  }
}
